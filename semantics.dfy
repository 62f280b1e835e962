/** What a value denotes when the program runs: the reference meaning both
    optimisation passes must preserve. Parameters take their values from an
    environment; `None` stands for "no defined 32-bit result" (a null value,
    a shift by an amount C++ leaves undefined, or an instruction that does not
    compute an integer). */
module Semantics {
  import opened Instructions
  import opened Machine32

  /** The result of a two-operand instruction of kind `kind` on `a` and `b`. */
  function Apply(kind: InstrKind, a: Int32, b: Int32): Option<Int32> {
    match kind
    case Add => Some(Wrap(a + b))
    case Sub => Some(Wrap(a - b))
    case Mul => Some(MulWrap(a, b))
    case And => Some(AndBits(a, b))
    case Shl => if 0 <= b < 32 then Some(ShlWrap(a, b)) else None
    case Shr => if 0 <= b < 32 then Some(ShrLogical(a, b)) else None
    case _ => None
  }

  function Eval(v: Value, env: Ident -> Int32): Option<Int32>
    decreases v
  {
    match v
    case Null => None
    case Parameter(id, _) => Some(env(id))
    case Constant(_, c, _) => Some(c)
    case Inst(i) => EvalInstr(i, env)
  }

  /** A constant wrapper denotes its constant; a binary operation applies its
      kind to the values of its two operands. */
  function EvalInstr(i: Instruction, env: Ident -> Int32): Option<Int32>
    decreases i
  {
    if i.shape.WrapperShape? then Eval(i.shape.constant, env)
    else if IsBinaryOp(i) then
      var a := Eval(i.operands[0], env);
      var b := Eval(i.operands[1], env);
      if a.Some? && b.Some? then Apply(i.kind, a.value, b.value) else None
    else None
  }

  /** Two values that denote the same in every environment. */
  ghost predicate Equivalent(v: Value, w: Value) {
    forall env :: Eval(v, env) == Eval(w, env)
  }

  /** `w` may stand in for `v`: wherever `v` has a defined result, `w` has the
      same one. */
  ghost predicate Refines(v: Value, w: Value) {
    forall env :: Eval(v, env).Some? ==> Eval(w, env) == Eval(v, env)
  }
}
