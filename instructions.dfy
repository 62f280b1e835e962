/** The value model of the IR: parameters, constants and instructions.

    The source compares values by object address. Here every value carries an
    `Ident`: parameters and constants are numbered by their position in the
    owning function, instructions receive the identity their builder chose, and
    the values the optimisation passes allocate derive theirs from the
    instruction they replace. Two values are "the same object" exactly when
    their identities are equal. */
module Instructions {

  datatype Option<T> = None | Some(value: T)

  /** The instruction kinds. `And`, `Shl` and `Shr` are used by both
      optimisation passes and belong to the catalogue as well. */
  datatype InstrKind = Add | Mul | Sub | Jump | CondJump | Return | Param | Cmp | Phi | And | Shl | Shr

  datatype ValueKind = ParameterKind | ConstantKind | InstructionKind

  /** The relational operators of `Cmp`, in declaration order. */
  datatype CmpOp = Eq | Ne | Lt | Le | Gt | Ge

  const MinInt32: int := -0x8000_0000
  const MaxInt32: int := 0x7FFF_FFFF

  /** The source's `int`: a 32-bit two's-complement integer. */
  type Int32 = x: int | MinInt32 <= x <= MaxInt32

  /** How a pass came to allocate a new value. */
  datatype Creation = FoldedConstant | PeepholeConstant | ShiftAmount | ShiftInstr | Wrapper

  /** Object identity. */
  datatype Ident =
    | NullId
    | ParamNo(k: nat)
    | ConstNo(k: nat)
    | InstrNo(n: nat)
    | Made(from: Ident, how: Creation)

  /** A value reference; `Null` is the null pointer. */
  datatype Value =
    | Null
    | Parameter(pid: Ident, name: string)
    | Constant(cid: Ident, value: Int32, name: string)
    | Inst(instr: Instruction)

  /** An instruction: identity, kind, ordered operand list, and the fields that
      only some instruction classes have. */
  datatype Instruction = Instruction(id: Ident, kind: InstrKind, operands: seq<Value>, shape: Shape)

  /** The per-class payload. Block references are indices into the owning
      function's block list; `None` stands for a null pointer. */
  datatype Shape =
    | BinaryShape
    | CmpShape(cmpOp: CmpOp)
    | ReturnShape(retVal: Value)
    | JumpShape(targetName: string, target: Option<nat>, parent: Option<nat>)
    | CondJumpShape(condition: string, trueName: string, falseName: string,
                    trueTarget: Option<nat>, falseTarget: Option<nat>, parent: Option<nat>)
    | PhiShape(incoming: seq<Incoming>)
    | WrapperShape(constant: Value)

  /** One `(predecessor, value)` pair of a phi; either side may be null. */
  datatype Incoming = Incoming(pred: Option<nat>, val: Value)

  /** The kind tag every value reports. */
  function ValueKindOf(v: Value): (k: ValueKind)
    requires !v.Null?
    ensures k == ParameterKind <==> v.Parameter?
    ensures k == ConstantKind <==> v.Constant?
    ensures k == InstructionKind <==> v.Inst?
  {
    match v
    case Parameter(_, _) => ParameterKind
    case Constant(_, _, _) => ConstantKind
    case Inst(_) => InstructionKind
  }

  function Identity(v: Value): Ident {
    match v
    case Null => NullId
    case Parameter(id, _) => id
    case Constant(id, _, _) => id
    case Inst(i) => i.id
  }

  /** Pointer equality of the source. */
  predicate SameValue(a: Value, b: Value) {
    Identity(a) == Identity(b)
  }

  /** The general instruction constructor: the kind and operand list given are
      exactly what `getKind` and `getOperands` report. */
  function NewInstruction(id: Ident, kind: InstrKind, ops: seq<Value>, shape: Shape): (r: Instruction)
    ensures r.kind == kind && r.operands == ops && r.id == id
    ensures ValueKindOf(Inst(r)) == InstructionKind && ValueKindOf(Inst(r)) != ConstantKind
  {
    Instruction(id, kind, ops, shape)
  }

  /** A constant built from `(v, n)` reports value `v` and name `n`. */
  function NewConstant(id: Ident, v: Int32, n: string): (c: Value)
    ensures c.Constant? && c.value == v && c.name == n
    ensures ValueKindOf(c) == ConstantKind && ValueKindOf(c) != InstructionKind
  {
    Constant(id, v, n)
  }

  function NewParameter(id: Ident, n: string): (p: Value)
    ensures p.Parameter? && p.name == n && ValueKindOf(p) == ParameterKind
  {
    Parameter(id, n)
  }

  /** A binary operation in the sense of the source's `BinaryOp` class. */
  predicate IsBinaryOp(i: Instruction) {
    i.shape.BinaryShape? && |i.operands| == 2
  }

  /** Sizes of values viewed as expression trees; an operand that refers to an
      instruction is strictly smaller than that instruction. */
  function ValueSize(v: Value): nat
    decreases v
  {
    match v
    case Inst(i) => 1 + OperandsSize(i.operands)
    case _ => 1
  }

  function OperandsSize(ops: seq<Value>): nat
    decreases ops
  {
    if ops == [] then 0 else ValueSize(ops[0]) + OperandsSize(ops[1..])
  }

  lemma {:induction false} OperandSmaller(ops: seq<Value>, k: nat)
    requires k < |ops|
    ensures ValueSize(ops[k]) <= OperandsSize(ops)
    decreases ops
  {
    if k > 0 {
      OperandSmaller(ops[1..], k - 1);
    }
  }
}
