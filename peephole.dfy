/** The peephole optimiser: algebraic simplification of single `Mul`, `And`
    and `Shr` instructions. A rewrite overwrites the instruction's slot in
    its block with the replacement value (wrapped when it is not an
    instruction), and the scan of the block then resumes. */
module Peephole {
  import opened Instructions
  import opened BasicBlocks
  import opened Functions
  import opened BinOps
  import opened Machine32
  import opened Semantics
  import CF = ConstantFolding

  /** `isPowerOfTwo`: positive, and clearing the lowest set bit leaves 0. */
  predicate IsPowerOfTwo(x: Int32) {
    x > 0 && AndBits(x, x - 1) == 0
  }

  /** `isPowerOfTwo(x)` holds exactly for the powers of two that fit in an
      `int`. */
  lemma PowerOfTwoExactly(x: Int32)
    ensures IsPowerOfTwo(x) <==> exists k: nat :: k < 31 && Pow2(k) == x
  {
    if x > 0 {
      assert AndBits(x, x - 1) == Wrap(AndNat(x, x - 1));
      AndNatBelow(x, x - 1);
      assert Wrap(AndNat(x, x - 1)) == AndNat(x, x - 1);
      if AndNat(x, x - 1) == 0 {
        var k := PowerFromAnd(x);
        Pow2Of31();
        if k >= 31 {
          if k > 31 {
            Pow2Increasing(31, k);
          }
          assert false;
        }
      }
      forall k: nat | k < 31 && Pow2(k) == x
        ensures IsPowerOfTwo(x)
      {
        AndNatPowerBelow(k);
      }
    }
  }

  /** A power of two and its predecessor have no bit in common. */
  lemma {:induction false} AndNatPowerBelow(k: nat)
    ensures AndNat(Pow2(k), Pow2(k) - 1) == 0
  {
    if k > 0 {
      var x := Pow2(k);
      assert x == 2 * Pow2(k - 1);
      assert x / 2 == Pow2(k - 1) && x % 2 == 0;
      assert (x - 1) / 2 == Pow2(k - 1) - 1;
      AndNatPowerBelow(k - 1);
    }
  }

  /** A positive value sharing no bit with its predecessor is a power of two. */
  lemma {:induction false} PowerFromAnd(x: nat) returns (k: nat)
    requires x > 0 && AndNat(x, x - 1) == 0
    ensures Pow2(k) == x
    decreases x
  {
    if x == 1 {
      k := 0;
    } else if x % 2 == 1 {
      AndNatSelf(x / 2);
      assert false;
    } else {
      assert (x - 1) / 2 == x / 2 - 1 && (x - 1) % 2 == 1;
      var j := PowerFromAnd(x / 2);
      k := j + 1;
    }
  }

  /** The position of the highest set bit of a positive value; 0 otherwise. */
  function FloorLog2(x: int): nat
    decreases x
  {
    if x <= 1 then 0 else 1 + FloorLog2(x / 2)
  }

  /** `FloorLog2(x)` is the `k` with `2^k <= x < 2^(k+1)`. */
  lemma {:induction false} FloorLog2Range(x: int)
    ensures x >= 1 ==> Pow2(FloorLog2(x)) <= x < Pow2(FloorLog2(x) + 1)
    decreases x
  {
    if x >= 2 {
      FloorLog2Range(x / 2);
      var r := FloorLog2(x / 2);
      assert Pow2(r + 1) == 2 * Pow2(r);
      assert Pow2(r + 2) == 2 * Pow2(r + 1);
    }
  }

  /** Besides the range above: for an `int`, `FloorLog2` is at most 30, and
      for a power of two it is the exponent. */
  lemma FloorLog2Bounds(x: int)
    ensures x >= 1 ==> Pow2(FloorLog2(x)) <= x < Pow2(FloorLog2(x) + 1)
    ensures x <= MaxInt32 ==> FloorLog2(x) <= 30
    ensures x >= 1 && (exists k: nat :: Pow2(k) == x) ==> Pow2(FloorLog2(x)) == x
  {
    FloorLog2Range(x);
    var r := FloorLog2(x);
    if x <= MaxInt32 && r > 30 {
      Pow2Of31();
      assert false;
    }
    if x >= 1 && exists k: nat :: Pow2(k) == x {
      var k: nat :| Pow2(k) == x;
      if k < r {
        Pow2Increasing(k, r);
      } else if r + 1 < k {
        Pow2Increasing(r + 1, k);
      }
      assert k == r;
    }
  }

  /** `log2`: halves a copy of `x` until it is at most 1, counting the
      halvings. */
  method Log2(x: Int32) returns (r: Int32)
    ensures r == FloorLog2(x)
    ensures x >= 1 ==> Pow2(r) <= x < Pow2(r + 1)
    ensures IsPowerOfTwo(x) ==> Pow2(r) == x
  {
    FloorLog2Bounds(x);
    var y := x;
    r := 0;
    while y > 1
      invariant 0 <= r && r + FloorLog2(y) == FloorLog2(x)
      decreases y
    {
      y := y / 2;
      r := r + 1;
    }
    PowerOfTwoExactly(x);
  }

  /** `replaceWithConstant(op, c)`: a new constant named by its decimal value. */
  function ConstantFor(op: Instruction, c: Int32): Value {
    Constant(Made(op.id, PeepholeConstant), c, DecimalString(c))
  }

  /** The `Shl(x, k)` the multiplication rules build, with a new constant `k`. */
  function ShlFor(op: Instruction, x: Value, k: Int32): Value {
    Inst(BinaryOp(Made(op.id, ShiftInstr), Shl, x, Constant(Made(op.id, ShiftAmount), k, DecimalString(k))))
  }

  /** The multiplication rules, first match wins: a zero operand gives 0, a
      unit operand gives the other operand, and a power-of-two right, then
      left, operand gives a left shift of the other by its exponent. */
  function MulRule(mul: Instruction): (r: Option<Value>)
    requires IsBinaryOp(mul)
    ensures r.Some? ==> mul.kind == Mul
    ensures r.Some? ==> || r.value == ConstantFor(mul, 0)
                        || r.value in mul.operands
                        || exists x, k :: x in mul.operands && 0 <= k <= 30 && r.value == ShlFor(mul, x, k)
  {
    var lhs, rhs := mul.operands[0], mul.operands[1];
    if mul.kind != Mul then None
    else if lhs.Constant? && lhs.value == 0 then Some(ConstantFor(mul, 0))
    else if rhs.Constant? && rhs.value == 0 then Some(ConstantFor(mul, 0))
    else if lhs.Constant? && lhs.value == 1 then Some(rhs)
    else if rhs.Constant? && rhs.value == 1 then Some(lhs)
    else if rhs.Constant? && IsPowerOfTwo(rhs.value) then
      FloorLog2Bounds(rhs.value);
      Some(ShlFor(mul, lhs, FloorLog2(rhs.value)))
    else if lhs.Constant? && IsPowerOfTwo(lhs.value) then
      FloorLog2Bounds(lhs.value);
      Some(ShlFor(mul, rhs, FloorLog2(lhs.value)))
    else None
  }

  /** The `and` rules, first match wins: a zero operand gives 0, an all-ones
      operand gives the other operand, and two identical operands give that
      operand. */
  function AndRule(op: Instruction): (r: Option<Value>)
    requires IsBinaryOp(op)
    ensures r.Some? ==> op.kind == And && (r.value == ConstantFor(op, 0) || r.value in op.operands)
  {
    var lhs, rhs := op.operands[0], op.operands[1];
    if op.kind != And then None
    else if lhs.Constant? && lhs.value == 0 then Some(ConstantFor(op, 0))
    else if rhs.Constant? && rhs.value == 0 then Some(ConstantFor(op, 0))
    else if lhs.Constant? && lhs.value == -1 then Some(rhs)
    else if rhs.Constant? && rhs.value == -1 then Some(lhs)
    else if SameValue(lhs, rhs) then Some(lhs)
    else None
  }

  /** The right-shift rules, only for a constant amount: 0 gives the shifted
      operand, 32 or more gives 0, and a shifted constant 0 gives 0. */
  function ShrRule(shr: Instruction): (r: Option<Value>)
    requires IsBinaryOp(shr)
    ensures r.Some? ==> shr.kind == Shr && shr.operands[1].Constant?
    ensures r.Some? ==> r.value == ConstantFor(shr, 0) || r.value == shr.operands[0]
  {
    var lhs, amount := shr.operands[0], shr.operands[1];
    if shr.kind != Shr || !amount.Constant? then None
    else if amount.value == 0 then Some(lhs)
    else if amount.value >= 32 then Some(ConstantFor(shr, 0))
    else if lhs.Constant? && lhs.value == 0 then Some(ConstantFor(shr, 0))
    else None
  }

  /** The rule sets tried in the order `optimizeBlock` tries them. Each
      set applies to one kind only, so the order decides nothing: the
      instruction's kind selects the set. */
  function Rewrite(op: Instruction): (r: Option<Value>)
    requires IsBinaryOp(op)
    ensures r == (if op.kind == Mul then MulRule(op) else if op.kind == And then AndRule(op) else ShrRule(op))
    ensures r.Some? ==> op.kind == Mul || op.kind == And || op.kind == Shr
  {
    if MulRule(op).Some? then MulRule(op)
    else if AndRule(op).Some? then AndRule(op)
    else ShrRule(op)
  }

  predicate Rewritable(i: Instruction) {
    IsBinaryOp(i) && Rewrite(i).Some?
  }

  /** What `replaceInstruction` puts in a slot that held the instruction
      `id`: an instruction goes in as it is; any other value goes in wrapped
      in a new operand-less `Add`, which keeps the value when it is a
      constant and a null one otherwise. */
  function Slot(v: Value, id: Ident): Instruction {
    if v.Inst? then v.instr
    else Instruction(Made(id, Wrapper), Add, [], WrapperShape(if v.Constant? then v else Null))
  }

  /** A slot denotes the value put in it, except for a parameter, whose
      wrapper denotes nothing; a wrapper is never a binary operation, so no
      rule applies to it again. */
  lemma SlotMeaning(v: Value, id: Ident)
    ensures v.Inst? ==> Inst(Slot(v, id)) == v
    ensures v.Constant? ==> Equivalent(Inst(Slot(v, id)), v)
    ensures !v.Inst? ==> !IsBinaryOp(Slot(v, id)) && Slot(v, id).operands == []
    ensures v.Parameter? || v.Null? ==> forall env :: EvalInstr(Slot(v, id), env) == None
  {
  }

  /** Every rule is sound: wherever the instruction has a defined result,
      the replacement has the same one. Identical operands are taken to be
      the same value (the source compares them as pointers). */
  lemma RewriteSound(op: Instruction)
    requires IsBinaryOp(op) && Rewrite(op).Some?
    requires SameValue(op.operands[0], op.operands[1]) ==> op.operands[0] == op.operands[1]
    ensures Refines(Inst(op), Rewrite(op).value)
  {
    if MulRule(op).Some? {
      MulSound(op);
    } else if AndRule(op).Some? {
      AndSound(op);
    } else {
      ShrSound(op);
    }
  }

  lemma MulSound(op: Instruction)
    requires IsBinaryOp(op) && MulRule(op).Some?
    ensures Refines(Inst(op), MulRule(op).value)
  {
    var lhs, rhs := op.operands[0], op.operands[1];
    forall env | Eval(Inst(op), env).Some?
      ensures Eval(MulRule(op).value, env) == Eval(Inst(op), env)
    {
      var oa, ob := Eval(lhs, env), Eval(rhs, env);
      assert EvalInstr(op, env).Some?;
      assert oa.Some? && ob.Some?;
      var a, b := oa.value, ob.value;
      assert Eval(Inst(op), env) == Some(MulWrap(a, b));
      if lhs.Constant? && lhs.value == 0 {
        assert MulWrap(0, b) == 0;
      } else if rhs.Constant? && rhs.value == 0 {
        assert MulWrap(a, 0) == 0;
      } else if lhs.Constant? && lhs.value == 1 {
        assert MulWrap(1, b) == b;
      } else if rhs.Constant? && rhs.value == 1 {
        assert MulWrap(a, 1) == a;
      } else if rhs.Constant? && IsPowerOfTwo(rhs.value) {
        ShiftIsProduct(a, b);
        ShlMeaning(op, lhs, FloorLog2(b), env);
        assert MulRule(op).value == ShlFor(op, lhs, FloorLog2(b));
      } else {
        ShiftIsProduct(b, a);
        ShlMeaning(op, rhs, FloorLog2(a), env);
        assert MulRule(op).value == ShlFor(op, rhs, FloorLog2(a));
      }
    }
  }

  lemma ShlMeaning(op: Instruction, x: Value, k: Int32, env: Ident -> Int32)
    requires Eval(x, env).Some? && 0 <= k < 32
    ensures Eval(ShlFor(op, x, k), env) == Some(ShlWrap(Eval(x, env).value, k))
  {
    var c := Constant(Made(op.id, ShiftAmount), k, DecimalString(k));
    var i := BinaryOp(Made(op.id, ShiftInstr), Shl, x, c);
    assert i.operands == [x, c] && i.shape == BinaryShape;
    assert Eval(c, env) == Some(k);
    assert EvalInstr(i, env) == Apply(Shl, Eval(x, env).value, k);
  }

  /** Shifting left by the exponent of a power of two multiplies by it. */
  lemma ShiftIsProduct(a: Int32, b: Int32)
    requires IsPowerOfTwo(b)
    ensures FloorLog2(b) < 32 && ShlWrap(a, FloorLog2(b)) == MulWrap(a, b) == MulWrap(b, a)
  {
    PowerOfTwoExactly(b);
    FloorLog2Bounds(b);
    var k := FloorLog2(b);
    assert Pow2(k) == b;
    assert a * Pow2(k) == a * b == b * a;
  }

  lemma AndSound(op: Instruction)
    requires IsBinaryOp(op) && AndRule(op).Some?
    requires SameValue(op.operands[0], op.operands[1]) ==> op.operands[0] == op.operands[1]
    ensures Refines(Inst(op), AndRule(op).value)
  {
    var lhs, rhs := op.operands[0], op.operands[1];
    forall env | Eval(Inst(op), env).Some?
      ensures Eval(AndRule(op).value, env) == Eval(Inst(op), env)
    {
      var oa, ob := Eval(lhs, env), Eval(rhs, env);
      assert EvalInstr(op, env).Some?;
      assert oa.Some? && ob.Some?;
      var a, b := oa.value, ob.value;
      assert Eval(Inst(op), env) == Some(AndBits(a, b));
      AndFacts(a, b);
    }
  }

  lemma ShrSound(op: Instruction)
    requires IsBinaryOp(op) && ShrRule(op).Some?
    ensures Refines(Inst(op), ShrRule(op).value)
  {
    var lhs, rhs := op.operands[0], op.operands[1];
    forall env | Eval(Inst(op), env).Some?
      ensures Eval(ShrRule(op).value, env) == Eval(Inst(op), env)
    {
      var oa, ob := Eval(lhs, env), Eval(rhs, env);
      assert EvalInstr(op, env).Some?;
      assert oa.Some? && ob.Some?;
      var a, b := oa.value, ob.value;
      assert 0 <= b < 32 && Eval(Inst(op), env) == Some(ShrLogical(a, b));
    }
  }

  /** `replaceInstruction`: only the slot at `index` changes, and it receives
      the value as `Slot` places it. */
  method ReplaceInstruction(bb: BasicBlock, index: nat, v: Value)
    requires index < |bb.instructions|
    modifies bb`instructions
    ensures bb.instructions == old(bb.instructions)[index := Slot(v, old(bb.instructions)[index].id)]
  {
    if v.Inst? {
      bb.instructions := bb.instructions[index := v.instr];
    } else {
      var c := if v.Constant? then v else Null;
      var wrapper := Instruction(Made(bb.instructions[index].id, Wrapper), Add, [], WrapperShape(c));
      bb.instructions := bb.instructions[index := wrapper];
    }
  }

  /** `applyMulPeepholes`: reports whether a multiplication rule applies,
      and if so installs its replacement at `index`. */
  method ApplyMulPeepholes(mul: Instruction, bb: BasicBlock, index: nat) returns (applied: bool)
    requires IsBinaryOp(mul) && index < |bb.instructions|
    modifies bb`instructions
    ensures applied <==> MulRule(mul).Some?
    ensures bb.instructions ==
      if applied then old(bb.instructions)[index := Slot(MulRule(mul).value, old(bb.instructions)[index].id)]
      else old(bb.instructions)
  {
    if mul.kind != Mul {
      return false;
    }
    var lhs, rhs := mul.operands[0], mul.operands[1];
    if lhs.Constant? && lhs.value == 0 {
      ReplaceInstruction(bb, index, ConstantFor(mul, 0));
      return true;
    }
    if rhs.Constant? && rhs.value == 0 {
      ReplaceInstruction(bb, index, ConstantFor(mul, 0));
      return true;
    }
    if lhs.Constant? && lhs.value == 1 {
      ReplaceInstruction(bb, index, rhs);
      return true;
    }
    if rhs.Constant? && rhs.value == 1 {
      ReplaceInstruction(bb, index, lhs);
      return true;
    }
    if rhs.Constant? && IsPowerOfTwo(rhs.value) {
      var shiftAmount := Log2(rhs.value);
      ReplaceInstruction(bb, index, ShlFor(mul, lhs, shiftAmount));
      return true;
    }
    if lhs.Constant? && IsPowerOfTwo(lhs.value) {
      var shiftAmount := Log2(lhs.value);
      ReplaceInstruction(bb, index, ShlFor(mul, rhs, shiftAmount));
      return true;
    }
    return false;
  }

  /** `applyAndPeepholes`: reports whether an `and` rule applies, and if so
      installs its replacement at `index`. */
  method ApplyAndPeepholes(op: Instruction, bb: BasicBlock, index: nat) returns (applied: bool)
    requires IsBinaryOp(op) && index < |bb.instructions|
    modifies bb`instructions
    ensures applied <==> AndRule(op).Some?
    ensures bb.instructions ==
      if applied then old(bb.instructions)[index := Slot(AndRule(op).value, old(bb.instructions)[index].id)]
      else old(bb.instructions)
  {
    if op.kind != And {
      return false;
    }
    var lhs, rhs := op.operands[0], op.operands[1];
    if lhs.Constant? && lhs.value == 0 {
      ReplaceInstruction(bb, index, ConstantFor(op, 0));
      return true;
    }
    if rhs.Constant? && rhs.value == 0 {
      ReplaceInstruction(bb, index, ConstantFor(op, 0));
      return true;
    }
    if lhs.Constant? && lhs.value == -1 {
      ReplaceInstruction(bb, index, rhs);
      return true;
    }
    if rhs.Constant? && rhs.value == -1 {
      ReplaceInstruction(bb, index, lhs);
      return true;
    }
    if SameValue(lhs, rhs) {
      ReplaceInstruction(bb, index, lhs);
      return true;
    }
    return false;
  }

  /** `applyShrPeepholes`: reports whether a right-shift rule applies, and if
      so installs its replacement at `index`. */
  method ApplyShrPeepholes(shr: Instruction, bb: BasicBlock, index: nat) returns (applied: bool)
    requires IsBinaryOp(shr) && index < |bb.instructions|
    modifies bb`instructions
    ensures applied <==> ShrRule(shr).Some?
    ensures bb.instructions ==
      if applied then old(bb.instructions)[index := Slot(ShrRule(shr).value, old(bb.instructions)[index].id)]
      else old(bb.instructions)
  {
    if shr.kind != Shr {
      return false;
    }
    var shiftAmount := shr.operands[1];
    if !shiftAmount.Constant? {
      return false;
    }
    var shiftVal := shiftAmount.value;
    if shiftVal == 0 {
      ReplaceInstruction(bb, index, shr.operands[0]);
      return true;
    }
    if shiftVal >= 32 {
      ReplaceInstruction(bb, index, ConstantFor(shr, 0));
      return true;
    }
    var shiftedValue := shr.operands[0];
    if shiftedValue.Constant? && shiftedValue.value == 0 {
      ReplaceInstruction(bb, index, ConstantFor(shr, 0));
      return true;
    }
    return false;
  }

  /** The part of a slot's instruction the rules can still shrink: the size
      of a `Mul`, `And` or `Shr` binary operation, nothing for anything
      else. */
  function SlotWeight(i: Instruction): nat {
    if IsBinaryOp(i) && (i.kind == Mul || i.kind == And || i.kind == Shr) then ValueSize(Inst(i)) else 0
  }

  function Weight(s: seq<Instruction>): nat {
    if s == [] then 0 else SlotWeight(s[0]) + Weight(s[1..])
  }

  lemma {:induction false} WeightUpdate(s: seq<Instruction>, i: nat, y: Instruction)
    requires i < |s|
    ensures Weight(s[i := y]) + SlotWeight(s[i]) == Weight(s) + SlotWeight(y)
  {
    if i > 0 {
      assert s[i := y][1..] == s[1..][i - 1 := y];
      WeightUpdate(s[1..], i - 1, y);
    }
  }

  /** Every rewrite makes its slot lighter: a constant or parameter goes in
      wrapped, a shift is never rewritten, and an operand is smaller than the
      instruction that uses it. */
  lemma RewriteLighter(op: Instruction, id: Ident)
    requires IsBinaryOp(op) && Rewrite(op).Some?
    ensures SlotWeight(Slot(Rewrite(op).value, id)) < SlotWeight(op)
  {
    var v := Rewrite(op).value;
    assert v == op.operands[0] || v == op.operands[1] || v.Constant? || (v.Inst? && v.instr.kind == Shl);
    if v.Inst? && v.instr.kind != Shl {
      var j := if v == op.operands[0] then 0 else 1;
      OperandSmaller(op.operands, j);
    }
  }

  /** The block after one rewrite at `i` weighs less than before. */
  lemma RewriteStep(s: seq<Instruction>, i: nat)
    requires i < |s| && Rewritable(s[i])
    ensures Weight(s[i := Slot(Rewrite(s[i]).value, s[i].id)]) < Weight(s)
  {
    RewriteLighter(s[i], s[i].id);
    WeightUpdate(s, i, Slot(Rewrite(s[i]).value, s[i].id));
  }

  /** The scan of `optimizeBlock` from position `i`: a slot a rule applies
      to is rewritten and the scan goes on at position 1 (the loop sets
      `i = 0` and then increments it); any other slot is stepped over. */
  function Scan(s: seq<Instruction>, i: nat): CF.Outcome
    decreases Weight(s), |s| - i
  {
    if i >= |s| then CF.Outcome(s, false)
    else if Rewritable(s[i]) then
      RewriteStep(s, i);
      CF.Outcome(Scan(s[i := Slot(Rewrite(s[i]).value, s[i].id)], 1).instrs, true)
    else Scan(s, i + 1)
  }

  /** `PeepholeOptimizer::optimizeBlock`: the block becomes the result of the
      scan from the first slot, and the pass reports whether it rewrote. */
  method OptimizeBlock(bb: BasicBlock) returns (changed: bool)
    modifies bb`instructions
    ensures CF.Outcome(bb.instructions, changed) == Scan(old(bb.instructions), 0)
  {
    changed := false;
    var i := 0;
    while i < |bb.instructions|
      invariant Scan(bb.instructions, i).instrs == Scan(old(bb.instructions), 0).instrs
      invariant (changed || Scan(bb.instructions, i).changed) == Scan(old(bb.instructions), 0).changed
      decreases Weight(bb.instructions), |bb.instructions| - i
    {
      var instr := bb.instructions[i];
      if IsBinaryOp(instr) {
        ghost var s := bb.instructions;
        var applied := ApplyMulPeepholes(instr, bb, i);
        if !applied {
          applied := ApplyAndPeepholes(instr, bb, i);
        }
        if !applied {
          applied := ApplyShrPeepholes(instr, bb, i);
        }
        if applied {
          RewriteStep(s, i);
          changed := true;
          i := 0;
        }
      }
      i := i + 1;
    }
  }

  /** A scan keeps the block's length; it reports a change exactly when the
      block differs afterwards; and it leaves no slot after the first that a
      rule applies to. */
  lemma {:induction false} ScanResult(s: seq<Instruction>, i: nat)
    requires forall k :: 1 <= k < i && k < |s| ==> !Rewritable(s[k])
    ensures var r := Scan(s, i);
      && |r.instrs| == |s|
      && (r.changed <==> r.instrs != s)
      && (r.changed ==> Weight(r.instrs) < Weight(s))
      && forall k :: 1 <= k < |r.instrs| ==> !Rewritable(r.instrs[k])
    decreases Weight(s), |s| - i
  {
    if i >= |s| {
    } else if Rewritable(s[i]) {
      var t := s[i := Slot(Rewrite(s[i]).value, s[i].id)];
      RewriteStep(s, i);
      ScanResult(t, 1);
    } else {
      ScanResult(s, i + 1);
    }
  }

  /** The scan the restart evidently intends: after a rewrite it goes on at
      position 0, so the rewritten slot itself is examined again. */
  function ScanFromStart(s: seq<Instruction>, i: nat): CF.Outcome
    decreases Weight(s), |s| - i
  {
    if i >= |s| then CF.Outcome(s, false)
    else if Rewritable(s[i]) then
      RewriteStep(s, i);
      CF.Outcome(ScanFromStart(s[i := Slot(Rewrite(s[i]).value, s[i].id)], 0).instrs, true)
    else ScanFromStart(s, i + 1)
  }

  /** Restarting at position 0 leaves no slot at all that a rule applies to. */
  lemma {:induction false} ScanFromStartResult(s: seq<Instruction>, i: nat)
    requires forall k :: 0 <= k < i && k < |s| ==> !Rewritable(s[k])
    ensures var r := ScanFromStart(s, i);
      && |r.instrs| == |s|
      && (r.changed <==> r.instrs != s)
      && forall k :: 0 <= k < |r.instrs| ==> !Rewritable(r.instrs[k])
    decreases Weight(s), |s| - i
  {
    if i >= |s| {
    } else if Rewritable(s[i]) {
      var t := s[i := Slot(Rewrite(s[i]).value, s[i].id)];
      RewriteStep(s, i);
      ScanFromStartResult(t, 0);
    } else {
      ScanFromStartResult(s, i + 1);
    }
  }

  /** A block whose first slot multiplies by 1 an instruction that itself
      multiplies by 0: the first rewrite puts that instruction in slot 0,
      the scan resumes at slot 1, and the multiplication by 0 is left in
      place, although a rule applies to it. Restarting at 0 removes it. */
  lemma SlotZeroNotRevisited()
    ensures var p := Parameter(ParamNo(0), "p");
      var inner := BinaryOp(InstrNo(1), Mul, p, Constant(ConstNo(0), 0, "0"));
      var outer := BinaryOp(InstrNo(2), Mul, Inst(inner), Constant(ConstNo(1), 1, "1"));
      && Scan([outer], 0).instrs == [inner]
      && Rewritable(inner)
      && |ScanFromStart([outer], 0).instrs| == 1
      && !Rewritable(ScanFromStart([outer], 0).instrs[0])
  {
    var p := Parameter(ParamNo(0), "p");
    var inner := BinaryOp(InstrNo(1), Mul, p, Constant(ConstNo(0), 0, "0"));
    var outer := BinaryOp(InstrNo(2), Mul, Inst(inner), Constant(ConstNo(1), 1, "1"));
    assert Rewrite(outer) == Some(Inst(inner));
    assert [outer][0 := Slot(Inst(inner), outer.id)] == [inner];
    assert Scan([outer], 0).instrs == Scan([inner], 1).instrs;
    assert Scan([inner], 1) == CF.Outcome([inner], false);
    assert Rewrite(inner) == Some(ConstantFor(inner, 0));
    var w := Slot(ConstantFor(inner, 0), inner.id);
    assert ScanFromStart([outer], 0).instrs == ScanFromStart([inner], 0).instrs;
    assert [inner][0 := w] == [w];
    assert ScanFromStart([inner], 0).instrs == ScanFromStart([w], 0).instrs;
    assert !Rewritable(w);
    assert ScanFromStart([w], 0) == ScanFromStart([w], 1) == CF.Outcome([w], false);
  }

  /** `PeepholePass::runOnFunction`: every block is optimised on its own,
      and the pass reports a change exactly when some block changed. */
  method RunOnFunction(f: Function) returns (changed: bool)
    requires f.Valid()
    modifies CF.Blocks(f.blocks)`instructions
    ensures forall k :: 0 <= k < |f.blocks| ==>
      f.blocks[k].instructions == Scan(old(f.blocks[k].instructions), 0).instrs
    ensures changed <==> exists k :: 0 <= k < |f.blocks| && Scan(old(f.blocks[k].instructions), 0).changed
  {
    changed := false;
    for k := 0 to |f.blocks|
      invariant forall j :: 0 <= j < k ==>
        f.blocks[j].instructions == Scan(old(f.blocks[j].instructions), 0).instrs
      invariant forall j :: k <= j < |f.blocks| ==> f.blocks[j].instructions == old(f.blocks[j].instructions)
      invariant changed <==> exists j :: 0 <= j < k && Scan(old(f.blocks[j].instructions), 0).changed
    {
      var c := OptimizeBlock(f.blocks[k]);
      changed := changed || c;
    }
  }
}
