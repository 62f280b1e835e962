/** Constant folding within a basic block: a `Mul`, `Shr`, `Shl` or `And`
    whose two operands are constants is evaluated on 32-bit ints, the later
    instructions of the block that use it are redirected to a new constant
    holding the result, and the instruction is erased. */
module ConstantFolding {
  import opened Instructions
  import opened BasicBlocks
  import opened Functions
  import opened Machine32
  import opened Semantics

  /** The kinds the pass tries to fold. */
  predicate IsFoldKind(k: InstrKind) {
    k == Mul || k == Shr || k == Shl || k == And
  }

  /** The folded result of `op`: defined exactly when both operands are
      constants, the kind is one of the four, and a shift amount lies in
      `[0, 31]`; when defined it is what the instruction computes in every
      environment. */
  function FoldedValue(op: Instruction): (r: Option<Int32>)
    requires IsBinaryOp(op)
    ensures r.Some? <==>
      && op.operands[0].Constant? && op.operands[1].Constant?
      && IsFoldKind(op.kind)
      && ((op.kind == Shr || op.kind == Shl) ==> 0 <= op.operands[1].value < 32)
    ensures r.Some? ==> forall env :: EvalInstr(op, env) == r
  {
    var lhs, rhs := op.operands[0], op.operands[1];
    if !lhs.Constant? || !rhs.Constant? then None
    else
      var l, v := lhs.value, rhs.value;
      match op.kind
      case Mul => Some(MulWrap(l, v))
      case Shr => if v < 0 || v >= 32 then None else Some(ShrLogical(l, v))
      case Shl => if v < 0 || v >= 32 then None else Some(ShlWrap(l, v))
      case And => Some(AndBits(l, v))
      case _ => None
  }

  /** `tryFoldBinaryOp`: a new constant, named by its decimal value, that is
      equivalent to `op`, or nothing when `op` does not fold. */
  function TryFoldBinaryOp(op: Instruction): (r: Option<Value>)
    requires IsBinaryOp(op)
    ensures r.Some? <==> FoldedValue(op).Some?
    ensures r.Some? ==> r.value.Constant? && FoldedValue(op) == Some(r.value.value)
  {
    match FoldedValue(op)
    case None => None
    case Some(v) => Some(Constant(Made(op.id, FoldedConstant), v, DecimalString(v)))
  }

  /** The constant a fold produces stands for the instruction it replaces. */
  lemma FoldedConstantEquivalent(op: Instruction)
    requires IsBinaryOp(op) && TryFoldBinaryOp(op).Some?
    ensures Equivalent(TryFoldBinaryOp(op).value, Inst(op))
  {
    forall env
      ensures Eval(TryFoldBinaryOp(op).value, env) == Eval(Inst(op), env)
    {
    }
  }

  /** The instructions the pass folds. */
  predicate Foldable(i: Instruction) {
    IsBinaryOp(i) && IsFoldKind(i.kind) && FoldedValue(i).Some?
  }

  /** An operand that is the instruction `i` itself (pointer equality). */
  predicate Uses(v: Value, i: Instruction) {
    v.Inst? && v.instr.id == i.id
  }

  /** The operand list with every use of `target` replaced by `v`. */
  function Redirected(ops: seq<Value>, target: Instruction, v: Value): (r: seq<Value>)
    ensures |r| == |ops|
  {
    seq(|ops|, m requires 0 <= m < |ops| => if Uses(ops[m], target) then v else ops[m])
  }

  /** The position of the first instruction with identity `id`. */
  function FirstIndex(instrs: seq<Instruction>, id: Ident): (r: Option<nat>)
    ensures r.Some? ==> r.value < |instrs| && instrs[r.value].id == id
    ensures r.Some? ==> forall k :: 0 <= k < r.value ==> instrs[k].id != id
    ensures r.None? ==> forall k :: 0 <= k < |instrs| ==> instrs[k].id != id
  {
    if instrs == [] then None
    else if instrs[0].id == id then Some(0)
    else match FirstIndex(instrs[1..], id)
      case None => None
      case Some(k) => Some(k + 1)
  }

  /** Whether `replaceAllUsesWith` rewrites slot `k`: it lies after the first
      occurrence of `target` and is not `target` itself. */
  predicate Rewrites(instrs: seq<Instruction>, target: Instruction, k: nat) {
    var f := FirstIndex(instrs, target.id);
    f.Some? && f.value < k < |instrs| && instrs[k].id != target.id
  }

  /** The block after `replaceAllUsesWith(target, v)`. */
  function RewriteUses(instrs: seq<Instruction>, target: Instruction, v: Value): (r: seq<Instruction>)
    ensures |r| == |instrs|
  {
    seq(|instrs|, k requires 0 <= k < |instrs| =>
      if Rewrites(instrs, target, k) then instrs[k].(operands := Redirected(instrs[k].operands, target, v))
      else instrs[k])
  }

  /** The inner loop of `replaceAllUsesWith`: each operand equal to `target`
      becomes `v`, the others stay. */
  method RedirectOperands(ops: seq<Value>, target: Instruction, v: Value) returns (r: seq<Value>)
    ensures |r| == |ops|
    ensures forall m :: 0 <= m < |ops| ==> r[m] == if Uses(ops[m], target) then v else ops[m]
  {
    r := ops;
    for m := 0 to |ops|
      invariant |r| == |ops|
      invariant forall j :: 0 <= j < m ==> r[j] == if Uses(ops[j], target) then v else ops[j]
      invariant forall j :: m <= j < |ops| ==> r[j] == ops[j]
    {
      if Uses(r[m], target) {
        r := r[m := v];
      }
    }
  }

  /** `replaceAllUsesWith`: the instructions after the first occurrence of
      `target` (other than `target` itself) have their uses of `target`
      redirected to `v`; every other instruction is unchanged. */
  method ReplaceAllUsesWith(target: Instruction, v: Value, bb: BasicBlock)
    modifies bb`instructions
    ensures bb.instructions == RewriteUses(old(bb.instructions), target, v)
  {
    ghost var orig := bb.instructions;
    var foundOld := false;
    for k := 0 to |bb.instructions|
      invariant |bb.instructions| == |orig|
      invariant foundOld <==> FirstIndex(orig, target.id).Some? && FirstIndex(orig, target.id).value < k
      invariant forall j :: 0 <= j < k ==> bb.instructions[j] == RewriteUses(orig, target, v)[j]
      invariant forall j :: k <= j < |orig| ==> bb.instructions[j] == orig[j]
    {
      var instr := bb.instructions[k];
      if instr.id == target.id {
        foundOld := true;
        continue;
      }
      if foundOld {
        var ops := RedirectOperands(instr.operands, target, v);
        assert ops == Redirected(instr.operands, target, v);
        bb.instructions := bb.instructions[k := instr.(operands := ops)];
      }
    }
    assert bb.instructions == RewriteUses(orig, target, v);
  }

  /** What a scan returns: the final instruction list and whether it changed. */
  datatype Outcome = Outcome(instrs: seq<Instruction>, changed: bool)

  function Erase<T>(s: seq<T>, i: nat): (r: seq<T>)
    requires i < |s|
    ensures |r| == |s| - 1
  {
    s[..i] + s[i + 1..]
  }

  /** The scan of `foldConstants` from position `i`: a foldable instruction
      has its later uses redirected and is erased, and the scan goes on at
      the same position; any other instruction is stepped over. */
  function FoldFrom(instrs: seq<Instruction>, i: nat): Outcome
    decreases |instrs| - i
  {
    if i >= |instrs| then Outcome(instrs, false)
    else if Foldable(instrs[i]) then
      var c := TryFoldBinaryOp(instrs[i]).value;
      Outcome(FoldFrom(Erase(RewriteUses(instrs, instrs[i], c), i), i).instrs, true)
    else FoldFrom(instrs, i + 1)
  }

  /** `ConstantFolding::foldConstants`: the block becomes the result of the
      scan from the first instruction, and the pass reports a change exactly
      when it erased an instruction. */
  method FoldConstants(bb: BasicBlock) returns (changed: bool)
    modifies bb`instructions
    ensures Outcome(bb.instructions, changed) == FoldFrom(old(bb.instructions), 0)
    ensures changed <==> |bb.instructions| < |old(bb.instructions)|
  {
    changed := false;
    var i := 0;
    while i < |bb.instructions|
      invariant FoldFrom(bb.instructions, i).instrs == FoldFrom(old(bb.instructions), 0).instrs
      invariant (changed || FoldFrom(bb.instructions, i).changed) == FoldFrom(old(bb.instructions), 0).changed
      decreases |bb.instructions| - i
    {
      var instr := bb.instructions[i];
      if IsBinaryOp(instr) && IsFoldKind(instr.kind) {
        var folded := TryFoldBinaryOp(instr);
        if folded.Some? {
          ReplaceAllUsesWith(instr, folded.value, bb);
          bb.instructions := Erase(bb.instructions, i);
          changed := true;
          continue;
        }
      }
      i := i + 1;
    }
    FoldShrinks(old(bb.instructions), 0);
  }

  /** Each fold erases exactly one instruction: the scan never lengthens the
      block, and it reports a change exactly when the block got shorter. */
  lemma {:induction false} FoldShrinks(instrs: seq<Instruction>, i: nat)
    ensures |FoldFrom(instrs, i).instrs| <= |instrs|
    ensures FoldFrom(instrs, i).changed <==> |FoldFrom(instrs, i).instrs| < |instrs|
    decreases |instrs| - i
  {
    if i >= |instrs| {
    } else if Foldable(instrs[i]) {
      var c := TryFoldBinaryOp(instrs[i]).value;
      FoldShrinks(Erase(RewriteUses(instrs, instrs[i], c), i), i);
    } else {
      FoldShrinks(instrs, i + 1);
    }
  }

  /** `ConstantFoldingPass::runOnFunction`: every block is folded on its own,
      and the pass reports a change exactly when some block changed. */
  method RunOnFunction(f: Function) returns (changed: bool)
    requires f.Valid()
    modifies Blocks(f.blocks)`instructions
    ensures forall k :: 0 <= k < |f.blocks| ==>
      Outcome(f.blocks[k].instructions, FoldFrom(old(f.blocks[k].instructions), 0).changed)
        == FoldFrom(old(f.blocks[k].instructions), 0)
    ensures changed <==> exists k :: 0 <= k < |f.blocks| && FoldFrom(old(f.blocks[k].instructions), 0).changed
  {
    changed := false;
    for k := 0 to |f.blocks|
      invariant forall j :: 0 <= j < k ==>
        f.blocks[j].instructions == FoldFrom(old(f.blocks[j].instructions), 0).instrs
      invariant forall j :: k <= j < |f.blocks| ==> f.blocks[j].instructions == old(f.blocks[j].instructions)
      invariant changed <==> exists j :: 0 <= j < k && FoldFrom(old(f.blocks[j].instructions), 0).changed
    {
      var c := FoldConstants(f.blocks[k]);
      changed := changed || c;
    }
  }

  /** Every operand of the block that refers to `target` refers to it as it
      stands: the objects the block points to are the objects it holds. */
  predicate Coherent(s: seq<Instruction>, target: Instruction) {
    forall k, m :: 0 <= k < |s| && 0 <= m < |s[k].operands| && Uses(s[k].operands[m], target) ==>
      s[k].operands[m] == Inst(target)
  }

  /** `replaceAllUsesWith(target, v)` touches only operand lists, and only
      those of instructions after the first occurrence of `target`; there no
      use of `target` survives (unless `v` is one), and when `v` is
      equivalent to `target` every instruction computes what it did before. */
  lemma RewriteUsesMeaning(instrs: seq<Instruction>, target: Instruction, v: Value)
    ensures var r := RewriteUses(instrs, target, v);
      && (forall k :: 0 <= k < |r| ==>
            r[k].id == instrs[k].id && r[k].kind == instrs[k].kind && r[k].shape == instrs[k].shape)
      && (forall k :: 0 <= k < |r| && !Rewrites(instrs, target, k) ==> r[k] == instrs[k])
      && (!Uses(v, target) ==> forall k, m :: 0 <= k < |r| && Rewrites(instrs, target, k) && 0 <= m < |r[k].operands| ==>
            !Uses(r[k].operands[m], target))
    ensures Equivalent(v, Inst(target)) && Coherent(instrs, target) ==>
      forall k :: 0 <= k < |instrs| ==> Equivalent(Inst(RewriteUses(instrs, target, v)[k]), Inst(instrs[k]))
  {
    if Equivalent(v, Inst(target)) && Coherent(instrs, target) {
      forall k | 0 <= k < |instrs|
        ensures Equivalent(Inst(RewriteUses(instrs, target, v)[k]), Inst(instrs[k]))
      {
        if Rewrites(instrs, target, k) {
          RedirectedMeaning(instrs, k, target, v);
        }
      }
    }
  }

  lemma RedirectedMeaning(instrs: seq<Instruction>, k: nat, target: Instruction, v: Value)
    requires k < |instrs| && Equivalent(v, Inst(target)) && Coherent(instrs, target)
    ensures Equivalent(Inst(instrs[k].(operands := Redirected(instrs[k].operands, target, v))), Inst(instrs[k]))
  {
    var i := instrs[k];
    var j := i.(operands := Redirected(i.operands, target, v));
    forall env
      ensures Eval(Inst(j), env) == Eval(Inst(i), env)
    {
      if !i.shape.WrapperShape? && IsBinaryOp(i) {
        assert Eval(j.operands[0], env) == Eval(i.operands[0], env);
        assert Eval(j.operands[1], env) == Eval(i.operands[1], env);
      }
    }
  }

  /** In a block of distinct objects, redirecting the uses of the instruction
      at `i` and erasing it keeps the objects distinct and the instructions
      before `i` as they were. */
  lemma FoldStep(s: seq<Instruction>, i: nat, c: Value)
    requires UniqueIds(s) && i < |s|
    ensures var t := Erase(RewriteUses(s, s[i], c), i);
      UniqueIds(t) && t[..i] == s[..i] && Ids(t) == Erase(Ids(s), i)
  {
    var r := RewriteUses(s, s[i], c);
    assert FirstIndex(s, s[i].id) == Some(i);
    RewriteUsesMeaning(s, s[i], c);
    assert Ids(r) == Ids(s);
    assert r[..i] == s[..i];
  }

  /** With the objects distinct, the scan from `i` erases only at or after
      `i`, and leaves no instruction that could still be folded: a block
      the pass has run over holds nothing foldable. */
  lemma {:induction false} FoldLeavesNothing(s: seq<Instruction>, i: nat)
    requires UniqueIds(s) && i <= |s|
    requires forall k :: 0 <= k < i ==> !Foldable(s[k])
    ensures var r := FoldFrom(s, i).instrs;
      && UniqueIds(r) && i <= |r| && r[..i] == s[..i]
      && forall k :: 0 <= k < |r| ==> !Foldable(r[k])
    decreases |s| - i
  {
    if i == |s| {
    } else if Foldable(s[i]) {
      var c := TryFoldBinaryOp(s[i]).value;
      var t := Erase(RewriteUses(s, s[i], c), i);
      FoldStep(s, i, c);
      assert forall k :: 0 <= k < i ==> t[k] == s[k];
      FoldLeavesNothing(t, i);
    } else {
      FoldLeavesNothing(s, i + 1);
    }
  }

  /** A scan over instructions none of which folds changes nothing. */
  lemma {:induction false} NothingToFold(s: seq<Instruction>, i: nat)
    requires forall k :: i <= k < |s| ==> !Foldable(s[k])
    ensures FoldFrom(s, i) == Outcome(s, false)
    decreases |s| - i
  {
    if i < |s| {
      NothingToFold(s, i + 1);
    }
  }

  /** Folding is idempotent: on a block of distinct objects, a second run of
      `foldConstants` reports no change and leaves the block as the first
      run left it. */
  lemma FoldIdempotent(s: seq<Instruction>)
    requires UniqueIds(s)
    ensures FoldFrom(FoldFrom(s, 0).instrs, 0) == Outcome(FoldFrom(s, 0).instrs, false)
  {
    FoldLeavesNothing(s, 0);
    NothingToFold(FoldFrom(s, 0).instrs, 0);
  }

  function Ids(s: seq<Instruction>): (r: seq<Ident>)
    ensures |r| == |s| && forall k :: 0 <= k < |s| ==> r[k] == s[k].id
  {
    seq(|s|, k requires 0 <= k < |s| => s[k].id)
  }

  /** `a` is `b` with some elements left out, the rest in their order. */
  predicate IsSubsequence<T(==)>(a: seq<T>, b: seq<T>)
    decreases |b|
  {
    if b == [] then a == []
    else IsSubsequence(a, b[1..]) || (a != [] && a[0] == b[0] && IsSubsequence(a[1..], b[1..]))
  }

  lemma {:induction false} SubsequenceRefl<T>(a: seq<T>)
    ensures IsSubsequence(a, a)
    decreases |a|
  {
    if a != [] {
      SubsequenceRefl(a[1..]);
    }
  }

  lemma {:induction false} SubsequenceErase<T>(s: seq<T>, i: nat)
    requires i < |s|
    ensures IsSubsequence(Erase(s, i), s)
    decreases i
  {
    if i == 0 {
      assert Erase(s, i) == s[1..];
      SubsequenceRefl(s[1..]);
    } else {
      assert Erase(s, i)[1..] == Erase(s[1..], i - 1);
      SubsequenceErase(s[1..], i - 1);
    }
  }

  lemma {:induction false} SubsequenceTrans<T>(a: seq<T>, b: seq<T>, c: seq<T>)
    requires IsSubsequence(a, b) && IsSubsequence(b, c)
    ensures IsSubsequence(a, c)
    decreases |c|
  {
    if c == [] {
    } else if IsSubsequence(b, c[1..]) {
      SubsequenceTrans(a, b, c[1..]);
    } else if IsSubsequence(a, b[1..]) {
      SubsequenceTrans(a, b[1..], c[1..]);
    } else {
      SubsequenceTrans(a[1..], b[1..], c[1..]);
    }
  }

  /** The instructions that survive folding keep their relative order: the
      identities after the scan are those before it with some left out. */
  lemma {:induction false} FoldKeepsOrder(s: seq<Instruction>, i: nat)
    requires UniqueIds(s)
    ensures IsSubsequence(Ids(FoldFrom(s, i).instrs), Ids(s))
    decreases |s| - i
  {
    if i >= |s| {
      SubsequenceRefl(Ids(s));
    } else if Foldable(s[i]) {
      var c := TryFoldBinaryOp(s[i]).value;
      var t := Erase(RewriteUses(s, s[i], c), i);
      FoldStep(s, i, c);
      FoldKeepsOrder(t, i);
      SubsequenceErase(Ids(s), i);
      SubsequenceTrans(Ids(FoldFrom(t, i).instrs), Ids(t), Ids(s));
    } else {
      FoldKeepsOrder(s, i + 1);
    }
  }

  function Blocks(bs: seq<BasicBlock>): set<BasicBlock> {
    set b | b in bs
  }
}
