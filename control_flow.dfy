/** Control-transfer instructions (`Return`, `Jump`, `CondJump`), `Phi`, and
    the per-instruction CFG update that a block's last instruction performs. */
module ControlFlow {
  import opened Instructions
  import opened BasicBlocks

  /** `Return(val)`: the operand list is `[val]` for a value, empty for null. */
  function NewReturn(id: Ident, val: Value): (r: Instruction)
    ensures r.kind == Return && r.shape == ReturnShape(val) && AsConstructed(r)
    ensures val.Null? ==> r.operands == []
    ensures !val.Null? ==> r.operands == [val]
  {
    Instruction(id, Return, if val.Null? then [] else [val], ReturnShape(val))
  }

  /** `Jump(name)`: no operands, target and parent not yet resolved. */
  function NewJump(id: Ident, targetName: string): (r: Instruction)
    ensures r.kind == Jump && r.operands == [] && AsConstructed(r)
    ensures r.shape.JumpShape? && r.shape.targetName == targetName
  {
    Instruction(id, Jump, [], JumpShape(targetName, None, None))
  }

  /** `CondJump(cond, t, f)`: no operands, both targets and parent unresolved. */
  function NewCondJump(id: Ident, cond: string, trueName: string, falseName: string): (r: Instruction)
    ensures r.kind == CondJump && r.operands == [] && AsConstructed(r)
    ensures r.shape.CondJumpShape? && r.shape.trueName == trueName && r.shape.falseName == falseName
  {
    Instruction(id, CondJump, [], CondJumpShape(cond, trueName, falseName, None, None, None))
  }

  /** The setters of `Jump` and `CondJump`; each changes one block reference. */
  function SetParentBlock(i: Instruction, p: nat): (r: Instruction)
    requires i.shape.JumpShape? || i.shape.CondJumpShape?
    ensures (r.shape.JumpShape? || r.shape.CondJumpShape?) && r.shape.parent == Some(p) && r.id == i.id && r.kind == i.kind && r.operands == i.operands
  {
    i.(shape := i.shape.(parent := Some(p)))
  }

  function SetTargetBlock(i: Instruction, t: nat): (r: Instruction)
    requires i.shape.JumpShape?
    ensures r.shape.JumpShape? && r.shape.target == Some(t) && r.shape.parent == i.shape.parent && r.id == i.id
  {
    i.(shape := i.shape.(target := Some(t)))
  }

  function SetTrueTargetBlock(i: Instruction, t: nat): (r: Instruction)
    requires i.shape.CondJumpShape?
    ensures r.shape.CondJumpShape? && r.shape.trueTarget == Some(t) && r.shape.falseTarget == i.shape.falseTarget && r.id == i.id
  {
    i.(shape := i.shape.(trueTarget := Some(t)))
  }

  function SetFalseTargetBlock(i: Instruction, t: nat): (r: Instruction)
    requires i.shape.CondJumpShape?
    ensures r.shape.CondJumpShape? && r.shape.falseTarget == Some(t) && r.shape.trueTarget == i.shape.trueTarget && r.id == i.id
  {
    i.(shape := i.shape.(falseTarget := Some(t)))
  }

  /** `Phi()`: no incoming pairs and no operands. */
  function NewPhi(id: Ident): (r: Instruction)
    ensures r.kind == Phi && PhiConsistent(r) && r.shape.incoming == []
  {
    Instruction(id, Phi, [], PhiShape([]))
  }

  /** A phi's operand list mirrors the values of its incoming pairs. */
  predicate PhiConsistent(i: Instruction) {
    i.shape.PhiShape?
    && |i.shape.incoming| == |i.operands|
    && forall k :: 0 <= k < |i.operands| ==> i.operands[k] == i.shape.incoming[k].val
  }

  /** `addIncoming` appends the pair and the value together, so a consistent
      phi stays consistent and both lists grow by one. */
  function AddIncoming(phi: Instruction, pred: Option<nat>, val: Value): (r: Instruction)
    requires phi.shape.PhiShape?
    ensures r.shape.PhiShape? && r.shape.incoming == phi.shape.incoming + [Incoming(pred, val)]
    ensures r.operands == phi.operands + [val] && r.id == phi.id && r.kind == phi.kind
    ensures PhiConsistent(phi) ==> PhiConsistent(r)
  {
    phi.(operands := phi.operands + [val],
         shape := PhiShape(phi.shape.incoming + [Incoming(pred, val)]))
  }

  /** A pair that renders normally; the others render as the invalid marker. */
  predicate IncomingValid(e: Incoming) {
    e.pred.Some? && !e.val.Null?
  }

  /** Whether `updateCFG` acts at all: a jump needs its parent and target, a
      conditional jump its parent; every other instruction does nothing. */
  predicate UpdatesCfg(i: Instruction) {
    match i.shape
    case JumpShape(_, t, p) => p.Some? && t.Some?
    case CondJumpShape(_, _, _, _, _, p) => p.Some?
    case _ => false
  }

  /** The successor set `updateCFG` installs on the parent block. */
  function InstalledTargets(i: Instruction): (ts: set<nat>)
    ensures !UpdatesCfg(i) ==> ts == {}
    ensures i.shape.JumpShape? && UpdatesCfg(i) ==> ts == {i.shape.target.value}
    ensures i.shape.CondJumpShape? && UpdatesCfg(i) ==>
      forall t :: t in ts <==> Some(t) == i.shape.trueTarget || Some(t) == i.shape.falseTarget
  {
    match i.shape
    case JumpShape(_, t, p) =>
      if p.Some? && t.Some? then {t.value} else {}
    case CondJumpShape(_, _, _, tt, ft, p) =>
      if p.None? then {}
      else (if tt.Some? then {tt.value} else {}) + (if ft.Some? then {ft.value} else {})
    case _ => {}
  }

  /** Every block reference an instruction holds lies within `n` blocks. */
  predicate RefsInRange(i: Instruction, n: nat) {
    match i.shape
    case JumpShape(_, t, p) => (t.Some? ==> t.value < n) && (p.Some? ==> p.value < n)
    case CondJumpShape(_, _, _, tt, ft, p) =>
      (tt.Some? ==> tt.value < n) && (ft.Some? ==> ft.value < n) && (p.Some? ==> p.value < n)
    case _ => true
  }

  predicate Distinct(blocks: seq<BasicBlock>) {
    forall a, b :: 0 <= a < b < |blocks| ==> blocks[a] != blocks[b]
  }

  /** `updateCFG` of the instruction `i`: when it acts, the parent's successor
      set becomes exactly the installed targets and the parent is added to
      each target's predecessors; nothing else changes. */
  method UpdateCfg(blocks: seq<BasicBlock>, i: Instruction)
    requires Distinct(blocks) && RefsInRange(i, |blocks|)
    modifies set b | b in blocks
    ensures forall k :: 0 <= k < |blocks| ==> blocks[k].instructions == old(blocks[k].instructions)
    ensures forall k :: 0 <= k < |blocks| ==>
      blocks[k].succs == if UpdatesCfg(i) && Some(k) == i.shape.parent then InstalledTargets(i) else old(blocks[k].succs)
    ensures forall k :: 0 <= k < |blocks| ==>
      blocks[k].preds == if k in InstalledTargets(i) then old(blocks[k].preds) + {i.shape.parent.value} else old(blocks[k].preds)
  {
    match i.shape
    case JumpShape(_, t, p) =>
      if p.None? || t.None? {
        return;
      }
      blocks[p.value].ClearSuccessors();
      blocks[p.value].AddSuccessor(t.value);
      blocks[t.value].AddPredecessor(p.value);
    case CondJumpShape(_, _, _, tt, ft, p) =>
      if p.None? {
        return;
      }
      var parent := blocks[p.value];
      parent.ClearSuccessors();
      if tt.Some? {
        parent.AddSuccessor(tt.value);
        blocks[tt.value].AddPredecessor(p.value);
      }
      if ft.Some? {
        parent.AddSuccessor(ft.value);
        blocks[ft.value].AddPredecessor(p.value);
      }
    case _ =>
  }
}
