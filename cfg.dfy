/** The CFG builder: resolves jump target names to blocks, clears every
    block's edges and re-derives them from each block's last instruction.
    Also the name lookup and the depth-first traversal over successors. */
module CfgAnalysis {
  import opened Instructions
  import opened BasicBlocks
  import opened Functions
  import opened ControlFlow
  import opened Graphs

  /** The first block whose name is `name`, or null. */
  function FindBlockByName(blocks: seq<BasicBlock>, name: string): (r: Option<nat>)
    ensures r.Some? ==> r.value < |blocks| && blocks[r.value].name == name
    ensures r.Some? ==> forall k :: 0 <= k < r.value ==> blocks[k].name != name
    ensures r.None? ==> forall k :: 0 <= k < |blocks| ==> blocks[k].name != name
  {
    FindFrom(blocks, name, 0)
  }

  function FindFrom(blocks: seq<BasicBlock>, name: string, from: nat): (r: Option<nat>)
    requires from <= |blocks|
    ensures r.Some? ==> from <= r.value < |blocks| && blocks[r.value].name == name
    ensures r.Some? ==> forall k :: from <= k < r.value ==> blocks[k].name != name
    ensures r.None? ==> forall k :: from <= k < |blocks| ==> blocks[k].name != name
    decreases |blocks| - from
  {
    if from == |blocks| then None
    else if blocks[from].name == name then Some(from)
    else FindFrom(blocks, name, from + 1)
  }

  /** Appending blocks never changes which block a name finds first, once it
      finds one. */
  lemma FindBlockByNameStable(blocks: seq<BasicBlock>, more: seq<BasicBlock>, name: string)
    requires FindBlockByName(blocks, name).Some?
    ensures FindBlockByName(blocks + more, name) == FindBlockByName(blocks, name)
  {
    var r := FindBlockByName(blocks, name);
    assert (blocks + more)[r.value] == blocks[r.value];
  }

  /** A jump with its block references cleared, as its constructor left it. */
  function Blank(i: Instruction): (r: Instruction)
    ensures AsConstructed(r) && r.id == i.id && r.kind == i.kind && r.operands == i.operands
  {
    match i.shape
    case JumpShape(n, _, _) => i.(shape := JumpShape(n, None, None))
    case CondJumpShape(c, t, f, _, _, _) => i.(shape := CondJumpShape(c, t, f, None, None, None))
    case _ => i
  }

  /** The first phase of `buildCFG` applied to one instruction of block `b`:
      a jump whose target name resolves gets that target and parent `b`; a
      conditional jump is wired only when both names resolve; anything else,
      and every unresolved jump, is left as it was. */
  function Resolve(blocks: seq<BasicBlock>, b: nat, i: Instruction): Instruction {
    match i.shape
    case JumpShape(n, _, _) =>
      var t := FindBlockByName(blocks, n);
      if t.Some? then SetParentBlock(SetTargetBlock(i, t.value), b) else i
    case CondJumpShape(_, tn, fn, _, _, _) =>
      var t := FindBlockByName(blocks, tn);
      var f := FindBlockByName(blocks, fn);
      if t.Some? && f.Some? then SetParentBlock(SetFalseTargetBlock(SetTrueTargetBlock(i, t.value), f.value), b)
      else i
    case _ => i
  }

  function ResolveAll(blocks: seq<BasicBlock>, b: nat, instrs: seq<Instruction>): (r: seq<Instruction>)
    ensures |r| == |instrs|
    ensures forall k :: 0 <= k < |r| ==> r[k] == Resolve(blocks, b, instrs[k])
  {
    seq(|instrs|, k requires 0 <= k < |instrs| => Resolve(blocks, b, instrs[k]))
  }

  /** An instruction of block `b` is settled when its block references are
      either all still null or exactly what resolving its names gives. Every
      instruction the builders and `buildCFG` produce is settled. */
  predicate Settled(blocks: seq<BasicBlock>, b: nat, i: Instruction) {
    i == Blank(i) || i == Resolve(blocks, b, Blank(i))
  }

  /** The successors a block's instruction list calls for, from target names
      alone: a jump to an existing name has exactly that block; a conditional
      jump has both targets when both names exist and none otherwise; an empty
      block, or one ending in any other instruction, has none. */
  function NameTargets(blocks: seq<BasicBlock>, instrs: seq<Instruction>): (ts: set<nat>)
    ensures forall t :: t in ts ==> t < |blocks|
  {
    if instrs == [] then {}
    else
      match instrs[|instrs| - 1].shape
      case JumpShape(n, _, _) =>
        var t := FindBlockByName(blocks, n);
        if t.Some? then {t.value} else {}
      case CondJumpShape(_, tn, fn, _, _, _) =>
        var t := FindBlockByName(blocks, tn);
        var f := FindBlockByName(blocks, fn);
        if t.Some? && f.Some? then {t.value, f.value} else {}
      case _ => {}
  }

  /** Resolving a settled instruction: its references stay in range, it acts
      only on its own block, and what it installs is what its names call for. */
  lemma ResolveSettled(blocks: seq<BasicBlock>, b: nat, i: Instruction)
    requires b < |blocks| && Settled(blocks, b, i)
    ensures var r := Resolve(blocks, b, i);
      && r == Resolve(blocks, b, Blank(i))
      && Settled(blocks, b, r)
      && RefsInRange(r, |blocks|)
      && (UpdatesCfg(r) ==> r.shape.parent == Some(b))
      && InstalledTargets(r) == NameTargets(blocks, [i])
  {
  }

  /** Re-running the first phase changes nothing, and the edges the names call
      for are the same before and after it: this is why a second `buildCFG`
      produces identical edge sets. */
  lemma ResolveIdempotent(blocks: seq<BasicBlock>, b: nat, instrs: seq<Instruction>)
    ensures ResolveAll(blocks, b, ResolveAll(blocks, b, instrs)) == ResolveAll(blocks, b, instrs)
    ensures NameTargets(blocks, ResolveAll(blocks, b, instrs)) == NameTargets(blocks, instrs)
  {
    var r := ResolveAll(blocks, b, instrs);
    var rr := ResolveAll(blocks, b, r);
    forall k | 0 <= k < |instrs| ensures rr[k] == r[k] {
      var i := instrs[k];
      match i.shape
      case JumpShape(_, _, _) =>
      case CondJumpShape(_, _, _, _, _, _) =>
      case _ =>
    }
  }

  /** Every instruction of every block of `f` is settled. */
  ghost predicate AllSettled(f: Function)
    reads f, f.blocks
  {
    forall b, k :: 0 <= b < |f.blocks| && 0 <= k < |f.blocks[b].instructions| ==>
      Settled(f.blocks, b, f.blocks[b].instructions[k])
  }

  /** Appending an instruction as its constructor left it keeps a block's
      instructions settled. */
  lemma AppendConstructedSettled(blocks: seq<BasicBlock>, b: nat, instrs: seq<Instruction>, i: Instruction)
    requires forall k :: 0 <= k < |instrs| ==> Settled(blocks, b, instrs[k])
    requires AsConstructed(i)
    ensures forall k :: 0 <= k < |instrs + [i]| ==> Settled(blocks, b, (instrs + [i])[k])
  {
    assert i == Blank(i) by {
      match i.shape
      case JumpShape(_, _, _) =>
      case CondJumpShape(_, _, _, _, _, _) =>
      case _ =>
    }
  }

  /** Resolves the target names of every instruction of block `b`, in place. */
  method ResolveBlock(blocks: seq<BasicBlock>, b: nat, bb: BasicBlock)
    requires b < |blocks| && bb == blocks[b]
    modifies bb`instructions
    ensures bb.instructions == ResolveAll(blocks, b, old(bb.instructions))
  {
    var before := bb.instructions;
    for k := 0 to |before|
      invariant |bb.instructions| == |before|
      invariant forall m :: 0 <= m < k ==> bb.instructions[m] == Resolve(blocks, b, before[m])
      invariant forall m :: k <= m < |before| ==> bb.instructions[m] == before[m]
    {
      bb.instructions := bb.instructions[k := Resolve(blocks, b, bb.instructions[k])];
    }
  }

  /** Clears the predecessor and successor sets of every block. */
  method ClearEdges(blocks: seq<BasicBlock>)
    requires Distinct(blocks)
    modifies set b | b in blocks
    ensures forall j :: 0 <= j < |blocks| ==> blocks[j].succs == {} && blocks[j].preds == {}
    ensures forall j :: 0 <= j < |blocks| ==> blocks[j].instructions == old(blocks[j].instructions)
  {
    for b := 0 to |blocks|
      invariant forall j :: 0 <= j < b ==> blocks[j].succs == {} && blocks[j].preds == {}
      invariant forall j :: 0 <= j < |blocks| ==> blocks[j].instructions == old(blocks[j].instructions)
    {
      blocks[b].ClearPredecessors();
      blocks[b].ClearSuccessors();
    }
  }

  /** The blocks among the first `b` that list `s` as a successor by name. */
  function NamePredsBelow(blocks: seq<BasicBlock>, orig: seq<seq<Instruction>>, s: nat, b: nat): set<nat>
    requires b <= |orig|
  {
    set p | 0 <= p < b && s in NameTargets(blocks, orig[p])
  }

  /** Lets the last instruction of block `b` install its edges. */
  method InstallBlock(blocks: seq<BasicBlock>, b: nat, ghost o: seq<Instruction>)
    requires Distinct(blocks) && b < |blocks|
    requires o != [] ==> Settled(blocks, b, o[|o| - 1])
    requires blocks[b].instructions == ResolveAll(blocks, b, o)
    requires blocks[b].succs == {}
    modifies set x | x in blocks
    ensures forall j :: 0 <= j < |blocks| ==> blocks[j].instructions == old(blocks[j].instructions)
    ensures blocks[b].succs == NameTargets(blocks, o)
    ensures forall j :: 0 <= j < |blocks| && j != b ==> blocks[j].succs == old(blocks[j].succs)
    ensures forall s :: 0 <= s < |blocks| ==>
      blocks[s].preds == if s in NameTargets(blocks, o) then old(blocks[s].preds) + {b} else old(blocks[s].preds)
  {
    var instrs := blocks[b].instructions;
    if instrs != [] {
      var last := instrs[|instrs| - 1];
      LastInstalls(blocks, b, o);
      UpdateCfg(blocks, last);
    }
  }

  /** The resolved last instruction of a block built from settled `o` stays
      within the blocks, names `b` as its parent, and installs exactly the
      targets its names call for. */
  lemma LastInstalls(blocks: seq<BasicBlock>, b: nat, o: seq<Instruction>)
    requires b < |blocks| && o != [] && Settled(blocks, b, o[|o| - 1])
    ensures var r := Resolve(blocks, b, o[|o| - 1]);
      && RefsInRange(r, |blocks|)
      && (UpdatesCfg(r) ==> r.shape.parent == Some(b))
      && InstalledTargets(r) == NameTargets(blocks, o)
  {
    ResolveSettled(blocks, b, o[|o| - 1]);
    assert NameTargets(blocks, o) == NameTargets(blocks, [o[|o| - 1]]);
  }

  /** The third phase: each block's last instruction installs its edges. With
      every block resolved from settled instructions `orig` and all edges
      cleared, the successors become what the names call for and the
      predecessors their mirror image. */
  method InstallEdges(blocks: seq<BasicBlock>, ghost orig: seq<seq<Instruction>>)
    requires Distinct(blocks) && |orig| == |blocks|
    requires forall j, k :: 0 <= j < |blocks| && 0 <= k < |orig[j]| ==> Settled(blocks, j, orig[j][k])
    requires forall j :: 0 <= j < |blocks| ==> blocks[j].instructions == ResolveAll(blocks, j, orig[j])
    requires forall j :: 0 <= j < |blocks| ==> blocks[j].succs == {} && blocks[j].preds == {}
    modifies set b | b in blocks
    ensures forall j :: 0 <= j < |blocks| ==> blocks[j].instructions == old(blocks[j].instructions)
    ensures forall j :: 0 <= j < |blocks| ==> blocks[j].succs == NameTargets(blocks, orig[j])
    ensures forall s :: 0 <= s < |blocks| ==> blocks[s].preds == NamePredsBelow(blocks, orig, s, |blocks|)
  {
    var n := |blocks|;
    for b := 0 to n
      invariant forall j :: 0 <= j < n ==> blocks[j].instructions == old(blocks[j].instructions)
      invariant forall j :: 0 <= j < b ==> blocks[j].succs == NameTargets(blocks, orig[j])
      invariant forall j :: b <= j < n ==> blocks[j].succs == {}
      invariant forall s :: 0 <= s < n ==> blocks[s].preds == NamePredsBelow(blocks, orig, s, b)
    {
      InstallBlock(blocks, b, orig[b]);
      forall s | 0 <= s < n
        ensures NamePredsBelow(blocks, orig, s, b + 1) ==
          NamePredsBelow(blocks, orig, s, b) + (if s in NameTargets(blocks, orig[b]) then {b} else {})
      {
      }
    }
  }

  /** `buildCFG`: afterwards every jump is resolved from its names, each
      block's successors are exactly what its last instruction's names call
      for, and each block's predecessors are exactly the blocks that list it as
      a successor. Instruction lists keep their length and order. */
  method BuildCfg(f: Function)
    requires f.Valid() && AllSettled(f)
    modifies set b | b in f.blocks
    ensures f.Valid() && AllSettled(f)
    ensures forall b :: 0 <= b < |f.blocks| ==>
      f.blocks[b].instructions == ResolveAll(f.blocks, b, old(f.blocks[b].instructions))
    ensures forall b :: 0 <= b < |f.blocks| ==>
      f.blocks[b].succs == NameTargets(f.blocks, old(f.blocks[b].instructions))
    ensures forall b :: 0 <= b < |f.blocks| ==>
      f.blocks[b].preds == set p | 0 <= p < |f.blocks| && b in f.blocks[p].succs
    ensures Consistent(CfgOf(f))
  {
    var blocks := f.blocks;
    var n := |blocks|;
    ghost var orig := seq(n, j requires 0 <= j < n reads blocks => blocks[j].instructions);
    for b := 0 to n
      invariant forall j :: 0 <= j < b ==> blocks[j].instructions == ResolveAll(blocks, j, orig[j])
      invariant forall j :: b <= j < n ==> blocks[j].instructions == orig[j]
      invariant forall j :: 0 <= j < n ==> blocks[j].succs == old(blocks[j].succs) && blocks[j].preds == old(blocks[j].preds)
    {
      ResolveBlock(blocks, b, blocks[b]);
    }
    ClearEdges(blocks);
    InstallEdges(blocks, orig);
    forall b, k | 0 <= b < n && 0 <= k < |blocks[b].instructions|
      ensures Settled(blocks, b, blocks[b].instructions[k])
    {
      ResolveSettled(blocks, b, orig[b][k]);
    }
  }

  /** The edge sets of `f`'s blocks, in block order. */
  function CfgOf(f: Function): (g: Cfg)
    reads f, f.blocks
    ensures |g.preds| == |g.succs| == |f.blocks|
    ensures forall b :: 0 <= b < |f.blocks| ==> g.preds[b] == f.blocks[b].preds && g.succs[b] == f.blocks[b].succs
  {
    Cfg(seq(|f.blocks|, b requires 0 <= b < |f.blocks| reads f, f.blocks => f.blocks[b].preds),
        seq(|f.blocks|, b requires 0 <= b < |f.blocks| reads f, f.blocks => f.blocks[b].succs))
  }

  /** `x` can be reached from `a` along successor edges. */
  ghost predicate ReachableFrom(g: Cfg, a: nat, x: nat) {
    exists p :: IsPath(g, p) && p[0] == a && p[|p| - 1] == x
  }

  /** Prepending an edge to a walk gives a walk. */
  lemma ReachStep(g: Cfg, a: nat, t: nat, x: nat)
    requires a < Size(g) && t in g.succs[a] && ReachableFrom(g, t, x)
    ensures ReachableFrom(g, a, x)
  {
    var p :| IsPath(g, p) && p[0] == t && p[|p| - 1] == x;
    var q := [a] + p;
    assert forall k :: 0 <= k < |q| - 1 ==> q[k + 1] == p[k];
    assert IsPath(g, q);
  }

  /** `dfsTraversal`: a null start, or one already visited, changes nothing.
      Otherwise `start` and everything reachable from it through blocks not yet
      visited is visited, each newly visited block is appended to `order`
      exactly once, `start` first, and every successor of a newly visited
      block ends up visited. Successors are taken in an unspecified order. */
  method DfsTraversal(g: Cfg, start: Option<nat>, visited: set<nat>, order: seq<nat>)
    returns (vis: set<nat>, ord: seq<nat>)
    requires WellFormed(g) && (start.Some? ==> start.value < Size(g))
    requires forall x :: x in visited ==> x < Size(g)
    ensures start.None? || start.value in visited ==> vis == visited && ord == order
    ensures start.Some? ==> start.value in vis
    ensures start.Some? && start.value !in visited ==> |ord| > |order| && ord[|order|] == start.value
    ensures visited <= vis && forall x :: x in vis ==> x < Size(g)
    ensures |order| <= |ord| && ord[..|order|] == order
    ensures forall x :: x in vis - visited <==> x in ord[|order|..]
    ensures forall i, j :: |order| <= i < j < |ord| ==> ord[i] != ord[j]
    ensures forall x :: x in vis - visited ==> g.succs[x] <= vis
    ensures forall x :: x in vis - visited ==> ReachableFrom(g, start.value, x)
    decreases AllBlocks(Size(g)) - visited
  {
    if start.None? || start.value in visited {
      return visited, order;
    }
    var s := start.value;
    assert IsPath(g, [s]);
    vis := visited + {s};
    ord := order + [s];
    var todo := g.succs[s];
    while todo != {}
      invariant visited + {s} <= vis && forall x :: x in vis ==> x < Size(g)
      invariant todo <= g.succs[s] && g.succs[s] - todo <= vis
      invariant |order| < |ord| && ord[..|order|] == order && ord[|order|] == s
      invariant forall x :: x in vis - visited <==> x in ord[|order|..]
      invariant forall i, j :: |order| <= i < j < |ord| ==> ord[i] != ord[j]
      invariant forall x :: x in vis - visited - {s} ==> g.succs[x] <= vis
      invariant forall x :: x in vis - visited ==> ReachableFrom(g, s, x)
      decreases todo
    {
      var t :| t in todo;
      todo := todo - {t};
      ghost var before, beforeOrd := vis, ord;
      vis, ord := DfsTraversal(g, Some(t), vis, ord);
      assert ord[..|order|] == beforeOrd[..|order|];
      assert forall k :: 0 <= k < |beforeOrd| ==> ord[k] == beforeOrd[k];
      forall x | x in vis - visited
        ensures x in ord[|order|..]
      {
        if x in before {
          assert x in beforeOrd[|order|..];
          var k :| 0 <= k < |beforeOrd| - |order| && beforeOrd[|order|..][k] == x;
          assert ord[|order| + k] == x;
        } else {
          assert x in ord[|beforeOrd|..];
          var k :| 0 <= k < |ord| - |beforeOrd| && ord[|beforeOrd|..][k] == x;
          assert ord[|beforeOrd| + k] == x;
        }
      }
      forall k | |order| <= k < |ord|
        ensures ord[k] in vis - visited
      {
        if k >= |beforeOrd| {
          assert ord[k] in ord[|beforeOrd|..];
        } else {
          assert beforeOrd[k] in beforeOrd[|order|..];
        }
      }
      forall i, j | |order| <= i < j < |ord|
        ensures ord[i] != ord[j]
      {
        if j >= |beforeOrd| {
          assert ord[j] in ord[|beforeOrd|..];
          if i < |beforeOrd| {
            assert beforeOrd[i] in beforeOrd[|order|..];
          }
        }
      }
      forall x | x in vis - visited
        ensures ReachableFrom(g, s, x)
      {
        if x !in before {
          ReachStep(g, s, t, x);
        }
      }
    }
  }
}
