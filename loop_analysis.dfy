/** Natural-loop detection over the edges `buildCFG` installed: one loop per
    back edge, each found by walking predecessors back from its latch, then
    nested by size. */
module LoopAnalysis {
  import opened Instructions
  import opened Graphs
  import opened Dominators

  /** A loop record. Its member set and exit set are filled in place while
      the loop is discovered; its parent and sub-loops while the hierarchy is
      built. */
  class Loop {
    const header: nat
    const latch: nat
    var blocks: set<nat>
    var exits: set<nat>
    var subLoops: seq<Loop>
    var parent: Loop?

    constructor (hdr: nat, lch: nat)
      ensures header == hdr && latch == lch
      ensures blocks == {} && exits == {} && subLoops == [] && parent == null
    {
      header := hdr;
      latch := lch;
      blocks := {};
      exits := {};
      subLoops := [];
      parent := null;
    }

    method AddBlock(b: nat)
      modifies this`blocks
      ensures blocks == old(blocks) + {b}
    {
      blocks := blocks + {b};
    }

    method AddSubLoop(l: Loop)
      modifies this`subLoops
      ensures subLoops == old(subLoops) + [l]
    {
      subLoops := subLoops + [l];
    }

    /** `getDepth`: the number of parent links above this loop, counted by
        walking them. The walk ends because every parent sits earlier in
        `s`, the order the hierarchy was built in. */
    method GetDepth(ghost s: seq<Loop>, ghost k: nat) returns (depth: nat)
      requires ParentsEarlier(s) && k < |s| && s[k] == this
      ensures depth == Depth(s, k)
    {
      depth := 0;
      var current := parent;
      ghost var c: nat := k;
      while current != null
        invariant c < |s| && current == s[c].parent
        invariant depth + Depth(s, c) == Depth(s, k)
        decreases c
      {
        depth := depth + 1;
        c := Up(s, c);
        current := current.parent;
      }
    }

    /** A block belongs to the loop when it is a member or the header. */
    predicate Contains(b: nat)
      reads this`blocks
    {
      InLoop(blocks, header, b)
    }
  }

  /** Block `b` belongs to the loop with members `B` and header `hdr`. */
  predicate InLoop(B: set<nat>, hdr: nat, b: nat) {
    b in B || b == hdr
  }

  /** `S` holds the header and the latch, and every block of `S` other than
      the header has all of its predecessors in `S`. */
  ghost predicate Encloses(g: Cfg, header: nat, latch: nat, S: set<nat>)
    requires WellFormed(g)
  {
    && header in S && latch in S
    && forall b :: b in S && b != header && b < Size(g) ==> g.preds[b] <= S
  }

  /** `B` is the natural loop of the edge `latch -> header`: the smallest set
      that encloses it. */
  ghost predicate LoopBody(g: Cfg, header: nat, latch: nat, B: set<nat>)
    requires WellFormed(g)
  {
    && B <= AllBlocks(Size(g))
    && Encloses(g, header, latch, B)
    && forall S :: Encloses(g, header, latch, S) ==> B <= S
  }

  /** The natural loop of `latch -> header`: the blocks that every enclosing
      set holds. */
  ghost function NaturalLoop(g: Cfg, header: nat, latch: nat): set<nat>
    requires WellFormed(g)
  {
    set b: nat | b < Size(g) && InEveryEnclosing(g, header, latch, b)
  }

  ghost predicate InEveryEnclosing(g: Cfg, header: nat, latch: nat, b: nat)
    requires WellFormed(g)
  {
    forall S :: Encloses(g, header, latch, S) ==> b in S
  }

  /** The natural loop is the smallest enclosing set. */
  lemma {:induction false} NaturalLoopIsBody(g: Cfg, header: nat, latch: nat)
    requires WellFormed(g) && header < Size(g) && latch < Size(g)
    ensures LoopBody(g, header, latch, NaturalLoop(g, header, latch))
  {
    var N := NaturalLoop(g, header, latch);
    forall b | b in N && b != header && b < Size(g)
      ensures g.preds[b] <= N
    {
      forall p | p in g.preds[b]
        ensures p in N
      {
        assert p < Size(g);
        forall S | Encloses(g, header, latch, S)
          ensures p in S
        {
          assert g.preds[b] <= S;
        }
      }
    }
  }

  /** It is the only one: any smallest enclosing set is the natural loop. */
  lemma {:induction false} LoopBodyUnique(g: Cfg, header: nat, latch: nat, B: set<nat>)
    requires WellFormed(g) && LoopBody(g, header, latch, B)
    ensures B == NaturalLoop(g, header, latch)
  {
    var N := NaturalLoop(g, header, latch);
    forall b | b in B
      ensures b in N
    {
      assert b < Size(g);
    }
  }

  /** Block `b` has a successor outside the loop with header `hdr` and
      members `B`. */
  ghost predicate Leaves(g: Cfg, hdr: nat, B: set<nat>, b: nat)
    requires WellFormed(g) && b < Size(g)
  {
    exists s :: s in g.succs[b] && !InLoop(B, hdr, s)
  }

  /** The exit blocks: blocks of the loop with a successor outside it. */
  ghost function ExitsOf(g: Cfg, hdr: nat, B: set<nat>): set<nat>
    requires WellFormed(g)
  {
    set b: nat | b < Size(g) && InLoop(B, hdr, b) && Leaves(g, hdr, B, b)
  }

  /** `getLoopExits`: the members, then the header, each recorded when one of
      its successors lies outside the loop. */
  method GetLoopExits(g: Cfg, loop: Loop) returns (exits: set<nat>)
    requires WellFormed(g) && loop.header < Size(g) && loop.blocks <= AllBlocks(Size(g))
    ensures exits == ExitsOf(g, loop.header, loop.blocks)
  {
    exits := {};
    var todo := loop.blocks;
    while todo != {}
      invariant todo <= loop.blocks
      invariant exits == ExitsOf(g, loop.header, loop.blocks) * (loop.blocks - todo)
      decreases todo
    {
      var bb :| bb in todo;
      todo := todo - {bb};
      var succs := g.succs[bb];
      while succs != {}
        invariant succs <= g.succs[bb]
        invariant exits - {bb} == ExitsOf(g, loop.header, loop.blocks) * (loop.blocks - todo - {bb})
        invariant bb in exits <==> exists s :: s in g.succs[bb] - succs && !loop.Contains(s)
        decreases succs
      {
        var succ :| succ in succs;
        succs := succs - {succ};
        if !loop.Contains(succ) {
          exits := exits + {bb};
        }
      }
      if Leaves(g, loop.header, loop.blocks, bb) {
        var s :| s in g.succs[bb] && !InLoop(loop.blocks, loop.header, s);
        assert s in g.succs[bb] - succs;
      }
      assert bb in exits <==> bb in ExitsOf(g, loop.header, loop.blocks);
      forall x | x in ExitsOf(g, loop.header, loop.blocks) * (loop.blocks - todo)
        ensures x in exits
      {
        if x != bb {
          assert x in ExitsOf(g, loop.header, loop.blocks) * (loop.blocks - todo - {bb});
        }
      }
      forall x | x in exits
        ensures x in ExitsOf(g, loop.header, loop.blocks) * (loop.blocks - todo)
      {
        if x != bb {
          assert x in exits - {bb};
        }
      }
    }
    var succs := g.succs[loop.header];
    while succs != {}
      invariant succs <= g.succs[loop.header]
      invariant exits - {loop.header} == ExitsOf(g, loop.header, loop.blocks) - {loop.header}
      invariant loop.header in exits <==>
        ((loop.header in loop.blocks && Leaves(g, loop.header, loop.blocks, loop.header))
         || (exists s :: s in g.succs[loop.header] - succs && !loop.Contains(s)))
      decreases succs
    {
      var succ :| succ in succs;
      succs := succs - {succ};
      if !loop.Contains(succ) {
        exits := exits + {loop.header};
      }
    }
    if Leaves(g, loop.header, loop.blocks, loop.header) {
      var s :| s in g.succs[loop.header] && !InLoop(loop.blocks, loop.header, s);
      assert s in g.succs[loop.header] - succs;
    }
    assert loop.header in exits <==> loop.header in ExitsOf(g, loop.header, loop.blocks);
    forall x | x in ExitsOf(g, loop.header, loop.blocks)
      ensures x in exits
    {
      if x != loop.header {
        assert x in ExitsOf(g, loop.header, loop.blocks) - {loop.header};
      }
    }
    forall x | x in exits
      ensures x in ExitsOf(g, loop.header, loop.blocks)
    {
      if x != loop.header {
        assert x in exits - {loop.header};
      }
    }
  }

  /** The exit blocks lie in the loop. */
  lemma ExitsWithin(g: Cfg, hdr: nat, B: set<nat>)
    requires WellFormed(g)
    ensures ExitsOf(g, hdr, B) <= B + {hdr}
  {
  }

  /** `discoverLoop`: a new loop for the edge `latch -> header` whose members
      are its natural loop, found by a stack walk over predecessors that never
      passes the header, and whose exits are what `getLoopExits` reports. */
  method DiscoverLoop(g: Cfg, latch: nat, header: nat) returns (loop: Loop)
    requires WellFormed(g) && latch < Size(g) && header < Size(g)
    ensures fresh(loop)
    ensures loop.header == header && loop.latch == latch && loop.parent == null && loop.subLoops == []
    ensures LoopBody(g, header, latch, loop.blocks) && loop.blocks == NaturalLoop(g, header, latch)
    ensures loop.exits == ExitsOf(g, header, loop.blocks)
  {
    var n := Size(g);
    loop := new Loop(header, latch);
    loop.AddBlock(header);
    var worklist := [latch];
    while worklist != []
      invariant loop.header == header && loop.latch == latch && loop.parent == null && loop.subLoops == []
      invariant header in loop.blocks && loop.blocks <= AllBlocks(n)
      invariant forall w :: w in worklist ==> w < n
      invariant latch in loop.blocks || latch in worklist
      invariant forall b :: b in loop.blocks && b != header ==> forall p :: p in g.preds[b] ==> p in loop.blocks || p in worklist
      invariant forall S :: Encloses(g, header, latch, S) ==> loop.blocks <= S && forall w :: w in worklist ==> w in S
      decreases AllBlocks(n) - loop.blocks, |worklist|
    {
      var current := worklist[|worklist| - 1];
      ghost var wl := worklist;
      worklist := worklist[..|worklist| - 1];
      PopLast(wl);
      assert forall w :: w in worklist ==> w in wl;
      assert forall w :: w in worklist ==> w < n;
      if current in loop.blocks {
        continue;
      }
      loop.AddBlock(current);
      assert forall p :: p in g.preds[current] ==> p < n;
      worklist := PushPreds(loop.blocks, g.preds[current], worklist);
    }
    loop.exits := GetLoopExits(g, loop);
    LoopBodyUnique(g, header, latch, loop.blocks);
  }

  /** Popping the top of a stack leaves the other entries. */
  lemma PopLast<T>(s: seq<T>)
    requires s != []
    ensures forall w :: w in s <==> w in s[..|s| - 1] || w == s[|s| - 1]
  {
    assert s == s[..|s| - 1] + [s[|s| - 1]];
  }

  /** The inner loop of `discoverLoop`: every predecessor not yet in the
      loop is pushed on the worklist. */
  method PushPreds(blocks: set<nat>, preds: set<nat>, worklist: seq<nat>) returns (worklist': seq<nat>)
    ensures forall w :: w in worklist' <==> w in worklist || (w in preds && w !in blocks)
  {
    worklist' := worklist;
    var todo := preds;
    while todo != {}
      invariant todo <= preds
      invariant forall w :: w in worklist' <==> w in worklist || (w in preds - todo && w !in blocks)
      decreases todo
    {
      var pred :| pred in todo;
      todo := todo - {pred};
      if pred !in blocks {
        worklist' := worklist' + [pred];
      }
    }
  }

  /** The loop objects of a sequence. */
  function Objs(s: seq<Loop>): set<Loop> {
    set l | l in s
  }

  predicate Distinct(s: seq<Loop>) {
    forall i, j :: 0 <= i < j < |s| ==> s[i] != s[j]
  }

  /** Member counts never increase along `s`. */
  predicate SortedBySize(s: seq<Loop>)
    reads Objs(s)`blocks
  {
    forall i, j :: 0 <= i < j < |s| ==> |s[i].blocks| >= |s[j].blocks|
  }

  /** The `std::sort` of `buildLoopHierarchy`, by member count, largest
      first. The source leaves the order of equal counts open; this sort
      keeps their earlier order. */
  method SortBySize(a: array<Loop>)
    requires Distinct(a[..])
    modifies a
    ensures multiset(a[..]) == multiset(old(a[..])) && Objs(a[..]) == Objs(old(a[..]))
    ensures Distinct(a[..]) && SortedBySize(a[..])
  {
    for i := 0 to a.Length
      invariant multiset(a[..]) == multiset(old(a[..]))
      invariant Distinct(a[..])
      invariant forall p, q :: 0 <= p < q < i ==> |a[p].blocks| >= |a[q].blocks|
    {
      InsertLast(a, i);
    }
    assert forall l :: l in a[..] <==> l in multiset(a[..]);
    assert forall l :: l in old(a[..]) <==> l in multiset(old(a[..]));
  }

  /** One insertion step: moves `a[i]` left past every smaller loop. */
  method InsertLast(a: array<Loop>, i: nat)
    requires i < a.Length && Distinct(a[..])
    requires forall p, q :: 0 <= p < q < i ==> |a[p].blocks| >= |a[q].blocks|
    modifies a
    ensures multiset(a[..]) == multiset(old(a[..])) && Distinct(a[..])
    ensures forall p, q :: 0 <= p < q <= i ==> |a[p].blocks| >= |a[q].blocks|
    ensures forall k :: i < k < a.Length ==> a[k] == old(a[k])
  {
    var j := i;
    while j > 0 && |a[j - 1].blocks| < |a[j].blocks|
      invariant 0 <= j <= i
      invariant multiset(a[..]) == multiset(old(a[..])) && Distinct(a[..])
      invariant forall p, q :: 0 <= p < q <= i && p != j && q != j ==> |a[p].blocks| >= |a[q].blocks|
      invariant forall q :: j < q <= i ==> |a[q].blocks| < |a[j].blocks|
      invariant forall k :: i < k < a.Length ==> a[k] == old(a[k])
    {
      Swap(a, j - 1, j);
      j := j - 1;
    }
  }

  method Swap(a: array<Loop>, x: nat, y: nat)
    requires x < y < a.Length && Distinct(a[..])
    modifies a
    ensures a[..] == old(a[..])[x := old(a[y])][y := old(a[x])]
    ensures multiset(a[..]) == multiset(old(a[..])) && Distinct(a[..])
  {
    a[x], a[y] := a[y], a[x];
  }

  /** The member sets of a sequence of loops. */
  function Members(s: seq<Loop>): (r: seq<set<nat>>)
    reads Objs(s)`blocks
    ensures |r| == |s| && forall k :: 0 <= k < |s| ==> r[k] == s[k].blocks
  {
    if s == [] then [] else [s[0].blocks] + Members(s[1..])
  }

  /** The headers of a sequence of loops. */
  function Headers(s: seq<Loop>): (r: seq<nat>)
    ensures |r| == |s| && forall k :: 0 <= k < |s| ==> r[k] == s[k].header
  {
    if s == [] then [] else [s[0].header] + Headers(s[1..])
  }

  /** Loop `i` contains the header of loop `j`, for loops given by their
      member sets `mem` and headers `hdr`. */
  predicate HoldsHeader(mem: seq<set<nat>>, hdr: seq<nat>, i: nat, j: nat)
    requires i < |mem| == |hdr| && j < |hdr|
  {
    InLoop(mem[i], hdr[i], hdr[j])
  }

  /** The position of the last loop before `bound` that contains the header
      of loop `j`. */
  function ParentIndex(mem: seq<set<nat>>, hdr: seq<nat>, j: nat, bound: nat): (r: Option<nat>)
    requires |mem| == |hdr| && j < |hdr| && bound <= |hdr|
    ensures r.Some? ==> r.value < bound && HoldsHeader(mem, hdr, r.value, j)
    ensures r.Some? ==> forall k :: r.value < k < bound ==> !HoldsHeader(mem, hdr, k, j)
    ensures r.None? ==> forall k :: 0 <= k < bound ==> !HoldsHeader(mem, hdr, k, j)
  {
    if bound == 0 then None
    else if HoldsHeader(mem, hdr, bound - 1, j) then Some(bound - 1)
    else ParentIndex(mem, hdr, j, bound - 1)
  }

  /** The loop at an optional position of `s`, or null. */
  function LoopAt(s: seq<Loop>, o: Option<nat>): Loop?
    requires o.Some? ==> o.value < |s|
  {
    if o.Some? then s[o.value] else null
  }

  /** The loops after position `i` and before `j` whose header loop `i`
      contains, in order. */
  function SubLoopsUpTo(s: seq<Loop>, mem: seq<set<nat>>, hdr: seq<nat>, i: nat, j: nat): seq<Loop>
    requires |s| == |mem| == |hdr| && i < |s| && j <= |s|
  {
    if j <= i + 1 then []
    else SubLoopsUpTo(s, mem, hdr, i, j - 1) + (if HoldsHeader(mem, hdr, i, j - 1) then [s[j - 1]] else [])
  }

  function Min(a: nat, b: nat): nat {
    if a < b then a else b
  }

  /** The nested loops of `buildLoopHierarchy` over sorted loops: for each
      `i`, then each later `j`, loop `j` gets parent `i` and is appended to
      `i`'s sub-loops when `i` contains `j`'s header. A later `i` overwrites
      an earlier parent, so the parent that remains is the last one. */
  method LinkLoops(s: seq<Loop>)
    requires Distinct(s)
    requires forall k :: 0 <= k < |s| ==> s[k].parent == null && s[k].subLoops == []
    modifies Objs(s)`parent, Objs(s)`subLoops
    ensures Linked(s)
  {
    ghost var mem, hdr := Members(s), Headers(s);
    ghost var par: seq<Option<nat>> := seq(|s|, _ => None);
    for i := 0 to |s|
      invariant |par| == |s|
      invariant forall m :: 0 <= m < |s| ==> par[m] == ParentIndex(mem, hdr, m, Min(i, m))
      invariant forall m :: 0 <= m < |s| && par[m].Some? ==> par[m].value < |s|
      invariant forall m {:trigger par[m]} :: 0 <= m < |s| ==> s[m].parent == LoopAt(s, par[m])
      invariant forall k :: 0 <= k < i ==> s[k].subLoops == SubLoopsUpTo(s, mem, hdr, k, |s|)
      invariant forall k :: i <= k < |s| ==> s[k].subLoops == []
    {
      par := LinkRow(s, mem, hdr, i, par);
    }
    assert Members(s) == mem;
    forall j | 0 <= j < |s|
      ensures s[j].parent == LoopAt(s, ParentIndex(mem, hdr, j, j))
    {
      assert par[j] == ParentIndex(mem, hdr, j, Min(|s|, j));
    }
  }

  /** The inner loop for one `i`; `par` tracks the position of each parent. */
  method LinkRow(s: seq<Loop>, ghost mem: seq<set<nat>>, ghost hdr: seq<nat>, i: nat, ghost par0: seq<Option<nat>>)
    returns (ghost par: seq<Option<nat>>)
    requires Distinct(s) && i < |s| && |mem| == |hdr| == |s| == |par0|
    requires forall k :: 0 <= k < |s| ==> s[k].blocks == mem[k] && s[k].header == hdr[k]
    requires forall m :: 0 <= m < |s| ==> par0[m] == ParentIndex(mem, hdr, m, Min(i, m))
    requires forall m :: 0 <= m < |s| && par0[m].Some? ==> par0[m].value < |s|
    requires forall m {:trigger par0[m]} :: 0 <= m < |s| ==> s[m].parent == LoopAt(s, par0[m])
    requires s[i].subLoops == []
    modifies Objs(s)`parent, {s[i]}`subLoops
    ensures |par| == |s|
    ensures forall m :: 0 <= m < |s| ==> par[m] == ParentIndex(mem, hdr, m, Min(i + 1, m))
    ensures forall m :: 0 <= m < |s| && par[m].Some? ==> par[m].value < |s|
    ensures forall m {:trigger par[m]} :: 0 <= m < |s| ==> s[m].parent == LoopAt(s, par[m])
    ensures s[i].subLoops == SubLoopsUpTo(s, mem, hdr, i, |s|)
  {
    par := par0;
    for j := i + 1 to |s|
      invariant |par| == |s|
      invariant forall m :: 0 <= m <= i || j <= m < |s| ==> par[m] == par0[m]
      invariant forall m :: i < m < j ==> par[m] == ParentIndex(mem, hdr, m, i + 1)
      invariant forall m :: 0 <= m < |s| && par[m].Some? ==> par[m].value < |s|
      invariant forall m {:trigger par[m]} :: 0 <= m < |s| ==> s[m].parent == LoopAt(s, par[m])
      invariant s[i].subLoops == SubLoopsUpTo(s, mem, hdr, i, j)
    {
      ParentStep(mem, hdr, j, i);
      assert SubLoopsUpTo(s, mem, hdr, i, j + 1) == SubLoopsUpTo(s, mem, hdr, i, j) + if HoldsHeader(mem, hdr, i, j) then [s[j]] else [];
      if s[i].Contains(s[j].header) {
        s[j].parent := s[i];
        s[i].AddSubLoop(s[j]);
        par := par[j := Some(i)];
      }
    }
  }

  /** Scanning one more candidate `i` either makes it the parent of `j` or
      leaves the earlier answer. */
  lemma ParentStep(mem: seq<set<nat>>, hdr: seq<nat>, j: nat, i: nat)
    requires |mem| == |hdr| && i < j < |hdr|
    ensures ParentIndex(mem, hdr, j, i + 1) == if HoldsHeader(mem, hdr, i, j) then Some(i) else ParentIndex(mem, hdr, j, i)
  {
  }

  /** Every parent sits at an earlier position of `s`. */
  ghost predicate ParentsEarlier(s: seq<Loop>)
    reads Objs(s)`parent
  {
    forall k :: 0 <= k < |s| && s[k].parent != null ==> exists i :: 0 <= i < k && s[i] == s[k].parent
  }

  /** The position of loop `k`'s parent. */
  ghost function Up(s: seq<Loop>, k: nat): (i: nat)
    requires ParentsEarlier(s) && k < |s| && s[k].parent != null
    reads Objs(s)`parent
    ensures i < k && s[i] == s[k].parent
  {
    var i :| 0 <= i < k && s[i] == s[k].parent; i
  }

  /** The number of parent links above loop `k`. */
  ghost function Depth(s: seq<Loop>, k: nat): nat
    requires ParentsEarlier(s) && k < |s|
    reads Objs(s)`parent
    decreases k
  {
    if s[k].parent == null then 0 else 1 + Depth(s, Up(s, k))
  }

  /** A loop is as deep as the chain of its parents is long, which is 0 for a
      root and never more than its position. */
  lemma {:induction false} DepthBound(s: seq<Loop>, k: nat)
    requires ParentsEarlier(s) && k < |s|
    ensures Depth(s, k) <= k
    ensures Depth(s, k) == 0 <==> s[k].parent == null
    decreases k
  {
    if s[k].parent != null {
      DepthBound(s, Up(s, k));
    }
  }

  /** `isInnermostLoop`: no sub-loops recorded. */
  predicate IsInnermostLoop(l: Loop)
    reads l`subLoops
  {
    l.subLoops == []
  }

  /** Membership in the sub-loop list: exactly the later loops whose header
      loop `i` contains. */
  lemma {:induction false} SubLoopsExact(s: seq<Loop>, mem: seq<set<nat>>, hdr: seq<nat>, i: nat, b: nat)
    requires Distinct(s) && |s| == |mem| == |hdr| && i < |s| && b <= |s|
    ensures forall j :: 0 <= j < |s| ==>
      (s[j] in SubLoopsUpTo(s, mem, hdr, i, b) <==> i < j < b && HoldsHeader(mem, hdr, i, j))
    ensures SubLoopsUpTo(s, mem, hdr, i, b) == [] <==> forall j :: i < j < b ==> !HoldsHeader(mem, hdr, i, j)
    decreases b
  {
    if b > i + 1 {
      SubLoopsExact(s, mem, hdr, i, b - 1);
    }
  }

  /** What the links of `buildLoopHierarchy` mean once every loop is linked. */
  ghost predicate Linked(s: seq<Loop>)
    reads Objs(s)`parent, Objs(s)`subLoops, Objs(s)`blocks
  {
    && (forall j {:trigger s[j].parent} :: 0 <= j < |s| ==> s[j].parent == LoopAt(s, ParentIndex(Members(s), Headers(s), j, j)))
    && (forall i :: 0 <= i < |s| ==> s[i].subLoops == SubLoopsUpTo(s, Members(s), Headers(s), i, |s|))
  }

  /** The parent of loop `j` is the last earlier loop containing its
      header, or null when there is none. */
  lemma ParentOf(s: seq<Loop>, j: nat) returns (i: int)
    requires Distinct(s) && Linked(s) && j < |s|
    ensures s[j].parent == null <==> i < 0
    ensures i < 0 ==> forall k :: 0 <= k < j ==> !s[k].Contains(s[j].header)
    ensures i >= 0 ==> i < j && s[i] == s[j].parent && s[i].Contains(s[j].header)
    ensures i >= 0 ==> forall k :: i < k < j ==> !s[k].Contains(s[j].header)
  {
    var mem, hdr := Members(s), Headers(s);
    var p := ParentIndex(mem, hdr, j, j);
    assert s[j].parent == LoopAt(s, p);
    if p.Some? {
      i := p.value;
      assert s[i] == s[j].parent;
      assert s[i].Contains(s[j].header);
      forall k | i < k < j
        ensures !s[k].Contains(s[j].header)
      {
        assert !HoldsHeader(mem, hdr, k, j);
      }
    } else {
      i := -1;
      forall k | 0 <= k < j
        ensures !s[k].Contains(s[j].header)
      {
        assert !HoldsHeader(mem, hdr, k, j);
      }
    }
  }

  /** The parents: every parent sits earlier; a loop has no parent exactly
      when no earlier loop contains its header; a parent contains the
      header and, with the loops sorted, is the smallest earlier loop that
      does. */
  lemma {:induction false} LinkedParents(s: seq<Loop>)
    requires Distinct(s) && Linked(s)
    ensures ParentsEarlier(s)
    ensures forall j :: 0 <= j < |s| ==>
      (s[j].parent == null <==> forall k :: 0 <= k < j ==> !s[k].Contains(s[j].header))
    ensures forall j :: 0 <= j < |s| && s[j].parent != null ==> s[j].parent.Contains(s[j].header)
    ensures SortedBySize(s) ==> forall j, k :: 0 <= k < j < |s| && s[j].parent != null && s[k].Contains(s[j].header) ==>
      |s[j].parent.blocks| <= |s[k].blocks|
  {
    forall j | 0 <= j < |s|
      ensures s[j].parent != null ==> exists i :: 0 <= i < j && s[i] == s[j].parent
      ensures s[j].parent == null <==> forall k :: 0 <= k < j ==> !s[k].Contains(s[j].header)
      ensures s[j].parent != null ==> s[j].parent.Contains(s[j].header)
      ensures SortedBySize(s) ==> forall k :: 0 <= k < j && s[j].parent != null && s[k].Contains(s[j].header) ==>
        |s[j].parent.blocks| <= |s[k].blocks|
    {
      var i := ParentOf(s, j);
      if i >= 0 {
        assert 0 <= i < j && s[i] == s[j].parent;
        if SortedBySize(s) {
          ParentSmallest(s, i, j);
        }
      }
    }
  }

  /** With the loops sorted, the parent at `i` of loop `j` is no larger than
      any earlier loop holding `j`'s header. */
  lemma ParentSmallest(s: seq<Loop>, i: nat, j: nat)
    requires SortedBySize(s) && i < j < |s|
    requires forall k :: i < k < j ==> !s[k].Contains(s[j].header)
    ensures forall k :: 0 <= k < j && s[k].Contains(s[j].header) ==> |s[i].blocks| <= |s[k].blocks|
  {
    forall k | 0 <= k < j && s[k].Contains(s[j].header)
      ensures |s[i].blocks| <= |s[k].blocks|
    {
      assert k <= i;
    }
  }

  /** The sub-loops: those of `i` are exactly the later loops whose header
      `i` contains, so `i` is innermost exactly when there are none. */
  lemma {:induction false} LinkedSubLoops(s: seq<Loop>)
    requires Distinct(s) && Linked(s)
    ensures forall i, j :: 0 <= i < |s| && 0 <= j < |s| ==>
      (s[j] in s[i].subLoops <==> i < j && s[i].Contains(s[j].header))
    ensures forall i :: 0 <= i < |s| ==>
      (IsInnermostLoop(s[i]) <==> forall j :: i < j < |s| ==> !s[i].Contains(s[j].header))
  {
    var mem, hdr := Members(s), Headers(s);
    forall i | 0 <= i < |s| {
      SubLoopsExact(s, mem, hdr, i, |s|);
    }
    forall i | 0 <= i < |s|
      ensures IsInnermostLoop(s[i]) <==> forall j :: i < j < |s| ==> !s[i].Contains(s[j].header)
    {
      SubLoopsExact(s, mem, hdr, i, |s|);
    }
  }

  /** `buildLoopHierarchy`: sort the loops by size, largest first, then link
      them. */
  method BuildLoopHierarchy(a: array<Loop>)
    requires Distinct(a[..])
    requires forall l :: l in a[..] ==> l.parent == null && l.subLoops == []
    modifies a, Objs(a[..])`parent, Objs(a[..])`subLoops
    ensures multiset(a[..]) == multiset(old(a[..])) && Objs(a[..]) == old(Objs(a[..]))
    ensures Distinct(a[..]) && SortedBySize(a[..]) && Linked(a[..])
  {
    ghost var objs := Objs(a[..]);
    assert forall l :: l in objs ==> Unlinked(l);
    SortBySize(a);
    var s := a[..];
    assert Objs(s) == objs && Distinct(s) && SortedBySize(s);
    assert forall k :: 0 <= k < |s| ==> Unlinked(s[k]) by {
      assert forall k :: 0 <= k < |s| ==> s[k] in objs;
    }
    LinkLoops(s);
    assert a[..] == s;
  }

  /** The back edges `b -> s` of the CFG, those whose target dominates their
      source under the dominator sets `dom`, as (latch, header) pairs. */
  ghost function BackEdges(g: Cfg, dom: seq<set<nat>>): set<(nat, nat)>
    requires |dom| == Size(g)
  {
    set b: nat, s: nat | b < Size(g) && s in g.succs[b] && s in dom[b] :: (b, s)
  }

  /** The back edges whose latch lies below `bound`. */
  ghost function BackEdgesBelow(g: Cfg, dom: seq<set<nat>>, bound: nat): set<(nat, nat)>
    requires |dom| == Size(g)
  {
    set b: nat, s: nat | b < bound && b < Size(g) && s in g.succs[b] && s in dom[b] :: (b, s)
  }

  /** The (latch, header) pair of every loop of `s`. */
  ghost function Edges(s: seq<Loop>): set<(nat, nat)> {
    set l | l in s :: (l.latch, l.header)
  }

  /** No two loops of `s` share a (latch, header) pair. */
  predicate EdgesDistinct(s: seq<Loop>) {
    forall i, j :: 0 <= i < j < |s| ==> (s[i].latch, s[i].header) != (s[j].latch, s[j].header)
  }

  /** The members and exits `discoverLoop` gives a loop of the graph `g`. */
  ghost predicate Bodied(g: Cfg, l: Loop)
    requires WellFormed(g)
    reads l`blocks, l`exits
  {
    l.blocks == NaturalLoop(g, l.header, l.latch) && l.exits == ExitsOf(g, l.header, l.blocks)
  }

  /** Not yet linked into a hierarchy. */
  predicate Unlinked(l: Loop)
    reads l`parent, l`subLoops
  {
    l.parent == null && l.subLoops == []
  }

  /** Appending a loop for a new edge keeps the loops and their edges distinct. */
  lemma AppendLoop(s: seq<Loop>, l: Loop)
    requires Distinct(s) && EdgesDistinct(s) && (l.latch, l.header) !in Edges(s)
    ensures Distinct(s + [l]) && EdgesDistinct(s + [l])
    ensures Edges(s + [l]) == Edges(s) + {(l.latch, l.header)}
  {
    forall k | 0 <= k < |s|
      ensures s[k] != l && (s[k].latch, s[k].header) != (l.latch, l.header)
    {
      assert (s[k].latch, s[k].header) in Edges(s);
    }
    var t := s + [l];
    forall e | e in Edges(t)
      ensures e in Edges(s) + {(l.latch, l.header)}
    {
      var x :| x in t && e == (x.latch, x.header);
      if x != l {
        assert x in s;
      }
    }
    forall e | e in Edges(s) + {(l.latch, l.header)}
      ensures e in Edges(t)
    {
      if e in Edges(s) {
        var x :| x in s && e == (x.latch, x.header);
        assert x in t;
      } else {
        assert l in t;
      }
    }
  }

  /** The back edges out of block `b` to the targets in `done`. */
  ghost function BackEdgesAt(g: Cfg, dom: seq<set<nat>>, b: nat, done: set<nat>): set<(nat, nat)>
    requires |dom| == Size(g) && b < Size(g)
  {
    set s | s in done && s in dom[b] :: (b, s)
  }

  /** Scanning one more successor `s` of block `b`. */
  lemma BackEdgesAtStep(g: Cfg, dom: seq<set<nat>>, b: nat, done: set<nat>, s: nat)
    requires |dom| == Size(g) && b < Size(g) && s !in done
    ensures BackEdgesAt(g, dom, b, done + {s}) == BackEdgesAt(g, dom, b, done) + if s in dom[b] then {(b, s)} else {}
    ensures (b, s) !in BackEdgesBelow(g, dom, b) + BackEdgesAt(g, dom, b, done)
  {
  }

  /** Once every successor of `b` is scanned, the back edges below `b + 1`
      are found. */
  lemma BackEdgesBelowStep(g: Cfg, dom: seq<set<nat>>, b: nat)
    requires |dom| == Size(g) && b < Size(g)
    ensures BackEdgesBelow(g, dom, b + 1) == BackEdgesBelow(g, dom, b) + BackEdgesAt(g, dom, b, g.succs[b])
  {
  }

  /** `findLoops`: one natural loop per back edge, found block by block and
      successor by successor, then sorted and linked. The dominator sets
      used are the ones `computeDominators` returns: a solution of the
      dominator equations above every other solution. */
  method FindLoops(g: Cfg) returns (loops: seq<Loop>, dom: seq<set<nat>>)
    requires WellFormed(g)
    ensures Solution(g, dom) && forall d :: Solution(g, d) ==> Below(d, dom)
    ensures Distinct(loops) && forall l :: l in loops ==> fresh(l)
    ensures Edges(loops) == BackEdges(g, dom)
    ensures forall x, y :: x in loops && y in loops && x != y ==> (x.latch, x.header) != (y.latch, y.header)
    ensures forall l :: l in loops ==> Bodied(g, l)
    ensures SortedBySize(loops) && Linked(loops)
  {
    dom := ComputeDominators(g);
    var found := DiscoverAll(g, dom);
    loops := LinkFound(g, found);
    EdgesInjective(found);
    SameLoops(loops, found);
  }

  /** The two loops of `findLoops` over blocks and their successors. */
  method DiscoverAll(g: Cfg, dom: seq<set<nat>>) returns (found: seq<Loop>)
    requires WellFormed(g) && |dom| == Size(g)
    ensures Ready(g, found) && Edges(found) == BackEdges(g, dom)
    ensures forall l :: l in found ==> fresh(l)
  {
    found := [];
    for bb := 0 to Size(g)
      invariant Ready(g, found) && Edges(found) == BackEdgesBelow(g, dom, bb)
      invariant forall l :: l in found ==> fresh(l)
    {
      found := FindLoopsAt(g, dom, bb, found);
    }
    assert BackEdgesBelow(g, dom, Size(g)) == BackEdges(g, dom);
  }

  /** The end of `findLoops`: the discovered loops, put in an array, sorted
      and linked. */
  method LinkFound(g: Cfg, found: seq<Loop>) returns (loops: seq<Loop>)
    requires WellFormed(g) && Ready(g, found)
    modifies Objs(found)`parent, Objs(found)`subLoops
    ensures Distinct(loops) && Objs(loops) == Objs(found) && Edges(loops) == Edges(found)
    ensures forall l :: l in loops ==> Bodied(g, l)
    ensures SortedBySize(loops) && Linked(loops)
  {
    var a := new Loop[|found|](k requires 0 <= k < |found| => found[k]);
    assert a[..] == found;
    BuildLoopHierarchy(a);
    loops := a[..];
    SameLoops(loops, found);
    assert forall l :: l in loops ==> l in found;
  }

  /** Two sequences holding the same loops hold the same edges, and a loop
      of one is a loop of the other. */
  lemma SameLoops(s: seq<Loop>, t: seq<Loop>)
    requires Objs(s) == Objs(t)
    ensures Edges(s) == Edges(t)
    ensures forall l :: l in s ==> exists k :: 0 <= k < |t| && t[k] == l
  {
    assert forall l :: l in s <==> l in Objs(s);
    assert forall l :: l in t <==> l in Objs(t);
  }

  /** Distinct edges at distinct positions: distinct loops have distinct
      edges. */
  lemma EdgesInjective(s: seq<Loop>)
    requires EdgesDistinct(s)
    ensures forall x, y :: x in s && y in s && x != y ==> (x.latch, x.header) != (y.latch, y.header)
  {
    forall x, y | x in s && y in s && x != y
      ensures (x.latch, x.header) != (y.latch, y.header)
    {
      var i :| 0 <= i < |s| && s[i] == x;
      var j :| 0 <= j < |s| && s[j] == y;
      if j < i {
        assert (s[j].latch, s[j].header) != (s[i].latch, s[i].header);
      }
    }
  }

  /** Loops as `discoverLoop` returns them, none linked yet, for distinct
      edges. */
  ghost predicate Ready(g: Cfg, s: seq<Loop>)
    requires WellFormed(g)
    reads Objs(s)`blocks, Objs(s)`exits, Objs(s)`parent, Objs(s)`subLoops
  {
    Distinct(s) && EdgesDistinct(s) && forall l :: l in s ==> Bodied(g, l) && Unlinked(l)
  }

  /** The inner loop of `findLoops` for block `bb`: a loop for each
      successor that dominates `bb`, appended to `found`. */
  method FindLoopsAt(g: Cfg, dom: seq<set<nat>>, bb: nat, found: seq<Loop>) returns (found': seq<Loop>)
    requires WellFormed(g) && |dom| == Size(g) && bb < Size(g)
    requires Ready(g, found) && Edges(found) == BackEdgesBelow(g, dom, bb)
    ensures Ready(g, found') && Edges(found') == BackEdgesBelow(g, dom, bb + 1)
    ensures forall l :: l in found' ==> l in found || fresh(l)
  {
    found' := found;
    var todo := g.succs[bb];
    ghost var done: set<nat> := {};
    while todo != {}
      invariant todo <= g.succs[bb] && done == g.succs[bb] - todo
      invariant Ready(g, found') && Edges(found') == BackEdgesBelow(g, dom, bb) + BackEdgesAt(g, dom, bb, done)
      invariant forall l :: l in found' ==> l in found || fresh(l)
      decreases |todo|
    {
      var succ :| succ in todo;
      BackEdgesAtStep(g, dom, bb, done, succ);
      if succ in dom[bb] {
        found' := AddLoop(g, bb, succ, found');
        UnionStep(BackEdgesBelow(g, dom, bb), BackEdgesAt(g, dom, bb, done), (bb, succ));
      }
      todo := todo - {succ};
      done := done + {succ};
      assert done == g.succs[bb] - todo;
    }
    BackEdgesBelowStep(g, dom, bb);
  }

  lemma UnionStep<T>(a: set<T>, b: set<T>, e: T)
    ensures (a + b) + {e} == a + (b + {e})
  {
  }

  /** One step of that loop: the loop of the back edge `latch -> header`,
      discovered and appended. */
  method AddLoop(g: Cfg, latch: nat, header: nat, found: seq<Loop>) returns (found': seq<Loop>)
    requires WellFormed(g) && latch < Size(g) && header < Size(g)
    requires Ready(g, found) && (latch, header) !in Edges(found)
    ensures Ready(g, found') && Edges(found') == Edges(found) + {(latch, header)}
    ensures forall l :: l in found' ==> l in found || fresh(l)
  {
    var loop := DiscoverLoop(g, latch, header);
    AppendLoop(found, loop);
    found' := found + [loop];
  }

  /** The back edges whose latch the entry can reach. */
  ghost function ReachableBackEdges(g: Cfg, dom: seq<set<nat>>): (r: set<(nat, nat)>)
    requires |dom| == Size(g)
    ensures r <= BackEdges(g, dom)
  {
    set b: nat, s: nat | b < Size(g) && Reachable(g, b) && s in g.succs[b] && s in dom[b] :: (b, s)
  }

  /** A back edge out of a reachable block closes a cycle under any
      solution of the dominator equations: the header lies on every entry
      path to the latch, and the rest of such a path, followed by the edge,
      returns to the header. */
  lemma {:induction false} BackEdgeCycle(g: Cfg, dom: seq<set<nat>>, b: nat, s: nat)
    requires Consistent(g) && Solution(g, dom)
    requires b < Size(g) && Reachable(g, b) && s in g.succs[b] && s in dom[b]
    ensures exists c :: IsPath(g, c) && |c| >= 2 && c[0] == c[|c| - 1] == s
  {
    var p :| EntryPath(g, p, b);
    SolutionSound(g, dom, p, b, s);
    var i :| 0 <= i < |p| && p[i] == s;
    var c := p[i..] + [s];
    forall k | 0 <= k < |c| - 1
      ensures c[k + 1] in g.succs[c[k]]
    {
      if k < |c| - 2 {
        assert c[k] == p[i + k] && c[k + 1] == p[i + k + 1];
      }
    }
    assert IsPath(g, c) && c[0] == s;
  }

  /** So an acyclic CFG has no back edge out of a reachable block. */
  lemma AcyclicNoReachableBackEdge(g: Cfg, dom: seq<set<nat>>)
    requires Consistent(g) && Solution(g, dom)
    ensures Acyclic(g) ==> ReachableBackEdges(g, dom) == {}
  {
    forall e | e in ReachableBackEdges(g, dom)
      ensures !Acyclic(g)
    {
      BackEdgeCycle(g, dom, e.0, e.1);
    }
  }

  /** The CFG of a function whose entry returns, while a block the entry
      cannot reach jumps to a third block that returns. */
  function SpuriousCfg(): (g: Cfg)
    ensures Consistent(g) && Size(g) == 3
  {
    Cfg([{}, {}, {1}], [{}, {2}, {}])
  }

  /** `findLoops` as written reports a loop in that acyclic CFG: the
      unreachable block 1 keeps every block as its dominators, so its edge
      to block 2 counts as a back edge. */
  lemma {:induction false} SpuriousLoop(dom: seq<set<nat>>)
    requires Solution(SpuriousCfg(), dom) && forall d :: Solution(SpuriousCfg(), d) ==> Below(d, dom)
    ensures Acyclic(SpuriousCfg()) && !Reachable(SpuriousCfg(), 1)
    ensures (1, 2) in BackEdges(SpuriousCfg(), dom) && (1, 2) !in ReachableBackEdges(SpuriousCfg(), dom)
  {
    var g := SpuriousCfg();
    var all := AllBlocks(3);
    var top := [{0}, all, all];
    assert Step(g, top, 2) == all by {
      assert forall d: nat :: d < 3 ==> InEvery(top, {1}, d);
    }
    assert Solution(g, top);
    assert Below(top, dom);
    assert 2 in dom[1];
    forall p | IsPath(g, p) && |p| >= 2
      ensures p[0] == 1 && p[|p| - 1] == 2
    {
      assert p[1] in g.succs[p[0]];
      assert p[|p| - 1] in g.succs[p[|p| - 2]];
    }
  }
}
