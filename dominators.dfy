/** `computeDominators`: the iterative data-flow computation of dominator
    sets over the edges `buildCFG` installed. The result is indexed by block
    number; the source's map from block to set has one entry per block. */
module Dominators {
  import opened Graphs

  /** The blocks, among the first `|dom|`, that lie in `dom[p]` for every `p`
      in `ps`; for an empty `ps` that is every block. */
  function Meet(dom: seq<set<nat>>, ps: set<nat>): set<nat>
    requires forall p :: p in ps ==> p < |dom|
  {
    set d: nat | d < |dom| && InEvery(dom, ps, d)
  }

  predicate InEvery(dom: seq<set<nat>>, ps: set<nat>, d: nat)
    requires forall p :: p in ps ==> p < |dom|
  {
    forall p :: p in ps ==> d in dom[p]
  }

  /** One application of the data-flow equation at block `b`. */
  function Step(g: Cfg, dom: seq<set<nat>>, b: nat): set<nat>
    requires WellFormed(g) && |dom| == Size(g) && b < Size(g)
  {
    {b} + Meet(dom, g.preds[b])
  }

  /** One set per block, each made of block numbers. */
  predicate InRange(n: nat, dom: seq<set<nat>>) {
    |dom| == n && forall b :: 0 <= b < n ==> dom[b] <= AllBlocks(n)
  }

  /** A solution of the dominator equations: the entry is dominated by itself
      alone, and every other block that has predecessors is dominated by
      itself and by whatever dominates all of its predecessors. */
  ghost predicate Solution(g: Cfg, dom: seq<set<nat>>) {
    && WellFormed(g)
    && InRange(Size(g), dom)
    && (Size(g) > 0 ==> dom[0] == {0})
    && forall b :: 1 <= b < Size(g) && g.preds[b] != {} ==> dom[b] == Step(g, dom, b)
  }

  /** Pointwise inclusion. */
  predicate Below(d1: seq<set<nat>>, d2: seq<set<nat>>) {
    |d1| == |d2| && forall b :: 0 <= b < |d1| ==> d1[b] <= d2[b]
  }

  /** The sum of the sizes of all sets: every change the iteration makes
      lowers it, which is why the iteration stops. */
  function Total(dom: seq<set<nat>>): nat {
    if dom == [] then 0 else |dom[0]| + Total(dom[1..])
  }

  lemma {:induction false} TotalUpdate(dom: seq<set<nat>>, b: nat, x: set<nat>)
    requires b < |dom|
    ensures Total(dom[b := x]) + |dom[b]| == Total(dom) + |x|
  {
    if b == 0 {
      assert dom[b := x][1..] == dom[1..];
    } else {
      assert dom[b := x][1..] == dom[1..][b - 1 := x];
      TotalUpdate(dom[1..], b - 1, x);
    }
  }

  /** Shrinking the sets shrinks every meet. */
  lemma MeetMonotone(d1: seq<set<nat>>, d2: seq<set<nat>>, ps: set<nat>)
    requires Below(d1, d2) && forall p :: p in ps ==> p < |d1|
    ensures Meet(d1, ps) <= Meet(d2, ps)
  {
  }

  /** Lines 80-94: the intersection of the dominator sets of `b`'s
      predecessors, starting from one of them and filtering by each other
      one in turn. The order in which predecessors are visited is
      unspecified and does not matter. */
  method IntersectPreds(g: Cfg, dom: seq<set<nat>>, b: nat) returns (newDoms: set<nat>)
    requires WellFormed(g) && InRange(Size(g), dom) && b < Size(g) && g.preds[b] != {}
    ensures newDoms == Meet(dom, g.preds[b])
  {
    var preds := g.preds[b];
    var firstPred :| firstPred in preds;
    newDoms := dom[firstPred];
    var rest := preds;
    while rest != {}
      invariant rest <= preds
      invariant newDoms == set d | d in dom[firstPred] && forall p :: p in preds - rest ==> d in dom[p]
      decreases rest
    {
      var pred :| pred in rest;
      rest := rest - {pred};
      if pred == firstPred {
        continue;
      }
      var temp: set<nat> := {};
      var todo := newDoms;
      while todo != {}
        invariant todo <= newDoms
        invariant temp == set d | d in newDoms - todo && d in dom[pred]
        decreases todo
      {
        var d :| d in todo;
        todo := todo - {d};
        if d in dom[pred] {
          temp := temp + {d};
        }
      }
      newDoms := temp;
    }
    assert newDoms == Meet(dom, preds) by {
      forall d | d in Meet(dom, preds)
        ensures d in newDoms
      {
        assert d in dom[firstPred];
      }
    }
  }

  /** What holds of the sets between passes: the entry has itself alone, a
      block without predecessors has every block, and no set is below what
      one more application of the equation would give it. */
  ghost predicate Iterating(g: Cfg, dom: seq<set<nat>>) {
    && WellFormed(g)
    && InRange(Size(g), dom)
    && Size(g) > 0 && dom[0] == {0}
    && (forall b :: 1 <= b < Size(g) && g.preds[b] == {} ==> dom[b] == AllBlocks(Size(g)))
    && (forall b :: 1 <= b < Size(g) && g.preds[b] != {} ==> Step(g, dom, b) <= dom[b])
  }

  /** `dom` includes every solution pointwise. */
  ghost predicate AboveEverySolution(g: Cfg, dom: seq<set<nat>>) {
    forall d :: Solution(g, d) ==> Below(d, dom)
  }

  /** `computeDominators`: an empty function has no entries; otherwise the
      result solves the dominator equations, a block other than the entry
      with no predecessors keeps the set of all blocks, and the result is the
      greatest solution: it includes every other solution pointwise. On the
      mirrored edges `buildCFG` installs, that makes the set of each block
      the entry reaches exactly the blocks on every path from the entry to
      it. */
  method ComputeDominators(g: Cfg) returns (dom: seq<set<nat>>)
    requires WellFormed(g)
    ensures Size(g) == 0 ==> dom == []
    ensures Solution(g, dom)
    ensures forall b :: 1 <= b < Size(g) && g.preds[b] == {} ==> dom[b] == AllBlocks(Size(g))
    ensures forall d :: Solution(g, d) ==> Below(d, dom)
    ensures Consistent(g) ==> forall b :: 0 <= b < Size(g) && Reachable(g, b) ==> dom[b] == PathDominators(g, b)
  {
    var n := Size(g);
    if n == 0 {
      return [];
    }
    dom := seq(n, b => if b == 0 then {0} else AllBlocks(n));
    var changed := true;
    while changed
      invariant Iterating(g, dom) && AboveEverySolution(g, dom)
      invariant !changed ==> forall b :: 1 <= b < n && g.preds[b] != {} ==> dom[b] == Step(g, dom, b)
      decreases Total(dom) + (if changed then 1 else 0)
    {
      dom, changed := Pass(g, dom);
    }
    if Consistent(g) {
      forall b | 0 <= b < n && Reachable(g, b)
        ensures dom[b] == PathDominators(g, b)
      {
        DominatorsExact(g, dom, b);
      }
    }
  }

  /** One pass of the do-while loop (lines 72-103): blocks in order, the
      entry and blocks without predecessors skipped, each set replaced by the
      equation's value when that differs. `changed` reports whether any set
      was replaced; when none was, every equation already holds. */
  method Pass(g: Cfg, dom: seq<set<nat>>) returns (dom': seq<set<nat>>, changed: bool)
    requires Iterating(g, dom) && AboveEverySolution(g, dom)
    ensures Iterating(g, dom') && AboveEverySolution(g, dom')
    ensures Below(dom', dom)
    ensures changed ==> Total(dom') < Total(dom)
    ensures !changed ==> dom' == dom
    ensures !changed ==> forall b :: 1 <= b < Size(g) && g.preds[b] != {} ==> dom[b] == Step(g, dom, b)
  {
    var n := Size(g);
    dom' := dom;
    changed := false;
    for b := 0 to n
      invariant PassInvariant(g, dom, dom', changed, b)
    {
      if b == 0 || g.preds[b] == {} {
        continue;
      }
      var prev, updated := dom', false;
      dom', updated := Visit(g, dom', b);
      VisitKeepsPassInvariant(g, dom, prev, changed, b, dom', updated);
      changed := changed || updated;
    }
  }

  /** What holds after the pass has visited the blocks below `b`. */
  ghost predicate PassInvariant(g: Cfg, dom: seq<set<nat>>, dom': seq<set<nat>>, changed: bool, b: nat) {
    && Iterating(g, dom') && AboveEverySolution(g, dom')
    && Below(dom', dom) && b <= Size(g)
    && Total(dom') <= Total(dom) && (changed ==> Total(dom') < Total(dom))
    && (!changed ==> dom' == dom)
    && (!changed ==> forall j :: 1 <= j < b && g.preds[j] != {} ==> dom[j] == Step(g, dom, j))
  }

  /** Visiting block `b` extends the invariant of the pass to `b + 1`. */
  lemma VisitKeepsPassInvariant(g: Cfg, dom: seq<set<nat>>, prev: seq<set<nat>>, changed: bool, b: nat,
                                dom': seq<set<nat>>, updated: bool)
    requires PassInvariant(g, dom, prev, changed, b)
    requires 1 <= b < Size(g) && g.preds[b] != {}
    requires Iterating(g, dom') && AboveEverySolution(g, dom') && Below(dom', prev)
    requires updated ==> Total(dom') < Total(prev)
    requires !updated ==> dom' == prev && prev[b] == Step(g, prev, b)
    ensures PassInvariant(g, dom, dom', changed || updated, b + 1)
  {
    BelowTransitive(dom', prev, dom);
  }

  lemma BelowTransitive(d1: seq<set<nat>>, d2: seq<set<nat>>, d3: seq<set<nat>>)
    requires Below(d1, d2) && Below(d2, d3)
    ensures Below(d1, d3)
  {
  }

  /** The body of the pass for one block other than the entry that has
      predecessors (lines 79-102). */
  method Visit(g: Cfg, dom: seq<set<nat>>, b: nat) returns (dom': seq<set<nat>>, updated: bool)
    requires Iterating(g, dom) && AboveEverySolution(g, dom)
    requires 1 <= b < Size(g) && g.preds[b] != {}
    ensures Iterating(g, dom') && AboveEverySolution(g, dom')
    ensures Below(dom', dom)
    ensures updated ==> dom' == dom[b := Step(g, dom, b)] && Total(dom') < Total(dom)
    ensures !updated ==> dom' == dom && dom[b] == Step(g, dom, b)
  {
    var newDoms := IntersectPreds(g, dom, b);
    newDoms := newDoms + {b};
    assert newDoms == Step(g, dom, b);
    if newDoms != dom[b] {
      UpdateShrinks(g, dom, b);
      UpdateLowersTotal(dom, b, newDoms);
      return dom[b := newDoms], true;
    }
    return dom, false;
  }

  /** Replacing `dom[b]` by a different `Step(g, dom, b)` keeps the
      iteration's invariants and lowers the total. */
  lemma UpdateShrinks(g: Cfg, dom: seq<set<nat>>, b: nat)
    requires Iterating(g, dom) && AboveEverySolution(g, dom)
    requires 1 <= b < Size(g) && g.preds[b] != {}
    requires Step(g, dom, b) != dom[b]
    ensures var dom' := dom[b := Step(g, dom, b)];
      Iterating(g, dom') && AboveEverySolution(g, dom') && Total(dom') < Total(dom)
  {
    var x := Step(g, dom, b);
    UpdateLowersTotal(dom, b, x);
    UpdateKeepsIterating(g, dom, b);
    UpdateKeepsAbove(g, dom, b);
  }

  lemma UpdateLowersTotal(dom: seq<set<nat>>, b: nat, x: set<nat>)
    requires b < |dom| && x <= dom[b] && x != dom[b]
    ensures Total(dom[b := x]) < Total(dom) && Below(dom[b := x], dom)
  {
    assert exists e :: e in dom[b] && e !in x;
    var gone :| gone in dom[b] && gone !in x;
    SubsetSize(x, dom[b] - {gone});
    TotalUpdate(dom, b, x);
  }

  lemma UpdateKeepsIterating(g: Cfg, dom: seq<set<nat>>, b: nat)
    requires Iterating(g, dom)
    requires 1 <= b < Size(g) && g.preds[b] != {}
    ensures Iterating(g, dom[b := Step(g, dom, b)])
  {
    var dom' := dom[b := Step(g, dom, b)];
    assert Below(dom', dom);
    forall j | 1 <= j < Size(g) && g.preds[j] != {}
      ensures Step(g, dom', j) <= dom'[j]
    {
      MeetMonotone(dom', dom, g.preds[j]);
    }
  }

  lemma UpdateKeepsAbove(g: Cfg, dom: seq<set<nat>>, b: nat)
    requires Iterating(g, dom) && AboveEverySolution(g, dom)
    requires 1 <= b < Size(g) && g.preds[b] != {}
    ensures AboveEverySolution(g, dom[b := Step(g, dom, b)])
  {
    var dom' := dom[b := Step(g, dom, b)];
    forall d | Solution(g, d)
      ensures Below(d, dom')
    {
      MeetMonotone(d, dom, g.preds[b]);
    }
  }

  lemma SubsetSize(a: set<nat>, b: set<nat>)
    requires a <= b
    ensures |a| <= |b|
  {
    assert b == a + (b - a);
  }

  /** The blocks that dominate `b` in the sense of paths from the entry. */
  ghost function PathDominators(g: Cfg, b: nat): set<nat> {
    set d: nat | d < Size(g) && Dominates(g, d, b)
  }

  /** The path dominator sets, with every block for a block the entry cannot
      reach. */
  ghost function PathSolution(g: Cfg): seq<set<nat>> {
    seq(Size(g), (b: nat) => if Reachable(g, b) then PathDominators(g, b) else AllBlocks(Size(g)))
  }

  lemma ExtendPath(g: Cfg, q: seq<nat>, p: nat, b: nat)
    requires EntryPath(g, q, p) && b < Size(g) && b in g.succs[p]
    ensures EntryPath(g, q + [b], b)
  {
  }

  /** The last edge of an entry path of two or more blocks comes from a
      predecessor of its end, and the rest of it is an entry path to that
      predecessor. */
  lemma LastEdge(g: Cfg, r: seq<nat>, b: nat)
    requires Consistent(g) && EntryPath(g, r, b) && |r| >= 2
    ensures r[|r| - 2] in g.preds[b] && EntryPath(g, r[..|r| - 1], r[|r| - 2])
  {
  }

  /** Every solution of the equations is sound: on each path from the entry
      to `b`, every block of `D[b]` occurs. */
  lemma {:induction false} SolutionSound(g: Cfg, D: seq<set<nat>>, p: seq<nat>, b: nat, d: nat)
    requires Consistent(g) && Solution(g, D) && EntryPath(g, p, b) && d in D[b]
    ensures d in p
    decreases |p|
  {
    if b == 0 {
      assert d == 0 && p[0] == 0;
    } else if d != b {
      LastEdge(g, p, b);
      var c := p[|p| - 2];
      assert d in D[c];
      SolutionSound(g, D, p[..|p| - 1], c, d);
      assert p[..|p| - 1] <= p;
    } else {
      assert p[|p| - 1] == d;
    }
  }

  /** A dominator of `b` other than `b` dominates every reachable
      predecessor of `b`. */
  lemma DominatorOfPred(g: Cfg, d: nat, b: nat, p: nat)
    requires Consistent(g) && b < Size(g) && p in g.preds[b] && Dominates(g, d, b) && d != b
    ensures Dominates(g, d, p)
  {
    forall q | EntryPath(g, q, p)
      ensures d in q
    {
      ExtendPath(g, q, p, b);
      assert d in q + [b];
    }
  }

  /** A block that dominates every reachable predecessor of `b` dominates `b`. */
  lemma DominatesViaPreds(g: Cfg, b: nat, d: nat)
    requires Consistent(g) && 1 <= b < Size(g)
    requires forall p :: p in g.preds[b] && Reachable(g, p) ==> Dominates(g, d, p)
    ensures Dominates(g, d, b)
  {
    forall r | EntryPath(g, r, b)
      ensures d in r
    {
      LastEdge(g, r, b);
      var c := r[|r| - 2];
      assert d in r[..|r| - 1];
    }
  }

  /** Whatever the entry reaches, it reaches the successors of. */
  lemma ReachableSucc(g: Cfg, p: nat, b: nat)
    requires Consistent(g) && b < Size(g) && p in g.preds[b] && Reachable(g, p)
    ensures Reachable(g, b)
  {
    var q :| EntryPath(g, q, p);
    ExtendPath(g, q, p, b);
  }

  lemma PathStep(g: Cfg, b: nat)
    requires Consistent(g) && 1 <= b < Size(g) && g.preds[b] != {}
    ensures PathSolution(g)[b] == Step(g, PathSolution(g), b)
  {
    var D := PathSolution(g);
    var n := Size(g);
    forall p | p in g.preds[b]
      ensures Reachable(g, p) ==> Reachable(g, b)
    {
      if Reachable(g, p) {
        ReachableSucc(g, p, b);
      }
    }
    if Reachable(g, b) {
      forall d | d in D[b]
        ensures d in Step(g, D, b)
      {
        if d != b {
          forall p | p in g.preds[b]
            ensures d in D[p]
          {
            if Reachable(g, p) {
              DominatorOfPred(g, d, b, p);
            }
          }
          assert InEvery(D, g.preds[b], d);
        }
      }
      forall d | d in Step(g, D, b)
        ensures d in D[b]
      {
        if d == b {
          assert Dominates(g, b, b);
        } else {
          assert InEvery(D, g.preds[b], d);
          DominatesViaPreds(g, b, d);
        }
      }
    } else {
      forall d | d in D[b]
        ensures d in Step(g, D, b)
      {
        assert InEvery(D, g.preds[b], d);
      }
    }
  }

  /** The path dominator sets solve the equations. */
  lemma PathSolutionSolves(g: Cfg)
    requires Consistent(g)
    ensures Solution(g, PathSolution(g))
  {
    var D := PathSolution(g);
    if Size(g) > 0 {
      assert EntryPath(g, [0], 0);
      forall d | d in D[0]
        ensures d == 0
      {
        assert d in [0];
      }
      assert Dominates(g, 0, 0);
    }
    forall b | 1 <= b < Size(g) && g.preds[b] != {}
      ensures D[b] == Step(g, D, b)
    {
      PathStep(g, b);
    }
  }

  /** The greatest solution is exactly path dominance: for every block the
      entry reaches, its set holds exactly the blocks that lie on every path
      from the entry to it. */
  lemma DominatorsExact(g: Cfg, dom: seq<set<nat>>, b: nat)
    requires Consistent(g) && Solution(g, dom) && AboveEverySolution(g, dom)
    requires b < Size(g) && Reachable(g, b)
    ensures dom[b] == PathDominators(g, b)
  {
    PathSolutionSolves(g);
    assert PathSolution(g)[b] <= dom[b];
    forall d | d in dom[b]
      ensures Dominates(g, d, b)
    {
      forall p | EntryPath(g, p, b)
        ensures d in p
      {
        SolutionSound(g, dom, p, b, d);
      }
    }
  }
}
