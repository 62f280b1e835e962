/** The edge sets of a function's blocks, copied out of the blocks for the
    analyses that only read them. Blocks are numbered `0 .. n-1` in the order
    of the function's block list; block 0 is the entry. */
module Graphs {

  datatype Cfg = Cfg(preds: seq<set<nat>>, succs: seq<set<nat>>)

  function Size(g: Cfg): nat {
    |g.succs|
  }

  /** All block numbers below `n`. */
  function AllBlocks(n: nat): (r: set<nat>)
    ensures forall x: int :: x in r <==> 0 <= x < n
    ensures |r| == n
  {
    if n == 0 then {} else AllBlocks(n - 1) + {n - 1}
  }

  /** Both edge lists cover the same blocks and every edge stays among them. */
  predicate WellFormed(g: Cfg) {
    && |g.preds| == |g.succs|
    && (forall b, p :: 0 <= b < |g.preds| && p in g.preds[b] ==> p < |g.succs|)
    && (forall b, s :: 0 <= b < |g.succs| && s in g.succs[b] ==> s < |g.succs|)
  }

  /** The invariant the CFG builder establishes: `s` is a successor of `b`
      exactly when `b` is a predecessor of `s`. */
  predicate Consistent(g: Cfg) {
    && WellFormed(g)
    && forall a, b :: 0 <= a < Size(g) && 0 <= b < Size(g) ==> (b in g.succs[a] <==> a in g.preds[b])
  }

  /** A non-empty walk along successor edges. */
  ghost predicate IsPath(g: Cfg, p: seq<nat>) {
    && |p| >= 1
    && (forall k :: 0 <= k < |p| ==> p[k] < Size(g))
    && (forall k :: 0 <= k < |p| - 1 ==> p[k + 1] in g.succs[p[k]])
  }

  /** A walk from the entry block to `b`. */
  ghost predicate EntryPath(g: Cfg, p: seq<nat>, b: nat) {
    IsPath(g, p) && p[0] == 0 && p[|p| - 1] == b
  }

  ghost predicate Reachable(g: Cfg, b: nat) {
    exists p :: EntryPath(g, p, b)
  }

  /** `d` dominates `b`: every walk from the entry to `b` passes through `d`. */
  ghost predicate Dominates(g: Cfg, d: nat, b: nat) {
    forall p :: EntryPath(g, p, b) ==> d in p
  }

  /** No walk of one or more edges returns to where it started. */
  ghost predicate Acyclic(g: Cfg) {
    forall p :: IsPath(g, p) && |p| >= 2 ==> p[0] != p[|p| - 1]
  }
}
