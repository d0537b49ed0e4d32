/**
 * `MSTSolver.findReplacementEdge`: the lightest edge of the original graph
 * that crosses the first two components, is not equal (by endpoints) to an
 * edge of the current MST and is not equal to the removed edge; on equal
 * weights the earliest edge in graph order wins.
 */
module Replacement {
  import opened Options
  import opened Edges
  import opened Connectivity
  import opened Components

  /** `e` has one endpoint in `c1` and the other in `c2`, either way round. */
  predicate Crosses(e: Edge, c1: set<int>, c2: set<int>): (b: bool)
    ensures b <==> exists x, y :: x in c1 && y in c2 && Connects(e, x, y)
  {
    (e.src in c1 && e.dest in c2) || (e.dest in c1 && e.src in c2)
  }

  /** `list.contains(e)`: a linear scan comparing with `Equals`. */
  function Contains(es: seq<Edge>, e: Edge): (b: bool)
    ensures b <==> exists k :: 0 <= k < |es| && Equals(e, es[k])
  {
    if |es| == 0 then false
    else
      assert forall k :: 0 < k < |es| ==> es[k] == es[1..][k - 1];
      Equals(e, es[0]) || Contains(es[1..], e)
  }

  /** The conditions an edge of the graph must meet to be chosen. */
  predicate IsCandidate(e: Edge, c1: set<int>, c2: set<int>, mst: seq<Edge>, removed: Edge): (b: bool)
    ensures b <==> Crosses(e, c1, c2) && (forall k :: 0 <= k < |mst| ==> !Equals(e, mst[k])) && !Equals(e, removed)
  {
    Crosses(e, c1, c2) && !Contains(mst, e) && !Equals(e, removed)
  }

  /**
   * After looking at `edges[..i]`: `best` is the index of the lightest
   * candidate seen, the earliest among equally light ones, or `None` when
   * there was no candidate.
   */
  predicate BestSoFar(edges: seq<Edge>, i: int, best: Option<nat>,
                      c1: set<int>, c2: set<int>, mst: seq<Edge>, removed: Edge) {
    && 0 <= i <= |edges|
    && match best
       case None => forall q :: 0 <= q < i ==> !IsCandidate(edges[q], c1, c2, mst, removed)
       case Some(p) =>
         && p < i
         && IsCandidate(edges[p], c1, c2, mst, removed)
         && (forall q :: 0 <= q < i && IsCandidate(edges[q], c1, c2, mst, removed) ==> edges[p].weight <= edges[q].weight)
         && (forall q :: 0 <= q < p && IsCandidate(edges[q], c1, c2, mst, removed) ==> edges[p].weight < edges[q].weight)
  }

  /** The loop over the graph's edges, from position `i` on. */
  function ScanFrom(edges: seq<Edge>, i: nat, best: Option<nat>,
                    c1: set<int>, c2: set<int>, mst: seq<Edge>, removed: Edge): (r: Option<nat>)
    requires BestSoFar(edges, i, best, c1, c2, mst, removed)
    ensures BestSoFar(edges, |edges|, r, c1, c2, mst, removed)
    decreases |edges| - i
  {
    if i == |edges| then best
    else
      var e := edges[i];
      var best' :=
        if IsCandidate(e, c1, c2, mst, removed) && (best.None? || e.weight < edges[best.value].weight)
        then Some(i) else best;
      ScanFrom(edges, i + 1, best', c1, c2, mst, removed)
  }

  /**
   * `findReplacementEdge(components, removedEdge)` over the graph's `edges`
   * and the current `mst`; `None` stands for `null`.
   */
  function FindReplacementEdge(comps: seq<set<int>>, removed: Edge, edges: seq<Edge>, mst: seq<Edge>): (r: Option<Edge>)
    ensures |comps| < 2 ==> r == None
    ensures |comps| >= 2 ==>
      (r == None <==> forall e :: e in edges ==> !IsCandidate(e, comps[0], comps[1], mst, removed))
    ensures r.Some? ==> |comps| >= 2 && r.value in edges && IsCandidate(r.value, comps[0], comps[1], mst, removed)
    ensures r.Some? ==> forall e :: e in edges && IsCandidate(e, comps[0], comps[1], mst, removed) ==>
      r.value.weight <= e.weight
    ensures r.Some? ==> exists p :: (0 <= p < |edges| && edges[p] == r.value &&
      forall q :: 0 <= q < p && IsCandidate(edges[q], comps[0], comps[1], mst, removed) ==>
        r.value.weight < edges[q].weight)
  {
    if |comps| < 2 then None
    else
      match ScanFrom(edges, 0, None, comps[0], comps[1], mst, removed)
      case None => None
      case Some(p) => Some(edges[p])
  }

  /**
   * A crossing edge never joins two vertices already connected by the
   * remaining MST edges, so adding it cannot close a cycle.
   */
  lemma CrossingEdgeJoinsSeparateParts(n: int, mst: seq<Edge>, comps: seq<set<int>>, e: Edge)
    requires IsComponentList(n, mst, comps) && |comps| >= 2
    requires Crosses(e, comps[0], comps[1])
    ensures !Reachable(mst, e.src, e.dest)
  {
    assert ClosedUnder(mst, comps[0]);
    assert comps[0] !! comps[1];
    if Reachable(mst, e.src, e.dest) {
      if e.src in comps[0] {
        ClosedContainsReachable(mst, comps[0], e.src, e.dest);
      } else {
        ReachableSym(mst, e.src, e.dest);
        ClosedContainsReachable(mst, comps[0], e.dest, e.src);
      }
      assert false;
    }
  }

  /**
   * The `!mst.contains(edge)` test never rejects a crossing edge: no MST
   * edge runs between two different components.
   */
  lemma CrossingEdgeNotInMST(n: int, mst: seq<Edge>, comps: seq<set<int>>, e: Edge)
    requires IsComponentList(n, mst, comps) && |comps| >= 2
    requires Crosses(e, comps[0], comps[1])
    ensures !Contains(mst, e)
  {
    CrossingEdgeJoinsSeparateParts(n, mst, comps, e);
    if Contains(mst, e) {
      var k :| 0 <= k < |mst| && Equals(e, mst[k]);
      assert Connects(mst[k], e.src, e.dest);
      ReachableEdge(mst, e.src, e.dest);
      assert false;
    }
  }

  /**
   * Adding a crossing edge connects every vertex of the first component with
   * every vertex of the second; with exactly two components, all vertices.
   */
  lemma ReplacementReconnects(n: int, mst: seq<Edge>, comps: seq<set<int>>, r: Edge)
    requires IsComponentList(n, mst, comps) && |comps| >= 2
    requires Crosses(r, comps[0], comps[1])
    ensures forall x, y :: x in comps[0] && y in comps[1] ==> Reachable(mst + [r], x, y)
    ensures |comps| == 2 ==> forall x, y :: 0 <= x < n && 0 <= y < n ==> Reachable(mst + [r], x, y)
  {
    var mst' := mst + [r];
    assert Adjacent(mst', r.src, r.dest) by {
      assert Connects(mst'[|mst|], r.src, r.dest);
    }
    AdjacentSymmetric(mst', r.src, r.dest);
    var a, b := if r.src in comps[0] then r.src else r.dest, if r.src in comps[0] then r.dest else r.src;
    assert a in comps[0] && b in comps[1] && Adjacent(mst', a, b);
    forall x, y | x in comps[0] && y in comps[1] ensures Reachable(mst', x, y) {
      ReachableAppend(mst, [r], x, a);
      ReachableAppend(mst, [r], b, y);
      ReachableJoin(mst', x, a, b, y);
    }
    if |comps| == 2 {
      forall x, y | 0 <= x < n && 0 <= y < n ensures Reachable(mst', x, y) {
        assert InSome(comps, x) && InSome(comps, y);
        var i :| 0 <= i < 2 && x in comps[i];
        var j :| 0 <= j < 2 && y in comps[j];
        if i == j {
          ReachableAppend(mst, [r], x, y);
        } else if i == 0 {
        } else {
          ReachableSym(mst', y, x);
        }
      }
    }
  }
}
