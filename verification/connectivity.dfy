/**
 * Connectivity through a list of undirected edges, and the label model of
 * the solver's union-find structure (`UnionFind` is not part of this model:
 * only its observable `connected`/`union` behaviour is specified, by
 * `LabelsTrack`).
 */
module Connectivity {
  import opened Edges
  import opened Graphs

  /** Some edge of `es` runs between `x` and `y`. */
  predicate Adjacent(es: seq<Edge>, x: int, y: int) {
    exists k :: 0 <= k < |es| && Connects(es[k], x, y)
  }

  /** `p` is a non-empty vertex sequence whose consecutive entries are adjacent. */
  ghost predicate IsWalk(es: seq<Edge>, p: seq<int>) {
    |p| >= 1 && forall k :: 0 <= k < |p| - 1 ==> Adjacent(es, p[k], p[k + 1])
  }

  /** `b` can be reached from `a` along edges of `es` (every vertex reaches itself). */
  ghost predicate Reachable(es: seq<Edge>, a: int, b: int) {
    exists p :: IsWalk(es, p) && p[0] == a && p[|p| - 1] == b
  }

  /** No vertex outside `c` is adjacent to a vertex inside it. */
  ghost predicate ClosedUnder(es: seq<Edge>, c: set<int>) {
    forall x, y :: x in c && Adjacent(es, x, y) ==> y in c
  }

  lemma AdjacentSymmetric(es: seq<Edge>, x: int, y: int)
    requires Adjacent(es, x, y)
    ensures Adjacent(es, y, x)
  {
    var k :| 0 <= k < |es| && Connects(es[k], x, y);
    assert Connects(es[k], y, x);
  }

  /** Adjacency through `es + [e]`: through `es`, or through the new edge. */
  lemma AdjacentAppend(es: seq<Edge>, e: Edge, x: int, y: int)
    ensures Adjacent(es + [e], x, y) <==> Adjacent(es, x, y) || Connects(e, x, y)
  {
    var es' := es + [e];
    if Adjacent(es, x, y) {
      var k :| 0 <= k < |es| && Connects(es[k], x, y);
      assert es'[k] == es[k];
    }
    if Connects(e, x, y) {
      assert es'[|es|] == e;
    }
    if Adjacent(es', x, y) {
      var k :| 0 <= k < |es'| && Connects(es'[k], x, y);
      if k < |es| {
        assert es'[k] == es[k];
      }
    }
  }

  lemma ReachableRefl(es: seq<Edge>, a: int)
    ensures Reachable(es, a, a)
  {
    assert IsWalk(es, [a]);
  }

  lemma ReachableEdge(es: seq<Edge>, a: int, b: int)
    requires Adjacent(es, a, b)
    ensures Reachable(es, a, b)
  {
    var p := [a, b];
    assert IsWalk(es, p);
  }

  lemma ReachableExtend(es: seq<Edge>, a: int, x: int, y: int)
    requires Reachable(es, a, x) && Adjacent(es, x, y)
    ensures Reachable(es, a, y)
  {
    ReachableRefl(es, y);
    ReachableJoin(es, a, x, y, y);
  }

  /** Two walks joined by one edge form a walk. */
  lemma ReachableJoin(es: seq<Edge>, a: int, x: int, y: int, b: int)
    requires Reachable(es, a, x) && Adjacent(es, x, y) && Reachable(es, y, b)
    ensures Reachable(es, a, b)
  {
    var p :| IsWalk(es, p) && p[0] == a && p[|p| - 1] == x;
    var q :| IsWalk(es, q) && q[0] == y && q[|q| - 1] == b;
    var r := p + q;
    forall k | 0 <= k < |r| - 1 ensures Adjacent(es, r[k], r[k + 1]) {
      if k < |p| - 1 {
        assert r[k] == p[k] && r[k + 1] == p[k + 1];
      } else if k == |p| - 1 {
        assert r[k] == x && r[k + 1] == y;
      } else {
        assert r[k] == q[k - |p|] && r[k + 1] == q[k - |p| + 1];
      }
    }
    assert IsWalk(es, r);
  }

  lemma ReachableTrans(es: seq<Edge>, a: int, x: int, b: int)
    requires Reachable(es, a, x) && Reachable(es, x, b)
    ensures Reachable(es, a, b)
  {
    var p :| IsWalk(es, p) && p[0] == a && p[|p| - 1] == x;
    var q :| IsWalk(es, q) && q[0] == x && q[|q| - 1] == b;
    if |q| == 1 {
    } else {
      assert Adjacent(es, q[0], q[1]);
      var q' := q[1..];
      forall k | 0 <= k < |q'| - 1 ensures Adjacent(es, q'[k], q'[k + 1]) {
        assert q'[k] == q[k + 1] && q'[k + 1] == q[k + 2];
      }
      assert IsWalk(es, q');
      ReachableJoin(es, a, x, q[1], b);
    }
  }

  lemma ReachableSym(es: seq<Edge>, a: int, b: int)
    requires Reachable(es, a, b)
    ensures Reachable(es, b, a)
  {
    var p :| IsWalk(es, p) && p[0] == a && p[|p| - 1] == b;
    var n := |p|;
    var r := seq(n, i requires 0 <= i < n => p[n - 1 - i]);
    forall k | 0 <= k < n - 1 ensures Adjacent(es, r[k], r[k + 1]) {
      var j := n - 2 - k;
      assert Adjacent(es, p[j], p[j + 1]);
      AdjacentSymmetric(es, p[j], p[j + 1]);
    }
    assert IsWalk(es, r);
  }

  /** Reachability only grows when edges are added: a walk of `es` is a walk of any superset. */
  lemma ReachableSubset(es: seq<Edge>, more: seq<Edge>, a: int, b: int)
    requires forall e :: e in es ==> e in more
    requires Reachable(es, a, b)
    ensures Reachable(more, a, b)
  {
    var p :| IsWalk(es, p) && p[0] == a && p[|p| - 1] == b;
    forall k | 0 <= k < |p| - 1 ensures Adjacent(more, p[k], p[k + 1]) {
      var j :| 0 <= j < |es| && Connects(es[j], p[k], p[k + 1]);
      assert es[j] in es;
      var i :| 0 <= i < |more| && more[i] == es[j];
    }
    assert IsWalk(more, p);
  }

  lemma ReachableAppend(es: seq<Edge>, extra: seq<Edge>, a: int, b: int)
    requires Reachable(es, a, b)
    ensures Reachable(es + extra, a, b)
  {
    ReachableSubset(es, es + extra, a, b);
  }

  /** A set closed under adjacency contains everything reachable from its members. */
  lemma {:induction false} ClosedContainsReachable(es: seq<Edge>, c: set<int>, a: int, b: int)
    requires ClosedUnder(es, c) && a in c
    requires Reachable(es, a, b)
    ensures b in c
  {
    var p :| IsWalk(es, p) && p[0] == a && p[|p| - 1] == b;
    var k := 0;
    while k < |p| - 1
      invariant 0 <= k < |p|
      invariant p[k] in c
    {
      assert Adjacent(es, p[k], p[k + 1]);
      k := k + 1;
    }
  }

  /** A vertex without neighbours reaches only itself. */
  lemma IsolatedReachesOnlyItself(es: seq<Edge>, v: int, y: int)
    requires forall z :: !Adjacent(es, v, z)
    requires Reachable(es, v, y)
    ensures y == v
  {
    assert ClosedUnder(es, {v});
    ClosedContainsReachable(es, {v}, v, y);
  }

  /**
   * A labelling constant across every edge separates vertices with different
   * labels: they are not reachable from one another.
   */
  lemma SeparatedByLabels(es: seq<Edge>, lab: seq<int>, a: int, b: int)
    requires EdgesWithin(es, |lab|)
    requires forall e :: e in es ==> lab[e.src] == lab[e.dest]
    requires 0 <= a < |lab| && 0 <= b < |lab| && lab[a] != lab[b]
    ensures !Reachable(es, a, b)
  {
    var c := set x | 0 <= x < |lab| && lab[x] == lab[a];
    forall x, y | x in c && Adjacent(es, x, y) ensures y in c {
      var k :| 0 <= k < |es| && Connects(es[k], x, y);
      assert es[k] in es;
    }
    if Reachable(es, a, b) {
      ClosedContainsReachable(es, c, a, b);
      assert false;
    }
  }

  /** `union(u, v)`: every vertex labelled like `v` takes the label of `u`. */
  function Merge(lab: seq<int>, u: int, v: int): (r: seq<int>)
    requires 0 <= u < |lab| && 0 <= v < |lab|
    ensures |r| == |lab|
    ensures r[u] == lab[u] && r[v] == lab[u]
    ensures forall x, y :: 0 <= x < |lab| && 0 <= y < |lab| && lab[x] == lab[y] ==> r[x] == r[y]
    ensures forall x :: 0 <= x < |lab| && lab[x] != lab[v] ==> r[x] == lab[x]
  {
    seq(|lab|, x requires 0 <= x < |lab| => if lab[x] == lab[v] then lab[u] else lab[x])
  }

  /** A fresh union-find structure over `n` vertices: every vertex alone. */
  function Singletons(n: nat): (lab: seq<int>)
    ensures |lab| == n
    ensures forall a, b :: 0 <= a < n && 0 <= b < n ==> (lab[a] == lab[b] <==> a == b)
  {
    seq(n, x => x)
  }

  /**
   * The labels `lab` over vertices `[0, n)` describe exactly the
   * connectivity of the accepted edges `acc`: what `connected` answers.
   */
  ghost predicate LabelsTrack(lab: seq<int>, n: int, acc: seq<Edge>) {
    && |lab| == n
    && EdgesWithin(acc, n)
    && (forall e :: e in acc ==> lab[e.src] == lab[e.dest])
    && (forall a, b :: 0 <= a < n && 0 <= b < n && lab[a] == lab[b] ==> Reachable(acc, a, b))
  }

  lemma SingletonsTrack(n: nat)
    ensures LabelsTrack(Singletons(n), n, [])
  {
    forall a, b | 0 <= a < n && 0 <= b < n && Singletons(n)[a] == Singletons(n)[b]
      ensures Reachable([], a, b)
    {
      ReachableRefl([], a);
    }
  }

  /** `connected(a, b)` answers exactly reachability through the accepted edges. */
  lemma LabelsDecideReachable(lab: seq<int>, n: int, acc: seq<Edge>, a: int, b: int)
    requires LabelsTrack(lab, n, acc)
    requires 0 <= a < n && 0 <= b < n
    ensures lab[a] == lab[b] <==> Reachable(acc, a, b)
  {
    if lab[a] != lab[b] {
      SeparatedByLabels(acc, lab, a, b);
    }
  }

  /** `union(u, v)` after accepting the edge `e = (u, v)` keeps the labels exact. */
  lemma MergeTracks(lab: seq<int>, n: int, acc: seq<Edge>, e: Edge)
    requires LabelsTrack(lab, n, acc)
    requires 0 <= e.src < n && 0 <= e.dest < n
    requires lab[e.src] != lab[e.dest]
    ensures LabelsTrack(Merge(lab, e.src, e.dest), n, acc + [e])
  {
    var u, v := e.src, e.dest;
    var lab' := Merge(lab, u, v);
    var acc' := acc + [e];
    assert forall f :: f in acc' ==> f in acc || f == e;
    assert Adjacent(acc', u, v) by {
      assert Connects(acc'[|acc|], u, v);
    }
    forall a, b | 0 <= a < n && 0 <= b < n && lab'[a] == lab'[b]
      ensures Reachable(acc', a, b)
    {
      if (lab[a] == lab[v]) == (lab[b] == lab[v]) {
        assert lab[a] == lab[b];
        ReachableAppend(acc, [e], a, b);
      } else if lab[a] == lab[v] {
        assert lab[b] == lab[u];
        ReachableAppend(acc, [e], a, v);
        ReachableAppend(acc, [e], u, b);
        AdjacentSymmetric(acc', u, v);
        ReachableJoin(acc', a, v, u, b);
      } else {
        assert lab[a] == lab[u];
        ReachableAppend(acc, [e], a, u);
        ReachableAppend(acc, [e], v, b);
        ReachableJoin(acc', a, u, v, b);
      }
    }
  }
}
