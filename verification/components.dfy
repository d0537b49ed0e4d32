/**
 * `MSTSolver.findComponents`: breadth-first search over the adjacency lists
 * of the current MST edges, started from every unvisited vertex in
 * ascending order, one component per start.
 */
module Components {
  import opened Edges
  import opened Graphs
  import opened Connectivity

  /**
   * The adjacency list of `x`: for each edge in order, its `dest` when `x` is
   * its `src`, then its `src` when `x` is its `dest`.
   */
  function Neighbours(es: seq<Edge>, x: int): (ns: seq<int>)
    ensures forall y :: y in ns <==> Adjacent(es, x, y)
    decreases |es|
  {
    if |es| == 0 then []
    else
      var init, e := es[..|es| - 1], es[|es| - 1];
      assert es == init + [e];
      var ns := Neighbours(init, x) + (if e.src == x then [e.dest] else []) + (if e.dest == x then [e.src] else []);
      assert forall y :: y in ns <==> Adjacent(es, x, y) by {
        forall y ensures y in ns <==> Adjacent(es, x, y) {
          AdjacentAppend(init, e, x, y);
        }
      }
      ns
  }

  /** Vertex `v` belongs to one of the sets. */
  predicate InSome(comps: seq<set<int>>, v: int) {
    exists k :: 0 <= k < |comps| && v in comps[k]
  }

  /** The sets are non-empty, disjoint, and cover exactly the vertex ids `[0, n)`. */
  ghost predicate IsPartition(n: int, comps: seq<set<int>>) {
    && (forall k :: 0 <= k < |comps| ==> comps[k] != {})
    && (forall k, x :: 0 <= k < |comps| && x in comps[k] ==> 0 <= x < n)
    && (forall v :: 0 <= v < n ==> InSome(comps, v))
    && (forall j, k :: 0 <= j < k < |comps| ==> comps[j] !! comps[k])
  }

  /** Each set is closed under adjacency and connected through `es`. */
  ghost predicate AreComponents(es: seq<Edge>, comps: seq<set<int>>) {
    && (forall k :: 0 <= k < |comps| ==> ClosedUnder(es, comps[k]))
    && (forall k, x, y :: 0 <= k < |comps| && x in comps[k] && y in comps[k] ==> Reachable(es, x, y))
  }

  /** Some member of `c` is smaller than `y`. */
  predicate HasSmaller(c: set<int>, y: int) {
    exists x :: x in c && x < y
  }

  /** Each set has a member smaller than every member of each later set. */
  ghost predicate AscendingLeast(comps: seq<set<int>>) {
    forall j, k, y :: 0 <= j < k < |comps| && y in comps[k] ==> HasSmaller(comps[j], y)
  }

  /** Everything `findComponents` promises about its result. */
  ghost predicate IsComponentList(n: int, es: seq<Edge>, comps: seq<set<int>>) {
    IsPartition(n, comps) && AreComponents(es, comps) && AscendingLeast(comps)
  }

  /**
   * One breadth-first search from `root`, marking what it reaches; `visited`
   * holds the earlier components, whose union is closed under adjacency.
   */
  method Explore(n: nat, es: seq<Edge>, adj: seq<seq<int>>, root: int, visited: set<int>)
    returns (comp: set<int>, visited': set<int>)
    requires EdgesWithin(es, n)
    requires |adj| == n && forall x :: 0 <= x < n ==> adj[x] == Neighbours(es, x)
    requires 0 <= root < n && root !in visited
    requires forall x :: x in visited ==> 0 <= x < n
    requires ClosedUnder(es, visited)
    ensures visited' == visited + comp
    ensures comp !! visited
    ensures root in comp
    ensures forall x :: x in comp ==> 0 <= x < n && Reachable(es, root, x)
    ensures ClosedUnder(es, comp)
  {
    comp := {root};
    visited' := visited + {root};
    var queue := [root];
    ReachableRefl(es, root);
    while |queue| > 0
      invariant visited' == visited + comp && comp !! visited
      invariant root in comp
      invariant forall x :: x in comp ==> 0 <= x < n && Reachable(es, root, x)
      invariant forall q :: q in queue ==> q in comp
      invariant forall x, y :: x in comp && x !in queue && Adjacent(es, x, y) ==> y in visited'
      decreases (set x | 0 <= x < n && x !in visited'), |queue|
    {
      ghost var unvisited := set x | 0 <= x < n && x !in visited';
      var cur := queue[0];
      assert cur in comp;
      queue := queue[1..];
      ghost var rest := queue;
      var nbrs := adj[cur];
      var j := 0;
      while j < |nbrs|
        invariant 0 <= j <= |nbrs|
        invariant visited' == visited + comp && comp !! visited
        invariant root in comp && cur in comp
        invariant forall x :: x in comp ==> 0 <= x < n && Reachable(es, root, x)
        invariant forall q :: q in queue ==> q in comp
        invariant forall q :: q in rest ==> q in queue
        invariant forall x, y :: x in comp && x !in queue && x != cur && Adjacent(es, x, y) ==> y in visited'
        invariant forall t :: 0 <= t < j ==> nbrs[t] in visited'
        invariant (set x | 0 <= x < n && x !in visited') <= unvisited
        invariant (set x | 0 <= x < n && x !in visited') == unvisited ==> queue == rest
      {
        var y := nbrs[j];
        if y !in visited' {
          assert Adjacent(es, cur, y);
          var k :| 0 <= k < |es| && Connects(es[k], cur, y);
          assert es[k] in es;
          ReachableExtend(es, root, cur, y);
          assert y in unvisited;
          visited' := visited' + {y};
          comp := comp + {y};
          queue := queue + [y];
        }
        j := j + 1;
      }
      forall y | Adjacent(es, cur, y) ensures y in visited' {
        assert y in nbrs;
      }
    }
    forall x, y | x in comp && Adjacent(es, x, y) ensures y in comp {
      if y in visited {
        AdjacentSymmetric(es, x, y);
        assert false;
      }
    }
  }

  /** `visited` is exactly the union of the sets in `comps`. */
  ghost predicate UnionOf(visited: set<int>, comps: seq<set<int>>) {
    forall x :: x in visited <==> InSome(comps, x)
  }

  ghost predicate PairwiseDisjoint(comps: seq<set<int>>) {
    forall j, k :: 0 <= j < k < |comps| ==> comps[j] !! comps[k]
  }

  /** `roots[k]` is the least member of `comps[k]`, roots ascend and lie below `i`. */
  ghost predicate RootsAscend(i: int, comps: seq<set<int>>, roots: seq<int>) {
    && |roots| == |comps|
    && (forall k :: 0 <= k < |comps| ==> roots[k] in comps[k] && roots[k] < i)
    && (forall k, y :: 0 <= k < |comps| && y in comps[k] ==> roots[k] <= y)
    && (forall j, k :: 0 <= j < k < |comps| ==> roots[j] < roots[k])
  }

  /**
   * The state of `findComponents` before vertex `i`: `visited` is the union
   * of the components found so far and contains every vertex below `i`.
   */
  ghost predicate SearchState(n: int, es: seq<Edge>, i: int, visited: set<int>,
                              comps: seq<set<int>>, roots: seq<int>) {
    && 0 <= i <= n
    && (forall x :: x in visited ==> 0 <= x < n)
    && (forall v :: 0 <= v < i ==> v in visited)
    && ClosedUnder(es, visited)
    && UnionOf(visited, comps)
    && PairwiseDisjoint(comps)
    && AreComponents(es, comps)
    && RootsAscend(i, comps, roots)
  }

  lemma AddComponentConnected(es: seq<Edge>, i: int, comps: seq<set<int>>, comp: set<int>)
    requires AreComponents(es, comps)
    requires forall x :: x in comp ==> Reachable(es, i, x)
    requires ClosedUnder(es, comp)
    ensures AreComponents(es, comps + [comp])
  {
    forall x, y | x in comp && y in comp ensures Reachable(es, x, y) {
      ReachableSym(es, i, x);
      ReachableTrans(es, x, i, y);
    }
    var comps' := comps + [comp];
    assert forall k :: 0 <= k < |comps| ==> comps'[k] == comps[k];
  }

  lemma AddComponentCover(visited: set<int>, comps: seq<set<int>>, comp: set<int>)
    requires UnionOf(visited, comps)
    ensures UnionOf(visited + comp, comps + [comp])
  {
    var comps' := comps + [comp];
    forall x ensures x in visited + comp <==> InSome(comps', x) {
      if x in visited {
        var k :| 0 <= k < |comps| && x in comps[k];
        assert comps'[k] == comps[k];
      } else if x in comp {
        assert comps'[|comps|] == comp;
      }
      if InSome(comps', x) {
        var k :| 0 <= k < |comps'| && x in comps'[k];
        if k < |comps| {
          assert comps'[k] == comps[k];
          assert InSome(comps, x);
        }
      }
    }
  }

  lemma AddComponentDisjoint(visited: set<int>, comps: seq<set<int>>, comp: set<int>)
    requires UnionOf(visited, comps)
    requires PairwiseDisjoint(comps)
    requires comp !! visited
    ensures PairwiseDisjoint(comps + [comp])
  {
    var comps' := comps + [comp];
    forall k | 0 <= k < |comps| ensures comps[k] !! comp {
      forall x | x in comps[k] ensures x in visited {
        assert InSome(comps, x);
      }
    }
    assert forall k :: 0 <= k < |comps| ==> comps'[k] == comps[k];
  }

  lemma AddComponentRoots(i: int, visited: set<int>, comps: seq<set<int>>, roots: seq<int>, comp: set<int>)
    requires RootsAscend(i, comps, roots)
    requires forall v :: 0 <= v < i ==> v in visited
    requires comp !! visited && i in comp
    requires forall x :: x in comp ==> 0 <= x
    ensures RootsAscend(i + 1, comps + [comp], roots + [i])
  {
    forall y | y in comp ensures i <= y {
      assert 0 <= y && (y < i ==> y in visited);
    }
    var comps', roots' := comps + [comp], roots + [i];
    assert forall k :: 0 <= k < |comps| ==> comps'[k] == comps[k] && roots'[k] == roots[k];
  }

  lemma AddComponentVisited(n: int, es: seq<Edge>, i: int, visited: set<int>, comp: set<int>)
    requires forall x :: x in visited ==> 0 <= x < n
    requires forall v :: 0 <= v < i ==> v in visited
    requires ClosedUnder(es, visited) && ClosedUnder(es, comp)
    requires i in comp && forall x :: x in comp ==> 0 <= x < n
    ensures forall x :: x in visited + comp ==> 0 <= x < n
    ensures forall v :: 0 <= v < i + 1 ==> v in visited + comp
    ensures ClosedUnder(es, visited + comp)
  {
    forall x, y | x in visited + comp && Adjacent(es, x, y) ensures y in visited + comp {
      assert x in visited || x in comp;
    }
  }

  /** Appending the component explored from the unvisited vertex `i`. */
  lemma AddComponent(n: int, es: seq<Edge>, i: int, visited: set<int>, comps: seq<set<int>>,
                     roots: seq<int>, comp: set<int>, visited2: set<int>)
    requires SearchState(n, es, i, visited, comps, roots) && i < n && i !in visited
    requires visited2 == visited + comp && comp !! visited && i in comp
    requires forall x :: x in comp ==> 0 <= x < n && Reachable(es, i, x)
    requires ClosedUnder(es, comp)
    ensures SearchState(n, es, i + 1, visited2, comps + [comp], roots + [i])
  {
    AddComponentConnected(es, i, comps, comp);
    AddComponentCover(visited, comps, comp);
    AddComponentDisjoint(visited, comps, comp);
    AddComponentRoots(i, visited, comps, roots, comp);
    AddComponentVisited(n, es, i, visited, comp);
  }

  /** `findComponents` over the edges `es` of the current MST on `n` vertices. */
  method FindComponents(n: nat, es: seq<Edge>) returns (comps: seq<set<int>>)
    requires EdgesWithin(es, n)
    ensures IsPartition(n, comps)
    ensures AreComponents(es, comps)
    ensures AscendingLeast(comps)
  {
    var adj := seq(n, x => Neighbours(es, x));
    comps := [];
    var visited: set<int> := {};
    ghost var roots: seq<int> := [];
    var i := 0;
    while i < n
      invariant SearchState(n, es, i, visited, comps, roots)
    {
      if i !in visited {
        var comp, visited2 := Explore(n, es, adj, i, visited);
        AddComponent(n, es, i, visited, comps, roots, comp, visited2);
        comps := comps + [comp];
        roots := roots + [i];
        visited := visited2;
      }
      i := i + 1;
    }
    forall j, k, y | 0 <= j < k < |comps| && y in comps[k] ensures HasSmaller(comps[j], y) {
      assert roots[j] in comps[j] && roots[j] < y;
    }
    forall k | 0 <= k < |comps| ensures comps[k] != {} {
      assert roots[k] in comps[k];
    }
    forall k, x | 0 <= k < |comps| && x in comps[k] ensures 0 <= x < n {
      assert InSome(comps, x);
    }
  }

  /** A component holds exactly the vertices reachable from any of its members. */
  lemma ComponentIsReachableSet(n: int, es: seq<Edge>, comps: seq<set<int>>, k: int, x: int)
    requires IsComponentList(n, es, comps)
    requires 0 <= k < |comps| && x in comps[k]
    ensures comps[k] == set y | 0 <= y < n && Reachable(es, x, y)
  {
    forall y | 0 <= y < n && Reachable(es, x, y) ensures y in comps[k] {
      ClosedContainsReachable(es, comps[k], x, y);
    }
  }

  /** A vertex with no incident edge forms a singleton component. */
  lemma IsolatedVertexIsSingleton(n: int, es: seq<Edge>, comps: seq<set<int>>, k: int, v: int)
    requires IsComponentList(n, es, comps)
    requires 0 <= k < |comps| && v in comps[k]
    requires forall z :: !Adjacent(es, v, z)
    ensures comps[k] == {v}
  {
    forall y | y in comps[k] ensures y == v {
      IsolatedReachesOnlyItself(es, v, y);
    }
  }
}
