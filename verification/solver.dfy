/**
 * `MSTSolver`: holds a graph and the current MST, builds the MST, finds an
 * MST edge by its endpoints, removes an edge and reconnects the tree, and
 * sums edge weights.
 */
module MSTSolver {
  import opened Options
  import opened Edges
  import opened Graphs
  import opened Connectivity
  import opened Kruskal
  import opened Components
  import opened Replacement

  /** The solver's state: the graph it was built on and the current MST. */
  datatype Solver = Solver(graph: Graph, mst: seq<Edge>)

  /** A solver whose MST edges lie inside its graph's vertex range. */
  predicate Consistent(s: Solver) {
    Valid(s.graph) && EdgesWithin(s.mst, s.graph.vertices)
  }

  /** `new MSTSolver(graph)`: the MST list starts empty. */
  function NewSolver(g: Graph): (s: Solver)
    requires Valid(g)
    ensures Consistent(s) && s.graph == g && |s.mst| == 0
  {
    Solver(g, [])
  }

  /** Exact sum of the weights, last edge added last. */
  function Sum(es: seq<Edge>): int {
    if |es| == 0 then 0 else Sum(es[..|es| - 1]) + es[|es| - 1].weight
  }

  /** Adding one edge at the end adds its weight. */
  lemma SumSnoc(es: seq<Edge>, e: Edge)
    ensures Sum(es + [e]) == Sum(es) + e.weight
  {
    assert (es + [e])[..|es|] == es;
  }

  lemma {:induction false} SumAppend(a: seq<Edge>, b: seq<Edge>)
    ensures Sum(a + b) == Sum(a) + Sum(b)
    decreases |b|
  {
    if |b| > 0 {
      var b' := b[..|b| - 1];
      assert (a + b)[..|a + b| - 1] == a + b';
      assert (a + b)[|a + b| - 1] == b[|b| - 1];
      SumAppend(a, b');
    } else {
      assert a + b == a;
    }
  }

  /** Removing the edge at position `p` takes its weight off the sum. */
  lemma SumRemoveAt(es: seq<Edge>, p: int)
    requires 0 <= p < |es|
    ensures Sum(es[..p] + es[p + 1..]) == Sum(es) - es[p].weight
  {
    var a, b := es[..p], es[p + 1..];
    assert es[..p + 1] == a + [es[p]];
    assert es == es[..p + 1] + b;
    SumAppend(es[..p + 1], b);
    SumSnoc(a, es[p]);
    SumAppend(a, b);
  }

  lemma SumSingle(e: Edge)
    ensures Sum([e]) == e.weight
  {
    assert [e][..0] == [];
  }

  /**
   * `calculateTotalWeight`: `IntStream.sum` adds Java `int`s, so the result
   * is the exact sum wrapped to 32 bits.
   */
  function CalculateTotalWeight(es: seq<Edge>): (t: int)
    ensures INT_MIN <= t < INT_MIN + INT_RANGE
    ensures (t - Sum(es)) % INT_RANGE == 0
    ensures INT_MIN <= Sum(es) < INT_MIN + INT_RANGE ==> t == Sum(es)
  {
    WrapInt(Sum(es))
  }

  /**
   * `List.indexOf(e)` as used by `List.remove(e)`: the first position whose
   * edge equals `e` by endpoints.
   */
  function IndexOf(es: seq<Edge>, e: Edge): (r: Option<nat>)
    ensures r.None? <==> forall k :: 0 <= k < |es| ==> !Equals(e, es[k])
    ensures r.Some? ==> r.value < |es| && Equals(e, es[r.value])
    ensures r.Some? ==> forall k :: 0 <= k < r.value ==> !Equals(e, es[k])
  {
    if |es| == 0 then None
    else if Equals(e, es[0]) then Some(0)
    else
      assert forall k :: 0 < k < |es| ==> es[k] == es[1..][k - 1];
      match IndexOf(es[1..], e)
      case None => None
      case Some(i) => Some(i + 1)
  }

  /** The MST without its first edge equal to `e`, when there is one. */
  function RemoveFirst(es: seq<Edge>, e: Edge): (r: seq<Edge>)
    ensures IndexOf(es, e).None? ==> r == es
    ensures IndexOf(es, e).Some? ==> |r| == |es| - 1
    ensures IndexOf(es, e).Some? ==> var p := IndexOf(es, e).value;
      (forall k :: 0 <= k < p ==> r[k] == es[k]) && (forall k :: p <= k < |r| ==> r[k] == es[k + 1])
  {
    match IndexOf(es, e)
    case None => es
    case Some(p) => es[..p] + es[p + 1..]
  }

  /** `buildMST`: replaces the stored MST by Kruskal's result and returns a copy. */
  method BuildMST(s: Solver) returns (s': Solver, mst: seq<Edge>)
    requires Consistent(s)
    ensures Consistent(s') && s'.graph == s.graph && s'.mst == mst
    ensures mst == KruskalResult(s.graph)
    ensures Forest(mst)
    ensures forall e :: e in mst ==> e in s.graph.edges
    ensures s.graph.vertices >= 1 ==> |mst| <= s.graph.vertices - 1
  {
    mst := Kruskal.BuildMST(s.graph);
    s' := Solver(s.graph, mst);
  }

  /**
   * `findEdgeInMST(src, dest)`: the first MST edge joining `src` and `dest`
   * in either orientation, whatever its weight.
   */
  method FindEdgeInMST(s: Solver, src: int, dest: int) returns (r: Option<Edge>)
    ensures r.None? <==> forall k :: 0 <= k < |s.mst| ==> !Connects(s.mst[k], src, dest)
    ensures r.Some? ==> exists p :: (0 <= p < |s.mst| && s.mst[p] == r.value && Connects(r.value, src, dest)
      && forall q :: 0 <= q < p ==> !Connects(s.mst[q], src, dest))
    ensures forall p :: (0 <= p < |s.mst| && Connects(s.mst[p], src, dest)
      && (forall q :: 0 <= q < p ==> !Connects(s.mst[q], src, dest))) ==> r == Some(s.mst[p])
  {
    var target := Edge(src, dest, 0);
    var i := 0;
    while i < |s.mst|
      invariant 0 <= i <= |s.mst|
      invariant forall q :: 0 <= q < i ==> !Connects(s.mst[q], src, dest)
    {
      if Equals(s.mst[i], target) {
        return Some(s.mst[i]);
      }
      i := i + 1;
    }
    return None;
  }

  /** The edges before position `k` after removing position `p` all came before `k + 1`. */
  lemma RemovedPrefixWithin(es: seq<Edge>, p: int, k: int, sub: seq<Edge>)
    requires 0 <= p <= k < |es| - 1 && sub == (es[..p] + es[p + 1..])[..k]
    ensures forall f :: f in sub ==> f in es[..k + 1]
  {
    forall f | f in sub ensures f in es[..k + 1] {
      var j :| 0 <= j < k && sub[j] == f;
      if j < p {
        assert es[..k + 1][j] == f;
      } else {
        assert es[..k + 1][j + 1] == f;
      }
    }
  }

  /** Removing any edge from a forest leaves a forest. */
  lemma ForestRemoveAt(es: seq<Edge>, p: int)
    requires Forest(es) && 0 <= p < |es|
    ensures Forest(es[..p] + es[p + 1..])
  {
    var r := es[..p] + es[p + 1..];
    forall k | 0 <= k < |r| ensures !Reachable(r[..k], r[k].src, r[k].dest) {
      if k < p {
        assert r[..k] == es[..k] && r[k] == es[k];
      } else {
        assert r[k] == es[k + 1];
        assert !Reachable(es[..k + 1], es[k + 1].src, es[k + 1].dest);
        if Reachable(r[..k], r[k].src, r[k].dest) {
          RemovedPrefixWithin(es, p, k, r[..k]);
          ReachableSubset(r[..k], es[..k + 1], r[k].src, r[k].dest);
          assert false;
        }
      }
    }
  }

  /** The edges of `rest` plus the optional replacement stay within range. */
  lemma ReplacementWithin(n: int, rest: seq<Edge>, edges: seq<Edge>, o: Option<Edge>)
    requires EdgesWithin(rest, n) && EdgesWithin(edges, n)
    requires o.Some? ==> o.value in edges
    ensures EdgesWithin(rest + ToSeq(o), n)
  {
  }

  /** Appending the optional replacement adds its weight, if any. */
  lemma SumWithReplacement(rest: seq<Edge>, o: Option<Edge>)
    ensures Sum(rest + ToSeq(o)) == Sum(rest) + (if o.Some? then o.value.weight else 0)
  {
    SumAppend(rest, ToSeq(o));
    if o.Some? {
      SumSingle(o.value);
    }
  }

  /** The replacement never closes a cycle. */
  lemma ReplacementKeepsForest(g: Graph, e: Edge, rest: seq<Edge>, comps: seq<set<int>>)
    requires Valid(g) && IsComponentList(g.vertices, rest, comps) && Forest(rest)
    ensures Forest(rest + ToSeq(FindReplacementEdge(comps, e, g.edges, rest)))
  {
    var r := FindReplacementEdge(comps, e, g.edges, rest);
    if r.Some? {
      CrossingEdgeJoinsSeparateParts(g.vertices, rest, comps, r.value);
      ForestAppend(rest, r.value);
    } else {
      assert rest + ToSeq(r) == rest;
    }
  }

  /** With exactly two components, a replacement reconnects every vertex. */
  lemma ReplacementSpans(g: Graph, e: Edge, rest: seq<Edge>, comps: seq<set<int>>)
    requires Valid(g) && IsComponentList(g.vertices, rest, comps) && |comps| == 2
    requires FindReplacementEdge(comps, e, g.edges, rest).Some?
    ensures forall x, y :: 0 <= x < g.vertices && 0 <= y < g.vertices ==>
      Reachable(rest + ToSeq(FindReplacementEdge(comps, e, g.edges, rest)), x, y)
  {
    var r := FindReplacementEdge(comps, e, g.edges, rest).value;
    ReplacementReconnects(g.vertices, rest, comps, r);
  }

  /**
   * `removeEdgeAndFindReplacement(edgeToRemove)`: removes the first MST edge
   * equal to `e` by endpoints; when there is none the solver is unchanged.
   * Otherwise it computes the components of the remaining edges (returned
   * too, as the method reports them) and appends the replacement edge found
   * for them, if any. Returns the new state and the resulting MST.
   */
  method RemoveEdgeAndFindReplacement(s: Solver, e: Edge) returns (s': Solver, comps: seq<set<int>>, result: seq<Edge>)
    requires Consistent(s)
    ensures Consistent(s') && s'.graph == s.graph && result == s'.mst
    ensures IndexOf(s.mst, e).None? ==> s' == s && comps == []
    ensures IndexOf(s.mst, e).Some? ==>
      var rest := RemoveFirst(s.mst, e);
      && IsComponentList(s.graph.vertices, rest, comps)
      && s'.mst == rest + ToSeq(FindReplacementEdge(comps, e, s.graph.edges, rest))
    ensures IndexOf(s.mst, e).Some? ==>
      var removed := s.mst[IndexOf(s.mst, e).value];
      var repl := FindReplacementEdge(comps, e, s.graph.edges, RemoveFirst(s.mst, e));
      Sum(s'.mst) == Sum(s.mst) - removed.weight + (if repl.Some? then repl.value.weight else 0)
    ensures Forest(s.mst) ==> Forest(s'.mst)
    ensures IndexOf(s.mst, e).Some? && |comps| == 2 && |s'.mst| == |s.mst| ==>
      forall x, y :: 0 <= x < s.graph.vertices && 0 <= y < s.graph.vertices ==> Reachable(s'.mst, x, y)
  {
    if IndexOf(s.mst, e).None? {
      return s, [], s.mst;
    }
    var rest := RemoveFirst(s.mst, e);
    RemoveFirstWithin(s.mst, e, s.graph.vertices);
    comps := FindComponents(s.graph.vertices, rest);
    var repl := FindReplacementEdge(comps, e, s.graph.edges, rest);
    s' := Solver(s.graph, rest + ToSeq(repl));
    result := s'.mst;
    RemovalWithin(s, e, comps);
    RemovalSum(s, e, comps);
    assert Forest(s.mst) ==> Forest(s'.mst) by {
      if Forest(s.mst) {
        RemovalForest(s.mst, e);
        ReplacementKeepsForest(s.graph, e, rest, comps);
      }
    }
    if |comps| == 2 && repl.Some? {
      ReplacementSpans(s.graph, e, rest, comps);
    }
  }

  /** Removal keeps every MST edge inside the vertex range. */
  lemma RemoveFirstWithin(es: seq<Edge>, e: Edge, n: int)
    requires EdgesWithin(es, n)
    ensures EdgesWithin(RemoveFirst(es, e), n)
  {
    if IndexOf(es, e).Some? {
      var p := IndexOf(es, e).value;
      var rest := RemoveFirst(es, e);
      forall f | f in rest ensures f in es {
        var j :| 0 <= j < |rest| && rest[j] == f;
        assert j < p ==> es[j] == f;
        assert j >= p ==> es[j + 1] == f;
      }
    }
  }

  /** The weight of the new MST: the removed edge's weight off, the replacement's on. */
  lemma RemovalSum(s: Solver, e: Edge, comps: seq<set<int>>)
    requires IndexOf(s.mst, e).Some?
    ensures var rest := RemoveFirst(s.mst, e);
      var repl := FindReplacementEdge(comps, e, s.graph.edges, rest);
      Sum(rest + ToSeq(repl)) ==
        Sum(s.mst) - s.mst[IndexOf(s.mst, e).value].weight + (if repl.Some? then repl.value.weight else 0)
  {
    var p := IndexOf(s.mst, e).value;
    var rest := RemoveFirst(s.mst, e);
    assert rest == s.mst[..p] + s.mst[p + 1..];
    SumRemoveAt(s.mst, p);
    SumWithReplacement(rest, FindReplacementEdge(comps, e, s.graph.edges, rest));
  }

  /** Removing the first edge equal to `e` from a forest leaves a forest. */
  lemma RemovalForest(mst: seq<Edge>, e: Edge)
    requires Forest(mst)
    ensures Forest(RemoveFirst(mst, e))
  {
    if IndexOf(mst, e).Some? {
      var p := IndexOf(mst, e).value;
      assert RemoveFirst(mst, e) == mst[..p] + mst[p + 1..];
      ForestRemoveAt(mst, p);
    }
  }

  /** The new MST's edges stay inside the vertex range. */
  lemma RemovalWithin(s: Solver, e: Edge, comps: seq<set<int>>)
    requires Consistent(s)
    ensures var rest := RemoveFirst(s.mst, e);
      EdgesWithin(rest + ToSeq(FindReplacementEdge(comps, e, s.graph.edges, rest)), s.graph.vertices)
  {
    var rest := RemoveFirst(s.mst, e);
    RemoveFirstWithin(s.mst, e, s.graph.vertices);
    ReplacementWithin(s.graph.vertices, rest, s.graph.edges, FindReplacementEdge(comps, e, s.graph.edges, rest));
  }
}
