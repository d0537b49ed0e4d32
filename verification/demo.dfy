/**
 * The scenario `Main` runs: build the MST of the six-vertex demonstration
 * graph, look up the MST edge between vertices 1 and 2, remove it and
 * reconnect the tree. Every value below is derived from the model.
 */
module Demo {
  import opened Options
  import opened Edges
  import opened Graphs
  import opened Sorting
  import opened Connectivity
  import opened Kruskal
  import opened Components
  import opened Replacement
  import opened MSTSolver

  /** `createDemonstrationGraph`: six vertices, eight edges added one by one. */
  function DemoGraph(): Graph {
    var g := NewGraph(6);
    var g := AddEdge(g, 0, 1, 4);
    var g := AddEdge(g, 0, 2, 3);
    var g := AddEdge(g, 1, 2, 1);
    var g := AddEdge(g, 1, 3, 2);
    var g := AddEdge(g, 2, 3, 4);
    var g := AddEdge(g, 3, 4, 2);
    var g := AddEdge(g, 4, 5, 6);
    AddEdge(g, 3, 5, 3)
  }

  const DemoEdges: seq<Edge> := [Edge(0, 1, 4), Edge(0, 2, 3), Edge(1, 2, 1), Edge(1, 3, 2),
                                 Edge(2, 3, 4), Edge(3, 4, 2), Edge(4, 5, 6), Edge(3, 5, 3)]

  /** The MST `buildMST` returns for the demonstration graph. */
  const DemoMST: seq<Edge> := [Edge(1, 2, 1), Edge(1, 3, 2), Edge(3, 4, 2), Edge(0, 2, 3), Edge(3, 5, 3)]

  /** The MST edges left after removing edge 1-2. */
  const DemoRest: seq<Edge> := [Edge(1, 3, 2), Edge(3, 4, 2), Edge(0, 2, 3), Edge(3, 5, 3)]

  /** The components of `DemoRest`. */
  const DemoComps: seq<set<int>> := [{0, 2}, {1, 3, 4, 5}]

  lemma DemoGraphContents()
    ensures DemoGraph() == Graph(6, DemoEdges)
    ensures Valid(DemoGraph())
  {
    var e0, e1, e2, e3 := Edge(0, 1, 4), Edge(0, 2, 3), Edge(1, 2, 1), Edge(1, 3, 2);
    var e4, e5, e6, e7 := Edge(2, 3, 4), Edge(3, 4, 2), Edge(4, 5, 6), Edge(3, 5, 3);
    AddSeven(NewGraph(6), e0, e1, e2, e3, e4, e5, e6);
    assert [] + [e0] + [e1] + [e2] + [e3] + [e4] + [e5] + [e6] + [e7] == DemoEdges;
    assert EdgesWithin(DemoEdges, 6) by {
      forall k | 0 <= k < |DemoEdges| ensures 0 <= DemoEdges[k].src < 6 && 0 <= DemoEdges[k].dest < 6 {
      }
    }
  }

  lemma Flatten8(a: Edge, b: Edge, c: Edge, d: Edge, e: Edge, f: Edge, g: Edge, h: Edge)
    ensures [a] + ([b] + ([c] + ([d] + ([e] + ([f] + ([g] + ([h] + []))))))) == [a, b, c, d, e, f, g, h]
  {
  }

  lemma Flatten5(a: Edge, b: Edge, c: Edge, d: Edge, e: Edge)
    ensures [] + [a] + [b] + [c] + [d] + [e] == [a, b, c, d, e]
  {
  }

  /** Insertion sort of the demonstration edges, one insertion at a time; only weights matter. */
  lemma SortSteps(e0: Edge, e1: Edge, e2: Edge, e3: Edge, e4: Edge, e5: Edge, e6: Edge, e7: Edge)
    requires e0.weight == 4 && e1.weight == 3 && e2.weight == 1 && e3.weight == 2
    requires e4.weight == 4 && e5.weight == 2 && e6.weight == 6 && e7.weight == 3
    ensures StableSort([e0] + ([e1] + ([e2] + ([e3] + ([e4] + ([e5] + ([e6] + ([e7] + [])))))))) ==
      [e2] + ([e3] + ([e5] + ([e1] + ([e7] + ([e0] + ([e4] + ([e6] + [])))))))
  {
    StableSortCons(e7, []);
    InsertHere(e7, []);
    StableSortCons(e6, [e7] + []);
    InsertPast(e6, e7, []);
    InsertHere(e6, []);
    StableSortCons(e5, [e6] + ([e7] + []));
    InsertHere(e5, [e7] + ([e6] + []));
    StableSortCons(e4, [e5] + ([e6] + ([e7] + [])));
    InsertPast(e4, e5, [e7] + ([e6] + []));
    InsertPast(e4, e7, [e6] + []);
    InsertHere(e4, [e6] + []);
    StableSortCons(e3, [e4] + ([e5] + ([e6] + ([e7] + []))));
    InsertHere(e3, [e5] + ([e7] + ([e4] + ([e6] + []))));
    StableSortCons(e2, [e3] + ([e4] + ([e5] + ([e6] + ([e7] + [])))));
    InsertHere(e2, [e3] + ([e5] + ([e7] + ([e4] + ([e6] + [])))));
    StableSortCons(e1, [e2] + ([e3] + ([e4] + ([e5] + ([e6] + ([e7] + []))))));
    InsertPast(e1, e2, [e3] + ([e5] + ([e7] + ([e4] + ([e6] + [])))));
    InsertPast(e1, e3, [e5] + ([e7] + ([e4] + ([e6] + []))));
    InsertPast(e1, e5, [e7] + ([e4] + ([e6] + [])));
    InsertHere(e1, [e7] + ([e4] + ([e6] + [])));
    StableSortCons(e0, [e1] + ([e2] + ([e3] + ([e4] + ([e5] + ([e6] + ([e7] + [])))))));
    InsertPast(e0, e2, [e3] + ([e5] + ([e1] + ([e7] + ([e4] + ([e6] + []))))));
    InsertPast(e0, e3, [e5] + ([e1] + ([e7] + ([e4] + ([e6] + [])))));
    InsertPast(e0, e5, [e1] + ([e7] + ([e4] + ([e6] + []))));
    InsertPast(e0, e1, [e7] + ([e4] + ([e6] + [])));
    InsertPast(e0, e7, [e4] + ([e6] + []));
    InsertHere(e0, [e4] + ([e6] + []));
  }

  /** The stable sort orders the lightest edges first and keeps 1-3 before 3-4, 0-2 before 3-5, 0-1 before 2-3. */
  lemma DemoSorted()
    ensures StableSort(DemoEdges) == [Edge(1, 2, 1), Edge(1, 3, 2), Edge(3, 4, 2), Edge(0, 2, 3),
                                      Edge(3, 5, 3), Edge(0, 1, 4), Edge(2, 3, 4), Edge(4, 5, 6)]
  {
    var e0, e1, e2, e3 := Edge(0, 1, 4), Edge(0, 2, 3), Edge(1, 2, 1), Edge(1, 3, 2);
    var e4, e5, e6, e7 := Edge(2, 3, 4), Edge(3, 4, 2), Edge(4, 5, 6), Edge(3, 5, 3);
    SortSteps(e0, e1, e2, e3, e4, e5, e6, e7);
    Flatten8(e0, e1, e2, e3, e4, e5, e6, e7);
    Flatten8(e2, e3, e5, e1, e7, e0, e4, e6);
  }

  /** One step of the scan that accepts its edge. */
  lemma GreedyAccept(h: Edge, t: seq<Edge>, bound: int, acc: seq<Edge>)
    requires !Reachable(acc, h.src, h.dest)
    ensures Greedy([h] + t, bound, acc) ==
      if |acc| + 1 == bound then acc + [h] else Greedy(t, bound, acc + [h])
  {
    assert ([h] + t)[0] == h && ([h] + t)[1..] == t;
  }

  /*
   * Before each acceptance the endpoints of the next edge are not yet
   * connected: a labelling constant along the accepted edges separates them.
   */

  lemma Separated1()
    ensures !Reachable([], 1, 2)
  {
    SeparatedByLabels([], [0, 1, 2, 3, 4, 5], 1, 2);
  }

  lemma Separated2(e2: Edge)
    requires e2.src == 1 && e2.dest == 2
    ensures !Reachable([] + [e2], 1, 3)
  {
    SeparatedByLabels([] + [e2], [0, 1, 1, 3, 4, 5], 1, 3);
  }

  lemma Separated3(e2: Edge, e3: Edge)
    requires e2.src == 1 && e2.dest == 2 && e3.src == 1 && e3.dest == 3
    ensures !Reachable([] + [e2] + [e3], 3, 4)
  {
    SeparatedByLabels([] + [e2] + [e3], [0, 1, 1, 1, 4, 5], 3, 4);
  }

  lemma Separated4(e2: Edge, e3: Edge, e5: Edge)
    requires e2.src == 1 && e2.dest == 2 && e3.src == 1 && e3.dest == 3 && e5.src == 3 && e5.dest == 4
    ensures !Reachable([] + [e2] + [e3] + [e5], 0, 2)
  {
    SeparatedByLabels([] + [e2] + [e3] + [e5], [0, 1, 1, 1, 1, 5], 0, 2);
  }

  lemma Separated5(e2: Edge, e3: Edge, e5: Edge, e1: Edge)
    requires e2.src == 1 && e2.dest == 2 && e3.src == 1 && e3.dest == 3 && e5.src == 3 && e5.dest == 4
    requires e1.src == 0 && e1.dest == 2
    ensures !Reachable([] + [e2] + [e3] + [e5] + [e1], 3, 5)
  {
    SeparatedByLabels([] + [e2] + [e3] + [e5] + [e1], [0, 0, 0, 0, 0, 5], 3, 5);
  }

  /** The scan accepts the first five sorted edges and stops. */
  lemma GreedySteps(e2: Edge, e3: Edge, e5: Edge, e1: Edge, e7: Edge, t: seq<Edge>)
    requires e2.src == 1 && e2.dest == 2 && e3.src == 1 && e3.dest == 3 && e5.src == 3 && e5.dest == 4
    requires e1.src == 0 && e1.dest == 2 && e7.src == 3 && e7.dest == 5
    ensures Greedy([e2] + ([e3] + ([e5] + ([e1] + ([e7] + t)))), 5, []) == [] + [e2] + [e3] + [e5] + [e1] + [e7]
  {
    Separated1();
    Separated2(e2);
    Separated3(e2, e3);
    Separated4(e2, e3, e5);
    Separated5(e2, e3, e5, e1);
    GreedyAccept(e2, [e3] + ([e5] + ([e1] + ([e7] + t))), 5, []);
    GreedyAccept(e3, [e5] + ([e1] + ([e7] + t)), 5, [] + [e2]);
    GreedyAccept(e5, [e1] + ([e7] + t), 5, [] + [e2] + [e3]);
    GreedyAccept(e1, [e7] + t, 5, [] + [e2] + [e3] + [e5]);
    GreedyAccept(e7, t, 5, [] + [e2] + [e3] + [e5] + [e1]);
  }

  /** What `buildMST` returns for the demonstration graph. */
  lemma DemoKruskal(g: Graph)
    requires g == DemoGraph()
    ensures KruskalResult(g) == DemoMST
  {
    DemoGraphContents();
    DemoSorted();
    var e0, e1, e2, e3 := Edge(0, 1, 4), Edge(0, 2, 3), Edge(1, 2, 1), Edge(1, 3, 2);
    var e4, e5, e6, e7 := Edge(2, 3, 4), Edge(3, 4, 2), Edge(4, 5, 6), Edge(3, 5, 3);
    Flatten8(e2, e3, e5, e1, e7, e0, e4, e6);
    GreedySteps(e2, e3, e5, e1, e7, [e0] + ([e4] + ([e6] + [])));
    Flatten5(e2, e3, e5, e1, e7);
  }

  /** Five weights added one after another. */
  lemma SumFive(a: Edge, b: Edge, c: Edge, d: Edge, e: Edge)
    ensures Sum([] + [a] + [b] + [c] + [d] + [e]) == a.weight + b.weight + c.weight + d.weight + e.weight
  {
    SumSnoc([], a);
    SumSnoc([] + [a], b);
    SumSnoc([] + [a] + [b], c);
    SumSnoc([] + [a] + [b] + [c], d);
    SumSnoc([] + [a] + [b] + [c] + [d], e);
  }

  /** The weights `Main` reports: 11 before the removal, 14 after. */
  lemma DemoWeights()
    ensures Sum(DemoMST) == 11
    ensures Sum(DemoRest + [Edge(0, 1, 4)]) == 14
  {
    var e0, e1, e2, e3 := Edge(0, 1, 4), Edge(0, 2, 3), Edge(1, 2, 1), Edge(1, 3, 2);
    var e5, e7 := Edge(3, 4, 2), Edge(3, 5, 3);
    SumFive(e2, e3, e5, e1, e7);
    Flatten5(e2, e3, e5, e1, e7);
    SumFive(e3, e5, e1, e7, e0);
    Flatten5(e3, e5, e1, e7, e0);
    assert DemoRest + [e0] == [e3, e5, e1, e7, e0];
  }

  /** Removing edge 1-2 takes the first MST edge away. */
  lemma DemoRemoval()
    ensures IndexOf(DemoMST, Edge(1, 2, 1)) == Some(0)
    ensures RemoveFirst(DemoMST, Edge(1, 2, 1)) == DemoRest
  {
    assert DemoMST[..0] + DemoMST[1..] == DemoRest;
  }

  /** Through `DemoRest`, vertex 0 reaches exactly 0 and 2, vertex 1 exactly 1, 3, 4 and 5. */
  lemma DemoReach(rest: seq<Edge>)
    requires rest == DemoRest
    ensures forall y :: 0 <= y < 6 ==> (Reachable(rest, 0, y) <==> y in {0, 2})
    ensures forall y :: 0 <= y < 6 ==> (Reachable(rest, 1, y) <==> y in {1, 3, 4, 5})
  {
    var lab := [0, 1, 0, 1, 1, 1];
    assert forall e :: e in rest ==> lab[e.src] == lab[e.dest];
    forall y | y in {1, 3, 4, 5} ensures !Reachable(rest, 0, y) {
      SeparatedByLabels(rest, lab, 0, y);
    }
    forall y | y in {0, 2} ensures !Reachable(rest, 1, y) {
      SeparatedByLabels(rest, lab, 1, y);
    }
    assert Connects(rest[2], 0, 2) && Connects(rest[0], 1, 3) && Connects(rest[1], 3, 4) && Connects(rest[3], 3, 5);
    ReachableRefl(rest, 0);
    ReachableEdge(rest, 0, 2);
    ReachableRefl(rest, 1);
    ReachableEdge(rest, 1, 3);
    ReachableExtend(rest, 1, 3, 4);
    ReachableExtend(rest, 1, 3, 5);
  }

  /** The only component list of `DemoRest` on six vertices is `{0, 2}`, `{1, 3, 4, 5}`. */
  lemma DemoComponents(rest: seq<Edge>, comps: seq<set<int>>)
    requires rest == DemoRest && IsComponentList(6, rest, comps)
    ensures comps == DemoComps
  {
    DemoReach(rest);
    assert InSome(comps, 0) && InSome(comps, 1);
    var k0 :| 0 <= k0 < |comps| && 0 in comps[k0];
    var k1 :| 0 <= k1 < |comps| && 1 in comps[k1];
    // No vertex lies below 0, so vertex 0 is in the first component.
    assert !HasSmaller(comps[0], 0);
    assert k0 == 0;
    ComponentIsReachableSet(6, rest, comps, 0, 0);
    assert comps[0] == {0, 2};
    // Vertex 0 is taken, so the second component has nothing below 1.
    forall x | x in comps[1] ensures 1 <= x {
      assert 0 <= x && x !in comps[0];
    }
    assert !HasSmaller(comps[1], 1);
    assert k1 == 1;
    ComponentIsReachableSet(6, rest, comps, 1, 1);
    assert comps[1] == {1, 3, 4, 5};
    assert forall y :: 0 <= y < 6 ==> y in comps[0] || y in comps[1];
    if |comps| > 2 {
      assert false;
    }
  }

  /** Against the components of `DemoRest`, a crossing edge is a candidate exactly when it is not edge 1-2. */
  lemma DemoCandidates(e: Edge)
    requires IsComponentList(6, DemoRest, DemoComps)
    ensures IsCandidate(e, DemoComps[0], DemoComps[1], DemoRest, Edge(1, 2, 1)) <==>
      Crosses(e, DemoComps[0], DemoComps[1]) && !Connects(e, 1, 2)
  {
    if Crosses(e, DemoComps[0], DemoComps[1]) {
      CrossingEdgeNotInMST(6, DemoRest, DemoComps, e);
    }
  }

  /** Among the graph's edges, exactly 0-1 (position 0) and 2-3 (position 4) are candidates. */
  lemma DemoCandidatePositions(edges: seq<Edge>)
    requires edges == DemoEdges && IsComponentList(6, DemoRest, DemoComps)
    ensures forall k :: 0 <= k < |edges| ==>
      (IsCandidate(edges[k], DemoComps[0], DemoComps[1], DemoRest, Edge(1, 2, 1)) <==> k == 0 || k == 4)
  {
    forall k | 0 <= k < |edges|
      ensures IsCandidate(edges[k], DemoComps[0], DemoComps[1], DemoRest, Edge(1, 2, 1)) <==> k == 0 || k == 4
    {
      DemoCandidates(edges[k]);
    }
  }

  /**
   * The replacement for edge 1-2: the crossing candidates are 0-1 and 2-3,
   * both of weight 4, and the earlier one, 0-1, wins.
   */
  lemma DemoReplacement(edges: seq<Edge>)
    requires edges == DemoEdges && IsComponentList(6, DemoRest, DemoComps)
    ensures FindReplacementEdge(DemoComps, Edge(1, 2, 1), edges, DemoRest) == Some(Edge(0, 1, 4))
  {
    DemoCandidatePositions(edges);
    assert edges[0] in edges && IsCandidate(edges[0], DemoComps[0], DemoComps[1], DemoRest, Edge(1, 2, 1));
    // Edge 2-3 sits at position 4 only, behind the equally light 0-1.
    forall p | 0 <= p < |edges| && edges[p] == Edge(2, 3, 4) ensures p == 4 {}
  }

  /** Builds the solver for the demonstration graph and its MST, of weight 11. */
  method DemoBuild() returns (s: Solver, original: seq<Edge>)
    ensures Consistent(s) && s.graph == Graph(6, DemoEdges) && s.mst == original
    ensures original == DemoMST && CalculateTotalWeight(original) == 11
  {
    var g := DemoGraph();
    DemoGraphContents();
    s, original := MSTSolver.BuildMST(NewSolver(g));
    DemoKruskal(g);
    DemoWeights();
  }

  /**
   * Looks up edge 1-2 in the demonstration MST, removes it and reconnects
   * the tree: the components are `{0, 2}` and `{1, 3, 4, 5}`, the replacement
   * is 0-1 and the new tree weighs 14.
   */
  method DemoRemove(s: Solver) returns (comps: seq<set<int>>, updated: seq<Edge>)
    requires Consistent(s) && s.graph == Graph(6, DemoEdges) && s.mst == DemoMST
    ensures comps == DemoComps
    ensures updated == DemoRest + [Edge(0, 1, 4)] && CalculateTotalWeight(updated) == 14
  {
    var found := FindEdgeInMST(s, 1, 2);
    assert Connects(s.mst[0], 1, 2);
    assert found == Some(Edge(1, 2, 1));
    DemoRemoval();
    var s';
    s', comps, updated := RemoveEdgeAndFindReplacement(s, found.value);
    DemoComponents(DemoRest, comps);
    DemoReplacement(s.graph.edges);
    DemoWeights();
  }

  /**
   * The whole demonstration: the MST of the demonstration graph before and
   * after removing edge 1-2, and the components in between.
   */
  method DemoWorkflow() returns (original: seq<Edge>, comps: seq<set<int>>, updated: seq<Edge>)
    ensures original == DemoMST && CalculateTotalWeight(original) == 11
    ensures comps == DemoComps
    ensures updated == DemoRest + [Edge(0, 1, 4)] && CalculateTotalWeight(updated) == 14
  {
    var s;
    s, original := DemoBuild();
    comps, updated := DemoRemove(s);
  }
}
