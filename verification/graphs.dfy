/**
 * The `Graph` container: a vertex count and an append-only list of edges
 * whose insertion order is kept (later tie-breaks depend on it).
 * `getEdges` and `getVerticesCount` are the datatype's fields: a graph is a
 * value here, so the copy `getEdges` hands out can never alias the graph.
 */
module Graphs {
  import opened Edges

  datatype Graph = Graph(vertices: int, edges: seq<Edge>)

  /** Every endpoint of every edge in `es` is a vertex id in `[0, n)`. */
  predicate EdgesWithin(es: seq<Edge>, n: int) {
    forall e :: e in es ==> 0 <= e.src < n && 0 <= e.dest < n
  }

  /** A graph every algorithm may run on: a vertex count and in-range endpoints. */
  predicate Valid(g: Graph) {
    g.vertices >= 0 && EdgesWithin(g.edges, g.vertices)
  }

  /** `new Graph(vertices)`. */
  function NewGraph(vertices: int): (g: Graph)
    ensures g.vertices == vertices
    ensures |g.edges| == 0
  {
    Graph(vertices, [])
  }

  /**
   * `addEdge(src, dest, weight)`: exactly one new edge, at the end; the
   * earlier edges and the vertex count are untouched.
   */
  function AddEdge(g: Graph, src: int, dest: int, weight: int): (h: Graph)
    ensures h.vertices == g.vertices
    ensures |h.edges| == |g.edges| + 1
    ensures h.edges[..|g.edges|] == g.edges
    ensures h.edges[|g.edges|] == Edge(src, dest, weight)
  {
    g.(edges := g.edges + [Edge(src, dest, weight)])
  }

  /** Number of entries of `es` equal (by endpoints) to `e`. */
  function CountEqual(es: seq<Edge>, e: Edge): (c: nat)
    ensures c <= |es|
  {
    if |es| == 0 then 0
    else CountEqual(es[..|es| - 1], e) + (if Equals(es[|es| - 1], e) then 1 else 0)
  }

  /**
   * `addEdge` performs no duplicate check: adding an edge parallel to
   * existing ones raises their number by one, whatever the weights.
   */
  lemma AddEdgeKeepsParallels(g: Graph, src: int, dest: int, weight: int, e: Edge)
    requires Equals(e, Edge(src, dest, weight))
    ensures CountEqual(AddEdge(g, src, dest, weight).edges, e) == CountEqual(g.edges, e) + 1
  {
    var h := AddEdge(g, src, dest, weight);
    assert h.edges[..|h.edges| - 1] == g.edges;
  }

  /** Adding an edge keeps a graph valid exactly when its endpoints are vertex ids. */
  lemma AddEdgeValid(g: Graph, src: int, dest: int, weight: int)
    requires Valid(g)
    ensures Valid(AddEdge(g, src, dest, weight)) <==> 0 <= src < g.vertices && 0 <= dest < g.vertices
  {
    var h := AddEdge(g, src, dest, weight);
    assert Edge(src, dest, weight) in h.edges;
    forall e | e in h.edges
      ensures e in g.edges || e == Edge(src, dest, weight)
    {
      var k :| 0 <= k < |h.edges| && h.edges[k] == e;
      if k < |g.edges| {
        assert e == h.edges[..|g.edges|][k];
      }
    }
  }

  /** `Graph.createTestGraph`: five vertices and seven edges added one by one. */
  function TestGraph(): Graph {
    var g := NewGraph(5);
    var g := AddEdge(g, 0, 1, 2);
    var g := AddEdge(g, 1, 2, 3);
    var g := AddEdge(g, 0, 3, 6);
    var g := AddEdge(g, 1, 4, 5);
    var g := AddEdge(g, 2, 4, 4);
    var g := AddEdge(g, 3, 4, 7);
    AddEdge(g, 1, 3, 5)
  }

  /** The test graph holds exactly the seven listed edges, in insertion order. */
  lemma TestGraphContents()
    ensures TestGraph().vertices == 5
    ensures TestGraph().edges == [Edge(0, 1, 2), Edge(1, 2, 3), Edge(0, 3, 6), Edge(1, 4, 5),
                                  Edge(2, 4, 4), Edge(3, 4, 7), Edge(1, 3, 5)]
    ensures Valid(TestGraph())
  {
    var e0, e1, e2, e3 := Edge(0, 1, 2), Edge(1, 2, 3), Edge(0, 3, 6), Edge(1, 4, 5);
    var e4, e5, e6 := Edge(2, 4, 4), Edge(3, 4, 7), Edge(1, 3, 5);
    AddSeven(NewGraph(5), e0, e1, e2, e3, e4, e5, e6);
    assert [] + [e0] + [e1] + [e2] + [e3] + [e4] + [e5] + [e6] == [e0, e1, e2, e3, e4, e5, e6];
  }

  /** Seven `addEdge` calls append the seven edges in call order. */
  lemma AddSeven(g0: Graph, a: Edge, b: Edge, c: Edge, d: Edge, e: Edge, f: Edge, g: Edge)
    ensures var g1 := AddEdge(g0, a.src, a.dest, a.weight);
      var g2 := AddEdge(g1, b.src, b.dest, b.weight);
      var g3 := AddEdge(g2, c.src, c.dest, c.weight);
      var g4 := AddEdge(g3, d.src, d.dest, d.weight);
      var g5 := AddEdge(g4, e.src, e.dest, e.weight);
      var g6 := AddEdge(g5, f.src, f.dest, f.weight);
      AddEdge(g6, g.src, g.dest, g.weight) == Graph(g0.vertices, g0.edges + [a] + [b] + [c] + [d] + [e] + [f] + [g])
  {
  }
}
