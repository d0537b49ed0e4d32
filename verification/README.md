# MST edge removal, modelled in Dafny

This project models the core of *MST-Edge-Removal*, a small Java program that:

1. builds a minimum spanning tree of an undirected weighted graph with Kruskal's algorithm;
2. removes one tree edge, chosen by its endpoints;
3. splits the vertices into the connected components of the remaining tree edges, using breadth-first search;
4. reconnects the tree with the lightest graph edge that crosses the first two components.

Modules, one per file:

| file | module | models |
|---|---|---|
| `options.dfy` | `Options` | `null` results as `Option` |
| `edges.dfy` | `Edges` | the `Edge` class: endpoint-only equality, `hashCode`, `compareTo` |
| `graphs.dfy` | `Graphs` | the `Graph` class: vertex count plus append-only edge list, `createTestGraph` |
| `sorting.dfy` | `Sorting` | `Collections.sort` on edges, a stable sort by weight |
| `connectivity.dfy` | `Connectivity` | reachability through a list of edges, and the union-find structure as a label per vertex |
| `kruskal.dfy` | `Kruskal` | `buildMST` |
| `components.dfy` | `Components` | `findComponents` |
| `replacement.dfy` | `Replacement` | `findReplacementEdge` |
| `solver.dfy` | `MSTSolver` | the `MSTSolver` object and its public operations |
| `demo.dfy` | `Demo` | the demonstration graph of `Main` and the run of `main` on it |

Modelling choices:
- **Values, not objects.** The solver is the value `Solver(graph, mst)`. Each operation returns the new state next to its Java result.
- **Edge equality.** Equality of edges is the predicate `Equals`. It compares the unordered endpoint pair and ignores the weight, as `Edge.equals` does.
  - Datatype equality `==` is used only where Java compares object identity or where the values are literally the same.
  - `List.remove`, `List.contains` and `findEdgeInMST` all go through `Equals`.
  - So removal matches edges by endpoints only, whatever the weight. The replacement search rejects every graph edge parallel to the removed one, even a lighter one.
- **Union-find.** The `UnionFind` class is not part of this model. Its observable behaviour is given by a label per vertex:
  - `connected` compares the labels of two vertices;
  - `union` relabels one class (`Merge`).
  - The invariant `LabelsTrack` states that equal labels mean exactly "reachable through the edges accepted so far".
- **Kruskal reference.** Kruskal's scan is specified by the ghost function `Kruskal.Greedy`, which is defined with reachability rather than labels. The loop of `Scan` is proved to compute it.

## Model

| member | source | states |
|---|---|---|
| Edges.Key | MST-Edge-Removal/src/main/java/mst/Edge.java:33-35 | the canonical key of an edge is its endpoint pair ordered as (min, max) |
| Edges.Equals | MST-Edge-Removal/src/main/java/mst/Edge.java:24-30 | two edges are equal exactly when their canonical (min, max) keys agree, i.e. when the endpoints match in the same or the swapped orientation; the weights play no part |
| Edges.EqualsIgnoresWeight | MST-Edge-Removal/src/main/java/mst/Edge.java:28-29 | (a,b,w) equals (b,a,w') and (a,b,w') whatever the weights |
| Edges.EqualsIsEquivalence | MST-Edge-Removal/src/main/java/mst/Edge.java:24-30 | edge equality is reflexive, symmetric and transitive |
| Edges.WrapInt | MST-Edge-Removal/src/main/java/mst/Edge.java:34 | Java `int` arithmetic: the result is the 32-bit two's-complement value congruent to the exact one |
| Edges.HashCode | MST-Edge-Removal/src/main/java/mst/Edge.java:33-35 | the hash `min * 31 + max` is a 32-bit int |
| Edges.HashConsistentWithEquals | MST-Edge-Removal/src/main/java/mst/Edge.java:24-35 | equal edges have equal hash codes |
| Edges.CompareTo | MST-Edge-Removal/src/main/java/mst/Edge.java:15-17 | the comparison is -1, 0 or 1; it is negative, zero or positive exactly when the first weight is smaller, equal or larger |
| Edges.CompareToIsTotalPreorder | MST-Edge-Removal/src/main/java/mst/Edge.java:15-17 | the comparison is antisymmetric in sign, total and transitive: a total preorder by weight |
| Graphs.NewGraph | MST-Edge-Removal/src/main/java/mst/Graph.java:10-13 | a new graph has the given vertex count and no edges |
| Graphs.AddEdge | MST-Edge-Removal/src/main/java/mst/Graph.java:15-25 | adding an edge keeps the vertex count and every earlier edge in place, and puts exactly (src, dest, weight) at the end |
| Graphs.AddEdgeKeepsParallels | MST-Edge-Removal/src/main/java/mst/Graph.java:15-17 | there is no duplicate check: adding an edge parallel to existing ones raises their count by one |
| Graphs.AddEdgeValid | MST-Edge-Removal/src/main/java/mst/Graph.java:15-17 | a graph with in-range endpoints stays so after `addEdge` exactly when the new endpoints are vertex ids |
| Graphs.TestGraphContents | MST-Edge-Removal/src/main/java/mst/Graph.java:46-59 | the test graph has 5 vertices and exactly the seven listed edges, in insertion order |
| Sorting.StableSort | MST-Edge-Removal/src/main/java/mst/MSTSolver.java:16-17 | the sorted copy is a permutation of the graph's edges, ordered by non-decreasing weight |
| Sorting.StableSortIsStable | MST-Edge-Removal/src/main/java/mst/MSTSolver.java:17 | for every weight, the edges of that weight appear in the sorted copy in their input order |
| Sorting.StableSortUnique | MST-Edge-Removal/src/main/java/mst/MSTSolver.java:17 | two weight-sorted sequences that agree on the order within every weight class are equal, so every stable sort by weight (Java's merge sort included) yields the modelled order |
| Connectivity.Singletons | MST-Edge-Removal/src/main/java/mst/MSTSolver.java:19 | `new UnionFind(V)`: V labels, two vertices sharing a label exactly when they are the same vertex |
| Connectivity.Merge | MST-Edge-Removal/src/main/java/mst/MSTSolver.java:25 | `union(u, v)`: u and v end up with u's label, vertices that shared a label still do, and vertices outside v's class keep their labels |
| Connectivity.SingletonsTrack | MST-Edge-Removal/src/main/java/mst/MSTSolver.java:19 | a fresh union-find structure separates every pair of distinct vertices and tracks the empty edge list |
| Connectivity.LabelsDecideReachable | MST-Edge-Removal/src/main/java/mst/MSTSolver.java:24 | `connected(a, b)` answers exactly whether a and b are reachable through the accepted edges |
| Connectivity.MergeTracks | MST-Edge-Removal/src/main/java/mst/MSTSolver.java:24-26 | after `union` of the endpoints of a newly accepted edge, the labels still describe reachability exactly |
| Kruskal.Scan | MST-Edge-Removal/src/main/java/mst/MSTSolver.java:19-33 | the loop with the union-find structure accepts exactly the edges the reference scan `Greedy` accepts, and stops at the same point |
| Kruskal.BuildMST | MST-Edge-Removal/src/main/java/mst/MSTSolver.java:15-36 | the result depends on the graph alone. It is a subsequence of the stably sorted edges with non-decreasing weights, equal-weight edges keep their graph order, it is a forest, it has at most V-1 edges, and with fewer than V-1 edges every graph edge's endpoints are connected by it |
| Kruskal.GreedyMaximal | MST-Edge-Removal/src/main/java/mst/MSTSolver.java:23-31 | the scan stops only at the bound, or else leaves no input edge whose endpoints it failed to connect |
| Kruskal.KruskalSortedSubsequence | MST-Edge-Removal/src/main/java/mst/MSTSolver.java:16-26 | the result is a subsequence of the stably sorted edges, so its weights never decrease and it holds only graph edges |
| Kruskal.KruskalStable | MST-Edge-Removal/src/main/java/mst/MSTSolver.java:17-26 | within every weight, the result's edges appear in the same relative order as in the graph |
| Kruskal.KruskalForest | MST-Edge-Removal/src/main/java/mst/MSTSolver.java:24-26 | every accepted edge joins two vertices not yet connected by the edges accepted before it |
| Kruskal.ForestHasNoSelfLoop | MST-Edge-Removal/src/main/java/mst/MSTSolver.java:24 | a self-loop is never accepted |
| Kruskal.KruskalBound | MST-Edge-Removal/src/main/java/mst/MSTSolver.java:28-31 | with at least one vertex the result has at most V-1 edges |
| Kruskal.KruskalSpansWhenShort | MST-Edge-Removal/src/main/java/mst/MSTSolver.java:23-33 | a result with fewer than V-1 edges connects the endpoints of every graph edge (it is a spanning forest) |
| Components.Neighbours | MST-Edge-Removal/src/main/java/mst/MSTSolver.java:69-77 | the adjacency list of x holds exactly the vertices joined to x by some MST edge |
| Components.Explore | MST-Edge-Removal/src/main/java/mst/MSTSolver.java:84-104 | one breadth-first search from an unvisited root collects a new component: it contains the root, only vertices reachable from it, is closed under adjacency and is disjoint from what was visited before |
| Components.FindComponents | MST-Edge-Removal/src/main/java/mst/MSTSolver.java:67-108 | the components partition [0, V) into non-empty disjoint sets, each closed under adjacency and connected, and each has a member smaller than every member of every later component |
| Components.ComponentIsReachableSet | MST-Edge-Removal/src/main/java/mst/MSTSolver.java:67-108 | each component is exactly the set of vertices reachable from any of its members |
| Components.IsolatedVertexIsSingleton | MST-Edge-Removal/src/main/java/mst/MSTSolver.java:83-103 | a vertex without incident MST edges forms a singleton component |
| Replacement.Crosses | MST-Edge-Removal/src/main/java/mst/MSTSolver.java:123-125 | `connectsComponents` holds exactly when the edge joins some vertex of the first component to some vertex of the second, in either orientation |
| Replacement.Contains | MST-Edge-Removal/src/main/java/mst/MSTSolver.java:128 | `mst.contains(edge)` holds exactly when some MST edge equals the edge by endpoints |
| Replacement.IsCandidate | MST-Edge-Removal/src/main/java/mst/MSTSolver.java:121-128 | an edge qualifies exactly when it crosses the two components, equals (by endpoints) no MST edge and does not equal the removed edge |
| Replacement.ScanFrom | MST-Edge-Removal/src/main/java/mst/MSTSolver.java:118-133 | the loop over the graph's edges keeps the position of the lightest candidate seen, the earliest among equally light ones |
| Replacement.FindReplacementEdge | MST-Edge-Removal/src/main/java/mst/MSTSolver.java:110-136 | with fewer than two components there is no replacement. Otherwise there is none exactly when no graph edge crosses components 0 and 1 while being unequal to every MST edge and to the removed edge. A found edge is such a candidate, is no heavier than any other, and every candidate before it in graph order is strictly heavier |
| Replacement.CrossingEdgeJoinsSeparateParts | MST-Edge-Removal/src/main/java/mst/MSTSolver.java:123-125 | an edge crossing the first two components joins vertices the remaining MST does not connect |
| Replacement.CrossingEdgeNotInMST | MST-Edge-Removal/src/main/java/mst/MSTSolver.java:128 | the `mst.contains` test never rejects a crossing edge |
| Replacement.ReplacementReconnects | MST-Edge-Removal/src/main/java/mst/MSTSolver.java:57-58 | adding a crossing edge connects every vertex of the first component with every vertex of the second, and with exactly two components all vertices |
| MSTSolver.NewSolver | MST-Edge-Removal/src/main/java/mst/MSTSolver.java:10-13 | a new solver holds the graph and an empty MST |
| MSTSolver.IndexOf | MST-Edge-Removal/src/main/java/mst/MSTSolver.java:41 | `List.remove` looks for the first MST position whose edge equals the argument by endpoints, and finds none exactly when no such edge exists |
| MSTSolver.RemoveFirst | MST-Edge-Removal/src/main/java/mst/MSTSolver.java:41 | removal leaves the list unchanged when nothing matches; otherwise it drops only the first match and shifts the later edges down by one |
| MSTSolver.SumRemoveAt | MST-Edge-Removal/src/main/java/mst/MSTSolver.java:41 | removing the edge at a position takes exactly its weight off the total |
| MSTSolver.RemovalForest | MST-Edge-Removal/src/main/java/mst/MSTSolver.java:41 | removing the first edge equal to the argument from a forest, if there is one, leaves a forest |
| MSTSolver.ForestRemoveAt | MST-Edge-Removal/src/main/java/mst/MSTSolver.java:41 | removing an edge from a forest leaves a forest |
| MSTSolver.ReplacementKeepsForest | MST-Edge-Removal/src/main/java/mst/MSTSolver.java:55-58 | appending the replacement to a forest keeps it a forest |
| MSTSolver.ReplacementSpans | MST-Edge-Removal/src/main/java/mst/MSTSolver.java:55-58 | with exactly two components, appending a found replacement connects all vertices again |
| MSTSolver.CalculateTotalWeight | MST-Edge-Removal/src/main/java/mst/MSTSolver.java:139-141 | the total is a 32-bit int congruent to the exact sum of the weights, and equal to it when the exact sum fits |
| MSTSolver.BuildMST | MST-Edge-Removal/src/main/java/mst/MSTSolver.java:15-36 | the stored MST is replaced by Kruskal's result for the graph, whatever was stored before (repeated calls give the same list). The graph is unchanged, and the result is a forest of graph edges with at most V-1 edges |
| MSTSolver.FindEdgeInMST | MST-Edge-Removal/src/main/java/mst/MSTSolver.java:178-186 | the result is `null` exactly when no MST edge joins src and dest in either orientation; otherwise it is the first MST edge that does |
| MSTSolver.RemoveEdgeAndFindReplacement | MST-Edge-Removal/src/main/java/mst/MSTSolver.java:38-65 | with no MST edge equal to the argument, nothing changes. Otherwise the first equal edge is removed, the components of the rest are computed, and the replacement, if any, is appended last. The total weight changes by the replacement's weight minus the removed edge's. A forest stays a forest, and with exactly two components and a replacement found, all vertices are connected again |
| Demo.DemoGraphContents | MST-Edge-Removal/src/main/java/mst/Main.java:112-126 | the demonstration graph has 6 vertices and the eight listed edges in order |
| Demo.DemoSorted | MST-Edge-Removal/src/main/java/mst/MSTSolver.java:16-17 | sorting the demonstration edges puts 1-2 first and keeps 1-3 before 3-4, 0-2 before 3-5 and 0-1 before 2-3 |
| Demo.DemoKruskal | MST-Edge-Removal/src/main/java/mst/MSTSolver.java:15-36 | the MST of the demonstration graph is 1-2, 1-3, 3-4, 0-2, 3-5 |
| Demo.DemoComponents | MST-Edge-Removal/src/main/java/mst/MSTSolver.java:67-108 | after removing 1-2 the only possible component list is {0, 2}, {1, 3, 4, 5} |
| Demo.DemoReplacement | MST-Edge-Removal/src/main/java/mst/MSTSolver.java:110-136 | the replacement for 1-2 is 0-1 of weight 4, which wins the tie against 2-3 by coming first |
| Demo.DemoBuild | MST-Edge-Removal/src/main/java/mst/Main.java:14-21 | building the MST of the demonstration graph gives 1-2, 1-3, 3-4, 0-2, 3-5, of total weight 11 |
| Demo.DemoRemove | MST-Edge-Removal/src/main/java/mst/Main.java:40-53 | looking up and removing 1-2 yields components {0, 2}, {1, 3, 4, 5} and the new MST 1-3, 3-4, 0-2, 3-5, 0-1, of total weight 14 |
| Demo.DemoWorkflow | MST-Edge-Removal/src/main/java/mst/Main.java:14-28 | the whole demonstration run, with the MST before (weight 11) and after (weight 14) the removal |

## Left out

- Console and file output is not modelled. This covers the `System.out` logging inside `removeEdgeAndFindReplacement`, `printMST`, `saveMSTToCSV`, `createVisualization`, `Graph.printGraph` and `Graph.saveToCSV`. It has no effect on the computed values.
- `Edge.toString` and `Edge.toCSV` are left out: they only format integers as text.
- `Main` plumbing is left out: directory creation, banners, the error message when the edge is not found, and `identifyNewlyAddedEdge`. The demonstration always finds edge 1-2, which `Demo.DemoRemove` proves.
- `UnionFind` is not part of this model. Only its observable `connected`/`union` behaviour is given, by labels; rank and path compression are left out.
- `Edge.equals` with `null` or with an object of another class (always false) is left out: every comparison in the core is between two edges.
- Java collection internals are replaced by Dafny `seq` and `set` values: `HashMap`, `HashSet`, the `LinkedList` queue, and `ArrayList` copying and aliasing. In particular, that the not-found path of `removeEdgeAndFindReplacement` hands out the live list rather than a copy has no counterpart for values.
- Edge weights, vertex ids and the sum inside the model are mathematical integers. Only `hashCode` and `calculateTotalWeight`, whose results are Java `int`s, wrap explicitly; `CalculateTotalWeight` wraps the exact sum once, which gives the same value as wrapping after every addition.
- Global optimality of Kruskal's result (minimum total weight among all spanning trees) is not stated. The model proves the structural facts: sorted subsequence, forest, V-1 bound, spanning when short.
- That removing one edge of a spanning tree leaves exactly two components is not proved in general. `RemoveEdgeAndFindReplacement` states the reconnection for the case of exactly two components. The demonstration proves two components for its graph.
- MSTSolver.RemoveEdgeAndFindReplacement: it also returns the component list, which Java only prints. Java returns just the MST list. When no MST edge matches, that list is the unchanged MST. Otherwise it is the remaining edges plus the replacement, if any.
- Graphs.Valid and MSTSolver.Consistent: every operation on a graph requires a non-negative vertex count and endpoints in `[0, vertices)`. Java's `addEdge` and the solver constructor accept any ints, and the program then fails:
  - `findComponents` throws a `NullPointerException` for an out-of-range endpoint (`adjList.get` returns `null`);
  - it throws a `NegativeArraySizeException` for a negative vertex count (`new boolean[...]`);
  - `new UnionFind(...)` in `buildMST` is not part of this model, so what it does on such input is unknown.
  These exception paths are not modelled.
