/**
 * `MSTSolver.buildMST`: Kruskal's algorithm over the stably sorted edges,
 * accepting an edge when its endpoints are not yet connected and stopping
 * as soon as `vertices - 1` edges have been accepted.
 */
module Kruskal {
  import opened Edges
  import opened Graphs
  import opened Sorting
  import opened Connectivity

  /**
   * Reference definition of the scan: accept the next edge exactly when its
   * endpoints are not reachable through the edges accepted so far, and stop
   * right after the acceptance that brings the count to `bound`.
   */
  ghost function Greedy(s: seq<Edge>, bound: int, acc: seq<Edge>): seq<Edge>
    decreases |s|
  {
    if |s| == 0 then acc
    else if Reachable(acc, s[0].src, s[0].dest) then Greedy(s[1..], bound, acc)
    else if |acc| + 1 == bound then acc + [s[0]]
    else Greedy(s[1..], bound, acc + [s[0]])
  }

  /** Every edge joins two vertices not connected by the edges before it: no cycle. */
  ghost predicate Forest(es: seq<Edge>) {
    forall k :: 0 <= k < |es| ==> !Reachable(es[..k], es[k].src, es[k].dest)
  }

  /** A forest has no self-loop. */
  lemma ForestHasNoSelfLoop(es: seq<Edge>, k: int)
    requires Forest(es) && 0 <= k < |es|
    ensures es[k].src != es[k].dest
  {
    if es[k].src == es[k].dest {
      ReachableRefl(es[..k], es[k].src);
    }
  }

  lemma ForestAppend(es: seq<Edge>, e: Edge)
    requires Forest(es) && !Reachable(es, e.src, e.dest)
    ensures Forest(es + [e])
  {
    var es' := es + [e];
    forall k | 0 <= k < |es'| ensures !Reachable(es'[..k], es'[k].src, es'[k].dest) {
      if k < |es| {
        assert es'[..k] == es[..k] && es'[k] == es[k];
      } else {
        assert es'[..k] == es;
      }
    }
  }

  /** The scan keeps what it has accepted and adds a subsequence of its input. */
  lemma {:induction false} GreedyExtends(s: seq<Edge>, bound: int, acc: seq<Edge>)
    ensures |Greedy(s, bound, acc)| >= |acc|
    ensures Greedy(s, bound, acc)[..|acc|] == acc
    ensures IsSubseq(Greedy(s, bound, acc)[|acc|..], s)
    decreases |s|
  {
    var r := Greedy(s, bound, acc);
    if |s| == 0 {
    } else if Reachable(acc, s[0].src, s[0].dest) {
      GreedyExtends(s[1..], bound, acc);
      SubseqCons(r[|acc|..], s[0], s[1..]);
      assert s == [s[0]] + s[1..];
    } else if |acc| + 1 == bound {
      assert r[|acc|..] == [s[0]];
      assert IsSubseq([s[0]][1..], s[1..]);
    } else {
      var acc' := acc + [s[0]];
      GreedyExtends(s[1..], bound, acc');
      assert r[..|acc'|] == acc';
      assert r[..|acc|] == acc' [..|acc|];
      var t := r[|acc|..];
      assert t[0] == s[0];
      assert t[1..] == r[|acc'|..];
    }
  }

  /** Everything the scan accepts extends a forest to a forest. */
  lemma {:induction false} GreedyForest(s: seq<Edge>, bound: int, acc: seq<Edge>)
    requires Forest(acc)
    ensures Forest(Greedy(s, bound, acc))
    decreases |s|
  {
    if |s| == 0 {
    } else if Reachable(acc, s[0].src, s[0].dest) {
      GreedyForest(s[1..], bound, acc);
    } else {
      ForestAppend(acc, s[0]);
      if |acc| + 1 != bound {
        GreedyForest(s[1..], bound, acc + [s[0]]);
      }
    }
  }

  /** The early stop keeps the result at `bound` edges at most. */
  lemma {:induction false} GreedyBound(s: seq<Edge>, bound: int, acc: seq<Edge>)
    requires |acc| < bound
    ensures |Greedy(s, bound, acc)| <= bound
    decreases |s|
  {
    if |s| == 0 {
    } else if Reachable(acc, s[0].src, s[0].dest) {
      GreedyBound(s[1..], bound, acc);
    } else if |acc| + 1 != bound {
      GreedyBound(s[1..], bound, acc + [s[0]]);
    }
  }

  /** With a single vertex every edge is a self-loop and nothing is accepted. */
  lemma {:induction false} GreedySingleVertex(s: seq<Edge>, bound: int, acc: seq<Edge>)
    requires EdgesWithin(s, 1)
    ensures Greedy(s, bound, acc) == acc
    decreases |s|
  {
    if |s| > 0 {
      assert s[0] in s;
      ReachableRefl(acc, 0);
      assert EdgesWithin(s[1..], 1) by {
        forall e | e in s[1..] ensures e in s { }
      }
      GreedySingleVertex(s[1..], bound, acc);
    }
  }

  /**
   * Unless the scan stopped early, its result connects the endpoints of every
   * input edge: it is a spanning forest of the input.
   */
  lemma {:induction false} GreedyMaximal(s: seq<Edge>, bound: int, acc: seq<Edge>)
    ensures var r := Greedy(s, bound, acc);
      |r| == bound || forall e :: e in s ==> Reachable(r, e.src, e.dest)
    decreases |s|
  {
    var r := Greedy(s, bound, acc);
    if |s| == 0 {
    } else if |r| != bound {
      var e0 := s[0];
      GreedyExtends(s, bound, acc);
      assert r == acc + r[|acc|..];
      if Reachable(acc, e0.src, e0.dest) {
        GreedyMaximal(s[1..], bound, acc);
        ReachableAppend(acc, r[|acc|..], e0.src, e0.dest);
      } else {
        var acc' := acc + [e0];
        GreedyMaximal(s[1..], bound, acc');
        GreedyExtends(s[1..], bound, acc');
        assert Adjacent(acc', e0.src, e0.dest) by {
          assert Connects(acc'[|acc|], e0.src, e0.dest);
        }
        ReachableEdge(acc', e0.src, e0.dest);
        assert r == acc' + r[|acc'|..];
        ReachableAppend(acc', r[|acc'|..], e0.src, e0.dest);
      }
      forall e | e in s ensures Reachable(r, e.src, e.dest) {
        if e != e0 {
          assert e in s[1..];
        }
      }
    }
  }

  /**
   * The loop of `buildMST` over the sorted edges. The union-find structure is
   * a label per vertex (`connected` compares labels, `union` is `Merge`).
   */
  method Scan(sorted: seq<Edge>, n: nat) returns (mst: seq<Edge>)
    requires EdgesWithin(sorted, n)
    ensures mst == Greedy(sorted, n - 1, [])
  {
    var uf := Singletons(n);
    SingletonsTrack(n);
    mst := [];
    var i := 0;
    while i < |sorted|
      invariant 0 <= i <= |sorted|
      invariant LabelsTrack(uf, n, mst)
      invariant Greedy(sorted[i..], n - 1, mst) == Greedy(sorted, n - 1, [])
    {
      var e := sorted[i];
      assert e in sorted;
      assert sorted[i..][0] == e && sorted[i..][1..] == sorted[i + 1..];
      LabelsDecideReachable(uf, n, mst, e.src, e.dest);
      if uf[e.src] != uf[e.dest] {
        MergeTracks(uf, n, mst, e);
        uf := Merge(uf, e.src, e.dest);
        mst := mst + [e];
        if |mst| == n - 1 {
          break;
        }
      }
      i := i + 1;
    }
  }

  /**
   * `buildMST`: sorts a copy of the edges and scans it with a fresh
   * union-find structure, so the result depends on the graph alone.
   */
  method BuildMST(g: Graph) returns (mst: seq<Edge>)
    requires Valid(g)
    ensures mst == KruskalResult(g)
    ensures IsSubseq(mst, StableSort(g.edges))
    ensures SortedByWeight(mst)
    ensures forall w :: IsSubseq(WithWeight(mst, w), WithWeight(g.edges, w))
    ensures forall e :: e in mst ==> e in g.edges
    ensures Forest(mst)
    ensures g.vertices >= 1 ==> |mst| <= g.vertices - 1
    ensures |mst| < g.vertices - 1 ==> forall e :: e in g.edges ==> Reachable(mst, e.src, e.dest)
  {
    var sorted := StableSort(g.edges);
    SortedSameMembers(g.edges);
    mst := Scan(sorted, g.vertices);
    assert mst == KruskalResult(g);
    KruskalSummary(g);
  }

  /** The properties of the result gathered in one place, for `BuildMST`. */
  lemma KruskalSummary(g: Graph)
    requires Valid(g)
    ensures var r := KruskalResult(g);
      && IsSubseq(r, StableSort(g.edges))
      && SortedByWeight(r)
      && (forall w :: IsSubseq(WithWeight(r, w), WithWeight(g.edges, w)))
      && (forall e :: e in r ==> e in g.edges)
      && Forest(r)
      && (g.vertices >= 1 ==> |r| <= g.vertices - 1)
      && (|r| < g.vertices - 1 ==> forall e :: e in g.edges ==> Reachable(r, e.src, e.dest))
  {
    KruskalSortedSubsequence(g);
    forall w ensures IsSubseq(WithWeight(KruskalResult(g), w), WithWeight(g.edges, w)) {
      KruskalStable(g, w);
    }
    KruskalForest(g);
    if g.vertices >= 1 {
      KruskalBound(g);
    }
    KruskalSpansWhenShort(g);
  }

  /** What `buildMST` returns for `g`. */
  ghost function KruskalResult(g: Graph): seq<Edge> {
    Greedy(StableSort(g.edges), g.vertices - 1, [])
  }

  lemma SortedSameMembers(s: seq<Edge>)
    ensures forall e :: e in StableSort(s) <==> e in s
  {
    forall e ensures e in StableSort(s) <==> e in s {
      assert e in StableSort(s) <==> e in multiset(StableSort(s));
    }
  }

  /**
   * The result is a subsequence of the stably sorted edges: its weights never
   * decrease and it holds only graph edges.
   */
  lemma KruskalSortedSubsequence(g: Graph)
    ensures IsSubseq(KruskalResult(g), StableSort(g.edges))
    ensures SortedByWeight(KruskalResult(g))
    ensures forall e :: e in KruskalResult(g) ==> e in g.edges
  {
    var sorted := StableSort(g.edges);
    var r := KruskalResult(g);
    GreedyExtends(sorted, g.vertices - 1, []);
    assert r[0..] == r;
    SubseqOfSortedIsSorted(r, sorted);
    SubseqMembers(r, sorted);
    SortedSameMembers(g.edges);
  }

  /** Equal-weight edges of the result keep their order in the graph. */
  lemma KruskalStable(g: Graph, w: int)
    ensures IsSubseq(WithWeight(KruskalResult(g), w), WithWeight(g.edges, w))
  {
    KruskalSortedSubsequence(g);
    SubseqWithWeight(KruskalResult(g), StableSort(g.edges), w);
    StableSortIsStable(g.edges, w);
  }

  /** The result is acyclic: every accepted edge joined two separate parts. */
  lemma KruskalForest(g: Graph)
    ensures Forest(KruskalResult(g))
  {
    assert Forest([]);
    GreedyForest(StableSort(g.edges), g.vertices - 1, []);
  }

  /** The result has at most `vertices - 1` edges. */
  lemma KruskalBound(g: Graph)
    requires Valid(g) && g.vertices >= 1
    ensures |KruskalResult(g)| <= g.vertices - 1
  {
    var sorted := StableSort(g.edges);
    if g.vertices == 1 {
      SortedSameMembers(g.edges);
      assert EdgesWithin(sorted, 1);
      GreedySingleVertex(sorted, 0, []);
    } else {
      GreedyBound(sorted, g.vertices - 1, []);
    }
  }

  /** Fewer than `vertices - 1` edges means no graph edge was left unconnected. */
  lemma KruskalSpansWhenShort(g: Graph)
    ensures |KruskalResult(g)| < g.vertices - 1 ==>
      forall e :: e in g.edges ==> Reachable(KruskalResult(g), e.src, e.dest)
  {
    var sorted := StableSort(g.edges);
    var r := Greedy(sorted, g.vertices - 1, []);
    assert KruskalResult(g) == r;
    GreedyMaximal(sorted, g.vertices - 1, []);
    if |r| < g.vertices - 1 {
      forall e | e in g.edges ensures Reachable(r, e.src, e.dest) {
        SortedSameMembers(g.edges);
        assert e in sorted;
      }
    }
  }
}
