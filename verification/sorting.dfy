/**
 * `Collections.sort` on edges: a stable sort by `compareTo`, i.e. by weight
 * only, with equal-weight edges left in their input order. The model is an
 * insertion sort; `StableSortUnique` shows that every stable sort by weight
 * (Java's merge sort included) yields the same sequence.
 * Also the subsequence relation used to describe Kruskal's output.
 */
module Sorting {
  import opened Edges

  predicate SortedByWeight(s: seq<Edge>) {
    forall i, j :: 0 <= i < j < |s| ==> s[i].weight <= s[j].weight
  }

  /** The entries of `s` of weight `w`, in their order in `s`. */
  function WithWeight(s: seq<Edge>, w: int): (r: seq<Edge>)
    ensures |r| <= |s|
  {
    if |s| == 0 then []
    else (if s[0].weight == w then [s[0]] else []) + WithWeight(s[1..], w)
  }

  /** The weight class of `w` holds exactly the entries of weight `w`. */
  lemma {:induction false} WithWeightMembers(s: seq<Edge>, w: int, e: Edge)
    ensures e in WithWeight(s, w) <==> e in s && e.weight == w
  {
    if |s| > 0 {
      WithWeightMembers(s[1..], w, e);
      assert s == [s[0]] + s[1..];
    }
  }

  /** Places `x` in front of the first entry of `t` that is not lighter than it. */
  function Insert(x: Edge, t: seq<Edge>): (r: seq<Edge>)
    ensures multiset(r) == multiset(t) + multiset{x}
  {
    if |t| == 0 || CompareTo(x, t[0]) <= 0 then [x] + t
    else
      assert t == [t[0]] + t[1..];
      [t[0]] + Insert(x, t[1..])
  }

  /** Prepending an entry no heavier than any other keeps a sequence sorted. */
  lemma ConsSorted(h: Edge, s: seq<Edge>)
    requires SortedByWeight(s)
    requires forall e :: e in s ==> h.weight <= e.weight
    ensures SortedByWeight([h] + s)
  {
    var r := [h] + s;
    forall i, j | 0 <= i < j < |r| ensures r[i].weight <= r[j].weight {
      assert r[j] == s[j - 1];
      if i == 0 {
        assert r[j] in s;
      } else {
        assert r[i] == s[i - 1];
      }
    }
  }

  /** Every entry of `Insert(x, t[1..])` is at least as heavy as `t[0]`. */
  lemma InsertAboveHead(x: Edge, t: seq<Edge>)
    requires SortedByWeight(t) && |t| > 0 && t[0].weight <= x.weight
    ensures forall e :: e in Insert(x, t[1..]) ==> t[0].weight <= e.weight
  {
    var rest := Insert(x, t[1..]);
    forall e | e in rest ensures t[0].weight <= e.weight {
      assert e in multiset(rest);
      if e != x {
        assert e in multiset(t[1..]);
        var k :| 0 <= k < |t[1..]| && t[1..][k] == e;
        assert t[k + 1] == e;
      }
    }
  }

  lemma {:induction false} InsertSorted(x: Edge, t: seq<Edge>)
    requires SortedByWeight(t)
    ensures SortedByWeight(Insert(x, t))
  {
    if |t| == 0 || CompareTo(x, t[0]) <= 0 {
      forall e | e in t ensures x.weight <= e.weight {
        var k :| 0 <= k < |t| && t[k] == e;
        assert t[0].weight <= t[k].weight;
      }
      ConsSorted(x, t);
    } else {
      assert SortedByWeight(t[1..]);
      InsertSorted(x, t[1..]);
      InsertAboveHead(x, t);
      ConsSorted(t[0], Insert(x, t[1..]));
    }
  }

  function StableSort(s: seq<Edge>): (r: seq<Edge>)
    ensures multiset(r) == multiset(s)
    ensures SortedByWeight(r)
  {
    if |s| == 0 then []
    else
      assert s == [s[0]] + s[1..];
      InsertSorted(s[0], StableSort(s[1..]));
      Insert(s[0], StableSort(s[1..]))
  }

  lemma {:induction false} WithWeightInsert(x: Edge, t: seq<Edge>, w: int)
    ensures WithWeight(Insert(x, t), w) == (if x.weight == w then [x] else []) + WithWeight(t, w)
  {
    var fx := if x.weight == w then [x] else [];
    if |t| == 0 || CompareTo(x, t[0]) <= 0 {
      var r := [x] + t;
      assert Insert(x, t) == r;
      assert r[0] == x && r[1..] == t;
      assert WithWeight(r, w) == fx + WithWeight(t, w);
    } else {
      var rest := Insert(x, t[1..]);
      var r := [t[0]] + rest;
      assert Insert(x, t) == r;
      var f0 := if t[0].weight == w then [t[0]] else [];
      WithWeightInsert(x, t[1..], w);
      assert r[0] == t[0] && r[1..] == rest;
      assert WithWeight(r, w) == f0 + (fx + WithWeight(t[1..], w));
      assert WithWeight(t, w) == f0 + WithWeight(t[1..], w);
      // `x` is strictly heavier than `t[0]`, so at most one of them has weight `w`.
      if t[0].weight == w {
        assert fx == [];
        assert f0 + (fx + WithWeight(t[1..], w)) == f0 + WithWeight(t[1..], w);
        assert fx + WithWeight(t, w) == WithWeight(t, w);
      } else {
        assert f0 == [];
        assert f0 + (fx + WithWeight(t[1..], w)) == fx + WithWeight(t[1..], w);
        assert WithWeight(t, w) == WithWeight(t[1..], w);
      }
      assert WithWeight(Insert(x, t), w) == fx + WithWeight(t, w);
    }
  }

  /** Sorting a non-empty sequence inserts its head into the sorted tail. */
  lemma StableSortCons(x: Edge, t: seq<Edge>)
    ensures StableSort([x] + t) == Insert(x, StableSort(t))
  {
    assert ([x] + t)[1..] == t;
  }

  /** `x` goes in front of an entry at least as heavy: the earlier of two equals stays first. */
  lemma InsertHere(x: Edge, t: seq<Edge>)
    requires |t| == 0 || x.weight <= t[0].weight
    ensures Insert(x, t) == [x] + t
  {
  }

  /** `x` goes past an entry strictly lighter than itself. */
  lemma InsertPast(x: Edge, h: Edge, t: seq<Edge>)
    requires h.weight < x.weight
    ensures Insert(x, [h] + t) == [h] + Insert(x, t)
  {
    assert ([h] + t)[1..] == t;
  }

  /** Stability: for every weight, the entries of that weight keep their input order. */
  lemma {:induction false} StableSortIsStable(s: seq<Edge>, w: int)
    ensures WithWeight(StableSort(s), w) == WithWeight(s, w)
  {
    if |s| > 0 {
      StableSortIsStable(s[1..], w);
      WithWeightInsert(s[0], StableSort(s[1..]), w);
    }
  }

  lemma WithWeightHead(s: seq<Edge>)
    requires |s| > 0
    ensures WithWeight(s, s[0].weight) == [s[0]] + WithWeight(s[1..], s[0].weight)
  {
  }

  lemma WithWeightTail(s: seq<Edge>, w: int)
    requires |s| > 0 && s[0].weight != w
    ensures WithWeight(s, w) == WithWeight(s[1..], w)
  {
  }

  /** Two weight-sorted, non-empty sequences with the same weight classes start alike. */
  lemma SameClassesSameHead(a: seq<Edge>, b: seq<Edge>)
    requires SortedByWeight(a) && SortedByWeight(b) && |a| > 0 && |b| > 0
    requires forall w :: WithWeight(a, w) == WithWeight(b, w)
    ensures a[0] == b[0]
  {
    WithWeightMembers(b, b[0].weight, b[0]);
    WithWeightMembers(a, b[0].weight, b[0]);
    WithWeightMembers(a, a[0].weight, a[0]);
    WithWeightMembers(b, a[0].weight, a[0]);
    var i :| 0 <= i < |a| && a[i] == b[0];
    var j :| 0 <= j < |b| && b[j] == a[0];
    assert a[0].weight <= a[i].weight;
    assert b[0].weight <= b[j].weight;
    var m := a[0].weight;
    WithWeightHead(a);
    WithWeightHead(b);
    assert WithWeight(a, m)[0] == a[0];
    assert WithWeight(b, m)[0] == b[0];
  }

  /** Dropping a common head keeps the weight classes equal. */
  lemma SameClassesTail(a: seq<Edge>, b: seq<Edge>)
    requires |a| > 0 && |b| > 0 && a[0] == b[0]
    requires forall w :: WithWeight(a, w) == WithWeight(b, w)
    ensures forall w :: WithWeight(a[1..], w) == WithWeight(b[1..], w)
  {
    var m := a[0].weight;
    forall w
      ensures WithWeight(a[1..], w) == WithWeight(b[1..], w)
    {
      if w == m {
        WithWeightHead(a);
        WithWeightHead(b);
        assert WithWeight(a[1..], w) == WithWeight(a, w)[1..];
        assert WithWeight(b[1..], w) == WithWeight(b, w)[1..];
      } else {
        WithWeightTail(a, w);
        WithWeightTail(b, w);
      }
    }
  }

  /**
   * A stable sort by weight is unique: two weight-sorted sequences that agree
   * on the order of every weight class are identical.
   */
  lemma {:induction false} StableSortUnique(a: seq<Edge>, b: seq<Edge>)
    requires SortedByWeight(a) && SortedByWeight(b)
    requires forall w :: WithWeight(a, w) == WithWeight(b, w)
    ensures a == b
    decreases |a| + |b|
  {
    if |a| == 0 {
      if |b| > 0 {
        WithWeightMembers(b, b[0].weight, b[0]);
        assert false;
      }
    } else if |b| == 0 {
      WithWeightMembers(a, a[0].weight, a[0]);
      assert false;
    } else {
      SameClassesSameHead(a, b);
      SameClassesTail(a, b);
      assert SortedByWeight(a[1..]) && SortedByWeight(b[1..]);
      StableSortUnique(a[1..], b[1..]);
      assert a == [a[0]] + a[1..];
      assert b == [b[0]] + b[1..];
    }
  }

  /**
   * `a` is a subsequence of `b`: its entries occur in `b` in the same order,
   * matched greedily from the front.
   */
  predicate IsSubseq(a: seq<Edge>, b: seq<Edge>)
    decreases |b|
  {
    if |a| == 0 then true
    else if |b| == 0 then false
    else if a[0] == b[0] then IsSubseq(a[1..], b[1..])
    else IsSubseq(a, b[1..])
  }

  lemma {:induction false} SubseqMembers(a: seq<Edge>, b: seq<Edge>)
    requires IsSubseq(a, b)
    ensures forall e :: e in a ==> e in b
    ensures |a| <= |b|
    decreases |b|
  {
    if |a| > 0 {
      if a[0] == b[0] {
        SubseqMembers(a[1..], b[1..]);
        forall e | e in a ensures e in b {
          if e != a[0] {
            assert e in a[1..];
          }
        }
      } else {
        SubseqMembers(a, b[1..]);
      }
    }
  }

  /** A subsequence survives an extra element at the front of the longer sequence. */
  lemma {:induction false} SubseqCons(a: seq<Edge>, x: Edge, b: seq<Edge>)
    requires IsSubseq(a, b)
    ensures IsSubseq(a, [x] + b)
    decreases |b|, 1
  {
    assert ([x] + b)[1..] == b;
    if |a| > 0 && a[0] == x {
      SubseqDropHead(a, b);
    }
  }

  lemma {:induction false} SubseqDropHead(a: seq<Edge>, b: seq<Edge>)
    requires |a| > 0 && IsSubseq(a, b)
    ensures IsSubseq(a[1..], b)
    decreases |b|, 0
  {
    assert |b| > 0;
    assert b == [b[0]] + b[1..];
    if a[0] == b[0] {
      SubseqCons(a[1..], b[0], b[1..]);
    } else {
      SubseqDropHead(a, b[1..]);
      SubseqCons(a[1..], b[0], b[1..]);
    }
  }

  /** A subsequence of a weight-sorted sequence is weight-sorted. */
  lemma {:induction false} SubseqOfSortedIsSorted(a: seq<Edge>, b: seq<Edge>)
    requires IsSubseq(a, b) && SortedByWeight(b)
    ensures SortedByWeight(a)
    decreases |b|
  {
    if |a| > 0 {
      assert SortedByWeight(b[1..]);
      if a[0] == b[0] {
        SubseqOfSortedIsSorted(a[1..], b[1..]);
        SubseqMembers(a[1..], b[1..]);
        forall i, j | 0 <= i < j < |a| ensures a[i].weight <= a[j].weight {
          if i > 0 {
            assert a[i] == a[1..][i - 1] && a[j] == a[1..][j - 1];
          } else {
            assert a[j] in a[1..];
            assert a[j] in b[1..];
            var k :| 0 <= k < |b[1..]| && b[1..][k] == a[j];
            assert b[k + 1] == a[j];
          }
        }
      } else {
        SubseqOfSortedIsSorted(a, b[1..]);
      }
    }
  }

  /** Taking one weight class of both sides keeps the subsequence relation. */
  lemma {:induction false} SubseqWithWeight(a: seq<Edge>, b: seq<Edge>, w: int)
    requires IsSubseq(a, b)
    ensures IsSubseq(WithWeight(a, w), WithWeight(b, w))
    decreases |b|
  {
    if |a| == 0 {
      assert WithWeight(a, w) == [];
    } else if a[0] == b[0] {
      SubseqWithWeight(a[1..], b[1..], w);
      if b[0].weight == w {
        var fa := WithWeight(a, w);
        var fb := WithWeight(b, w);
        assert fa == [a[0]] + WithWeight(a[1..], w);
        assert fb == [b[0]] + WithWeight(b[1..], w);
        assert fa[1..] == WithWeight(a[1..], w);
        assert fb[1..] == WithWeight(b[1..], w);
      } else {
        WithWeightTail(a, w);
        WithWeightTail(b, w);
      }
    } else {
      SubseqWithWeight(a, b[1..], w);
      if b[0].weight == w {
        assert WithWeight(b, w) == [b[0]] + WithWeight(b[1..], w);
        SubseqCons(WithWeight(a, w), b[0], WithWeight(b[1..], w));
      } else {
        WithWeightTail(b, w);
      }
    }
  }
}
