/**
 * The `Edge` value of the solver: an undirected weighted edge whose
 * equality looks only at the (unordered) pair of endpoints, whose hash is
 * computed from that unordered pair, and whose natural ordering compares
 * weights only.
 */
module Edges {

  /** An edge as created by the graph; `src`/`dest` keep the orientation it was added with. */
  datatype Edge = Edge(src: int, dest: int, weight: int)

  /** `e` runs between `x` and `y`, in either orientation. */
  predicate Connects(e: Edge, x: int, y: int) {
    (e.src == x && e.dest == y) || (e.src == y && e.dest == x)
  }

  /**
   * `e.equals(f)`: the endpoints agree in the same or in the swapped
   * orientation. The weights play no part.
   */
  predicate Equals(e: Edge, f: Edge): (b: bool)
    ensures b <==> Key(e) == Key(f)
  {
    Connects(e, f.src, f.dest)
  }

  /** The canonical unordered key `(min, max)` of an edge's endpoints. */
  function Key(e: Edge): (k: (int, int))
    ensures k.0 <= k.1
    ensures {k.0, k.1} == {e.src, e.dest}
  {
    if e.src <= e.dest then (e.src, e.dest) else (e.dest, e.src)
  }

  /** Equality ignores the weights on both sides. */
  lemma EqualsIgnoresWeight(a: int, b: int, w: int, w': int)
    ensures Equals(Edge(a, b, w), Edge(b, a, w'))
    ensures Equals(Edge(a, b, w), Edge(a, b, w'))
  {
  }

  /** Edge equality is an equivalence relation. */
  lemma EqualsIsEquivalence(e: Edge, f: Edge, g: Edge)
    ensures Equals(e, e)
    ensures Equals(e, f) ==> Equals(f, e)
    ensures Equals(e, f) && Equals(f, g) ==> Equals(e, g)
  {
  }

  const INT_MIN: int := -0x8000_0000
  const INT_RANGE: int := 0x1_0000_0000

  /** Java `int` arithmetic: the two's-complement 32-bit value congruent to `x`. */
  function WrapInt(x: int): (r: int)
    ensures INT_MIN <= r < INT_MIN + INT_RANGE
    ensures (r - x) % INT_RANGE == 0
  {
    (x - INT_MIN) % INT_RANGE + INT_MIN
  }

  /** `hashCode`: `min * 31 + max` in 32-bit arithmetic. */
  function HashCode(e: Edge): (h: int)
    ensures INT_MIN <= h < INT_MIN + INT_RANGE
  {
    var (lo, hi) := Key(e);
    WrapInt(WrapInt(lo * 31) + hi)
  }

  /** Equal edges have equal hash codes, so hashing agrees with `Equals`. */
  lemma HashConsistentWithEquals(e: Edge, f: Edge)
    requires Equals(e, f)
    ensures HashCode(e) == HashCode(f)
  {
  }

  /** `compareTo`: `Integer.compare` of the weights, so -1, 0 or 1. */
  function CompareTo(e: Edge, f: Edge): (c: int)
    ensures c == -1 || c == 0 || c == 1
    ensures c < 0 <==> e.weight < f.weight
    ensures c == 0 <==> e.weight == f.weight
    ensures c > 0 <==> e.weight > f.weight
  {
    if e.weight < f.weight then -1 else if e.weight == f.weight then 0 else 1
  }

  /** The ordering is antisymmetric in sign and transitive: a total preorder by weight. */
  lemma CompareToIsTotalPreorder(e: Edge, f: Edge, g: Edge)
    ensures CompareTo(e, f) == -CompareTo(f, e)
    ensures CompareTo(e, f) <= 0 || CompareTo(f, e) <= 0
    ensures CompareTo(e, f) <= 0 && CompareTo(f, g) <= 0 ==> CompareTo(e, g) <= 0
    ensures CompareTo(e, f) == 0 && CompareTo(f, g) == 0 ==> CompareTo(e, g) == 0
  {
  }
}
