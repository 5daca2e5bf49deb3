/**
 * Small equalities between finite maps built with union (`+`), update
 * (`m[k := v]`) and key removal (`m - S`). Each is proved pointwise, in a
 * context that mentions nothing but the maps involved.
 */
module MapAlgebra {

  /** Two maps with the same keys and the same value at every key are equal. */
  lemma MapsEqual<K, V>(m1: map<K, V>, m2: map<K, V>)
    requires forall k :: k in m1 <==> k in m2
    requires forall k :: k in m1 ==> m1[k] == m2[k]
    ensures m1 == m2
  {
  }

  lemma UnionEmpty<K, V>(m: map<K, V>)
    ensures map[] + m == m && m + map[] == m
  {
    MapsEqual(map[] + m, m);
    MapsEqual(m + map[], m);
  }

  lemma UnionAssoc<K, V>(x: map<K, V>, y: map<K, V>, z: map<K, V>)
    ensures x + (y + z) == (x + y) + z
  {
    MapsEqual(x + (y + z), (x + y) + z);
  }

  /** Union of maps with disjoint keys does not depend on the order. */
  lemma UnionSwap<K, V>(x: map<K, V>, y: map<K, V>)
    requires forall k :: k in x ==> k !in y
    ensures x + y == y + x
  {
    MapsEqual(x + y, y + x);
  }

  /** An update after a union lands in the right operand. */
  lemma UpdateUnionRight<K, V>(a: map<K, V>, b: map<K, V>, k: K, v: V)
    ensures (a + b)[k := v] == a + b[k := v]
  {
    MapsEqual((a + b)[k := v], a + b[k := v]);
  }

  /** An update of a key the right operand lacks lands in the left operand. */
  lemma UpdateUnionLeft<K, V>(a: map<K, V>, b: map<K, V>, k: K, v: V)
    requires k !in b
    ensures (a + b)[k := v] == a[k := v] + b
  {
    MapsEqual((a + b)[k := v], a[k := v] + b);
  }

  lemma UpdateTwice<K, V>(m: map<K, V>, k: K, v: V, w: V)
    ensures m[k := v][k := w] == m[k := w]
  {
    MapsEqual(m[k := v][k := w], m[k := w]);
  }

  lemma UpdateSwap<K, V>(m: map<K, V>, k1: K, v1: V, k2: K, v2: V)
    requires k1 != k2
    ensures m[k1 := v1][k2 := v2] == m[k2 := v2][k1 := v1]
  {
    MapsEqual(m[k1 := v1][k2 := v2], m[k2 := v2][k1 := v1]);
  }

  lemma UpdateSubtract<K, V>(m: map<K, V>, k: K, v: V, s: set<K>)
    requires k !in s
    ensures m[k := v] - s == (m - s)[k := v]
  {
    MapsEqual(m[k := v] - s, (m - s)[k := v]);
  }

  lemma UnionSingleton<K, V>(m: map<K, V>, k: K, v: V)
    ensures m + map[k := v] == m[k := v]
  {
    MapsEqual(m + map[k := v], m[k := v]);
  }

  /**
   * Putting back a sub-map whose keys were removed restores the map, also
   * after updates at two keys outside the removed ones.
   */
  lemma RestoreUpdated<K, V>(m: map<K, V>, s: set<K>, sub: map<K, V>, k1: K, v1: V, k2: K, v2: V)
    requires forall k :: k in sub <==> k in s
    requires forall k :: k in sub ==> k in m && m[k] == sub[k]
    requires k1 !in s && k2 !in s
    ensures (m - s)[k1 := v1][k2 := v2] + sub == m[k1 := v1][k2 := v2]
  {
    MapsEqual((m - s)[k1 := v1][k2 := v2] + sub, m[k1 := v1][k2 := v2]);
  }

  /** Removing keys that cover the left operand and miss the right one leaves the right one. */
  lemma SubtractLeftOperand<K, V>(a: map<K, V>, b: map<K, V>, s: set<K>)
    requires forall k :: k in a ==> k in s
    requires forall k :: k in s ==> k !in b
    ensures (a + b) - s == b
  {
    MapsEqual((a + b) - s, b);
  }

  /** Removing keys the left operand lacks only touches the right one. */
  lemma SubtractRightOperand<K, V>(a: map<K, V>, b: map<K, V>, s: set<K>)
    requires forall k :: k in s ==> k !in a
    ensures (a + b) - s == a + (b - s)
  {
    MapsEqual((a + b) - s, a + (b - s));
  }

  /** Removing keys the right operand lacks only touches the left one. */
  lemma SubtractLeftOnly<K, V>(a: map<K, V>, b: map<K, V>, s: set<K>)
    requires forall k :: k in s ==> k !in b
    ensures (a + b) - s == (a - s) + b
  {
    MapsEqual((a + b) - s, (a - s) + b);
  }
}
