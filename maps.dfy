/** Identities of Dafny's right-biased map union that the flat-view proofs chain together. */
module Maps {
  /** An update of a key the right operand lacks can be done on the left operand. */
  lemma UpdateLeft<K, V>(a: map<K, V>, b: map<K, V>, k: K, v: V)
    requires k !in b
    ensures (a + b)[k := v] == a[k := v] + b
  {
  }

  /** A second update of the same key wins. */
  lemma UpdateTwice<K, V>(m: map<K, V>, k: K, u: V, v: V)
    ensures m[k := u][k := v] == m[k := v]
  {
  }

  /** Union is associative. */
  lemma UnionAssoc<K, V>(a: map<K, V>, b: map<K, V>, c: map<K, V>)
    ensures a + (b + c) == (a + b) + c
  {
  }

  /** Re-attaching a root entry `r` above an edited entry `k`. */
  lemma Relink<K, V>(m: map<K, V>, a: map<K, V>, r: K, s: V, k: K, v: V)
    requires r != k && r !in a
    ensures (m[k := v] + a)[r := s] == m[r := s][k := v] + a
  {
  }

  /** An entry edited in the left operand, whose key the right operand lacks. */
  lemma EditLeft<K, V>(f: map<K, V>, g: map<K, V>, a: map<K, V>, k: K, v: V)
    requires k !in g && a.Keys !! g.Keys
    ensures (f[k := v] + a) + g == (f + g)[k := v] + a
  {
  }

  /** An entry edited in the right operand. */
  lemma EditRight<K, V>(f: map<K, V>, g: map<K, V>, a: map<K, V>, k: K, v: V)
    ensures f + (g[k := v] + a) == (f + g)[k := v] + a
  {
  }
}
