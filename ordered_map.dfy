/** An insertion-ordered dictionary with string keys: the semantics of a JavaScript
    `Map` (and of a plain object used as a record) that the store and the preview
    engine fill while they walk the tree. Setting an existing key replaces its
    value in place; setting a new key appends it. */
module OrderedMap {
  import opened Wrappers
  import opened Seqs

  datatype Entry<V> = Entry(key: string, value: V)

  function Keys<V>(m: seq<Entry<V>>): (ks: seq<string>)
    ensures |ks| == |m|
    ensures forall i :: 0 <= i < |m| ==> ks[i] == m[i].key
  {
    if m == [] then [] else [m[0].key] + Keys(m[1..])
  }

  function Values<V>(m: seq<Entry<V>>): (vs: seq<V>)
    ensures |vs| == |m|
    ensures forall i :: 0 <= i < |m| ==> vs[i] == m[i].value
  {
    if m == [] then [] else [m[0].value] + Values(m[1..])
  }

  /** `m.get(k)`: the value stored under `k`, if any. */
  function Get<V>(m: seq<Entry<V>>, k: string): (r: Option<V>)
    ensures r.None? <==> k !in Keys(m)
    ensures r.Some? ==> r.value in Values(m)
  {
    if m == [] then None
    else if m[0].key == k then Some(m[0].value)
    else
      assert Keys(m) == [m[0].key] + Keys(m[1..]);
      assert Values(m) == [m[0].value] + Values(m[1..]);
      Get(m[1..], k)
  }

  /** `m.set(k, v)`. */
  function Put<V>(m: seq<Entry<V>>, k: string, v: V): (r: seq<Entry<V>>)
    ensures Keys(r) == if k in Keys(m) then Keys(m) else Keys(m) + [k]
  {
    if m == [] then [Entry(k, v)]
    else if m[0].key == k then
      assert Keys(m) == [m[0].key] + Keys(m[1..]);
      assert Keys([Entry(k, v)] + m[1..]) == [k] + Keys(m[1..]);
      [Entry(k, v)] + m[1..]
    else
      assert Keys(m) == [m[0].key] + Keys(m[1..]);
      var rest := Put(m[1..], k, v);
      assert Keys([m[0]] + rest) == [m[0].key] + Keys(rest);
      [m[0]] + rest
  }

  /** After `Put(m, k, v)`, `k` maps to `v` and every other key keeps its value. */
  lemma {:induction false} GetPut<V>(m: seq<Entry<V>>, k: string, v: V, k': string)
    ensures Get(Put(m, k, v), k') == if k' == k then Some(v) else Get(m, k')
  {
    if m != [] && m[0].key != k {
      GetPut(m[1..], k, v, k');
    }
  }

  /** Keys stay unique under `Put`. */
  lemma PutDistinct<V>(m: seq<Entry<V>>, k: string, v: V)
    requires Distinct(Keys(m))
    ensures Distinct(Keys(Put(m, k, v)))
  {
    if k !in Keys(m) {
      DistinctConcat(Keys(m), [k]);
    }
  }

  /** Entries are stored by key: with unique keys, the entry at position `i` is what `Get` returns. */
  lemma {:induction false} GetAt<V>(m: seq<Entry<V>>, i: nat)
    requires Distinct(Keys(m)) && i < |m|
    ensures Get(m, m[i].key) == Some(m[i].value)
  {
    if i > 0 {
      assert m[0].key != m[i].key by { DistinctAt(Keys(m), 0, i); }
      assert Keys(m) == [m[0].key] + Keys(m[1..]);
      DistinctTail(Keys(m));
      GetAt(m[1..], i - 1);
    }
  }

  /** `Put` stores only the new value beside the old ones. */
  lemma {:induction false} PutValues<V>(m: seq<Entry<V>>, k: string, v: V)
    ensures forall w :: w in Values(Put(m, k, v)) ==> w == v || w in Values(m)
  {
    if m != [] {
      assert Values(m) == [m[0].value] + Values(m[1..]);
      if m[0].key == k {
        assert Values([Entry(k, v)] + m[1..]) == [v] + Values(m[1..]);
      } else {
        PutValues(m[1..], k, v);
        var rest := Put(m[1..], k, v);
        assert Values([m[0]] + rest) == [m[0].value] + Values(rest);
      }
    }
  }
}
