/** Sequence helpers that mirror the array methods the source relies on
    (`includes`, `indexOf`, `filter(x => x !== v)`). */
module Seqs {

  /** No element occurs twice. */
  ghost predicate Distinct<T>(s: seq<T>) {
    forall i, j :: 0 <= i < j < |s| ==> s[i] != s[j]
  }

  lemma DistinctAt<T>(s: seq<T>, i: nat, j: nat)
    requires Distinct(s) && i < |s| && j < |s| && i != j
    ensures s[i] != s[j]
  {
  }

  /** The halves of a sequence without repetitions have none and share no element. */
  lemma DistinctSplit<T>(a: seq<T>, b: seq<T>)
    requires Distinct(a + b)
    ensures Distinct(a) && Distinct(b)
    ensures forall x :: x in a ==> x !in b
  {
    assert forall i :: 0 <= i < |a| ==> (a + b)[i] == a[i];
    assert forall j :: 0 <= j < |b| ==> (a + b)[|a| + j] == b[j];
  }

  lemma DistinctConcat<T>(a: seq<T>, b: seq<T>)
    requires Distinct(a) && Distinct(b)
    requires forall x :: x in a ==> x !in b
    ensures Distinct(a + b)
  {
    assert forall i :: 0 <= i < |a| ==> (a + b)[i] == a[i] && a[i] in a;
    assert forall j :: |a| <= j < |a| + |b| ==> (a + b)[j] == b[j - |a|] && b[j - |a|] in b;
  }

  /** No repetitions means every element is counted at most once. */
  lemma {:induction false} DistinctCount<T(!new)>(s: seq<T>)
    ensures Distinct(s) <==> forall x :: multiset(s)[x] <= 1
  {
    if s != [] {
      var h, t := s[0], s[1..];
      assert s == [h] + t;
      DistinctCount(t);
      assert multiset(s) == multiset{h} + multiset(t);
      if Distinct(s) {
        DistinctSplit([h], t);
        assert h in [h];
      } else {
        var i, j :| 0 <= i < j < |s| && s[i] == s[j];
        assert s[j] in t;
        if i == 0 {
          assert multiset(s)[h] >= 2;
        } else {
          assert t[i - 1] == t[j - 1];
          assert !Distinct(t);
        }
      }
      if forall x :: multiset(s)[x] <= 1 {
        assert forall x :: multiset(t)[x] <= 1 by {
          forall x ensures multiset(t)[x] <= 1 {
            assert multiset(s)[x] <= 1;
          }
        }
        assert h !in t by {
          assert multiset(s)[h] <= 1;
        }
        assert forall j :: 0 < j < |s| ==> s[j] == t[j - 1];
      }
    }
  }

  /** Removing elements keeps a sequence free of repetitions. */
  lemma DistinctSub<T(!new)>(s: seq<T>, t: seq<T>)
    requires Distinct(s) && multiset(t) <= multiset(s)
    ensures Distinct(t)
  {
    DistinctCount(s);
    DistinctCount(t);
    forall x ensures multiset(t)[x] <= 1 {
      assert multiset(t)[x] <= multiset(s)[x];
    }
  }

  /** `s.indexOf(x)`: the first position of `x`, or -1. */
  function IndexOf<T(==)>(s: seq<T>, x: T): (r: int)
    ensures -1 <= r < |s|
    ensures r == -1 <==> x !in s
    ensures 0 <= r ==> s[r] == x && x !in s[..r]
  {
    if |s| == 0 then -1
    else if s[0] == x then 0
    else
      var k := IndexOf(s[1..], x);
      assert s[1..][..if k < 0 then 0 else k] == s[1..if k < 0 then 1 else k + 1];
      if k < 0 then -1 else k + 1
  }

  /** `s.filter(y => y !== x)`. */
  function RemoveAll<T(==)>(s: seq<T>, x: T): (r: seq<T>)
    ensures x !in r
    ensures multiset(r) <= multiset(s)
    ensures forall y :: y in s && y != x ==> y in r
  {
    if s == [] then []
    else
      assert s == [s[0]] + s[1..];
      (if s[0] == x then [] else [s[0]]) + RemoveAll(s[1..], x)
  }

  lemma RemoveAllAbsent<T>(s: seq<T>, x: T)
    requires x !in s
    ensures RemoveAll(s, x) == s
  {
    if s != [] {
      RemoveAllAbsent(s[1..], x);
    }
  }

  /** Filtering out an element that occurs once, at position `i`, cuts exactly that position. */
  lemma {:induction false} RemoveAllAt<T>(s: seq<T>, i: nat)
    requires Distinct(s) && i < |s|
    ensures RemoveAll(s, s[i]) == s[..i] + s[i + 1..]
  {
    var x := s[i];
    assert s == [s[0]] + s[1..];
    DistinctSplit([s[0]], s[1..]);
    assert s[0] in [s[0]];
    if i == 0 {
      RemoveAllAbsent(s[1..], x);
    } else {
      assert x == s[1..][i - 1];
      assert x in s[1..];
      RemoveAllAt(s[1..], i - 1);
      ConsCut(s, i);
    }
  }

  /** Cutting position `i` out of a sequence, seen from its tail. */
  lemma ConsCut<T>(s: seq<T>, i: nat)
    requires 0 < i < |s|
    ensures [s[0]] + (s[1..][..i - 1] + s[1..][i..]) == s[..i] + s[i + 1..]
  {
    assert s[1..][..i - 1] == s[1..i];
    assert s[1..][i..] == s[i + 1..];
    assert [s[0]] + s[1..i] == s[..i];
  }

  lemma DistinctTail<T>(s: seq<T>)
    requires Distinct(s) && |s| > 0
    ensures Distinct(s[1..])
  {
    assert s == [s[0]] + s[1..];
    DistinctSplit([s[0]], s[1..]);
  }

  lemma DistinctRemoveAll<T(!new)>(s: seq<T>, x: T)
    requires Distinct(s)
    ensures Distinct(RemoveAll(s, x))
  {
    DistinctSub(s, RemoveAll(s, x));
  }

  /** Filtering keeps a prefix free of `x` in place. */
  lemma {:induction false} RemoveAllPrefix<T>(s: seq<T>, x: T, i: nat)
    requires i <= |s| && x !in s[..i]
    ensures |RemoveAll(s, x)| >= i && RemoveAll(s, x)[..i] == s[..i]
  {
    if i > 0 {
      assert s[0] in s[..i];
      assert s[1..][..i - 1] == s[..i][1..];
      RemoveAllPrefix(s[1..], x, i - 1);
    }
  }

  /** In a sequence without repetitions, an element's first occurrence is its position. */
  lemma DistinctIndexOf<T>(s: seq<T>, i: nat)
    requires Distinct(s) && i < |s|
    ensures IndexOf(s, s[i]) == i
  {
    var r := IndexOf(s, s[i]);
    assert s[i] !in s[..r];
  }

  /** A relation that holds between two sequences element by element still holds after
      one more element is put in front of each. */
  lemma PairwiseCons<T, U>(rel: (T, U) -> bool, xs: seq<T>, y: U, ys: seq<U>)
    requires xs != [] && |ys| == |xs| - 1 && rel(xs[0], y)
    requires forall i :: 0 <= i < |xs| - 1 ==> rel(xs[1..][i], ys[i])
    ensures forall i :: 0 <= i < |xs| ==> rel(xs[i], ([y] + ys)[i])
  {
    forall i | 1 <= i < |xs|
      ensures rel(xs[i], ([y] + ys)[i])
    {
      assert xs[i] == xs[1..][i - 1] && ([y] + ys)[i] == ys[i - 1];
    }
  }
}
