/** The string operations of the JavaScript runtime that the core relies on,
    over `string` = `seq<char>`. */
module Text {

  /** The first position from `i` on holding `c`, or -1. */
  function IndexFrom(s: string, c: char, i: nat): (r: int)
    requires i <= |s|
    ensures r == -1 || i <= r < |s|
    ensures 0 <= r ==> s[r] == c
    ensures forall k :: i <= k < |s| && (r < 0 || k < r) ==> s[k] != c
    decreases |s| - i
  {
    if i == |s| then -1 else if s[i] == c then i else IndexFrom(s, c, i + 1)
  }

  /** `s.indexOf(c)` for a one-character needle. */
  function IndexOf(s: string, c: char): (r: int)
    ensures -1 <= r < |s|
    ensures r == -1 <==> c !in s
    ensures 0 <= r ==> s[r] == c
    ensures forall k :: 0 <= k < |s| && (r < 0 || k < r) ==> s[k] != c
  {
    IndexFrom(s, c, 0)
  }

  /** The last position below `n` holding `c`, or -1. */
  function LastBefore(s: string, c: char, n: nat): (r: int)
    requires n <= |s|
    ensures -1 <= r < n
    ensures 0 <= r ==> s[r] == c
    ensures forall k :: r < k < n ==> s[k] != c
  {
    if n == 0 then -1 else if s[n - 1] == c then n - 1 else LastBefore(s, c, n - 1)
  }

  /** `s.lastIndexOf(c)` for a one-character needle. */
  function LastIndexOf(s: string, c: char): (r: int)
    ensures -1 <= r < |s|
    ensures r == -1 <==> c !in s
    ensures 0 <= r ==> s[r] == c
    ensures forall k :: r < k < |s| ==> s[k] != c
  {
    LastBefore(s, c, |s|)
  }

  /** Any occurrence with no later occurrence is the last one. */
  lemma LastIndexOfUnique(s: string, c: char, j: nat)
    requires j < |s| && s[j] == c
    requires forall k :: j < k < |s| ==> s[k] != c
    ensures LastIndexOf(s, c) == j
  {
  }

  /** `s.split(sep)` for a one-character separator: the pieces between separators, in order. */
  function Split(s: string, sep: char): (parts: seq<string>)
    ensures |parts| >= 1
    decreases |s|
  {
    var i := IndexOf(s, sep);
    if i < 0 then [s] else [s[..i]] + Split(s[i + 1..], sep)
  }

  /** No piece of a split contains the separator. */
  lemma {:induction false} SplitPieces(s: string, sep: char)
    ensures forall p :: p in Split(s, sep) ==> sep !in p
    decreases |s|
  {
    var i := IndexOf(s, sep);
    if i >= 0 {
      SplitPieces(s[i + 1..], sep);
      assert sep !in s[..i] by {
        forall k | 0 <= k < i
          ensures s[..i][k] != sep
        {
          assert s[..i][k] == s[k];
        }
      }
    }
  }

  /** `parts.join(sep)`. */
  function Join(parts: seq<string>, sep: char): string
  {
    if |parts| == 0 then ""
    else if |parts| == 1 then parts[0]
    else parts[0] + [sep] + Join(parts[1..], sep)
  }

  /** Splitting undoes joining when no piece contains the separator. */
  lemma {:induction false} SplitJoin(parts: seq<string>, sep: char)
    requires |parts| >= 1
    requires forall p :: p in parts ==> sep !in p
    ensures Split(Join(parts, sep), sep) == parts
  {
    assert sep !in parts[0] by {
      assert parts[0] in parts;
    }
    if |parts| > 1 {
      var rest := Join(parts[1..], sep);
      assert Join(parts, sep) == parts[0] + [sep] + rest;
      SplitAfterPrefix(parts[0], sep, rest);
      assert forall p :: p in parts[1..] ==> p in parts;
      SplitJoin(parts[1..], sep);
      assert parts == [parts[0]] + parts[1..];
    } else {
      SplitWithout(parts[0], sep);
    }
  }

  /** A string without the separator is a single piece. */
  lemma SplitWithout(s: string, sep: char)
    requires sep !in s
    ensures Split(s, sep) == [s]
  {
  }

  /** The first piece ends at the first separator. */
  lemma SplitAfterPrefix(p: string, sep: char, rest: string)
    requires sep !in p
    ensures Split(p + [sep] + rest, sep) == [p] + Split(rest, sep)
  {
    var s := p + [sep] + rest;
    IndexOfAfterPrefix(p, sep, rest);
    assert s[..|p|] == p;
    assert s[|p| + 1..] == rest;
  }

  lemma IndexOfAfterPrefix(p: string, c: char, rest: string)
    requires c !in p
    ensures IndexOf(p + [c] + rest, c) == |p|
  {
    var s := p + [c] + rest;
    var r := IndexOf(s, c);
    assert s[|p|] == c;
  }

  /** The text after the last `c`, or all of `s` when `c` does not occur. */
  function AfterLast(s: string, c: char): string
  {
    s[LastIndexOf(s, c) + 1..]
  }

  /** The last element of a non-empty list. */
  function Last(xs: seq<string>): string
    requires xs != []
  {
    xs[|xs| - 1]
  }

  /** `s.split(c).pop()` is the text after the last `c`. */
  lemma {:induction false} LastOfSplit(s: string, c: char)
    ensures Last(Split(s, c)) == AfterLast(s, c)
    decreases |s|
  {
    var i := IndexOf(s, c);
    if i >= 0 {
      LastOfSplit(s[i + 1..], c);
      LastOfSplitStep(s, c, i);
    } else {
      SplitWithout(s, c);
    }
  }

  /** The inductive step: the last piece lies after the first separator. */
  lemma LastOfSplitStep(s: string, c: char, i: nat)
    requires i == IndexOf(s, c)
    requires Last(Split(s[i + 1..], c)) == AfterLast(s[i + 1..], c)
    ensures Last(Split(s, c)) == AfterLast(s, c)
  {
    var rest := Split(s[i + 1..], c);
    SplitAtFirst(s, c);
    LastOfCons(s[..i], rest);
    AfterLastSkip(s, c, i);
  }

  /** Unfolding `Split` at the first separator. */
  lemma SplitAtFirst(s: string, c: char)
    requires IndexOf(s, c) >= 0
    ensures Split(s, c) == [s[..IndexOf(s, c)]] + Split(s[IndexOf(s, c) + 1..], c)
  {
  }

  lemma LastOfCons(x: string, rest: seq<string>)
    requires rest != []
    ensures Last([x] + rest) == Last(rest)
  {
  }

  /** Past an occurrence of `c`, what follows the last `c` is unchanged. */
  lemma AfterLastSkip(s: string, c: char, i: nat)
    requires i < |s| && s[i] == c
    ensures AfterLast(s, c) == AfterLast(s[i + 1..], c)
  {
    var t := s[i + 1..];
    var k := LastIndexOf(t, c);
    LastAfter(s, c, i);
    assert AfterLast(s, c) == s[i + 2 + k..];
    assert AfterLast(t, c) == t[k + 1..];
    assert s[i + 2 + k..] == t[k + 1..];
  }

  /** The last `c` of `s` is the last one of the text after position `i`, or `i` itself. */
  lemma LastAfter(s: string, c: char, i: nat)
    requires i < |s| && s[i] == c
    ensures LastIndexOf(s, c) == i + 1 + LastIndexOf(s[i + 1..], c)
  {
    var t := s[i + 1..];
    var k := LastIndexOf(t, c);
    var j := i + 1 + k;
    assert s[j] == c by {
      if k >= 0 {
        assert s[j] == t[k];
      }
    }
    forall m | j < m < |s|
      ensures s[m] != c
    {
      assert s[m] == t[m - i - 1];
    }
    LastIndexOfUnique(s, c, j);
  }

  /** Lower-casing of the ASCII letters; every other character is kept. */
  function LowerChar(c: char): char
  {
    if 'A' <= c <= 'Z' then (c as int + 32) as char else c
  }

  function ToLower(s: string): (r: string)
    ensures |r| == |s|
    ensures forall i :: 0 <= i < |s| ==> r[i] == LowerChar(s[i])
  {
    if s == [] then [] else [LowerChar(s[0])] + ToLower(s[1..])
  }

  /** Length of the leading run of characters `a`..`z`. */
  function LowerRun(s: string): (n: nat)
    ensures n <= |s|
    ensures forall j :: 0 <= j < n ==> 'a' <= s[j] <= 'z'
    ensures n < |s| ==> !('a' <= s[n] <= 'z')
  {
    if s != [] && 'a' <= s[0] <= 'z' then 1 + LowerRun(s[1..]) else 0
  }

  /** The test `/^[a-z]+:/`: one or more lower-case letters, then a colon. */
  function HasScheme(s: string): (r: bool)
    ensures r <==> exists k :: 0 < k < |s| && s[k] == ':' && forall j :: 0 <= j < k ==> 'a' <= s[j] <= 'z'
  {
    var n := LowerRun(s);
    assert forall k :: 0 < k < |s| && s[k] == ':' && (forall j :: 0 <= j < k ==> 'a' <= s[j] <= 'z') ==> k == n;
    0 < n < |s| && s[n] == ':'
  }

  /** `s.startsWith(p)`. */
  predicate StartsWith(s: string, p: string)
  {
    p <= s
  }

  /** `pat` occurs in `s` at position `j`. */
  predicate OccursAt(s: string, pat: string, j: nat)
  {
    j + |pat| <= |s| && s[j..j + |pat|] == pat
  }

  /** First position at which `pat` occurs in `s`, or -1 (`s.indexOf(pat)`). */
  function FindSub(s: string, pat: string): (r: int)
    ensures -1 <= r
    ensures 0 <= r ==> OccursAt(s, pat, r)
    ensures forall j: nat :: (r < 0 || j < r) ==> !OccursAt(s, pat, j)
    decreases |s|
  {
    if |s| < |pat| then -1
    else if s[..|pat|] == pat then 0
    else
      var k := FindSub(s[1..], pat);
      assert forall j: nat :: 1 <= j ==> (OccursAt(s, pat, j) <==> OccursAt(s[1..], pat, j - 1));
      if k < 0 then -1 else k + 1
  }

  /** `s.replace(pat, rep)` with a string pattern: only the first occurrence is replaced. */
  function ReplaceFirst(s: string, pat: string, rep: string): (r: string)
    ensures FindSub(s, pat) < 0 ==> r == s
    ensures 0 <= FindSub(s, pat) ==>
      var i := FindSub(s, pat);
      i + |pat| <= |s| && |r| == |s| - |pat| + |rep| &&
      r[..i] == s[..i] && r[i..i + |rep|] == rep && r[i + |rep|..] == s[i + |pat|..]
  {
    var i := FindSub(s, pat);
    if i < 0 then s else s[..i] + rep + s[i + |pat|..]
  }

  function DigitChar(d: nat): char
    requires d < 10
  {
    "0123456789"[d]
  }

  /** Decimal rendering of a natural number. */
  function NatToString(n: nat): (r: string)
    ensures |r| >= 1
    ensures (|r| == 1) == (n < 10)
  {
    if n < 10 then [DigitChar(n)] else NatToString(n / 10) + [DigitChar(n % 10)]
  }

  /** Distinct numbers have distinct renderings. */
  lemma {:induction false} NatToStringInjective(a: nat, b: nat)
    requires NatToString(a) == NatToString(b)
    ensures a == b
  {
    if a >= 10 && b >= 10 {
      var sa, sb := NatToString(a), NatToString(b);
      assert sa[|sa| - 1] == DigitChar(a % 10) && sb[|sb| - 1] == DigitChar(b % 10);
      assert sa[..|sa| - 1] == NatToString(a / 10) && sb[..|sb| - 1] == NatToString(b / 10);
      NatToStringInjective(a / 10, b / 10);
    }
  }
}
