/** The JavaScript string operations that the price normaliser relies on,
    over strings as sequences of characters. */
module JsString {

  /** `s.includes(c)` for a one-character needle: true exactly when
      `indexOf` and `lastIndexOf` find it. */
  predicate Includes(s: string, c: char): (r: bool)
    ensures r <==> IndexOf(s, c) >= 0
    ensures r <==> LastIndexOf(s, c) >= 0
  {
    c in s
  }

  /** `s.indexOf(c)`: the position of the first `c` in `s`, or -1 when there is none. */
  function IndexOf(s: string, c: char): (r: int)
    ensures -1 <= r < |s|
    ensures r == -1 <==> c !in s
    ensures 0 <= r ==> s[r] == c && forall j :: 0 <= j < r ==> s[j] != c
  {
    if |s| == 0 then -1
    else if s[0] == c then 0
    else
      var k := IndexOf(s[1..], c);
      assert s == [s[0]] + s[1..];
      if k < 0 then -1 else k + 1
  }

  /** `s.lastIndexOf(c)`: the position of the last `c` in `s`, or -1 when there is none. */
  function LastIndexOf(s: string, c: char): (r: int)
    ensures -1 <= r < |s|
    ensures r == -1 <==> c !in s
    ensures 0 <= r ==> s[r] == c && forall j :: r < j < |s| ==> s[j] != c
  {
    if |s| == 0 then -1
    else
      var k := LastIndexOf(s[1..], c);
      assert s == [s[0]] + s[1..];
      if 0 <= k then k + 1
      else if s[0] == c then 0
      else -1
  }

  /** A `d` with no `c` at or after it puts the last `c` before the last `d`. */
  lemma LastIndexOfOrder(s: string, c: char, d: char, k: nat)
    requires k < |s| && s[k] == d
    requires forall j :: k <= j < |s| ==> s[j] != c
    ensures LastIndexOf(s, c) < k <= LastIndexOf(s, d)
  {
  }

  /** `s.replace(/c/g, "")`: every `c` deleted, everything else kept in order. */
  function RemoveAll(s: string, c: char): (r: string)
    ensures c !in r
    ensures |r| <= |s|
    ensures c !in s ==> r == s
  {
    if |s| == 0 then []
    else
      assert s == [s[0]] + s[1..];
      if s[0] == c then RemoveAll(s[1..], c) else [s[0]] + RemoveAll(s[1..], c)
  }

  /** Deleting `c` zeroes its count and keeps every other count. */
  lemma {:induction false} RemoveAllCounts(s: string, c: char)
    ensures multiset(RemoveAll(s, c)) == multiset(s)[c := 0]
  {
    if |s| > 0 {
      assert s == [s[0]] + s[1..];
      RemoveAllCounts(s[1..], c);
    }
  }

  /** Deleting `c` from a concatenation deletes it from each part. */
  lemma {:induction false} RemoveAllConcat(a: string, b: string, c: char)
    ensures RemoveAll(a + b, c) == RemoveAll(a, c) + RemoveAll(b, c)
  {
    if |a| == 0 {
      assert a + b == b;
    } else {
      assert (a + b)[1..] == a[1..] + b;
      RemoveAllConcat(a[1..], b, c);
    }
  }

  /** `s.replace(c, d)` with a one-character string pattern: only the first
      `c` becomes `d`; every other position keeps its character. */
  function ReplaceFirst(s: string, c: char, d: char): (r: string)
    ensures |r| == |s|
    ensures forall j :: 0 <= j < |s| ==> r[j] == (if j == IndexOf(s, c) then d else s[j])
  {
    if |s| == 0 then []
    else if s[0] == c then [d] + s[1..]
    else [s[0]] + ReplaceFirst(s[1..], c, d)
  }

  /** Replacing the first `c` by a different character `d` moves exactly one
      occurrence from `c` to `d` and leaves every other count alone. */
  lemma {:induction false} ReplaceFirstCounts(s: string, c: char, d: char)
    requires c != d && c in s
    ensures multiset(ReplaceFirst(s, c, d))[c] == multiset(s)[c] - 1
    ensures multiset(ReplaceFirst(s, c, d))[d] == multiset(s)[d] + 1
    ensures forall x :: x != c && x != d ==> multiset(ReplaceFirst(s, c, d))[x] == multiset(s)[x]
  {
    var r, t := ReplaceFirst(s, c, d), s[1..];
    assert multiset(s) == multiset{s[0]} + multiset(t) by {
      assert s == [s[0]] + t;
    }
    if s[0] == c {
      assert multiset(r) == multiset{d} + multiset(t) by {
        assert r == [d] + t;
      }
    } else {
      ReplaceFirstCounts(t, c, d);
      assert multiset(r) == multiset{s[0]} + multiset(ReplaceFirst(t, c, d)) by {
        assert r == [s[0]] + ReplaceFirst(t, c, d);
      }
    }
  }
}
