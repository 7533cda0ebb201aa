/** The JavaScript string operations the resolver is written with, including
    their behaviour on out-of-range and negative positions. */
module JsString {
  import opened Wrappers

  function Min(a: int, b: int): int { if a <= b then a else b }
  function Max(a: int, b: int): int { if a >= b then a else b }

  /** `s.substr(start, length)`: a negative start counts back from the end and is
      clamped at 0, a start past the end gives "", a length of 0 or less gives "". */
  function Substr(s: string, start: int, length: int): (r: string)
    ensures |r| <= |s|
  {
    var b := if start < 0 then Max(|s| + start, 0) else Min(start, |s|);
    var e := Min(b + Max(length, 0), |s|);
    s[b..e]
  }

  /** `s.substr(start)`: everything from `start` on. */
  function SubstrFrom(s: string, start: int): (r: string)
    ensures |r| <= |s|
  {
    Substr(s, start, |s|)
  }

  /** `s[i]`: `undefined` outside the string, negative positions included. */
  function CharAt(s: string, i: int): (r: Option<char>)
    ensures r.Some? <==> 0 <= i < |s|
  {
    if 0 <= i < |s| then Some(s[i]) else None
  }

  predicate StartsWith(s: string, p: string) { p <= s }

  predicate EndsWith(s: string, t: string) { |t| <= |s| && s[|s| - |t|..] == t }

  /** A string read as a JavaScript condition: `undefined` and "" are falsy. */
  predicate Truthy(o: Option<string>) { o.Some? && o.value != "" }

  /** `a || b` for a possibly-undefined string `a`. */
  function Or(a: Option<string>, b: string): string
  {
    if Truthy(a) then a.value else b
  }

  /** String concatenation of a possibly-undefined value. */
  function Text(o: Option<string>): string
  {
    if o.Some? then o.value else "undefined"
  }

  /** `s.split('/').length`: one more than the number of separators. */
  function SegmentCount(s: string): (n: nat)
    ensures n >= 1
  {
    multiset(s)['/'] + 1
  }

  /** `s.indexOf(c)`, the first position of `c`, or -1. */
  function IndexOf(s: string, c: char): (r: int)
    ensures -1 <= r < |s|
    ensures r == -1 <==> c !in s
    ensures r >= 0 ==> s[r] == c && c !in s[..r]
  {
    if s == [] then -1
    else if s[0] == c then 0
    else
      var r := IndexOf(s[1..], c);
      assert s == [s[0]] + s[1..];
      if r == -1 then -1
      else
        assert s[..r + 1] == [s[0]] + s[1..][..r];
        r + 1
  }

  /** `s.lastIndexOf(c)`, the last position of `c`, or -1. */
  function LastIndexOf(s: string, c: char): (r: int)
    ensures -1 <= r < |s|
    ensures r == -1 <==> c !in s
    ensures r >= 0 ==> s[r] == c && c !in s[r + 1..]
  {
    if s == [] then -1
    else if s[|s| - 1] == c then |s| - 1
    else
      var r := LastIndexOf(s[..|s| - 1], c);
      assert s == s[..|s| - 1] + [s[|s| - 1]];
      if r == -1 then -1
      else
        assert s[r + 1..] == s[..|s| - 1][r + 1..] + [s[|s| - 1]];
        r
  }

  /** The first occurrence of `c` is at `i` when `c` is at `i` and not before it. */
  lemma {:induction false} IndexOfAt(s: string, c: char, i: int)
    requires 0 <= i < |s| && s[i] == c && c !in s[..i]
    ensures IndexOf(s, c) == i
  {
    if i > 0 {
      assert s[0] in s[..i];
      assert s[1..][..i - 1] == s[1..i];
      assert forall x :: x in s[1..i] ==> x in s[..i];
      IndexOfAt(s[1..], c, i - 1);
    }
  }

  /** The last occurrence of `c` is at `i` when `c` is at `i` and not after it. */
  lemma {:induction false} LastIndexOfAt(s: string, c: char, i: int)
    requires 0 <= i < |s| && s[i] == c && c !in s[i + 1..]
    ensures LastIndexOf(s, c) == i
  {
    if i < |s| - 1 {
      assert s[|s| - 1] in s[i + 1..];
      var front := s[..|s| - 1];
      assert front[i + 1..] <= s[i + 1..];
      LastIndexOfAt(front, c, i);
    }
  }

  predicate OccursAt(s: string, pat: string, k: int)
  {
    0 <= k && k + |pat| <= |s| && s[k..k + |pat|] == pat
  }

  /** `s.lastIndexOf(pat)` for a non-empty pattern: its last occurrence, or -1. */
  function LastIndexOfSeq(s: string, pat: string): (r: int)
    requires pat != ""
    ensures r == -1 || OccursAt(s, pat, r)
    ensures forall k :: r < k <= |s| ==> !OccursAt(s, pat, k)
    ensures r == -1 ==> forall k :: 0 <= k ==> !OccursAt(s, pat, k)
  {
    LastOccurrenceBelow(s, pat, |s| - |pat|)
  }

  function LastOccurrenceBelow(s: string, pat: string, k: int): (r: int)
    requires pat != ""
    requires k <= |s| - |pat|
    ensures r == -1 || (OccursAt(s, pat, r) && r <= k)
    ensures forall j :: r < j <= k ==> !OccursAt(s, pat, j)
    ensures r == -1 ==> forall j :: 0 <= j <= k ==> !OccursAt(s, pat, j)
    decreases k + 1
  {
    if k < 0 then -1
    else if s[k..k + |pat|] == pat then k
    else LastOccurrenceBelow(s, pat, k - 1)
  }

  /** `s.substr(0, n)` for n >= 0 is the first n characters (or all of them). */
  lemma SubstrPrefix(s: string, n: int)
    requires n >= 0
    ensures Substr(s, 0, n) == s[..Min(n, |s|)]
  {
  }

  /** `s.substr(i)` for i >= 0 is the tail from i (or "" past the end). */
  lemma SubstrFromTail(s: string, i: int)
    requires i >= 0
    ensures SubstrFrom(s, i) == if i <= |s| then s[i..] else ""
  {
  }

  /** `s.substr(s.length - t.length) === t` is exactly "s ends with t", also
      when t is longer than s and the start position goes negative. */
  lemma SuffixTest(s: string, t: string)
    ensures SubstrFrom(s, |s| - |t|) == t <==> EndsWith(s, t)
  {
    if |t| > |s| {
      assert |SubstrFrom(s, |s| - |t|)| < |t| by {
        var b := Max(|s| + (|s| - |t|), 0);
        assert |s| + (|s| - |t|) < |s|;
        assert SubstrFrom(s, |s| - |t|) == s[b..|s|];
      }
    }
  }

  /** `s.substr(0, p.length) === p` is exactly "s starts with p". */
  lemma PrefixTest(s: string, p: string)
    ensures Substr(s, 0, |p|) == p <==> StartsWith(s, p)
  {
  }
}
