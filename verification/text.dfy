/**
 Character and string primitives that the converter takes from Python's `str`
 and `re`: the whitespace class, `strip()`, `split(c, 1)[0]`, single-character
 `replace`, ASCII `lower()`, and scanning a run of characters.
 */
module Text {

  /** Python's `str.isspace()`; a `str` regex's `\s` matches the same characters. */
  predicate IsSpace(c: char)
  {
    || '\t' <= c <= '\r'
    || '\U{1c}' <= c <= ' '
    || c == '\U{85}' || c == '\U{a0}' || c == '\U{1680}'
    || '\U{2000}' <= c <= '\U{200a}'
    || c == '\U{2028}' || c == '\U{2029}' || c == '\U{202f}' || c == '\U{205f}' || c == '\U{3000}'
  }

  predicate AllSpace(s: string)
  {
    forall k :: 0 <= k < |s| ==> IsSpace(s[k])
  }

  /** The end of the longest run of characters satisfying `p` that starts at `from`. */
  function Span(s: string, from: nat, p: char -> bool): (k: nat)
    requires from <= |s|
    ensures from <= k <= |s|
    ensures forall j :: from <= j < k ==> p(s[j])
    ensures k < |s| ==> !p(s[k])
    decreases |s| - from
  {
    if from == |s| || !p(s[from]) then from else Span(s, from + 1, p)
  }

  /** Any run that starts at `from` and is stopped by a failing character is the one `Span` finds. */
  lemma {:induction false} SpanUnique(s: string, from: nat, p: char -> bool, k: nat)
    requires from <= k <= |s|
    requires forall j :: from <= j < k ==> p(s[j])
    requires k < |s| ==> !p(s[k])
    ensures Span(s, from, p) == k
    decreases |s| - from
  {
    if from < k {
      SpanUnique(s, from + 1, p, k);
    }
  }

  /** The length of the whitespace prefix of `s`. */
  function LeadingSpaces(s: string): (n: nat)
    ensures n <= |s|
    ensures AllSpace(s[..n])
    ensures n < |s| ==> !IsSpace(s[n])
  {
    Span(s, 0, IsSpace)
  }

  /** The length of the whitespace suffix of `s`. */
  function TrailingSpaces(s: string): (n: nat)
    ensures n <= |s|
    ensures AllSpace(s[|s| - n..])
    ensures n < |s| ==> !IsSpace(s[|s| - n - 1])
  {
    if s == [] || !IsSpace(s[|s| - 1]) then 0 else 1 + TrailingSpaces(s[..|s| - 1])
  }

  /** Python's `s.strip()`: `s` without its leading and trailing whitespace. */
  function Strip(s: string): (r: string)
    ensures |r| <= |s|
    ensures r != [] ==> !IsSpace(r[0]) && !IsSpace(r[|r| - 1])
  {
    var i := LeadingSpaces(s);
    var t := s[i..];
    t[..|t| - TrailingSpaces(t)]
  }

  /**
   `Strip(s)` is the slice of `s` between two all-whitespace ends, and it
   neither starts nor ends with whitespace.
   */
  lemma StripIsTrimmedSlice(s: string)
    ensures var r, i := Strip(s), LeadingSpaces(s);
      && i + |r| <= |s| && s[i..i + |r|] == r
      && AllSpace(s[..i]) && AllSpace(s[i + |r|..])
      && (r != [] ==> !IsSpace(r[0]) && !IsSpace(r[|r| - 1]))
  {
    var i := LeadingSpaces(s);
    var t := s[i..];
    var n := TrailingSpaces(t);
    var r := Strip(s);
    assert r == t[..|t| - n];
    assert s[i..i + |r|] == r;
    assert s[i + |r|..] == t[|t| - n..];
    if r != [] {
      assert r[0] == s[i];
      assert r[|r| - 1] == t[|t| - n - 1];
    }
  }

  /** `s.strip()` is empty exactly when `s` is all whitespace. */
  lemma StripEmpty(s: string)
    ensures Strip(s) == [] <==> AllSpace(s)
  {
    var i := LeadingSpaces(s);
    var r := Strip(s);
    StripIsTrimmedSlice(s);
    if r == [] {
      assert s == s[..i] + s[i + |r|..];
    }
  }

  /** Text that neither starts nor ends with whitespace is left alone by `Strip`. */
  lemma StripOfTrimmed(s: string)
    requires s != [] ==> !IsSpace(s[0]) && !IsSpace(s[|s| - 1])
    ensures Strip(s) == s
  {
  }

  /** One leading whitespace character is stripped from otherwise trimmed text. */
  lemma StripLeadingSpace(c: char, s: string)
    requires IsSpace(c) && s != [] && !IsSpace(s[0]) && !IsSpace(s[|s| - 1])
    ensures Strip([c] + s) == s
  {
    var t := [c] + s;
    SpanUnique(t, 0, IsSpace, 1);
    assert t[1..] == s;
  }

  /** Every character of `Strip(s)` is a character of `s`. */
  lemma StripDrawsOn(s: string, c: char)
    ensures c in Strip(s) ==> c in s
  {
    var r := Strip(s);
    StripIsTrimmedSlice(s);
    if c in r {
      var i := LeadingSpaces(s);
      var k :| 0 <= k < |r| && r[k] == c;
      assert s[i + k] == r[k];
    }
  }

  /** `s.split(c, 1)[0]`: the text of `s` before its first `c` (all of `s` when there is none). */
  function BeforeFirst(s: string, c: char): (r: string)
    ensures r <= s
    ensures c !in r
    ensures |r| < |s| ==> s[|r|] == c
    ensures c !in s ==> r == s
  {
    if s == [] || s[0] == c then [] else [s[0]] + BeforeFirst(s[1..], c)
  }

  /** Splitting `a + c + b` at its first `c` gives `a` when `a` holds no `c`. */
  lemma {:induction false} BeforeFirstOfJoin(a: string, c: char, b: string)
    requires c !in a
    ensures BeforeFirst(a + [c] + b, c) == a
  {
    if a != [] {
      assert (a + [c] + b)[1..] == a[1..] + [c] + b;
      BeforeFirstOfJoin(a[1..], c, b);
    }
  }

  /** `s.replace(a, b)` for single characters `a` and `b`. */
  function ReplaceChar(s: string, a: char, b: char): (r: string)
    ensures |r| == |s|
    ensures forall k :: 0 <= k < |s| ==> r[k] == if s[k] == a then b else s[k]
  {
    if s == [] then [] else [if s[0] == a then b else s[0]] + ReplaceChar(s[1..], a, b)
  }

  function LowerChar(c: char): char
  {
    if 'A' <= c <= 'Z' then (c as int - 'A' as int + 'a' as int) as char else c
  }

  /** `s.lower()` on ASCII text: each character is lowered on its own, and the length is kept. */
  function Lower(s: string): (r: string)
    ensures |r| == |s|
    ensures forall k :: 0 <= k < |s| ==> r[k] == LowerChar(s[k])
  {
    if s == [] then [] else [LowerChar(s[0])] + Lower(s[1..])
  }

  /** `s.rfind(c)`: the index of the last `c` in `s`, or -1. */
  function LastIndex(s: string, c: char): (r: int)
    ensures -1 <= r < |s|
    ensures r >= 0 ==> s[r] == c
    ensures forall k :: r < k < |s| ==> s[k] != c
  {
    if s == [] then -1 else if s[|s| - 1] == c then |s| - 1 else LastIndex(s[..|s| - 1], c)
  }

  /** The last `c` of `a + [c] + b` is the one after `a` when `b` holds no `c`. */
  lemma {:induction false} LastIndexOfJoin(a: string, c: char, b: string)
    requires c !in b
    ensures LastIndex(a + [c] + b, c) == |a|
  {
    if b != [] {
      var s := a + [c] + b;
      assert s[..|s| - 1] == a + [c] + b[..|b| - 1];
      assert s[|s| - 1] == b[|b| - 1];
      LastIndexOfJoin(a, c, b[..|b| - 1]);
    }
  }

  /** No position of `s[from..to]` holds `c`, so `c` is not in it. */
  lemma NotInSlice(s: string, from: nat, to: nat, c: char)
    requires from <= to <= |s|
    requires forall q :: from <= q < to ==> s[q] != c
    ensures c !in s[from..to]
  {
    assert forall q :: 0 <= q < to - from ==> s[from..to][q] == s[from + q];
  }

  /** A slice of a slice is a slice. */
  lemma SliceOfSlice(s: string, from: nat, to: nat, lo: nat, hi: nat)
    requires from <= to <= |s| && lo <= hi <= to - from
    ensures s[from..to][lo..hi] == s[from + lo..from + hi]
  {
    var a, b := s[from..to][lo..hi], s[from + lo..from + hi];
    assert |a| == |b|;
    forall q | 0 <= q < |a|
      ensures a[q] == b[q]
    {
      assert a[q] == s[from..to][lo + q] == s[from + lo + q];
    }
  }

  lemma SliceJoin(s: string, k: nat)
    requires k <= |s|
    ensures s[..k] + s[k..] == s
  {
  }

  lemma SliceCons(s: string, i: nat)
    requires i < |s|
    ensures s[i..] == [s[i]] + s[i + 1..]
  {
  }
}
