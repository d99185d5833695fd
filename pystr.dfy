/**
 The few pieces of Python's `str` behaviour that the pipeline relies on:
 whitespace as `str.isspace` and `\s` see it, `str.strip()`, ASCII case
 folding and `str.isalnum`, and `sep.join(items)`.
 */
module PyStr {

  /** `c.isspace()`: the characters `str.strip()` removes and `\s` matches in a str pattern. */
  predicate IsSpace(c: char) {
    || ('\t' <= c <= '\r')                    // tab, line feed, vertical tab, form feed, carriage return
    || ('\U{1C}' <= c <= ' ')                 // the four information separators and the space
    || c == '\U{85}' || c == '\U{A0}' || c == '\U{1680}'
    || ('\U{2000}' <= c <= '\U{200A}')
    || c == '\U{2028}' || c == '\U{2029}' || c == '\U{202F}' || c == '\U{205F}' || c == '\U{3000}'
  }

  predicate AllSpace(s: string) {
    forall m :: 0 <= m < |s| ==> IsSpace(s[m])
  }

  /** The first index at or after `i` that does not hold whitespace. */
  function SkipSpaces(s: string, i: nat): (k: nat)
    requires i <= |s|
    ensures i <= k <= |s|
    ensures forall m :: i <= m < k ==> IsSpace(s[m])
    ensures k == |s| || !IsSpace(s[k])
    decreases |s| - i
  {
    if i == |s| || !IsSpace(s[i]) then i else SkipSpaces(s, i + 1)
  }

  /** The smallest index `k >= lo` such that `s[k..j]` is all whitespace. */
  function SkipSpacesBack(s: string, lo: nat, j: nat): (k: nat)
    requires lo <= j <= |s|
    ensures lo <= k <= j
    ensures forall m :: k <= m < j ==> IsSpace(s[m])
    ensures k == lo || !IsSpace(s[k - 1])
    decreases j
  {
    if j == lo || !IsSpace(s[j - 1]) then j else SkipSpacesBack(s, lo, j - 1)
  }

  /** `s.strip()`: the middle of `s` once the whitespace at both ends is cut away. */
  function Strip(s: string): (r: string)
    ensures |r| <= |s|
    ensures r == [] || (!IsSpace(r[0]) && !IsSpace(r[|r| - 1]))
  {
    var lo := SkipSpaces(s, 0);
    var hi := SkipSpacesBack(s, lo, |s|);
    s[lo..hi]
  }

  /** Stripping a string that neither begins nor ends with whitespace leaves it as it is. */
  lemma StripUntrimmed(s: string)
    requires s == [] || (!IsSpace(s[0]) && !IsSpace(s[|s| - 1]))
    ensures Strip(s) == s
  {
  }

  /**
   A cut of `s` into leading whitespace, a middle that neither begins nor ends
   with whitespace, and trailing whitespace is unique: its middle is `s.strip()`.
   */
  lemma StripUnique(s: string, lo: nat, r: string)
    requires lo + |r| <= |s| && s[lo..lo + |r|] == r
    requires AllSpace(s[..lo]) && AllSpace(s[lo + |r|..])
    requires r == [] || (!IsSpace(r[0]) && !IsSpace(r[|r| - 1]))
    ensures Strip(s) == r
  {
    var k := SkipSpaces(s, 0);
    var hi := lo + |r|;
    if r == [] {
      assert k == |s|;
    } else {
      assert s[lo] == r[0] && s[hi - 1] == r[|r| - 1];
      assert k == lo;
      assert SkipSpacesBack(s, k, |s|) == hi;
    }
  }

  /** Every character of `s.strip()` comes from `s`. */
  lemma StripKeepsOnlyChars(s: string)
    ensures forall m :: 0 <= m < |Strip(s)| ==> Strip(s)[m] in s
  {
    var lo := SkipSpaces(s, 0);
    var hi := SkipSpacesBack(s, lo, |s|);
    forall m | 0 <= m < |Strip(s)| ensures Strip(s)[m] in s {
      assert Strip(s)[m] == s[lo + m];
    }
  }

  /** `str.strip()` is idempotent. */
  lemma StripIdempotent(s: string)
    ensures Strip(Strip(s)) == Strip(s)
  {
    StripUntrimmed(Strip(s));
  }

  /** `str.lower()` on one character, for the ASCII range. */
  function Lower(c: char): char {
    if 'A' <= c <= 'Z' then (c as int + 32) as char else c
  }

  function LowerStr(s: string): string {
    seq(|s|, i requires 0 <= i < |s| => Lower(s[i]))
  }

  predicate IsLowerStr(s: string) {
    forall i :: 0 <= i < |s| ==> !('A' <= s[i] <= 'Z')
  }

  /** Lowering yields a string without upper-case letters, and lowering such a string changes nothing. */
  lemma LowerStrFacts(s: string)
    ensures IsLowerStr(LowerStr(s))
    ensures IsLowerStr(s) ==> LowerStr(s) == s
  {
  }

  /** `c.isalnum()` for the ASCII range. */
  predicate IsAlnum(c: char) {
    ('a' <= c <= 'z') || ('A' <= c <= 'Z') || ('0' <= c <= '9')
  }

  /** `sep.join(items)`. */
  function Join(items: seq<string>, sep: string): string
    decreases |items|
  {
    if |items| == 0 then ""
    else if |items| == 1 then items[0]
    else items[0] + sep + Join(items[1..], sep)
  }

  predicate HasPrefix(s: string, p: string) {
    |p| <= |s| && s[..|p|] == p
  }

  /** Number of occurrences of `c` in `s`. */
  function Occurrences(s: string, c: char): nat
    decreases |s|
  {
    if s == [] then 0 else (if s[0] == c then 1 else 0) + Occurrences(s[1..], c)
  }

  lemma {:induction false} OccurrencesAppend(a: string, b: string, c: char)
    ensures Occurrences(a + b, c) == Occurrences(a, c) + Occurrences(b, c)
    decreases |a|
  {
    if a == [] {
      assert a + b == b;
    } else {
      assert (a + b)[1..] == a[1..] + b;
      OccurrencesAppend(a[1..], b, c);
    }
  }

  lemma {:induction false} OccurrencesAbsent(s: string, c: char)
    requires c !in s
    ensures Occurrences(s, c) == 0
    decreases |s|
  {
    if s != [] {
      OccurrencesAbsent(s[1..], c);
    }
  }
}
