/**
 The three regular expressions the response parser applies to the model's
 answer, each as a deterministic scan:

 - de-fencing, `re.sub(r"```json\s*|\s*```", "", text)`;
 - the first object-shaped candidate, `re.search(r"\{[^{}]*\{[^{}]*\}[^{}]*\}|\{[^{}]*\}", text, re.DOTALL)`;
 - the keyword fallback, `re.search(r"(SELECT|INSERT|UPDATE|DELETE|CREATE|ALTER|DROP).*?;", text, re.IGNORECASE | re.DOTALL)`.

 Each scan is written the way the regular-expression engine walks the text:
 start positions are tried from left to right and the first one at which the
 pattern matches wins.
 */
module LlmPatterns {
  import opened Wrappers
  import opened PyStr

  // ---------------------------------------------------------------------------
  // De-fencing
  // ---------------------------------------------------------------------------

  const JsonFence: string := "```json"
  const Fence: string := "```"

  /**
   Every match of "```json" plus the whitespace after it, or of a (possibly
   empty) whitespace run plus "```", is deleted, wherever it occurs. At one
   position the first alternative is tried first; a whitespace run that is not
   followed by "```" is kept.
   */
  function Defence(s: string): (r: string)
    ensures |r| <= |s|
    decreases |s|
  {
    if s == [] then []
    else if HasPrefix(s, JsonFence) then
      var rest := s[|JsonFence|..];
      Defence(rest[SkipSpaces(rest, 0)..])
    else
      var k := SkipSpaces(s, 0);
      if HasPrefix(s[k..], Fence) then Defence(s[k + |Fence|..])
      else [s[0]] + Defence(s[1..])
  }

  /** Three backticks start at `i`: where either alternative of the pattern can remove something. */
  predicate FenceAt(s: string, i: int) {
    0 <= i && i + 3 <= |s| && s[i] == '`' && s[i + 1] == '`' && s[i + 2] == '`'
  }

  /** No run of three backticks anywhere in `s`; single and double backticks may occur. */
  predicate NoFence(s: string) {
    forall i :: 0 <= i < |s| ==> !FenceAt(s, i)
  }

  /** No fence starts inside `t`, whatever text follows it: `t` holds none and does not end in a backtick. */
  predicate NoFenceStarts(t: string) {
    NoFence(t) && (t == [] || t[|t| - 1] != '`')
  }

  lemma NoFenceSuffix(s: string, lo: nat)
    requires NoFence(s) && lo <= |s|
    ensures NoFence(s[lo..])
  {
    forall i | 0 <= i < |s[lo..]| ensures !FenceAt(s[lo..], i) {
      assert !FenceAt(s, lo + i);
    }
  }

  lemma NoFenceStartsSuffix(t: string, lo: nat)
    requires NoFenceStarts(t) && lo <= |t|
    ensures NoFenceStarts(t[lo..])
  {
    NoFenceSuffix(t, lo);
  }

  /** A fence that starts inside `t` in `t + u` would lie within `t` or cover its last character. */
  lemma NoFenceInside(t: string, u: string, i: int)
    requires NoFenceStarts(t) && 0 <= i < |t|
    ensures !FenceAt(t + u, i)
  {
    var s := t + u;
    if i + 3 <= |t| {
      assert s[i] == t[i] && s[i + 1] == t[i + 1] && s[i + 2] == t[i + 2];
      assert !FenceAt(t, i);
    } else {
      assert s[|t| - 1] == t[|t| - 1];
    }
  }

  /** Text without any backtick starts no fence. */
  lemma NoBacktickNoFence(t: string)
    requires forall m :: 0 <= m < |t| ==> t[m] != '`'
    ensures NoFenceStarts(t)
  {
  }

  /** Where no fence starts, neither alternative of the pattern matches from there. */
  lemma NoFenceNoMatch(s: string, k: nat)
    requires k <= |s| && !FenceAt(s, k)
    ensures !HasPrefix(s[k..], Fence) && !HasPrefix(s[k..], JsonFence)
  {
    if |s| - k >= 3 {
      var v := s[k..];
      assert v[0] == s[k] && v[1] == s[k + 1] && v[2] == s[k + 2];
      assert Fence[0] == '`' && Fence[1] == '`' && Fence[2] == '`';
      assert JsonFence[0] == '`' && JsonFence[1] == '`' && JsonFence[2] == '`';
    }
  }

  /** Where no fence starts at the first character nor where the whitespace scan stops, the first character is kept. */
  lemma DefenceKeepsFirst(s: string)
    requires s != [] && !FenceAt(s, 0) && !FenceAt(s, SkipSpaces(s, 0))
    ensures Defence(s) == [s[0]] + Defence(s[1..])
  {
    NoFenceNoMatch(s, 0);
    assert s[0..] == s;
    NoFenceNoMatch(s, SkipSpaces(s, 0));
  }

  /** Text followed by a fence does not start with "```json" when no fence starts inside the text. */
  lemma NoOpeningFence(t: string)
    requires NoFenceStarts(t) || AllSpace(t)
    ensures !HasPrefix(t + Fence, JsonFence)
  {
    var s := t + Fence;
    if t == [] {
      assert |s| < |JsonFence|;
    } else if AllSpace(t) {
      assert s[0] == t[0];
    } else {
      NoFenceInside(t, Fence, 0);
      assert s[..3] != JsonFence[..3];
    }
  }

  /** The whitespace scan over text followed by a fence stops at the fence at the latest. */
  lemma SpacesUpToFence(t: string)
    requires SkipSpaces(t + Fence, 0) >= |t|
    ensures SkipSpaces(t + Fence, 0) == |t| && AllSpace(t)
  {
    var s := t + Fence;
    assert s[|t|] == '`';
    forall m | 0 <= m < |t| ensures IsSpace(t[m]) {
      assert s[m] == t[m];
    }
  }

  /** Only whitespace before the closing fence: all of it goes. */
  lemma DefenceAtFence(t: string)
    requires SkipSpaces(t + Fence, 0) >= |t|
    ensures Defence(t + Fence) == [] && AllSpace(t)
  {
    var s := t + Fence;
    SpacesUpToFence(t);
    assert Defence(s) == Defence(s[|t| + |Fence|..]) by {
      NoOpeningFence(t);
      assert s[|t|..] == Fence;
    }
    assert s[|t| + |Fence|..] == [];
  }

  /** A character that is not whitespace before the fence is kept, and the scan moves on by one. */
  lemma DefenceKeepsHead(t: string)
    requires NoFenceStarts(t) && SkipSpaces(t + Fence, 0) < |t|
    ensures Defence(t + Fence) == [t[0]] + Defence(t[1..] + Fence)
  {
    var s := t + Fence;
    calc {
      Defence(s);
      == { NoFenceInside(t, Fence, 0);
           NoFenceInside(t, Fence, SkipSpaces(s, 0));
           DefenceKeepsFirst(s); }
      [s[0]] + Defence(s[1..]);
      == { assert s[0] == t[0] && s[1..] == t[1..] + Fence; }
      [t[0]] + Defence(t[1..] + Fence);
    }
  }

  /** `r` is `t` without its trailing whitespace: a prefix of `t` that ends in a non-space, followed in `t` only by whitespace. */
  predicate KeptPart(t: string, r: string) {
    && |r| <= |t| && r == t[..|r|] && AllSpace(t[|r|..])
    && (r == [] || !IsSpace(r[|r| - 1]))
  }

  lemma KeptPartCons(t: string, r': string)
    requires t != [] && KeptPart(t[1..], r')
    requires r' == [] ==> !IsSpace(t[0])
    ensures KeptPart(t, [t[0]] + r')
  {
    var r := [t[0]] + r';
    assert t[..|r|] == [t[0]] + t[1..][..|r'|];
    assert t[|r|..] == t[1..][|r'|..];
  }

  /** When the whitespace scan stops before the fence but the rest of `t` is whitespace, it stopped at the first character. */
  lemma FirstKept(t: string)
    requires t != [] && SkipSpaces(t + Fence, 0) < |t| && AllSpace(t[1..])
    ensures !IsSpace(t[0])
  {
    var k := SkipSpaces(t + Fence, 0);
    assert !IsSpace(t[k]) by { assert (t + Fence)[k] == t[k]; }
    forall m | 1 <= m < |t| ensures IsSpace(t[m]) {
      assert t[m] == t[1..][m - 1];
    }
  }

  /**
   Text in which no fence starts, closed by a fence: the closing fence and the
   whitespace in front of it go, everything else (single or double backticks
   included) stays.
   */
  lemma {:induction false} DefenceBeforeFence(t: string)
    requires NoFenceStarts(t)
    ensures KeptPart(t, Defence(t + Fence))
    decreases |t|
  {
    if SkipSpaces(t + Fence, 0) >= |t| {
      DefenceAtFence(t);
      assert t[0..] == t;
    } else {
      DefenceKeepsHead(t);
      NoFenceStartsSuffix(t, 1);
      DefenceBeforeFence(t[1..]);
      var r' := Defence(t[1..] + Fence);
      if r' == [] {
        assert t[1..][0..] == t[1..];
        FirstKept(t);
      }
      KeptPartCons(t, r');
    }
  }

  /** De-fencing only deletes: every character it keeps comes from its input. */
  lemma {:induction false} DefenceKeepsOnlyChars(s: string)
    ensures forall m :: 0 <= m < |Defence(s)| ==> Defence(s)[m] in s
    decreases |s|
  {
    if s == [] {
    } else if HasPrefix(s, JsonFence) {
      var rest := s[|JsonFence|..];
      var t := rest[SkipSpaces(rest, 0)..];
      DefenceKeepsOnlyChars(t);
      assert t == s[|JsonFence| + SkipSpaces(rest, 0)..];
      SuffixChars(s, |JsonFence| + SkipSpaces(rest, 0), Defence(t));
    } else {
      var k := SkipSpaces(s, 0);
      if HasPrefix(s[k..], Fence) {
        DefenceKeepsOnlyChars(s[k + |Fence|..]);
        SuffixChars(s, k + |Fence|, Defence(s[k + |Fence|..]));
      } else {
        DefenceKeepsOnlyChars(s[1..]);
        SuffixChars(s, 1, Defence(s[1..]));
        assert Defence(s) == [s[0]] + Defence(s[1..]);
      }
    }
  }

  /** Characters drawn from a suffix of `s` are drawn from `s`. */
  lemma SuffixChars(s: string, k: nat, r: string)
    requires k <= |s|
    requires forall m :: 0 <= m < |r| ==> r[m] in s[k..]
    ensures forall m :: 0 <= m < |r| ==> r[m] in s
  {
    forall m | 0 <= m < |r| ensures r[m] in s {
      var j :| 0 <= j < |s[k..]| && s[k..][j] == r[m];
      assert s[k + j] == r[m];
    }
  }

  /** An opening "```json" goes together with the whitespace after it. */
  lemma DefenceOpeningFence(u: string)
    ensures Defence(JsonFence + u) == Defence(u[SkipSpaces(u, 0)..])
  {
    var s := JsonFence + u;
    assert HasPrefix(s, JsonFence);
    assert s[|JsonFence|..] == u;
  }

  /**
   A fenced JSON block whose body starts no fence de-fences to the stripped
   body: fencing and then de-fencing gives back the body up to surrounding whitespace.
   */
  lemma DefenceFencedBody(body: string)
    requires NoFenceStarts(body)
    ensures Defence(JsonFence + body + Fence) == Strip(body)
  {
    var u := body + Fence;
    var lo := SkipSpaces(u, 0);
    FencedBodySplit(body);
    var tail := body[lo..];
    assert Defence(JsonFence + body + Fence) == Defence(tail + Fence) by {
      assert u[lo..] == tail + Fence;
      assert JsonFence + body + Fence == JsonFence + u;
      DefenceOpeningFence(u);
    }
    NoFenceStartsSuffix(body, lo);
    DefenceBeforeFence(tail);
    StripOfTail(body, lo, Defence(tail + Fence));
  }

  /** The whitespace the opening fence swallows lies inside the body. */
  lemma FencedBodySplit(body: string)
    ensures var lo := SkipSpaces(body + Fence, 0);
      lo <= |body| && AllSpace(body[..lo]) && (lo < |body| ==> !IsSpace(body[lo]))
  {
    var u := body + Fence;
    var lo := SkipSpaces(u, 0);
    assert u[|body|] == '`';
    forall m | 0 <= m < lo ensures IsSpace(body[m]) { assert u[m] == body[m]; }
    if lo < |body| { assert u[lo] == body[lo]; }
  }

  /** Stripping the body, given how de-fencing cut its tail `body[lo..]`. */
  lemma StripOfTail(body: string, lo: nat, r: string)
    requires lo <= |body| && AllSpace(body[..lo]) && (lo < |body| ==> !IsSpace(body[lo]))
    requires KeptPart(body[lo..], r)
    ensures Strip(body) == r
  {
    assert body[lo..lo + |r|] == r;
    assert body[lo + |r|..] == body[lo..][|r|..];
    if r != [] { assert r[0] == body[lo]; }
    StripUnique(body, lo, r);
  }

  /**
   An answer without a run of three backticks has nothing to de-fence: it comes
   out unchanged, single and double backticks included.
   */
  lemma {:induction false} DefenceBare(s: string)
    requires NoFence(s)
    ensures Defence(s) == s
    decreases |s|
  {
    if s != [] {
      assert !FenceAt(s, 0) && !FenceAt(s, SkipSpaces(s, 0));
      DefenceKeepsFirst(s);
      NoFenceSuffix(s, 1);
      DefenceBare(s[1..]);
      assert s == [s[0]] + s[1..];
    }
  }

  /** Before a leading part that starts no fence and ends in a non-space, de-fencing keeps the first character. */
  lemma PlainPrefixStep(t: string, u: string)
    requires t != [] && NoFenceStarts(t) && !IsSpace(t[|t| - 1])
    ensures Defence(t + u) == [t[0]] + Defence(t[1..] + u)
  {
    var s := t + u;
    assert !IsSpace(s[|t| - 1]);
    NoFenceInside(t, u, 0);
    NoFenceInside(t, u, SkipSpaces(s, 0));
    DefenceKeepsFirst(s);
    assert s[1..] == t[1..] + u;
  }

  /**
   A leading part that starts no fence and ends in a non-space is kept as it
   is, and de-fencing goes on after it as if it were not there.
   */
  lemma {:induction false} DefenceKeepsPlainPrefix(t: string, u: string)
    requires NoFenceStarts(t) && (t == [] || !IsSpace(t[|t| - 1]))
    ensures Defence(t + u) == t + Defence(u)
    decreases |t|
  {
    if t == [] {
      assert t + u == u;
    } else {
      calc {
        Defence(t + u);
        == { PlainPrefixStep(t, u); }
        [t[0]] + Defence(t[1..] + u);
        == { assert t[1..] == [] || t[1..][|t[1..]| - 1] == t[|t| - 1];
             NoFenceStartsSuffix(t, 1);
             DefenceKeepsPlainPrefix(t[1..], u); }
        [t[0]] + (t[1..] + Defence(u));
        == { ConsRest(t, Defence(u)); }
        t + Defence(u);
      }
    }
  }

  lemma ConsRest(t: string, d: string)
    requires t != []
    ensures [t[0]] + (t[1..] + d) == t + d
  {
    assert t == [t[0]] + t[1..];
  }

  /** A closing fence that is not the start of "```json" goes, and de-fencing goes on after it. */
  lemma DefenceClosingFence(u: string)
    requires !HasPrefix(u, "json")
    ensures Defence(Fence + u) == Defence(u)
  {
    var s := Fence + u;
    assert !HasPrefix(s, JsonFence) by {
      if |u| >= 4 { assert s[3..7] == u[..4]; }
    }
    assert !IsSpace(s[0]);
    assert s[..|Fence|] == Fence;
    assert s[|Fence|..] == u;
  }

  /**
   A fence in mid-answer, right after text that starts no fence and ends in a
   non-space: the text before it stays, the fence goes, and de-fencing goes
   on with the text after it.
   */
  lemma DefenceMidFence(t: string, u: string)
    requires NoFenceStarts(t) && (t == [] || !IsSpace(t[|t| - 1]))
    requires !HasPrefix(u, "json")
    ensures Defence(t + Fence + u) == t + Defence(u)
  {
    calc {
      Defence(t + Fence + u);
      == { assert t + Fence + u == t + (Fence + u); }
      Defence(t + (Fence + u));
      == { DefenceKeepsPlainPrefix(t, Fence + u); }
      t + Defence(Fence + u);
      == { DefenceClosingFence(u); }
      t + Defence(u);
    }
  }

  /**
   A fence after a non-empty whitespace run: the run and the fence go together,
   even when "json" follows, since at the run's first character only the
   second alternative can match.
   */
  lemma DefenceSpacedFence(w: string, u: string)
    requires w != [] && AllSpace(w)
    ensures Defence(w + Fence + u) == Defence(u)
  {
    var s := w + Fence + u;
    assert IsSpace(s[0]);
    assert !HasPrefix(s, JsonFence) by { assert s[0] == w[0]; }
    assert SkipSpaces(s, 0) == |w| by {
      assert forall m :: 0 <= m < |w| ==> s[m] == w[m];
      assert s[|w|] == '`' && !IsSpace('`');
    }
    assert s[|w|..][..|Fence|] == Fence;
    assert s[|w| + |Fence|..] == u;
  }

  /**
   "```json" after a whitespace run, the usual shape in mid-answer: the run
   and the backticks go, but "json" itself stays in the text.
   */
  lemma DefenceSpacedJsonFence(w: string, u: string)
    requires w != [] && AllSpace(w)
    ensures Defence(w + JsonFence + u) == "json" + Defence(u)
  {
    calc {
      Defence(w + JsonFence + u);
      == { assert w + JsonFence + u == w + Fence + ("json" + u); }
      Defence(w + Fence + ("json" + u));
      == { DefenceSpacedFence(w, "json" + u); }
      Defence("json" + u);
      == { NoBacktickNoFence("json"); DefenceKeepsPlainPrefix("json", u); }
      "json" + Defence(u);
    }
  }

  // ---------------------------------------------------------------------------
  // The first object-shaped candidate
  // ---------------------------------------------------------------------------

  predicate IsBrace(c: char) {
    c == '{' || c == '}'
  }

  /** No brace in `s[a..b]`: what `[^{}]*` can match there. */
  predicate BraceFree(s: string, a: int, b: int) {
    forall m :: 0 <= a <= m < b && m < |s| ==> !IsBrace(s[m])
  }

  /** The end of the longest brace-free run starting at `p`: where a greedy `[^{}]*` stops. */
  function RunEnd(s: string, p: nat): (q: nat)
    requires p <= |s|
    ensures p <= q <= |s|
    ensures BraceFree(s, p, q)
    ensures q == |s| || IsBrace(s[q])
    decreases |s| - p
  {
    if p == |s| || IsBrace(s[p]) then p else RunEnd(s, p + 1)
  }

  /** `\{[^{}]*\}` matches `s[i..e]`. */
  predicate FlatAt(s: string, i: int, e: int) {
    0 <= i && i + 2 <= e <= |s| && s[i] == '{' && s[e - 1] == '}' && BraceFree(s, i + 1, e - 1)
  }

  /** `\{[^{}]*\{[^{}]*\}[^{}]*\}` matches `s[i..e]`, with the inner object at `s[j..k + 1]`. */
  predicate NestedAt(s: string, i: int, j: int, k: int, e: int) {
    && 0 <= i < j < k < e - 1 && e <= |s|
    && s[i] == '{' && s[j] == '{' && s[k] == '}' && s[e - 1] == '}'
    && BraceFree(s, i + 1, j) && BraceFree(s, j + 1, k) && BraceFree(s, k + 1, e - 1)
  }

  /** Where the nested alternative, tried at `i`, ends its match. */
  function NestedEnd(s: string, i: nat): (r: Option<nat>)
    requires i < |s|
    ensures r.Some? ==> i + 4 <= r.value <= |s| && s[i] == '{' && s[r.value - 1] == '}'
    ensures r.Some? ==> exists j, k :: NestedAt(s, i, j, k, r.value)
    ensures forall j, k, e :: NestedAt(s, i, j, k, e) ==> r == Some(e)
  {
    if s[i] != '{' then None
    else
      var j := RunEnd(s, i + 1);
      if j == |s| || s[j] != '{' then None
      else
        var k := RunEnd(s, j + 1);
        if k == |s| || s[k] != '}' then None
        else
          var m := RunEnd(s, k + 1);
          if m == |s| || s[m] != '}' then None
          else
            assert NestedAt(s, i, j, k, m + 1);
            Some(m + 1)
  }

  /** Where the flat alternative, tried at `i`, ends its match. */
  function FlatEnd(s: string, i: nat): (r: Option<nat>)
    requires i < |s|
    ensures r.Some? ==> FlatAt(s, i, r.value)
    ensures forall e :: FlatAt(s, i, e) ==> r == Some(e)
  {
    if s[i] != '{' then None
    else
      var j := RunEnd(s, i + 1);
      if j == |s| || s[j] != '}' then None
      else Some(j + 1)
  }

  /** The object pattern tried at `i`: the nested alternative first, the flat one only if it fails. */
  function ObjectAt(s: string, i: nat): (r: Option<nat>)
    requires i < |s|
    ensures r.Some? ==> i + 2 <= r.value <= |s| && s[i] == '{' && s[r.value - 1] == '}'
  {
    var n := NestedEnd(s, i);
    if n.Some? then n else FlatEnd(s, i)
  }

  /**
   What the object pattern matches at `i`: a nested or a flat object; the
   nested reading wins whenever there is one; and nothing is matched exactly
   when neither alternative matches.
   */
  lemma ObjectAtMatches(s: string, i: nat)
    requires i < |s|
    ensures var r := ObjectAt(s, i);
      && (r.Some? ==> (exists j, k :: NestedAt(s, i, j, k, r.value)) || FlatAt(s, i, r.value))
      && ((exists j, k, e :: NestedAt(s, i, j, k, e)) ==> r.Some? && exists j, k :: NestedAt(s, i, j, k, r.value))
      && (r.None? <==> (forall j, k, e :: !NestedAt(s, i, j, k, e)) && (forall e :: !FlatAt(s, i, e)))
  {
  }

  /** `re.search` for the object pattern from position `from` on: the leftmost start at which it matches. */
  function FindObject(s: string, from: nat): (r: Option<(nat, nat)>)
    requires from <= |s|
    ensures r.Some? ==> from <= r.value.0 < |s| && ObjectAt(s, r.value.0) == Some(r.value.1)
    ensures r.Some? ==> forall p :: from <= p < r.value.0 ==> ObjectAt(s, p).None?
    ensures r.None? ==> forall p :: from <= p < |s| ==> ObjectAt(s, p).None?
    decreases |s| - from
  {
    if from == |s| then None
    else
      match ObjectAt(s, from)
      case Some(e) => Some((from, e))
      case None => FindObject(s, from + 1)
  }

  /** `json_match.group()`: the first object-shaped substring, if there is one. */
  function ObjectCandidate(s: string): (r: Option<string>)
    ensures r.Some? <==> FindObject(s, 0).Some?
    ensures r.Some? ==> r.value == s[FindObject(s, 0).value.0..FindObject(s, 0).value.1]
    ensures r.Some? ==> |r.value| >= 2 && r.value[0] == '{' && r.value[|r.value| - 1] == '}'
  {
    match FindObject(s, 0)
    case Some((b, e)) => Some(s[b..e])
    case None => None
  }

  /** There is no candidate exactly when no flat object `{...}` occurs anywhere: every nested match holds a flat one. */
  lemma ObjectCandidateExists(s: string)
    ensures ObjectCandidate(s).None? <==> forall i, e :: 0 <= i < |s| ==> !FlatAt(s, i, e)
  {
    match FindObject(s, 0)
    case Some((b, e)) =>
      ObjectAtMatches(s, b);
      if j, k :| NestedAt(s, b, j, k, e) {
        assert FlatAt(s, j, k + 1);
      }
    case None =>
      forall i, e | 0 <= i < |s| ensures !FlatAt(s, i, e) {
        assert ObjectAt(s, i).None?;
        ObjectAtMatches(s, i);
      }
  }

  /** A text without an opening brace holds no candidate. */
  lemma NoBraceNoCandidate(s: string)
    requires '{' !in s
    ensures ObjectCandidate(s) == None
  {
    forall i, e | 0 <= i < |s| ensures !FlatAt(s, i, e) {
      assert s[i] in s;
    }
  }

  // ---------------------------------------------------------------------------
  // The keyword fallback
  // ---------------------------------------------------------------------------

  /** The statement keywords in the order of the alternation, lower-cased for a case-insensitive comparison. */
  const Keywords: seq<string> := ["select", "insert", "update", "delete", "create", "alter", "drop"]

  /** `kw` matches case-insensitively at `i`. */
  predicate KeywordAt(s: string, i: nat, kw: string) {
    i + |kw| <= |s| && LowerStr(s[i..i + |kw|]) == kw
  }

  /** The first ';' at or after `p`: where the lazy `.*?;` stops. */
  function SemicolonFrom(s: string, p: nat): (q: Option<nat>)
    requires p <= |s|
    ensures q.Some? ==> p <= q.value < |s| && s[q.value] == ';'
    ensures q.Some? ==> forall m :: p <= m < q.value ==> s[m] != ';'
    ensures q.None? ==> forall m :: p <= m < |s| ==> s[m] != ';'
    decreases |s| - p
  {
    if p == |s| then None
    else if s[p] == ';' then Some(p)
    else SemicolonFrom(s, p + 1)
  }

  /** `s[i..e]` is the keyword `kw`, then anything up to and including the first ';' after it. */
  predicate StatementWith(s: string, i: nat, kw: string, e: int) {
    && KeywordAt(s, i, kw) && i + |kw| < e <= |s| && s[e - 1] == ';'
    && forall m :: i + |kw| <= m < e - 1 ==> s[m] != ';'
  }

  /** The alternation tried at `i`, keyword by keyword in order; one whose ';' is missing gives way to the next. */
  function StatementEnd(s: string, i: nat, kws: seq<string>): (r: Option<(string, nat)>)
    requires i <= |s|
    ensures r.Some? ==> r.value.0 in kws && StatementWith(s, i, r.value.0, r.value.1)
    ensures r.None? ==> forall kw, e :: kw in kws ==> !StatementWith(s, i, kw, e)
    decreases |kws|
  {
    if kws == [] then None
    else if KeywordAt(s, i, kws[0]) && SemicolonFrom(s, i + |kws[0]|).Some? then
      Some((kws[0], SemicolonFrom(s, i + |kws[0]|).value + 1))
    else
      var r := StatementEnd(s, i, kws[1..]);
      assert forall e :: !StatementWith(s, i, kws[0], e) by {
        if KeywordAt(s, i, kws[0]) {
          assert SemicolonFrom(s, i + |kws[0]|).None?;
        }
      }
      r
  }

  /** A keyword fixes the lower-cased first two characters of the text it matches. */
  lemma KeywordHead(s: string, i: nat, kw: string)
    requires |kw| >= 2 && KeywordAt(s, i, kw)
    ensures Lower(s[i]) == kw[0] && Lower(s[i + 1]) == kw[1]
  {
    assert LowerStr(s[i..i + |kw|])[0] == kw[0];
    assert LowerStr(s[i..i + |kw|])[1] == kw[1];
  }

  /** At any position at most one of the seven keywords matches, so the order of the alternation never matters. */
  lemma AtMostOneKeyword(s: string, i: nat, k1: string, k2: string)
    requires k1 in Keywords && k2 in Keywords
    requires KeywordAt(s, i, k1) && KeywordAt(s, i, k2)
    ensures k1 == k2
  {
    KeywordHead(s, i, k1);
    KeywordHead(s, i, k2);
  }

  /** No match of the statement pattern starts at a position in `[a, b)`. */
  ghost predicate NoStatementIn(s: string, a: nat, b: int) {
    forall p: nat, kw, e :: a <= p < b && kw in Keywords ==> !StatementWith(s, p, kw, e)
  }

  lemma NoStatementCons(s: string, a: nat, b: int)
    requires forall kw, e :: kw in Keywords ==> !StatementWith(s, a, kw, e)
    requires NoStatementIn(s, a + 1, b)
    ensures NoStatementIn(s, a, b)
  {
  }

  /**
   `re.search` for the statement pattern from `from` on: the leftmost start at
   which some keyword matches and is followed by a ';', with that keyword and the
   end of the match.
   */
  function FindStatement(s: string, from: nat): (r: Option<(nat, string, nat)>)
    requires from <= |s|
    ensures r.Some? ==> from <= r.value.0 && r.value.1 in Keywords && StatementWith(s, r.value.0, r.value.1, r.value.2)
    ensures r.Some? ==> NoStatementIn(s, from, r.value.0)
    ensures r.None? ==> NoStatementIn(s, from, |s| + 1)
    decreases |s| - from
  {
    match StatementEnd(s, from, Keywords)
    case Some((kw, e)) => Some((from, kw, e))
    case None =>
      if from == |s| then None
      else
        var r := FindStatement(s, from + 1);
        NoStatementCons(s, from, if r.Some? then r.value.0 else |s| + 1);
        r
  }

  /** `sql_match.group()`: the leftmost keyword-to-semicolon statement, if there is one. */
  function KeywordStatement(s: string): (r: Option<string>)
    ensures r.Some? <==> FindStatement(s, 0).Some?
    ensures r.Some? ==> r.value == s[FindStatement(s, 0).value.0..FindStatement(s, 0).value.2]
  {
    match FindStatement(s, 0)
    case Some((b, _, e)) => Some(s[b..e])
    case None => None
  }

  /** The only ';' of a statement match is its last character. */
  lemma StatementSemicolon(s: string, i: nat, kw: string, e: int)
    requires kw in Keywords && StatementWith(s, i, kw, e)
    ensures var m := s[i..e]; m[|m| - 1] == ';' && Occurrences(m, ';') == 1
  {
    var m := s[i..e];
    assert ';' !in m[..|m| - 1] by {
      forall p | 0 <= p < |m| - 1 ensures m[p] != ';' {
        if p < |kw| {
          assert LowerStr(s[i..i + |kw|])[p] == kw[p];
          assert m[p] == s[i..i + |kw|][p];
        }
      }
    }
    OccurrencesAbsent(m[..|m| - 1], ';');
    OccurrencesAppend(m[..|m| - 1], [';'], ';');
    assert m == m[..|m| - 1] + [';'];
  }

  /**
   What the fallback hands back: it starts with one of the seven keywords in
   any letter case, ends with the first ';' after that keyword and so holds
   exactly one ';', and it is already stripped.
   */
  lemma KeywordStatementShape(s: string)
    requires KeywordStatement(s).Some?
    ensures var m := KeywordStatement(s).value;
      && (exists kw :: kw in Keywords && |kw| < |m| && LowerStr(m[..|kw|]) == kw)
      && m[|m| - 1] == ';' && Occurrences(m, ';') == 1
      && Strip(m) == m
  {
    var (b, kw, e) := FindStatement(s, 0).value;
    var m := s[b..e];
    assert KeywordStatement(s).value == m;
    StatementText(s, b, kw, e);
    assert kw in Keywords && |kw| < |m| && LowerStr(m[..|kw|]) == kw;
  }

  /** The facts of the shape lemma for one match `s[i..e]` of keyword `kw`. */
  lemma StatementText(s: string, i: nat, kw: string, e: int)
    requires kw in Keywords && StatementWith(s, i, kw, e)
    ensures var m := s[i..e];
      && |kw| < |m| && LowerStr(m[..|kw|]) == kw
      && m[|m| - 1] == ';' && Occurrences(m, ';') == 1
      && Strip(m) == m
  {
    var m := s[i..e];
    assert m[..|kw|] == s[i..i + |kw|];
    StatementSemicolon(s, i, kw, e);
    KeywordHead(s, i, kw);
    assert m[0] == s[i];
    StripUntrimmed(m);
  }
}
