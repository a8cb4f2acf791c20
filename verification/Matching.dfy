/** Which rules of a pack fire on a text: overlapping substring search, whole-token search, the fuzzy
    search over tokens, and the spans that allow terms suppress. */
module Matching {
  import opened Prelude
  import opened Text
  import opened Fuzzy

  datatype Span = Span(start: int, end: int)

  // ---------------------------------------------------------------- allow terms

  /** Every token-aligned occurrence of every allow term. */
  ghost predicate IsAllowSpan(s: string, allow: seq<string>, span: Span) {
    exists n :: 0 <= n < |allow| && Aligned(s, allow[n], span.start) && span.end == span.start + |allow[n]|
  }

  ghost predicate SpansExactly(s: string, allow: seq<string>, spans: seq<Span>) {
    forall span :: span in spans <==> IsAllowSpan(s, allow, span)
  }

  /** The aligned occurrences of one term that start before `limit`. */
  ghost predicate TermSpans(s: string, term: string, limit: int, spans: seq<Span>) {
    forall span :: span in spans <==> span.start < limit && Aligned(s, term, span.start) && span.end == span.start + |term|
  }

  predicate Bounded(s: string, index: int, end: int)
    requires 0 <= index <= end <= |s|
  {
    (index == 0 || s[index - 1] == ' ') && (end == |s| || s[end] == ' ')
  }

  lemma NextTermSpan(s: string, term: string, start: nat, index: int, spans: seq<Span>)
    requires TermSpans(s, term, start, spans) && IsNext(s, term, start, index) && index >= 0
    ensures TermSpans(s, term, index + 1,
                      if Bounded(s, index, index + |term|) then spans + [Span(index, index + |term|)] else spans)
  {
  }

  /** The search loop of `_allowed_spans` for one term. */
  method SpansOfTerm(transcript: string, term: string) returns (spans: seq<Span>)
    ensures TermSpans(transcript, term, |transcript| + 1, spans)
  {
    spans := [];
    var start := 0;
    var index := Find(transcript, term, start);
    while index >= 0
      invariant 0 <= start <= |transcript| + 1 && IsNext(transcript, term, start, index)
      invariant TermSpans(transcript, term, start, spans)
      decreases |transcript| + 1 - start
    {
      var end := index + |term|;
      NextTermSpan(transcript, term, start, index, spans);
      if Bounded(transcript, index, end) {
        spans := spans + [Span(index, end)];
      }
      start := index + 1;
      index := Find(transcript, term, start);
    }
  }

  /** `_allowed_spans`. */
  method AllowedSpans(transcript: string, allow: seq<string>) returns (spans: seq<Span>)
    ensures SpansExactly(transcript, allow, spans)
  {
    spans := [];
    for n := 0 to |allow|
      invariant SpansExactly(transcript, allow[..n], spans)
    {
      var found := SpansOfTerm(transcript, allow[n]);
      AddTerm(transcript, allow, n, spans, found);
      spans := spans + found;
    }
    assert allow[..|allow|] == allow;
  }

  lemma AddTerm(s: string, allow: seq<string>, n: nat, spans: seq<Span>, found: seq<Span>)
    requires n < |allow| && SpansExactly(s, allow[..n], spans) && TermSpans(s, allow[n], |s| + 1, found)
    ensures SpansExactly(s, allow[..n + 1], spans + found)
  {
    forall span
      ensures span in spans + found <==> IsAllowSpan(s, allow[..n + 1], span)
    {
      assert span in spans + found <==> span in spans || span in found;
      if span in spans {
        var m :| 0 <= m < n && Aligned(s, allow[..n][m], span.start) && span.end == span.start + |allow[..n][m]|;
        assert allow[..n + 1][m] == allow[..n][m];
      }
      if span in found {
        assert allow[..n + 1][n] == allow[n];
      }
      if IsAllowSpan(s, allow[..n + 1], span) {
        var m :| 0 <= m < n + 1 && Aligned(s, allow[..n + 1][m], span.start) && span.end == span.start + |allow[..n + 1][m]|;
        if m < n { assert allow[..n][m] == allow[..n + 1][m]; }
      }
    }
  }

  /** `_is_allowed`. */
  predicate IsAllowed(start: int, end: int, spans: seq<Span>) {
    exists n :: 0 <= n < |spans| && spans[n].start <= start && end <= spans[n].end
  }

  // ---------------------------------------------------------------- exact and contains

  datatype Kind = Exact | Contains

  /** An exact rule wants whitespace, or an end of the text, on either side. */
  predicate StandsAlone(kind: Kind, isSpace: char -> bool, s: string, start: int, end: int)
    requires 0 <= start <= end <= |s|
  {
    kind.Contains? || ((start == 0 || isSpace(s[start - 1])) && (end == |s| || isSpace(s[end])))
  }

  /** A place where the pattern counts: for an exact rule between whitespace, and inside no span. */
  predicate Qualifies(kind: Kind, isSpace: char -> bool, s: string, pattern: string, i: int, spans: seq<Span>) {
    && OccursAt(s, pattern, i)
    && StandsAlone(kind, isSpace, s, i, i + |pattern|)
    && !IsAllowed(i, i + |pattern|, spans)
  }

  ghost predicate NoPlaceBefore(kind: Kind, isSpace: char -> bool, s: string, pattern: string, spans: seq<Span>, limit: int) {
    forall i :: i < limit ==> !Qualifies(kind, isSpace, s, pattern, i, spans)
  }

  lemma NoPlaceBeforeFound(kind: Kind, isSpace: char -> bool, s: string, pattern: string, spans: seq<Span>, start: nat, index: int)
    requires NoPlaceBefore(kind, isSpace, s, pattern, spans, start)
    requires IsNext(s, pattern, start, index) && index >= 0
    ensures NoPlaceBefore(kind, isSpace, s, pattern, spans, index) && index + |pattern| <= |s|
    ensures Qualifies(kind, isSpace, s, pattern, index, spans) <==>
              StandsAlone(kind, isSpace, s, index, index + |pattern|) && !IsAllowed(index, index + |pattern|, spans)
    ensures !Qualifies(kind, isSpace, s, pattern, index, spans) ==> NoPlaceBefore(kind, isSpace, s, pattern, spans, index + 1)
  {
  }

  lemma NoPlaceLeft(kind: Kind, isSpace: char -> bool, s: string, pattern: string, spans: seq<Span>, start: nat)
    requires NoPlaceBefore(kind, isSpace, s, pattern, spans, start)
    requires IsNext(s, pattern, start, -1)
    ensures forall i :: !Qualifies(kind, isSpace, s, pattern, i, spans)
  {
  }

  ghost predicate Fires(kind: Kind, isSpace: char -> bool, s: string, patterns: seq<string>, spans: seq<Span>) {
    exists n, i :: 0 <= n < |patterns| && Qualifies(kind, isSpace, s, patterns[n], i, spans)
  }

  /** The search loop for one pattern: the first qualifying place, or -1. */
  method FirstPlace(kind: Kind, isSpace: char -> bool, transcript: string, pattern: string, spans: seq<Span>) returns (place: int)
    ensures place == -1 ==> forall i :: !Qualifies(kind, isSpace, transcript, pattern, i, spans)
    ensures place != -1 ==> Qualifies(kind, isSpace, transcript, pattern, place, spans)
                            && NoPlaceBefore(kind, isSpace, transcript, pattern, spans, place)
  {
    hide *;
    var start := 0;
    var index := Find(transcript, pattern, start);
    FirstPlaceStarts(kind, isSpace, transcript, pattern, spans);
    while index >= 0
      invariant 0 <= start <= |transcript| + 1 && IsNext(transcript, pattern, start, index)
      invariant NoPlaceBefore(kind, isSpace, transcript, pattern, spans, start)
      decreases |transcript| + 1 - start
    {
      var end := index + |pattern|;
      NextIsInside(transcript, pattern, start, index);
      NoPlaceBeforeFound(kind, isSpace, transcript, pattern, spans, start, index);
      if StandsAlone(kind, isSpace, transcript, index, end) && !IsAllowed(index, end, spans) {
        return index;
      }
      start := index + 1;
      index := Find(transcript, pattern, start);
    }
    NextIsInside(transcript, pattern, start, index);
    NoPlaceLeft(kind, isSpace, transcript, pattern, spans, start);
    return -1;
  }

  lemma FirstPlaceStarts(kind: Kind, isSpace: char -> bool, s: string, pattern: string, spans: seq<Span>)
    ensures NoPlaceBefore(kind, isSpace, s, pattern, spans, 0)
  {
  }

  lemma NextIsInside(s: string, pattern: string, start: nat, index: int)
    requires IsNext(s, pattern, start, index)
    ensures if index < 0 then index == -1 else start <= index && index + |pattern| <= |s|
  {
  }

  /** The first pattern with a qualifying place. */
  ghost predicate IsHit(kind: Kind, isSpace: char -> bool, s: string, patterns: seq<string>, spans: seq<Span>, text: string) {
    exists n :: 0 <= n < |patterns| && text == patterns[n]
                && (exists i :: Qualifies(kind, isSpace, s, patterns[n], i, spans))
                && forall m, i :: 0 <= m < n ==> !Qualifies(kind, isSpace, s, patterns[m], i, spans)
  }

  /** The substring branches of `_match_rule`: the first place of the first pattern that has one. */
  method MatchRule(kind: Kind, isSpace: char -> bool, patterns: seq<string>, transcript: string, spans: seq<Span>)
    returns (hit: Option<string>)
    ensures hit.Some? <==> Fires(kind, isSpace, transcript, patterns, spans)
    ensures hit.Some? ==> IsHit(kind, isSpace, transcript, patterns, spans, hit.value)
  {
    for n := 0 to |patterns|
      invariant forall m, i :: 0 <= m < n ==> !Qualifies(kind, isSpace, transcript, patterns[m], i, spans)
    {
      var place := FirstPlace(kind, isSpace, transcript, patterns[n], spans);
      if place >= 0 {
        return Some(transcript[place..place + |patterns[n]|]);
      }
    }
    return None;
  }

  // ---------------------------------------------------------------- fuzzy

  /** A whole token, at its true position, that counts against some pattern. */
  ghost predicate FuzzyQualifies(base: BaseLetter, s: string, patterns: seq<string>, token: string, i: int, spans: seq<Span>) {
    && Aligned(s, token, i) && ' ' !in token && |token| >= FUZZY_MIN_LENGTH
    && !IsAllowed(i, i + |token|, spans)
    && SomePattern(base, patterns, token)
  }

  ghost predicate FuzzyFires(base: BaseLetter, s: string, patterns: seq<string>, spans: seq<Span>) {
    exists token, i :: FuzzyQualifies(base, s, patterns, token, i, spans)
  }

  /** The run encodings that the rule carries are those of its patterns. */
  ghost predicate Encoded(patterns: seq<string>, patternRuns: seq<seq<Run>>) {
    |patternRuns| == |patterns| && forall n :: 0 <= n < |patterns| ==> patternRuns[n] == RunsOf(patterns[n])
  }

  ghost predicate SomePattern(base: BaseLetter, patterns: seq<string>, token: string) {
    exists n :: 0 <= n < |patterns| && FuzzyMatch(base, patterns[n], token)
  }

  method AnyPatternMatches(base: BaseLetter, patterns: seq<string>, patternRuns: seq<seq<Run>>, token: string, tokenRuns: seq<Run>)
    returns (matches: bool)
    requires Encoded(patterns, patternRuns) && tokenRuns == RunsOf(token)
    ensures matches <==> SomePattern(base, patterns, token)
  {
    for n := 0 to |patterns|
      invariant forall m :: 0 <= m < n ==> !FuzzyMatch(base, patterns[m], token)
    {
      matches := FuzzyTokenMatches(base, patterns[n], patternRuns[n], token, tokenRuns);
      if matches {
        return;
      }
    }
    return false;
  }

  /** None of the first `k` tokens qualifies. */
  ghost predicate NoneYet(base: BaseLetter, s: string, patterns: seq<string>, spans: seq<Span>, k: nat)
    requires k <= |Split(s)|
  {
    forall m :: 0 <= m < k ==> !FuzzyQualifies(base, s, patterns, Split(s)[m], Offset(Split(s), m), spans)
  }

  /** The first qualifying token. */
  ghost predicate IsFuzzyHit(base: BaseLetter, s: string, patterns: seq<string>, spans: seq<Span>, text: string) {
    exists i :: FuzzyQualifies(base, s, patterns, text, i, spans)
                && forall token, j :: j < i ==> !FuzzyQualifies(base, s, patterns, token, j, spans)
  }

  /** `_match_fuzzy`: the first qualifying token. */
  method MatchFuzzy(base: BaseLetter, patterns: seq<string>, patternRuns: seq<seq<Run>>, transcript: string, spans: seq<Span>)
    returns (hit: Option<string>)
    requires Encoded(patterns, patternRuns)
    ensures hit.Some? <==> FuzzyFires(base, transcript, patterns, spans)
    ensures hit.Some? ==> IsFuzzyHit(base, transcript, patterns, spans, hit.value)
  {
    hide *;
    var tokens := Split(transcript);
    var offset := 0;
    NothingSearched(base, transcript, patterns, spans);
    for k := 0 to |tokens|
      invariant offset == Offset(tokens, k) && NoneYet(base, transcript, patterns, spans, k)
    {
      var token, start := tokens[k], offset;
      TokenQualifies(base, transcript, patterns, spans, k);
      OneMoreSearched(base, transcript, patterns, spans, k);
      offset := offset + |token| + 1;
      if |token| < FUZZY_MIN_LENGTH {
        continue;
      }
      if IsAllowed(start, start + |token|, spans) {
        continue;
      }
      var tokenRuns := Runs(token);
      var matches := AnyPatternMatches(base, patterns, patternRuns, token, tokenRuns);
      if matches {
        FirstTokenIsHit(base, transcript, patterns, spans, k);
        return Some(token);
      }
    }
    NothingQualifies(base, transcript, patterns, spans);
    return None;
  }

  lemma NothingSearched(base: BaseLetter, s: string, patterns: seq<string>, spans: seq<Span>)
    ensures Offset(Split(s), 0) == 0 && NoneYet(base, s, patterns, spans, 0)
  {
  }

  lemma OneMoreSearched(base: BaseLetter, s: string, patterns: seq<string>, spans: seq<Span>, k: nat)
    requires k < |Split(s)| && NoneYet(base, s, patterns, spans, k)
    ensures Offset(Split(s), k + 1) == Offset(Split(s), k) + |Split(s)[k]| + 1
    ensures !FuzzyQualifies(base, s, patterns, Split(s)[k], Offset(Split(s), k), spans) ==> NoneYet(base, s, patterns, spans, k + 1)
  {
  }

  /** Whether the `k`-th token qualifies: its offset is its true position. */
  lemma TokenQualifies(base: BaseLetter, s: string, patterns: seq<string>, spans: seq<Span>, k: nat)
    requires k < |Split(s)|
    ensures var token, start := Split(s)[k], Offset(Split(s), k);
      FuzzyQualifies(base, s, patterns, token, start, spans) <==>
        |token| >= FUZZY_MIN_LENGTH && !IsAllowed(start, start + |token|, spans) && SomePattern(base, patterns, token)
  {
    SplitTokens(s);
    TokenIsAligned(s, k);
  }

  /** If none of the first `k` tokens qualifies, nothing qualifies before the offset of the `k`-th. */
  lemma NoEarlierToken(base: BaseLetter, s: string, patterns: seq<string>, spans: seq<Span>, k: nat)
    requires k <= |Split(s)| && NoneYet(base, s, patterns, spans, k)
    ensures forall token, j :: j < Offset(Split(s), k) ==> !FuzzyQualifies(base, s, patterns, token, j, spans)
  {
    forall token, j | j < Offset(Split(s), k)
      ensures !FuzzyQualifies(base, s, patterns, token, j, spans)
    {
      if Aligned(s, token, j) && ' ' !in token {
        var m := AlignedIsToken(s, token, j);
        if m >= k { OffsetGrows(Split(s), k, m); }
      }
    }
  }

  lemma FirstTokenIsHit(base: BaseLetter, s: string, patterns: seq<string>, spans: seq<Span>, k: nat)
    requires k < |Split(s)| && NoneYet(base, s, patterns, spans, k)
    requires FuzzyQualifies(base, s, patterns, Split(s)[k], Offset(Split(s), k), spans)
    ensures IsFuzzyHit(base, s, patterns, spans, Split(s)[k]) && FuzzyFires(base, s, patterns, spans)
  {
    NoEarlierToken(base, s, patterns, spans, k);
  }

  lemma NothingQualifies(base: BaseLetter, s: string, patterns: seq<string>, spans: seq<Span>)
    requires NoneYet(base, s, patterns, spans, |Split(s)|)
    ensures !FuzzyFires(base, s, patterns, spans)
  {
    NoEarlierToken(base, s, patterns, spans, |Split(s)|);
    forall token, i
      ensures !FuzzyQualifies(base, s, patterns, token, i, spans)
    {
      OffsetCoversText(s, token, i);
    }
  }

  lemma {:induction false} OffsetGrows(tokens: seq<string>, m: nat, k: nat)
    requires m <= k <= |tokens|
    ensures Offset(tokens, m) <= Offset(tokens, k)
  {
    if m < k { OffsetGrows(tokens, m, k - 1); }
  }

  lemma OffsetCoversText(s: string, token: string, i: int)
    ensures Aligned(s, token, i) && ' ' !in token ==> i < Offset(Split(s), |Split(s)|)
  {
    if Aligned(s, token, i) && ' ' !in token {
      var k := AlignedIsToken(s, token, i);
      OffsetGrows(Split(s), k + 1, |Split(s)|);
    }
  }

  // ---------------------------------------------------------------- suppression

  /** More allow terms allow more. */
  lemma MoreSpansAllowMore(s: string, allow: seq<string>, more: seq<string>, spans: seq<Span>, moreSpans: seq<Span>, start: int, end: int)
    requires SpansExactly(s, allow, spans) && SpansExactly(s, more, moreSpans)
    requires forall term :: term in allow ==> term in more
    ensures IsAllowed(start, end, spans) ==> IsAllowed(start, end, moreSpans)
  {
    if IsAllowed(start, end, spans) {
      var n :| 0 <= n < |spans| && spans[n].start <= start && end <= spans[n].end;
      var span := spans[n];
      assert span in spans;
      var m :| 0 <= m < |allow| && Aligned(s, allow[m], span.start) && span.end == span.start + |allow[m]|;
      assert allow[m] in allow;
      var k :| 0 <= k < |more| && more[k] == allow[m];
      assert IsAllowSpan(s, more, span);
      var p :| 0 <= p < |moreSpans| && moreSpans[p] == span;
    }
  }

  /** Adding allow terms to a pack never makes an exact, contains or fuzzy rule fire. */
  lemma AllowTermsOnlySuppress(kind: Kind, isSpace: char -> bool, base: BaseLetter, s: string, patterns: seq<string>,
                               allow: seq<string>, more: seq<string>, spans: seq<Span>, moreSpans: seq<Span>)
    requires SpansExactly(s, allow, spans) && SpansExactly(s, more, moreSpans)
    requires forall term :: term in allow ==> term in more
    ensures Fires(kind, isSpace, s, patterns, moreSpans) ==> Fires(kind, isSpace, s, patterns, spans)
    ensures FuzzyFires(base, s, patterns, moreSpans) ==> FuzzyFires(base, s, patterns, spans)
  {
    if Fires(kind, isSpace, s, patterns, moreSpans) {
      var n, i :| 0 <= n < |patterns| && Qualifies(kind, isSpace, s, patterns[n], i, moreSpans);
      MoreSpansAllowMore(s, allow, more, spans, moreSpans, i, i + |patterns[n]|);
      assert Qualifies(kind, isSpace, s, patterns[n], i, spans);
    }
    if FuzzyFires(base, s, patterns, moreSpans) {
      var token, i :| FuzzyQualifies(base, s, patterns, token, i, moreSpans);
      MoreSpansAllowMore(s, allow, more, spans, moreSpans, i, i + |token|);
      assert FuzzyQualifies(base, s, patterns, token, i, spans);
    }
  }

  /** Where white space is the space alone, an exact rule looks for its pattern as whole tokens; a contains
      rule takes any occurrence. */
  lemma ExactWantsWholeTokens(isSpace: char -> bool, s: string, pattern: string, i: int, spans: seq<Span>)
    requires forall k :: 0 <= k < |s| ==> (isSpace(s[k]) <==> s[k] == ' ')
    ensures Qualifies(Exact, isSpace, s, pattern, i, spans) <==> Aligned(s, pattern, i) && !IsAllowed(i, i + |pattern|, spans)
    ensures Qualifies(Contains, isSpace, s, pattern, i, spans) <==>
              0 <= i <= |s| - |pattern| && s[i..i + |pattern|] == pattern && !IsAllowed(i, i + |pattern|, spans)
  {
  }

  /** A stretch of text is suppressed exactly when some allow term stands as whole tokens around all of it. */
  lemma SuppressedExactly(s: string, allow: seq<string>, spans: seq<Span>, start: int, end: int)
    requires SpansExactly(s, allow, spans)
    ensures IsAllowed(start, end, spans) <==>
              exists n, j :: 0 <= n < |allow| && Aligned(s, allow[n], j) && j <= start && end <= j + |allow[n]|
  {
    if IsAllowed(start, end, spans) {
      var n :| 0 <= n < |spans| && spans[n].start <= start && end <= spans[n].end;
      assert spans[n] in spans;
      assert IsAllowSpan(s, allow, spans[n]);
    }
    if n, j :| 0 <= n < |allow| && Aligned(s, allow[n], j) && j <= start && end <= j + |allow[n]| {
      var span := Span(j, j + |allow[n]|);
      assert IsAllowSpan(s, allow, span);
      var m :| 0 <= m < |spans| && spans[m] == span;
    }
  }

  /** An allow term suppresses every occurrence of a pattern inside an aligned occurrence of it. */
  lemma AllowTermSuppresses(kind: Kind, isSpace: char -> bool, s: string, pattern: string, allow: seq<string>, spans: seq<Span>,
                            term: string, at: int, i: int)
    requires SpansExactly(s, allow, spans) && term in allow && Aligned(s, term, at)
    requires at <= i && i + |pattern| <= at + |term|
    ensures !Qualifies(kind, isSpace, s, pattern, i, spans)
  {
    var n :| 0 <= n < |allow| && allow[n] == term;
    assert IsAllowSpan(s, allow, Span(at, at + |term|));
    var m :| 0 <= m < |spans| && spans[m] == Span(at, at + |term|);
  }

  /** A listed word with one of its letters held down fires the fuzzy rule wherever it stands as a
      token of its own outside the allowed spans. */
  lemma HeldWordIsCaught(base: BaseLetter, s: string, patterns: seq<string>, n: nat, k: nat, extra: nat, i: int, spans: seq<Span>)
    requires n < |patterns| && |patterns[n]| >= FUZZY_MIN_LENGTH && ' ' !in patterns[n]
    requires k < |patterns[n]| && extra <= FUZZY_MAX_PADDING
    requires var held := HoldDown(patterns[n], k, extra); Aligned(s, held, i) && !IsAllowed(i, i + |held|, spans)
    ensures FuzzyFires(base, s, patterns, spans)
  {
    var held := HoldDown(patterns[n], k, extra);
    HeldLetterIsAccepted(base, patterns[n], k, extra);
    assert FuzzyQualifies(base, s, patterns, held, i, spans);
  }
}
