/** The regex branch of `_match_rule` in rules.py. What the engine finds is given: for each compiled
    pattern the matches in the order in which it yields them, and whether it then times out. */
module Regexes {
  import opened Matching

  /** How evaluating one rule on one text ended. */
  datatype Outcome = Hit(text: string) | Miss | TimedOut

  datatype Search = Search(places: seq<Span>, timesOut: bool)

  /** The engine reports places inside the text. */
  ghost predicate WithinText(searches: seq<Search>, s: string) {
    forall n, i :: 0 <= n < |searches| && 0 <= i < |searches[n].places| ==>
      0 <= searches[n].places[i].start <= searches[n].places[i].end <= |s|
  }

  predicate Suppressed(place: Span, spans: seq<Span>) { IsAllowed(place.start, place.end, spans) }

  /** The first `i` places of a pattern are all inside allowed spans. */
  ghost predicate SuppressedUpTo(search: Search, spans: seq<Span>, i: nat) {
    i <= |search.places| && forall j :: 0 <= j < i ==> Suppressed(search.places[j], spans)
  }

  /** The first `n` patterns were searched to the end for nothing. */
  ghost predicate PassedOver(searches: seq<Search>, spans: seq<Span>, n: nat) {
    && n <= |searches|
    && forall m :: 0 <= m < n ==> SuppressedUpTo(searches[m], spans, |searches[m].places|) && !searches[m].timesOut
  }

  /** The place that the rule reports. */
  ghost predicate FirstUnsuppressed(searches: seq<Search>, spans: seq<Span>, n: nat, i: nat) {
    && PassedOver(searches, spans, n) && n < |searches|
    && SuppressedUpTo(searches[n], spans, i) && i < |searches[n].places| && !Suppressed(searches[n].places[i], spans)
  }

  ghost predicate RegexFires(searches: seq<Search>, spans: seq<Span>) {
    exists n: nat, i: nat :: FirstUnsuppressed(searches, spans, n, i)
  }

  ghost predicate IsRegexHit(searches: seq<Search>, s: string, spans: seq<Span>, text: string)
    requires WithinText(searches, s)
  {
    exists n: nat, i: nat :: FirstUnsuppressed(searches, spans, n, i)
                   && text == s[searches[n].places[i].start..searches[n].places[i].end]
  }

  ghost predicate TimesOutAt(searches: seq<Search>, spans: seq<Span>, n: nat) {
    && PassedOver(searches, spans, n) && n < |searches|
    && SuppressedUpTo(searches[n], spans, |searches[n].places|) && searches[n].timesOut
  }

  ghost predicate RegexTimesOut(searches: seq<Search>, spans: seq<Span>) {
    exists n: nat :: TimesOutAt(searches, spans, n)
  }

  lemma FiringDecides(searches: seq<Search>, spans: seq<Span>)
    ensures RegexFires(searches, spans) ==> !RegexTimesOut(searches, spans) && !PassedOver(searches, spans, |searches|)
    ensures RegexTimesOut(searches, spans) ==> !PassedOver(searches, spans, |searches|)
  {
    forall n: nat, i: nat, m: nat | FirstUnsuppressed(searches, spans, n, i)
      ensures !TimesOutAt(searches, spans, m) && !PassedOver(searches, spans, |searches|)
    {
    }
  }

  /** The two loops over the compiled patterns: without allowed spans the first match of each is asked
      for, with them every match until one lies outside. */
  method MatchRegex(searches: seq<Search>, transcript: string, spans: seq<Span>) returns (outcome: Outcome)
    requires WithinText(searches, transcript)
    ensures outcome.Hit? <==> RegexFires(searches, spans)
    ensures outcome.Hit? ==> IsRegexHit(searches, transcript, spans, outcome.text)
    ensures outcome.TimedOut? <==> RegexTimesOut(searches, spans)
  {
    FiringDecides(searches, spans);
    for n := 0 to |searches|
      invariant PassedOver(searches, spans, n)
    {
      var search := searches[n];
      if spans == [] {
        if search.places != [] {
          var place := search.places[0];
          assert FirstUnsuppressed(searches, spans, n, 0);
          return Hit(transcript[place.start..place.end]);
        }
      } else {
        for i := 0 to |search.places|
          invariant SuppressedUpTo(search, spans, i)
        {
          var place := search.places[i];
          if !IsAllowed(place.start, place.end, spans) {
            assert FirstUnsuppressed(searches, spans, n, i);
            return Hit(transcript[place.start..place.end]);
          }
        }
      }
      if search.timesOut {
        assert TimesOutAt(searches, spans, n);
        return TimedOut;
      }
    }
    return Miss;
  }

  // ---------------------------------------------------------------- suppression

  lemma {:induction false} LeastUnsuppressed(search: Search, spans: seq<Span>, from: nat, i: nat) returns (least: nat)
    requires SuppressedUpTo(search, spans, from) && from <= i < |search.places| && !Suppressed(search.places[i], spans)
    ensures least <= i && SuppressedUpTo(search, spans, least) && !Suppressed(search.places[least], spans)
    decreases i - from
  {
    if Suppressed(search.places[from], spans) {
      least := LeastUnsuppressed(search, spans, from + 1, i);
    } else {
      least := from;
    }
  }

  /** A place outside the spans, with no time-out before it, makes the rule fire there or earlier. */
  lemma {:induction false} FiresByThen(searches: seq<Search>, spans: seq<Span>, k: nat, n: nat, i: nat)
    requires PassedOver(searches, spans, k) && k <= n < |searches| && forall m :: k <= m < n ==> !searches[m].timesOut
    requires i < |searches[n].places| && !Suppressed(searches[n].places[i], spans)
    ensures RegexFires(searches, spans)
    decreases n - k
  {
    if j: nat :| j < |searches[k].places| && !Suppressed(searches[k].places[j], spans) {
      var least := LeastUnsuppressed(searches[k], spans, 0, j);
      assert FirstUnsuppressed(searches, spans, k, least);
    } else {
      FiresByThen(searches, spans, k + 1, n, i);
    }
  }

  /** Adding allow terms never makes a regex rule fire. */
  lemma AllowTermsOnlySuppressRegex(searches: seq<Search>, s: string, allow: seq<string>, more: seq<string>,
                                    spans: seq<Span>, moreSpans: seq<Span>)
    requires SpansExactly(s, allow, spans) && SpansExactly(s, more, moreSpans)
    requires forall term :: term in allow ==> term in more
    ensures RegexFires(searches, moreSpans) ==> RegexFires(searches, spans)
  {
    if RegexFires(searches, moreSpans) {
      var n: nat, i: nat :| FirstUnsuppressed(searches, moreSpans, n, i);
      var place := searches[n].places[i];
      MoreSpansAllowMore(s, allow, more, spans, moreSpans, place.start, place.end);
      FiresByThen(searches, spans, 0, n, i);
    }
  }
}
