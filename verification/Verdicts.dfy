/** `RulePack.match` in rules.py: every rule over the text, again over the text with spellings joined,
    and the two verdicts merged. */
module Verdicts {
  import opened Prelude
  import opened Fuzzy
  import opened Matching
  import opened Regexes
  import Spelling

  datatype MatchType = ExactRule | ContainsRule | FuzzyRule | RegexRule

  datatype Rule = Rule(id: string, category: string, severity: nat, matchType: MatchType,
                       patterns: seq<string>, runs: seq<seq<Run>>, contextRequired: bool)

  /** Character tables: white space, base letters, letters. */
  datatype Tables = Tables(isSpace: char -> bool, base: BaseLetter, alpha: Spelling.IsAlpha)

  /** What the regex engine finds in one text, for each rule. */
  type Finds = seq<seq<Search>>

  datatype RuleMatch = RuleMatch(id: string, category: string, severity: nat, text: string, contextRequired: bool)

  datatype Verdict = Verdict(matches: seq<RuleMatch>, severity: nat, timedOut: seq<string>, skipped: seq<string>)

  const CLEAN := Verdict([], 0, [], [])

  ghost predicate DistinctIds(rules: seq<Rule>) {
    forall i, j :: 0 <= i < j < |rules| ==> rules[i].id != rules[j].id
  }

  ghost predicate Loaded(rules: seq<Rule>) {
    && DistinctIds(rules)
    && forall i :: 0 <= i < |rules| && rules[i].matchType.FuzzyRule? ==> Encoded(rules[i].patterns, rules[i].runs)
  }

  // ---------------------------------------------------------------- one rule

  ghost predicate RuleFires(tables: Tables, rule: Rule, searches: seq<Search>, text: string, spans: seq<Span>) {
    match rule.matchType
    case ExactRule => Fires(Exact, tables.isSpace, text, rule.patterns, spans)
    case ContainsRule => Fires(Contains, tables.isSpace, text, rule.patterns, spans)
    case FuzzyRule => FuzzyFires(tables.base, text, rule.patterns, spans)
    case RegexRule => RegexFires(searches, spans)
  }

  /** The text that a hit reports: of the first thing that made the rule fire. */
  ghost predicate Found(tables: Tables, rule: Rule, searches: seq<Search>, text: string, spans: seq<Span>, found: string)
    requires WithinText(searches, text)
  {
    match rule.matchType
    case ExactRule => IsHit(Exact, tables.isSpace, text, rule.patterns, spans, found)
    case ContainsRule => IsHit(Contains, tables.isSpace, text, rule.patterns, spans, found)
    case FuzzyRule => IsFuzzyHit(tables.base, text, rule.patterns, spans, found)
    case RegexRule => IsRegexHit(searches, text, spans, found)
  }

  /** A hit exactly when the rule fires, with the text found, and a time-out exactly when the engine
      runs out of time before anything is found. */
  ghost predicate Fits(tables: Tables, rule: Rule, searches: seq<Search>, text: string, spans: seq<Span>, outcome: Outcome)
    requires WithinText(searches, text)
  {
    && (outcome.Hit? <==> RuleFires(tables, rule, searches, text, spans))
    && (outcome.Hit? ==> Found(tables, rule, searches, text, spans, outcome.text))
    && (outcome.TimedOut? <==> rule.matchType.RegexRule? && RegexTimesOut(searches, spans))
  }

  /** `_match_rule`. */
  method Evaluate(tables: Tables, rule: Rule, searches: seq<Search>, text: string, spans: seq<Span>) returns (outcome: Outcome)
    requires WithinText(searches, text) && (rule.matchType.FuzzyRule? ==> Encoded(rule.patterns, rule.runs))
    ensures Fits(tables, rule, searches, text, spans, outcome)
  {
    hide IsHit, IsFuzzyHit, IsRegexHit, Fires, FuzzyFires, RegexFires, RegexTimesOut;
    var hit: Option<string>;
    match rule.matchType {
      case RegexRule =>
        outcome := MatchRegex(searches, text, spans);
        return;
      case ExactRule =>
        hit := MatchRule(Exact, tables.isSpace, rule.patterns, text, spans);
      case ContainsRule =>
        hit := MatchRule(Contains, tables.isSpace, rule.patterns, text, spans);
      case FuzzyRule =>
        hit := MatchFuzzy(tables.base, rule.patterns, rule.runs, text, spans);
    }
    return if hit.Some? then Hit(hit.value) else Miss;
  }

  // ---------------------------------------------------------------- one pass over the rule pack

  function MatchOf(rule: Rule, text: string): RuleMatch {
    RuleMatch(rule.id, rule.category, rule.severity, text, rule.contextRequired)
  }

  function MatchesOf(rules: seq<Rule>, outcomes: seq<Outcome>, n: nat): seq<RuleMatch>
    requires n <= |rules| && n <= |outcomes|
  {
    if n == 0 then []
    else MatchesOf(rules, outcomes, n - 1)
         + if outcomes[n - 1].Hit? then [MatchOf(rules[n - 1], outcomes[n - 1].text)] else []
  }

  function TimedOutOf(rules: seq<Rule>, outcomes: seq<Outcome>, n: nat): seq<string>
    requires n <= |rules| && n <= |outcomes|
  {
    if n == 0 then []
    else TimedOutOf(rules, outcomes, n - 1) + if outcomes[n - 1].TimedOut? then [rules[n - 1].id] else []
  }

  function Ids(rules: seq<Rule>): seq<string> {
    if rules == [] then [] else [rules[0].id] + Ids(rules[1..])
  }

  /** The greatest severity among the matches that need no context, 0 if there is none. */
  function Severity(matches: seq<RuleMatch>): nat {
    if matches == [] then 0
    else
      var rest := Severity(matches[..|matches| - 1]);
      var last := matches[|matches| - 1];
      if last.contextRequired || last.severity < rest then rest else last.severity
  }

  /** The verdict of the first `n` rules; the rest are skipped. */
  function VerdictOf(rules: seq<Rule>, outcomes: seq<Outcome>, n: nat): Verdict
    requires n <= |rules| && n <= |outcomes|
  {
    var matches := MatchesOf(rules, outcomes, n);
    Verdict(matches, Severity(matches), TimedOutOf(rules, outcomes, n), Ids(rules[n..]))
  }

  /** The engine was asked about these rules and this text. */
  ghost predicate About(finds: Finds, rules: seq<Rule>, text: string) {
    |finds| == |rules| && forall i :: 0 <= i < |finds| ==> WithinText(finds[i], text)
  }

  ghost predicate FitUnder(tables: Tables, rules: seq<Rule>, finds: Finds, text: string, spans: seq<Span>, outcomes: seq<Outcome>)
    requires About(finds, rules, text)
  {
    && |outcomes| <= |rules|
    && forall i :: 0 <= i < |outcomes| ==> Fits(tables, rules[i], finds[i], text, spans, outcomes[i])
  }

  /** The rules that were reached before the time budget of the whole pack ran out, and how each ended. */
  ghost predicate PassOf(tables: Tables, rules: seq<Rule>, finds: Finds, allow: seq<string>, text: string, budget: nat, outcomes: seq<Outcome>)
    requires About(finds, rules, text)
  {
    && |outcomes| == Min(budget, |rules|)
    && exists spans :: SpansExactly(text, allow, spans) && FitUnder(tables, rules, finds, text, spans, outcomes)
  }

  /** What one pass over the rule pack may answer. */
  ghost predicate IsVerdict(tables: Tables, rules: seq<Rule>, finds: Finds, allow: seq<string>, text: string, budget: nat, verdict: Verdict)
    requires About(finds, rules, text)
  {
    exists outcomes :: PassOf(tables, rules, finds, allow, text, budget, outcomes) && verdict == VerdictOf(rules, outcomes, |outcomes|)
  }

  /** `_match_text`. The time budget of the whole pack runs out before rule number `budget`, if that is a rule. */
  method MatchText(tables: Tables, rules: seq<Rule>, finds: Finds, allow: seq<string>, text: string, budget: nat)
    returns (verdict: Verdict)
    requires Loaded(rules) && About(finds, rules, text)
    ensures IsVerdict(tables, rules, finds, allow, text, budget, verdict)
  {
    hide *;
    var spans := AllowedSpans(text, allow);
    var matches: seq<RuleMatch> := [];
    var timedOut: seq<string> := [];
    var skipped: seq<string> := [];
    var severity := 0;
    ghost var outcomes: seq<Outcome> := [];
    NothingJudged(tables, rules, finds, text, spans);
    var index := 0;
    while index < |rules|
      invariant 0 <= index <= |rules| && |outcomes| == index && index <= budget
      invariant FitUnder(tables, rules, finds, text, spans, outcomes)
      invariant matches == MatchesOf(rules, outcomes, index) && timedOut == TimedOutOf(rules, outcomes, index)
      invariant severity == Severity(matches) && skipped == []
    {
      if index >= budget {
        skipped := Ids(rules[index..]);
        break;
      }
      var rule := rules[index];
      RuleIsReady(rules, finds, text, index);
      var outcome := Evaluate(tables, rule, finds[index], text, spans);
      PrefixVerdict(rules, outcomes, outcome);
      OneMoreFits(tables, rules, finds, text, spans, outcomes, outcome);
      outcomes := outcomes + [outcome];
      index := index + 1;
      match outcome {
        case TimedOut =>
          timedOut := timedOut + [rule.id];
        case Miss =>
        case Hit(found) =>
          SeverityOfOneMore(matches, rule, found);
          matches := matches + [MatchOf(rule, found)];
          if !rule.contextRequired && rule.severity > severity {
            severity := rule.severity;
          }
      }
    }
    assert index == |rules| ==> rules[index..] == [];
    verdict := Verdict(matches, severity, timedOut, skipped);
    PassEnds(tables, rules, finds, allow, text, budget, spans, outcomes, verdict);
  }

  lemma NothingJudged(tables: Tables, rules: seq<Rule>, finds: Finds, text: string, spans: seq<Span>)
    requires About(finds, rules, text)
    ensures |finds| == |rules| && FitUnder(tables, rules, finds, text, spans, [])
    ensures MatchesOf(rules, [], 0) == [] && TimedOutOf(rules, [], 0) == [] && Severity([]) == 0 && Ids([]) == []
  {
  }

  lemma RuleIsReady(rules: seq<Rule>, finds: Finds, text: string, i: nat)
    requires Loaded(rules) && About(finds, rules, text) && i < |rules|
    ensures |finds| == |rules| && WithinText(finds[i], text)
    ensures rules[i].matchType.FuzzyRule? ==> Encoded(rules[i].patterns, rules[i].runs)
  {
  }

  lemma PassEnds(tables: Tables, rules: seq<Rule>, finds: Finds, allow: seq<string>, text: string, budget: nat,
                 spans: seq<Span>, outcomes: seq<Outcome>, verdict: Verdict)
    requires About(finds, rules, text) && SpansExactly(text, allow, spans)
    requires FitUnder(tables, rules, finds, text, spans, outcomes) && |outcomes| <= |rules|
    requires |outcomes| == |rules| <= budget || |outcomes| == budget
    requires verdict.matches == MatchesOf(rules, outcomes, |outcomes|) && verdict.severity == Severity(verdict.matches)
    requires verdict.timedOut == TimedOutOf(rules, outcomes, |outcomes|) && verdict.skipped == Ids(rules[|outcomes|..])
    ensures IsVerdict(tables, rules, finds, allow, text, budget, verdict)
  {
    hide Fits, SpansExactly;
    assert PassOf(tables, rules, finds, allow, text, budget, outcomes);
    assert verdict == VerdictOf(rules, outcomes, |outcomes|);
  }

  lemma OneMoreFits(tables: Tables, rules: seq<Rule>, finds: Finds, text: string, spans: seq<Span>,
                    outcomes: seq<Outcome>, outcome: Outcome)
    requires About(finds, rules, text) && FitUnder(tables, rules, finds, text, spans, outcomes) && |outcomes| < |rules|
    requires Fits(tables, rules[|outcomes|], finds[|outcomes|], text, spans, outcome)
    ensures FitUnder(tables, rules, finds, text, spans, outcomes + [outcome])
  {
  }

  lemma SeverityOfOneMore(matches: seq<RuleMatch>, rule: Rule, text: string)
    ensures Severity(matches + [MatchOf(rule, text)]) ==
            if rule.contextRequired || rule.severity < Severity(matches) then Severity(matches) else rule.severity
  {
    assert (matches + [MatchOf(rule, text)])[..|matches|] == matches;
  }

  lemma PrefixVerdict(rules: seq<Rule>, outcomes: seq<Outcome>, outcome: Outcome)
    requires |outcomes| < |rules|
    ensures MatchesOf(rules, outcomes + [outcome], |outcomes| + 1) == MatchesOf(rules, outcomes, |outcomes|)
              + if outcome.Hit? then [MatchOf(rules[|outcomes|], outcome.text)] else []
    ensures TimedOutOf(rules, outcomes + [outcome], |outcomes| + 1) == TimedOutOf(rules, outcomes, |outcomes|)
              + if outcome.TimedOut? then [rules[|outcomes|].id] else []
  {
    PrefixVerdictUpTo(rules, outcomes, outcome, |outcomes|);
  }

  lemma {:induction false} PrefixVerdictUpTo(rules: seq<Rule>, outcomes: seq<Outcome>, outcome: Outcome, n: nat)
    requires n <= |outcomes| < |rules|
    ensures MatchesOf(rules, outcomes + [outcome], n) == MatchesOf(rules, outcomes, n)
    ensures TimedOutOf(rules, outcomes + [outcome], n) == TimedOutOf(rules, outcomes, n)
  {
    if n > 0 { PrefixVerdictUpTo(rules, outcomes, outcome, n - 1); }
  }

  // ---------------------------------------------------------------- what a verdict says

  /** Some of the first `n` rules, in the order of the pack. */
  ghost predicate InPackOrder(order: seq<nat>, n: nat) {
    && (forall a :: 0 <= a < |order| ==> order[a] < n)
    && (forall a, b :: 0 <= a < b < |order| ==> order[a] < order[b])
  }

  /** The match is of this rule, with the rule's category, severity and flag, and with the text that it found. */
  ghost predicate IsOf(tables: Tables, rule: Rule, searches: seq<Search>, text: string, spans: seq<Span>, m: RuleMatch)
    requires WithinText(searches, text)
  {
    && m.id == rule.id && m.category == rule.category && m.severity == rule.severity && m.contextRequired == rule.contextRequired
    && Found(tables, rule, searches, text, spans, m.text)
  }

  /** The matches are one for each rule that fires among the first `n`: of the rules in `order`. */
  ghost predicate MatchesAre(tables: Tables, rules: seq<Rule>, finds: Finds, text: string, spans: seq<Span>, n: nat,
                             order: seq<nat>, matches: seq<RuleMatch>)
    requires About(finds, rules, text) && n <= |rules|
  {
    && InPackOrder(order, n) && |order| == |matches|
    && (forall a :: 0 <= a < |order| ==> IsOf(tables, rules[order[a]], finds[order[a]], text, spans, matches[a]))
    && (forall i: nat :: i < n ==> (i in order <==> RuleFires(tables, rules[i], finds[i], text, spans)))
  }

  ghost predicate RunsOut(rule: Rule, searches: seq<Search>, spans: seq<Span>) {
    rule.matchType.RegexRule? && RegexTimesOut(searches, spans)
  }

  /** The rules on which the engine ran out of time, likewise. */
  ghost predicate TimedOutAre(rules: seq<Rule>, finds: Finds, spans: seq<Span>, n: nat, order: seq<nat>, ids: seq<string>)
    requires |finds| == |rules| && n <= |rules|
  {
    && InPackOrder(order, n) && |order| == |ids|
    && (forall a :: 0 <= a < |order| ==> ids[a] == rules[order[a]].id)
    && (forall i: nat :: i < n ==> (i in order <==> RunsOut(rules[i], finds[i], spans)))
  }

  /** The verdict of the first `n` rules, the others skipped. */
  ghost predicate Says(tables: Tables, rules: seq<Rule>, finds: Finds, text: string, spans: seq<Span>, n: nat, verdict: Verdict)
    requires About(finds, rules, text) && n <= |rules|
  {
    && (exists order :: MatchesAre(tables, rules, finds, text, spans, n, order, verdict.matches))
    && (exists order :: TimedOutAre(rules, finds, spans, n, order, verdict.timedOut))
    && |verdict.skipped| == |rules| - n && (forall k :: 0 <= k < |rules| - n ==> verdict.skipped[k] == rules[n + k].id)
  }

  lemma OneMoreInPack(order: seq<nat>, n: nat)
    requires InPackOrder(order, n)
    ensures InPackOrder(order, n + 1) && InPackOrder(order + [n], n + 1) && n !in order
    ensures forall i :: i in order + [n] <==> i in order || i == n
  {
  }

  lemma OneMoreMatch(tables: Tables, rules: seq<Rule>, finds: Finds, text: string, spans: seq<Span>, n: nat,
                     order: seq<nat>, matches: seq<RuleMatch>, outcome: Outcome)
    requires About(finds, rules, text) && n < |rules| && MatchesAre(tables, rules, finds, text, spans, n, order, matches)
    requires Fits(tables, rules[n], finds[n], text, spans, outcome)
    ensures if outcome.Hit? then MatchesAre(tables, rules, finds, text, spans, n + 1, order + [n], matches + [MatchOf(rules[n], outcome.text)])
            else MatchesAre(tables, rules, finds, text, spans, n + 1, order, matches)
  {
    OneMoreInPack(order, n);
    assert outcome.Hit? ==> IsOf(tables, rules[n], finds[n], text, spans, MatchOf(rules[n], outcome.text));
    hide RuleFires, Found, RegexTimesOut, InPackOrder, WithinText, IsOf;
  }

  lemma OneMoreTimedOut(tables: Tables, rules: seq<Rule>, finds: Finds, text: string, spans: seq<Span>, n: nat,
                        order: seq<nat>, ids: seq<string>, outcome: Outcome)
    requires About(finds, rules, text) && n < |rules| && TimedOutAre(rules, finds, spans, n, order, ids)
    requires Fits(tables, rules[n], finds[n], text, spans, outcome)
    ensures if outcome.TimedOut? then TimedOutAre(rules, finds, spans, n + 1, order + [n], ids + [rules[n].id])
            else TimedOutAre(rules, finds, spans, n + 1, order, ids)
  {
    OneMoreInPack(order, n);
    assert outcome.TimedOut? <==> RunsOut(rules[n], finds[n], spans);
    hide RuleFires, Found, InPackOrder, WithinText, RunsOut;
  }

  /** The first `n` outcomes, read as a verdict. */
  lemma {:induction false} OutcomesSay(tables: Tables, rules: seq<Rule>, finds: Finds, text: string, spans: seq<Span>,
                                       outcomes: seq<Outcome>, n: nat)
    returns (hits: seq<nat>, late: seq<nat>)
    requires About(finds, rules, text) && FitUnder(tables, rules, finds, text, spans, outcomes) && n <= |outcomes|
    ensures MatchesAre(tables, rules, finds, text, spans, n, hits, MatchesOf(rules, outcomes, n))
    ensures TimedOutAre(rules, finds, spans, n, late, TimedOutOf(rules, outcomes, n))
  {
    hits, late := [], [];
    if n > 0 {
      hits, late := OutcomesSay(tables, rules, finds, text, spans, outcomes, n - 1);
      assert Fits(tables, rules[n - 1], finds[n - 1], text, spans, outcomes[n - 1]);
      hide MatchesAre, TimedOutAre, Fits, WithinText;
      OneMoreMatch(tables, rules, finds, text, spans, n - 1, hits, MatchesOf(rules, outcomes, n - 1), outcomes[n - 1]);
      OneMoreTimedOut(tables, rules, finds, text, spans, n - 1, late, TimedOutOf(rules, outcomes, n - 1), outcomes[n - 1]);
      if outcomes[n - 1].Hit? { hits := hits + [n - 1]; }
      if outcomes[n - 1].TimedOut? { late := late + [n - 1]; }
      assert MatchesOf(rules, outcomes, n - 1) + [] == MatchesOf(rules, outcomes, n - 1);
      assert TimedOutOf(rules, outcomes, n - 1) + [] == TimedOutOf(rules, outcomes, n - 1);
    }
  }

  lemma {:induction false} IdsInOrder(rules: seq<Rule>)
    ensures |Ids(rules)| == |rules| && forall k :: 0 <= k < |rules| ==> Ids(rules)[k] == rules[k].id
  {
    if rules != [] { IdsInOrder(rules[1..]); }
  }

  /** Everything a pass reports: which rules matched, with what and in which order, which ran out of time,
      and which the time budget left out. */
  lemma PassSays(tables: Tables, rules: seq<Rule>, finds: Finds, allow: seq<string>, text: string, budget: nat, verdict: Verdict)
    requires About(finds, rules, text) && IsVerdict(tables, rules, finds, allow, text, budget, verdict)
    ensures exists spans :: SpansExactly(text, allow, spans) && Says(tables, rules, finds, text, spans, Min(budget, |rules|), verdict)
  {
    hide MatchesAre, TimedOutAre, SpansExactly, Fits, Severity;
    var outcomes :| PassOf(tables, rules, finds, allow, text, budget, outcomes) && verdict == VerdictOf(rules, outcomes, |outcomes|);
    var spans :| SpansExactly(text, allow, spans) && FitUnder(tables, rules, finds, text, spans, outcomes);
    var hits, late := OutcomesSay(tables, rules, finds, text, spans, outcomes, |outcomes|);
    IdsInOrder(rules[|outcomes|..]);
    assert Says(tables, rules, finds, text, spans, |outcomes|, verdict);
  }

  // ---------------------------------------------------------------- merging

  function MatchIds(matches: seq<RuleMatch>): set<string> {
    set m | m in matches :: m.id
  }

  /** The matches whose rule is not in `seen`. */
  function Unseen(matches: seq<RuleMatch>, seen: set<string>): seq<RuleMatch> {
    if matches == [] then []
    else (if matches[0].id in seen then [] else [matches[0]]) + Unseen(matches[1..], seen)
  }

  /** `tuple(dict.fromkeys(...))`: the first occurrence of each. */
  function Dedup(ids: seq<string>): seq<string> {
    if ids == [] then []
    else
      var last := ids[|ids| - 1];
      var rest := Dedup(ids[..|ids| - 1]);
      if last in rest then rest else rest + [last]
  }

  function Merge(first: Verdict, second: Verdict): Verdict {
    var matches := first.matches + Unseen(second.matches, MatchIds(first.matches));
    Verdict(matches, Severity(matches), Dedup(first.timedOut + second.timedOut), Dedup(first.skipped + second.skipped))
  }

  /** Each match is its rule's, and no rule is reported twice. */
  ghost predicate Reports(rules: seq<Rule>, matches: seq<RuleMatch>) {
    && (forall a :: 0 <= a < |matches| ==> exists i :: 0 <= i < |rules| && matches[a] == MatchOf(rules[i], matches[a].text))
    && (forall a, b :: 0 <= a < b < |matches| ==> matches[a].id != matches[b].id)
  }

  lemma {:induction false} MatchesReport(rules: seq<Rule>, outcomes: seq<Outcome>, n: nat)
    requires DistinctIds(rules) && n <= |rules| && n <= |outcomes|
    ensures Reports(rules, MatchesOf(rules, outcomes, n))
    ensures forall m :: m in MatchesOf(rules, outcomes, n) ==> exists i :: 0 <= i < n && outcomes[i].Hit? && m == MatchOf(rules[i], outcomes[i].text)
    ensures forall i :: 0 <= i < n && outcomes[i].Hit? ==> MatchOf(rules[i], outcomes[i].text) in MatchesOf(rules, outcomes, n)
  {
    if n > 0 {
      MatchesReport(rules, outcomes, n - 1);
      var before, all := MatchesOf(rules, outcomes, n - 1), MatchesOf(rules, outcomes, n);
      forall a | 0 <= a < |all|
        ensures exists i :: 0 <= i < |rules| && all[a] == MatchOf(rules[i], all[a].text)
      {
        if a == |before| { assert all[a] == MatchOf(rules[n - 1], all[a].text); }
      }
      forall m | m in before ensures m.id != rules[n - 1].id {
        var i :| 0 <= i < n - 1 && outcomes[i].Hit? && m == MatchOf(rules[i], outcomes[i].text);
      }
      forall a, b | 0 <= a < b < |all| ensures all[a].id != all[b].id {
        assert all[a] == before[a] && before[a] in before;
      }
      if outcomes[n - 1].Hit? { assert all[|before|] == MatchOf(rules[n - 1], outcomes[n - 1].text); }
    }
  }

  lemma {:induction false} UnseenExact(matches: seq<RuleMatch>, seen: set<string>)
    ensures forall m :: m in Unseen(matches, seen) <==> m in matches && m.id !in seen
  {
    if matches != [] {
      assert matches == [matches[0]] + matches[1..];
      UnseenExact(matches[1..], seen);
    }
  }

  lemma {:induction false} UnseenDistinct(matches: seq<RuleMatch>, seen: set<string>)
    requires forall a, b :: 0 <= a < b < |matches| ==> matches[a].id != matches[b].id
    ensures forall a, b :: 0 <= a < b < |Unseen(matches, seen)| ==> Unseen(matches, seen)[a].id != Unseen(matches, seen)[b].id
  {
    if matches != [] {
      var rest := matches[1..];
      UnseenDistinct(rest, seen);
      UnseenExact(rest, seen);
      var kept := Unseen(rest, seen);
      forall b | 0 <= b < |kept| ensures kept[b].id != matches[0].id {
        assert kept[b] in rest;
        var c :| 0 <= c < |rest| && rest[c] == kept[b];
        assert matches[c + 1] == kept[b];
      }
    }
  }

  /** The severity is the greatest of the actionable matches: none exceeds it, and it is reached. */
  lemma {:induction false} SeverityExact(matches: seq<RuleMatch>)
    ensures forall m :: m in matches && !m.contextRequired ==> m.severity <= Severity(matches)
    ensures Severity(matches) == 0 || exists m :: m in matches && !m.contextRequired && m.severity == Severity(matches)
  {
    if matches != [] {
      var front, last := matches[..|matches| - 1], matches[|matches| - 1];
      assert matches == front + [last];
      SeverityExact(front);
      assert last in matches;
    }
  }

  lemma {:induction false} DedupExact(ids: seq<string>)
    ensures forall id :: id in Dedup(ids) <==> id in ids
    ensures forall a, b :: 0 <= a < b < |Dedup(ids)| ==> Dedup(ids)[a] != Dedup(ids)[b]
  {
    if ids != [] {
      assert ids == ids[..|ids| - 1] + [ids[|ids| - 1]];
      DedupExact(ids[..|ids| - 1]);
    }
  }

  /** `ids` lists what is in either list, once. */
  ghost predicate OnceEach(ids: seq<string>, first: seq<string>, second: seq<string>) {
    && (forall id :: id in ids <==> id in first || id in second)
    && forall a, b :: 0 <= a < b < |ids| ==> ids[a] != ids[b]
  }

  /** Two matches of one pack for the same rule agree on everything but the text. */
  lemma SameRule(rules: seq<Rule>, first: seq<RuleMatch>, second: seq<RuleMatch>, a: RuleMatch, b: RuleMatch)
    requires DistinctIds(rules) && Reports(rules, first) && Reports(rules, second)
    requires a in first && b in second && a.id == b.id
    ensures a.severity == b.severity && a.contextRequired == b.contextRequired
  {
    var x :| 0 <= x < |first| && first[x] == a;
    var y :| 0 <= y < |second| && second[y] == b;
    var i :| 0 <= i < |rules| && first[x] == MatchOf(rules[i], first[x].text);
    var j :| 0 <= j < |rules| && second[y] == MatchOf(rules[j], second[y].text);
    assert i == j;
  }

  /** Merging two verdicts of one pack reports every rule that either reports, each once, from the
      first verdict that has it, and its severity is the larger of the two. */
  lemma MergeReportsEachRuleOnce(rules: seq<Rule>, first: Verdict, second: Verdict)
    requires DistinctIds(rules) && Reports(rules, first.matches) && Reports(rules, second.matches)
    requires first.severity == Severity(first.matches) && second.severity == Severity(second.matches)
    ensures var merged := Merge(first, second);
      && Reports(rules, merged.matches)
      && (forall m :: m in merged.matches <==> m in first.matches || (m in second.matches && m.id !in MatchIds(first.matches)))
      && MatchIds(merged.matches) == MatchIds(first.matches) + MatchIds(second.matches)
      && first.matches <= merged.matches
      && merged.severity == Max(first.severity, second.severity)
      && OnceEach(merged.timedOut, first.timedOut, second.timedOut) && OnceEach(merged.skipped, first.skipped, second.skipped)
  {
    hide Severity, Reports, DistinctIds, Dedup;
    var merged := Merge(first, second);
    MergedMatches(rules, first, second);
    MergedSeverity(rules, first, second);
    DedupExact(first.timedOut + second.timedOut);
    DedupExact(first.skipped + second.skipped);
    forall id
      ensures id in MatchIds(merged.matches) <==> id in MatchIds(first.matches) + MatchIds(second.matches)
    {
      if id in MatchIds(second.matches) && id !in MatchIds(first.matches) {
        var m :| m in second.matches && m.id == id;
        assert m in merged.matches;
      }
      if id in MatchIds(first.matches) {
        var m :| m in first.matches && m.id == id;
        assert m in merged.matches;
      }
    }
  }

  lemma MergedMatches(rules: seq<Rule>, first: Verdict, second: Verdict)
    requires DistinctIds(rules) && Reports(rules, first.matches) && Reports(rules, second.matches)
    ensures var merged := Merge(first, second);
      && Reports(rules, merged.matches)
      && (forall m :: m in merged.matches <==> m in first.matches || (m in second.matches && m.id !in MatchIds(first.matches)))
  {
    var seen := MatchIds(first.matches);
    var unseen := Unseen(second.matches, seen);
    UnseenExact(second.matches, seen);
    UnseenDistinct(second.matches, seen);
    var all := first.matches + unseen;
    forall m ensures m in all <==> m in first.matches || m in unseen {
    }
    forall a | 0 <= a < |all|
      ensures exists i :: 0 <= i < |rules| && all[a] == MatchOf(rules[i], all[a].text)
    {
      if a >= |first.matches| {
        assert all[a] == unseen[a - |first.matches|] && unseen[a - |first.matches|] in unseen;
        var b :| 0 <= b < |second.matches| && second.matches[b] == all[a];
      }
    }
    forall a, b | 0 <= a < b < |all| ensures all[a].id != all[b].id {
      if a < |first.matches| <= b {
        assert first.matches[a] in first.matches && first.matches[a].id in seen;
        assert all[b] == unseen[b - |first.matches|] && unseen[b - |first.matches|] in unseen;
      }
    }
  }

  /** The actionable matches of `some` are each outdone by one of `all`. */
  lemma SeverityGrows(some: seq<RuleMatch>, all: seq<RuleMatch>)
    requires forall m :: m in some && !m.contextRequired ==> exists n :: n in all && !n.contextRequired && n.severity >= m.severity
    ensures Severity(some) <= Severity(all)
  {
    SeverityExact(some);
    SeverityExact(all);
  }

  lemma MergedSeverity(rules: seq<Rule>, first: Verdict, second: Verdict)
    requires DistinctIds(rules) && Reports(rules, first.matches) && Reports(rules, second.matches)
    ensures Merge(first, second).severity == Max(Severity(first.matches), Severity(second.matches))
  {
    hide Severity, Reports, DistinctIds;
    var all := Merge(first, second).matches;
    MergedMatches(rules, first, second);
    forall m | m in second.matches && !m.contextRequired
      ensures exists n :: n in all && !n.contextRequired && n.severity >= m.severity
    {
      if m.id in MatchIds(first.matches) {
        var n :| n in first.matches && n.id == m.id;
        SameRule(rules, first.matches, second.matches, n, m);
        assert n in all;
      } else {
        assert m in all;
      }
    }
    SeverityGrows(second.matches, all);
    SeverityGrows(first.matches, all);
    SeverityIsFromEither(all, first.matches, second.matches);
  }

  lemma SeverityIsFromEither(all: seq<RuleMatch>, first: seq<RuleMatch>, second: seq<RuleMatch>)
    requires forall m :: m in all ==> m in first || m in second
    ensures Severity(all) <= Max(Severity(first), Severity(second))
  {
    SeverityExact(all);
    SeverityExact(first);
    SeverityExact(second);
  }

  // ---------------------------------------------------------------- the whole of `match`

  ghost predicate FiresOn(tables: Tables, rule: Rule, searches: seq<Search>, allow: seq<string>, text: string) {
    exists spans :: SpansExactly(text, allow, spans) && RuleFires(tables, rule, searches, text, spans)
  }

  /** The order in which the spans are listed does not matter. */
  lemma SameSpansSameVerdict(tables: Tables, rule: Rule, searches: seq<Search>, allow: seq<string>, text: string,
                             spans: seq<Span>, other: seq<Span>)
    requires SpansExactly(text, allow, spans) && SpansExactly(text, allow, other)
    ensures RuleFires(tables, rule, searches, text, other) ==> RuleFires(tables, rule, searches, text, spans)
  {
    hide Fires, FuzzyFires, RegexFires, SpansExactly;
    var kind := if rule.matchType.ExactRule? then Exact else Contains;
    AllowTermsOnlySuppress(kind, tables.isSpace, tables.base, text, rule.patterns, allow, allow, spans, other);
    AllowTermsOnlySuppressRegex(searches, text, allow, allow, spans, other);
  }

  /** In a pass that skips nothing a rule is reported if and only if it fires. */
  lemma PassReportsWhatFires(tables: Tables, rules: seq<Rule>, finds: Finds, allow: seq<string>, text: string, outcomes: seq<Outcome>, i: nat)
    requires DistinctIds(rules) && About(finds, rules, text) && |outcomes| == |rules|
    requires PassOf(tables, rules, finds, allow, text, |rules|, outcomes) && i < |rules|
    ensures rules[i].id in MatchIds(VerdictOf(rules, outcomes, |outcomes|).matches) <==> FiresOn(tables, rules[i], finds[i], allow, text)
  {
    hide RuleFires, Found, SpansExactly, WithinText, Reports, Severity;
    var spans :| SpansExactly(text, allow, spans) && FitUnder(tables, rules, finds, text, spans, outcomes);
    var matches := MatchesOf(rules, outcomes, |outcomes|);
    MatchesReport(rules, outcomes, |outcomes|);
    assert Fits(tables, rules[i], finds[i], text, spans, outcomes[i]);
    if outcomes[i].Hit? {
      assert MatchOf(rules[i], outcomes[i].text) in matches;
      assert FiresOn(tables, rules[i], finds[i], allow, text);
    } else {
      forall m | m in matches ensures m.id != rules[i].id {
        var j :| 0 <= j < |outcomes| && outcomes[j].Hit? && m == MatchOf(rules[j], outcomes[j].text);
      }
      forall other | SpansExactly(text, allow, other)
        ensures !RuleFires(tables, rules[i], finds[i], text, other)
      {
        SameSpansSameVerdict(tables, rules[i], finds[i], allow, text, spans, other);
      }
    }
  }

  /** The verdict names exactly the rules that fire. */
  ghost predicate NamesWhatFires(tables: Tables, rules: seq<Rule>, finds: Finds, allow: seq<string>, text: string, verdict: Verdict)
    requires |finds| == |rules|
  {
    forall i :: 0 <= i < |rules| ==>
      (rules[i].id in MatchIds(verdict.matches) <==> FiresOn(tables, rules[i], finds[i], allow, text))
  }

  /** A pass reports each rule once, with the right severity, and, if it skips nothing, exactly the
      rules that fire. */
  lemma PassReports(tables: Tables, rules: seq<Rule>, finds: Finds, allow: seq<string>, text: string, budget: nat, verdict: Verdict)
    requires DistinctIds(rules) && About(finds, rules, text) && IsVerdict(tables, rules, finds, allow, text, budget, verdict)
    ensures Reports(rules, verdict.matches) && verdict.severity == Severity(verdict.matches)
    ensures budget >= |rules| ==> verdict.skipped == [] && NamesWhatFires(tables, rules, finds, allow, text, verdict)
  {
    hide FiresOn, Reports, Severity;
    var outcomes :| PassOf(tables, rules, finds, allow, text, budget, outcomes) && verdict == VerdictOf(rules, outcomes, |outcomes|);
    MatchesReport(rules, outcomes, |outcomes|);
    if budget >= |rules| {
      forall i | 0 <= i < |rules|
        ensures rules[i].id in MatchIds(verdict.matches) <==> FiresOn(tables, rules[i], finds[i], allow, text)
      {
        PassReportsWhatFires(tables, rules, finds, allow, text, outcomes, i);
      }
    }
  }

  /** The two passes over a text in which something is spelled out, merged. */
  ghost predicate IsMerged(tables: Tables, rules: seq<Rule>, finds: Finds, findsDespelled: Finds, allow: seq<string>,
                           text: string, despelled: string, budget: nat, budgetDespelled: nat, verdict: Verdict)
    requires About(finds, rules, text) && About(findsDespelled, rules, despelled)
  {
    exists first, second ::
      && IsVerdict(tables, rules, finds, allow, text, budget, first)
      && IsVerdict(tables, rules, findsDespelled, allow, despelled, budgetDespelled, second)
      && verdict == Merge(first, second)
  }

  /** The rule pack reports exactly what fires: a rule is in the verdict if and only if it fires on the
      text, or on the text with its spellings joined where that differs. */
  ghost predicate ReportsWhatFires(tables: Tables, rules: seq<Rule>, finds: Finds, findsDespelled: Finds, allow: seq<string>,
                                   text: string, verdict: Verdict)
    requires |finds| == |rules| == |findsDespelled|
  {
    var despelled := Spelling.Despell(tables.alpha, text);
    forall i :: 0 <= i < |rules| ==>
      (rules[i].id in MatchIds(verdict.matches) <==>
        || FiresOn(tables, rules[i], finds[i], allow, text)
        || (despelled != text && FiresOn(tables, rules[i], findsDespelled[i], allow, despelled)))
  }

  lemma CleanReports(rules: seq<Rule>)
    ensures Reports(rules, CLEAN.matches) && CLEAN.severity == Severity(CLEAN.matches)
  {
  }

  /** `match` on normalised text, with what the engine finds in the text and in its joined form. */
  method Match(tables: Tables, rules: seq<Rule>, finds: Finds, findsDespelled: Finds, allow: seq<string>, text: string,
               budget: nat, budgetDespelled: nat)
    returns (verdict: Verdict)
    requires Loaded(rules) && About(finds, rules, text) && About(findsDespelled, rules, Spelling.Despell(tables.alpha, text))
    ensures text == "" ==> verdict == CLEAN
    ensures text != "" ==>
              var despelled := Spelling.Despell(tables.alpha, text);
              if despelled == text then IsVerdict(tables, rules, finds, allow, text, budget, verdict)
              else IsMerged(tables, rules, finds, findsDespelled, allow, text, despelled, budget, budgetDespelled, verdict)
    ensures Reports(rules, verdict.matches) && verdict.severity == Severity(verdict.matches)
    ensures text != "" && budget >= |rules| && budgetDespelled >= |rules| ==>
              ReportsWhatFires(tables, rules, finds, findsDespelled, allow, text, verdict) && verdict.skipped == []
  {
    hide IsVerdict, FiresOn, Reports, Severity, Spelling.Despell, WithinText, Dedup, Unseen, MatchIds;
    CleanReports(rules);
    if text == "" {
      return CLEAN;
    }
    verdict := MatchText(tables, rules, finds, allow, text, budget);
    PassReports(tables, rules, finds, allow, text, budget, verdict);
    var despelled := Spelling.JoinSpelledOut(tables.alpha, text);
    if despelled == text {
      return verdict;
    }
    var first := verdict;
    var second := MatchText(tables, rules, findsDespelled, allow, despelled, budgetDespelled);
    PassReports(tables, rules, findsDespelled, allow, despelled, budgetDespelled, second);
    MergeReportsEachRuleOnce(rules, first, second);
    verdict := Merge(first, second);
    assert verdict.skipped != [] ==> verdict.skipped[0] in verdict.skipped;
    assert IsMerged(tables, rules, finds, findsDespelled, allow, text, despelled, budget, budgetDespelled, verdict);
  }
}
