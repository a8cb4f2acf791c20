/** The fuzzy comparison of rules.py: run-length encodings compared run by run within a budget. */
module Fuzzy {
  import opened Prelude

  const FUZZY_MIN_LENGTH := 4
  const FUZZY_BUDGET_LENGTH := 6
  const FUZZY_MAX_PADDING := 6
  const VOWELS := {'a', 'e', 'i', 'o', 'u', 'y'}
  const LEET_VOWELS := map['0' := 'o', '1' := 'i', '3' := 'e', '4' := 'a']

  /** The base letter of a character: the first one of its compatibility decomposition. */
  type BaseLetter = char -> char

  // ---------------------------------------------------------------- runs

  datatype Run = Run(letter: char, count: nat)

  function RunsOf(s: string): seq<Run> {
    if s == "" then []
    else
      var rest := RunsOf(s[1..]);
      if rest != [] && rest[0].letter == s[0] then [Run(s[0], rest[0].count + 1)] + rest[1..]
      else [Run(s[0], 1)] + rest
  }

  function Repeat(c: char, n: nat): (s: string)
    ensures |s| == n && forall i :: 0 <= i < n ==> s[i] == c
  {
    if n == 0 then "" else [c] + Repeat(c, n - 1)
  }

  function Expand(runs: seq<Run>): string {
    if runs == [] then "" else Repeat(runs[0].letter, runs[0].count) + Expand(runs[1..])
  }

  /** No run is empty, and no two neighbours carry the same letter. */
  ghost predicate Maximal(runs: seq<Run>) {
    && (forall i :: 0 <= i < |runs| ==> runs[i].count >= 1)
    && (forall i :: 0 <= i < |runs| - 1 ==> runs[i].letter != runs[i + 1].letter)
  }

  /** The encoding expands back to its input, and its runs are maximal. */
  lemma {:induction false} RunsExpandBack(s: string)
    ensures Expand(RunsOf(s)) == s && Maximal(RunsOf(s))
  {
    if s != "" {
      RunsExpandBack(s[1..]);
      var rest := RunsOf(s[1..]);
      if rest != [] && rest[0].letter == s[0] {
        assert RunsOf(s)[1..] == rest[1..];
        assert Repeat(s[0], rest[0].count + 1) == [s[0]] + Repeat(s[0], rest[0].count);
      } else {
        assert RunsOf(s)[1..] == rest;
        assert Repeat(s[0], 1) == [s[0]];
      }
    }
  }

  lemma {:induction false} RunsOfRepeat(c: char, n: nat, rest: string)
    requires n >= 1 && (rest == "" || rest[0] != c)
    ensures RunsOf(Repeat(c, n) + rest) == [Run(c, n)] + RunsOf(rest)
    decreases n
  {
    var s := Repeat(c, n) + rest;
    assert s[1..] == Repeat(c, n - 1) + rest;
    if n == 1 {
      assert s[1..] == rest;
      if rest != "" { assert RunsOf(rest)[0].letter == rest[0]; }
    } else {
      RunsOfRepeat(c, n - 1, rest);
    }
  }

  /** The encoding is the only maximal one: whatever runs expand to the text are its runs. */
  lemma {:induction false} MaximalRunsAreUnique(runs: seq<Run>)
    requires Maximal(runs)
    ensures RunsOf(Expand(runs)) == runs
  {
    if runs != [] {
      var rest := runs[1..];
      MaximalRunsAreUnique(rest);
      if rest != [] {
        assert runs[0].letter != runs[0 + 1].letter;
      }
      RunsOfRepeat(runs[0].letter, runs[0].count, Expand(rest));
    }
  }

  lemma {:induction false} ExpandConcat(a: seq<Run>, b: seq<Run>)
    ensures Expand(a + b) == Expand(a) + Expand(b)
  {
    if a == [] {
      assert a + b == b;
    } else {
      assert (a + b)[1..] == a[1..] + b;
      ExpandConcat(a[1..], b);
    }
  }

  /** `_runs`. */
  method Runs(value: string) returns (runs: seq<Run>)
    ensures runs == RunsOf(value)
  {
    runs := [];
    var previous: Option<char> := None;
    var count := 0;
    for i := 0 to |value|
      invariant previous == None <==> i == 0
      invariant previous == None ==> runs == []
      invariant previous.Some? ==> count >= 1 && Maximal(runs + [Run(previous.value, count)])
                                   && Expand(runs + [Run(previous.value, count)]) == value[..i]
    {
      var character := value[i];
      assert value[..i + 1] == value[..i] + [character];
      if previous == Some(character) {
        ExtendLast(runs, character, count);
        count := count + 1;
      } else {
        if previous.Some? {
          AppendRun(runs + [Run(previous.value, count)], character);
          runs := runs + [Run(previous.value, count)];
        } else {
          AppendRun(runs, character);
        }
        previous, count := Some(character), 1;
      }
    }
    if previous.Some? {
      runs := runs + [Run(previous.value, count)];
    }
    assert value[..|value|] == value;
    MaximalRunsAreUnique(runs);
  }

  lemma ExtendLast(runs: seq<Run>, c: char, count: nat)
    requires count >= 1 && Maximal(runs + [Run(c, count)])
    ensures Maximal(runs + [Run(c, count + 1)])
    ensures Expand(runs + [Run(c, count + 1)]) == Expand(runs + [Run(c, count)]) + [c]
  {
    ExpandConcat(runs, [Run(c, count)]);
    ExpandConcat(runs, [Run(c, count + 1)]);
    var before, after := runs + [Run(c, count)], runs + [Run(c, count + 1)];
    forall i | 0 <= i < |after| - 1 ensures after[i].letter != after[i + 1].letter {
      assert before[i].letter != before[i + 1].letter;
    }
    forall i | 0 <= i < |after| ensures after[i].count >= 1 {
      assert before[i].count >= 1;
    }
    assert Repeat(c, count + 1) == Repeat(c, count) + [c];
  }

  lemma AppendRun(runs: seq<Run>, c: char)
    requires Maximal(runs) && (runs == [] || runs[|runs| - 1].letter != c)
    ensures Maximal(runs + [Run(c, 1)]) && Expand(runs + [Run(c, 1)]) == Expand(runs) + [c]
  {
    ExpandConcat(runs, [Run(c, 1)]);
    assert Repeat(c, 1) == [c];
  }

  // ---------------------------------------------------------------- one token against one pattern

  predicate IsVowel(base: BaseLetter, c: char) { base(c) in VOWELS }

  predicate IsLeetFor(base: BaseLetter, tokenLetter: char, patternLetter: char) {
    tokenLetter in LEET_VOWELS && LEET_VOWELS[tokenLetter] == base(patternLetter)
  }

  /** What a run may have become: any length, and another vowel or the digit drawn like this one. */
  predicate MayBecome(base: BaseLetter, pattern: Run, token: Run) {
    || pattern.letter == token.letter
    || (IsVowel(base, pattern.letter) && IsVowel(base, token.letter))
    || IsLeetFor(base, token.letter, pattern.letter)
  }

  /** How many of the first `n` runs differ. */
  function Changes(pattern: seq<Run>, token: seq<Run>, n: nat): nat
    requires n <= |pattern| && n <= |token|
  {
    if n == 0 then 0 else Changes(pattern, token, n - 1) + if pattern[n - 1] == token[n - 1] then 0 else 1
  }

  function Budget(pattern: string): nat {
    if |pattern| >= FUZZY_BUDGET_LENGTH then 2 else 1
  }

  /** Equal, or, within the length guards, run for run what the pattern may become, with few differences. */
  ghost predicate FuzzyMatch(base: BaseLetter, pattern: string, token: string) {
    || token == pattern
    || (&& |pattern| >= FUZZY_MIN_LENGTH && |token| >= FUZZY_MIN_LENGTH && |token| <= |pattern| + FUZZY_MAX_PADDING
        && var p, t := RunsOf(pattern), RunsOf(token);
           && |p| == |t|
           && (forall i :: 0 <= i < |p| ==> MayBecome(base, p[i], t[i]))
           && Changes(p, t, |p|) <= Budget(pattern))
  }

  lemma {:induction false} ChangesGrow(pattern: seq<Run>, token: seq<Run>, m: nat, n: nat)
    requires m <= n <= |pattern| && n <= |token|
    ensures Changes(pattern, token, m) <= Changes(pattern, token, n)
  {
    if m < n { ChangesGrow(pattern, token, m, n - 1); }
  }

  /** `_fuzzy_token_matches`. */
  method FuzzyTokenMatches(base: BaseLetter, pattern: string, patternRuns: seq<Run>, token: string, tokenRuns: seq<Run>)
    returns (matches: bool)
    requires patternRuns == RunsOf(pattern) && tokenRuns == RunsOf(token)
    ensures matches <==> FuzzyMatch(base, pattern, token)
  {
    hide RunsOf;
    if token == pattern {
      return true;
    }
    if |pattern| < FUZZY_MIN_LENGTH || |token| < FUZZY_MIN_LENGTH {
      return false;
    }
    if |token| > |pattern| + FUZZY_MAX_PADDING {
      return false;
    }
    if |patternRuns| != |tokenRuns| {
      return false;
    }
    var budget := if |pattern| >= FUZZY_BUDGET_LENGTH then 2 else 1;
    var changes := 0;
    for i := 0 to |patternRuns|
      invariant changes == Changes(patternRuns, tokenRuns, i) && changes <= budget
      invariant forall j :: 0 <= j < i ==> MayBecome(base, patternRuns[j], tokenRuns[j])
    {
      var p, t := patternRuns[i], tokenRuns[i];
      if p.letter == t.letter {
        if p.count == t.count {
          continue;
        }
      } else if !(IsVowel(base, p.letter) && IsVowel(base, t.letter)) && !IsLeetFor(base, t.letter, p.letter) {
        return false;
      }
      changes := changes + 1;
      if changes > budget {
        ChangesGrow(patternRuns, tokenRuns, i + 1, |patternRuns|);
        return false;
      }
    }
    return true;
  }

  /** The places at which two run encodings differ. */
  function Differing(pattern: seq<Run>, token: seq<Run>, n: nat): set<nat>
    requires n <= |pattern| && n <= |token|
  {
    set i: nat | i < n && pattern[i] != token[i]
  }

  lemma {:induction false} ChangesAreDiffering(pattern: seq<Run>, token: seq<Run>, n: nat)
    requires n <= |pattern| && n <= |token|
    ensures Changes(pattern, token, n) == |Differing(pattern, token, n)|
  {
    if n == 0 {
      assert Differing(pattern, token, n) == {};
    } else {
      ChangesAreDiffering(pattern, token, n - 1);
      assert Differing(pattern, token, n) ==
             Differing(pattern, token, n - 1) + if pattern[n - 1] == token[n - 1] then {} else {n - 1};
    }
  }

  /** What a fuzzy pattern accepts besides itself, in numbers. Pattern and token have four characters or
      more, the token at most six more than the pattern, and they have as many runs. The runs that differ
      are at most one, or two for a pattern of six characters or more. Each is longer or shorter, or has
      a vowel for a vowel, or has the digit drawn like its letter. */
  lemma FuzzyMatchExactly(base: BaseLetter, pattern: string, token: string)
    requires token != pattern
    ensures FuzzyMatch(base, pattern, token) <==>
              var p, t := RunsOf(pattern), RunsOf(token);
              && |pattern| >= 4 && 4 <= |token| <= |pattern| + 6 && |p| == |t|
              && |Differing(p, t, |p|)| <= (if |pattern| < 6 then 1 else 2)
              && forall i :: i in Differing(p, t, |p|) ==>
                   || p[i].letter == t[i].letter
                   || (base(p[i].letter) in "aeiouy" && base(t[i].letter) in "aeiouy")
                   || (t[i].letter in LEET_VOWELS && LEET_VOWELS[t[i].letter] == base(p[i].letter))
  {
    hide RunsOf;
    var p, t := RunsOf(pattern), RunsOf(token);
    if |p| == |t| { ChangesAreDiffering(p, t, |p|); }
  }

  // ---------------------------------------------------------------- letters held down

  function HoldDown(s: string, k: nat, extra: nat): string
    requires k < |s|
  {
    s[..k + 1] + Repeat(s[k], extra) + s[k + 1..]
  }

  function Lengthen(runs: seq<Run>, j: nat, extra: nat): seq<Run>
    requires j < |runs|
  {
    runs[j := Run(runs[j].letter, runs[j].count + extra)]
  }

  lemma HoldFirstRun(first: Run, rest: string, k: nat, extra: nat)
    requires k < first.count
    ensures HoldDown(Repeat(first.letter, first.count) + rest, k, extra) == Repeat(first.letter, first.count + extra) + rest
  {
  }

  lemma HoldBeyond(head: string, rest: string, k: nat, extra: nat)
    requires |head| <= k < |head| + |rest|
    ensures HoldDown(head + rest, k, extra) == head + HoldDown(rest, k - |head|, extra)
  {
    var s, i := head + rest, k - |head|;
    assert s[..k + 1] == head + rest[..i + 1];
    assert s[k + 1..] == rest[i + 1..];
  }

  lemma LongerIsMaximal(runs: seq<Run>, j: nat, extra: nat)
    requires Maximal(runs) && j < |runs|
    ensures Maximal(Lengthen(runs, j, extra))
  {
    var longer := Lengthen(runs, j, extra);
    forall i | 0 <= i < |longer| - 1 ensures longer[i].letter != longer[i + 1].letter {
      assert runs[i].letter != runs[i + 1].letter;
    }
  }

  /** Holding a character down lengthens exactly one run. */
  lemma {:induction false} HoldDownRuns(runs: seq<Run>, k: nat, extra: nat) returns (j: nat)
    requires Maximal(runs) && k < |Expand(runs)|
    ensures j < |runs| && HoldDown(Expand(runs), k, extra) == Expand(Lengthen(runs, j, extra))
  {
    hide HoldDown;
    var first, rest := runs[0], runs[1..];
    if k < first.count {
      j := 0;
      HoldFirstRun(first, Expand(rest), k, extra);
      assert Lengthen(runs, 0, extra)[1..] == rest;
    } else {
      var j' := HoldDownRuns(rest, k - first.count, extra);
      j := j' + 1;
      assert Lengthen(runs, j, extra) == [first] + Lengthen(rest, j', extra);
      HoldBeyond(Repeat(first.letter, first.count), Expand(rest), k, extra);
    }
  }

  lemma {:induction false} OneChange(pattern: seq<Run>, j: nat, run: Run, n: nat)
    requires j < |pattern| && n <= |pattern|
    ensures Changes(pattern, pattern[j := run], n) <= if j < n then 1 else 0
  {
    if n > 0 { OneChange(pattern, j, run, n - 1); }
  }

  /** For every pattern of four or more characters, holding any one of them down for up to six extra
      repetitions is accepted, whatever the table of base letters. */
  lemma HeldLetterIsAccepted(base: BaseLetter, pattern: string, k: nat, extra: nat)
    requires |pattern| >= FUZZY_MIN_LENGTH && k < |pattern| && extra <= FUZZY_MAX_PADDING
    ensures FuzzyMatch(base, pattern, HoldDown(pattern, k, extra))
  {
    hide RunsOf, Expand, Maximal, Changes;
    var runs := RunsOf(pattern);
    RunsExpandBack(pattern);
    var j := HoldDownRuns(runs, k, extra);
    var longer := Lengthen(runs, j, extra);
    LongerIsMaximal(runs, j, extra);
    MaximalRunsAreUnique(longer);
    OneChange(runs, j, longer[j], |runs|);
  }
}
