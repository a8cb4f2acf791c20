/** `_join_spelled_out` in rules.py: runs of three or more single letters become one token. */
module Spelling {
  import opened Text

  const SPELLED_OUT_MIN_LETTERS := 3

  /** `str.isalpha` of one character. */
  type IsAlpha = char -> bool

  predicate IsLetter(alpha: IsAlpha, token: string) { |token| == 1 && alpha(token[0]) }

  /** `"".join`. */
  function Concat(run: seq<string>): string {
    if run == [] then "" else run[0] + Concat(run[1..])
  }

  function Flush(run: seq<string>): seq<string> {
    if |run| >= SPELLED_OUT_MIN_LETTERS then [Concat(run)] else run
  }

  /** The tokens joined, with `run` the letters seen since the last other token. */
  function Joined(alpha: IsAlpha, tokens: seq<string>, run: seq<string>): seq<string>
    decreases |tokens|
  {
    if tokens == [] then Flush(run)
    else if IsLetter(alpha, tokens[0]) then Joined(alpha, tokens[1..], run + [tokens[0]])
    else Flush(run) + [tokens[0]] + Joined(alpha, tokens[1..], [])
  }

  function Despell(alpha: IsAlpha, s: string): string {
    var joined := Joined(alpha, Split(s), []);
    JoinedIsNotEmpty(alpha, Split(s), []);
    Join(joined)
  }

  lemma {:induction false} JoinedIsNotEmpty(alpha: IsAlpha, tokens: seq<string>, run: seq<string>)
    requires tokens != [] || run != []
    ensures Joined(alpha, tokens, run) != []
    decreases |tokens|
  {
    if tokens != [] && IsLetter(alpha, tokens[0]) {
      JoinedIsNotEmpty(alpha, tokens[1..], run + [tokens[0]]);
    }
  }

  /** `_join_spelled_out`, the loop. */
  method JoinSpelledOut(alpha: IsAlpha, transcript: string) returns (text: string)
    ensures text == Despell(alpha, transcript)
  {
    hide Concat, Join, Split;
    var tokens := Split(transcript);
    var joined: seq<string> := [];
    var run: seq<string> := [];
    assert tokens[0..] == tokens;
    for k := 0 to |tokens|
      invariant joined + Joined(alpha, tokens[k..], run) == Joined(alpha, tokens, [])
    {
      var token := tokens[k];
      assert tokens[k..][1..] == tokens[k + 1..];
      if |token| == 1 && alpha(token[0]) {
        run := run + [token];
        continue;
      }
      if |run| >= SPELLED_OUT_MIN_LETTERS {
        joined := joined + [Concat(run)];
      } else {
        joined := joined + run;
      }
      run := [];
      joined := joined + [token];
    }
    if |run| >= SPELLED_OUT_MIN_LETTERS {
      joined := joined + [Concat(run)];
    } else {
      joined := joined + run;
    }
    JoinedIsNotEmpty(alpha, tokens, []);
    text := Join(joined);
  }

  // ---------------------------------------------------------------- the characters are kept

  function WithoutSpaces(s: string): string {
    if s == "" then "" else (if s[0] == ' ' then "" else [s[0]]) + WithoutSpaces(s[1..])
  }

  lemma {:induction false} ConcatAppend(a: seq<string>, b: seq<string>)
    ensures Concat(a + b) == Concat(a) + Concat(b)
  {
    if a == [] {
      assert a + b == b;
    } else {
      assert (a + b)[1..] == a[1..] + b;
      ConcatAppend(a[1..], b);
    }
  }

  lemma FlushKeepsCharacters(run: seq<string>)
    ensures Concat(Flush(run)) == Concat(run)
  {
    if |run| >= SPELLED_OUT_MIN_LETTERS {
      assert Concat([Concat(run)]) == Concat(run) + "";
    }
  }

  lemma ConcatSplit(before: seq<string>, token: string, after: seq<string>)
    ensures Concat(before + [token] + after) == Concat(before) + (token + Concat(after))
  {
    assert before + [token] + after == before + ([token] + after);
    ConcatAppend(before, [token] + after);
  }

  lemma {:induction false} JoinedKeepsCharacters(alpha: IsAlpha, tokens: seq<string>, run: seq<string>)
    ensures Concat(Joined(alpha, tokens, run)) == Concat(run + tokens)
    decreases |tokens|
  {
    if tokens == [] {
      FlushKeepsCharacters(run);
      assert run + tokens == run;
    } else {
      var token, rest := tokens[0], tokens[1..];
      assert run + tokens == run + [token] + rest;
      if IsLetter(alpha, token) {
        JoinedKeepsCharacters(alpha, rest, run + [token]);
      } else {
        JoinedKeepsCharacters(alpha, rest, []);
        assert [] + rest == rest;
        FlushKeepsCharacters(run);
        ConcatSplit(run, token, rest);
        ConcatSplit(Flush(run), token, Joined(alpha, rest, []));
      }
    }
  }

  lemma {:induction false} WithoutSpacesAppend(a: string, b: string)
    ensures WithoutSpaces(a + b) == WithoutSpaces(a) + WithoutSpaces(b)
  {
    if a == "" {
      assert a + b == b;
    } else {
      assert (a + b)[1..] == a[1..] + b;
      WithoutSpacesAppend(a[1..], b);
    }
  }

  lemma {:induction false} WithoutSpacesOfToken(token: string)
    requires ' ' !in token
    ensures WithoutSpaces(token) == token
  {
    if token != "" { WithoutSpacesOfToken(token[1..]); }
  }

  lemma WithoutSpacesAfterSpace(token: string, rest: string)
    ensures WithoutSpaces(token + " " + rest) == WithoutSpaces(token) + WithoutSpaces(rest)
  {
    var tail := " " + rest;
    assert token + " " + rest == token + tail;
    WithoutSpacesAppend(token, tail);
    assert tail[0] == ' ' && tail[1..] == rest;
  }

  lemma {:induction false} WithoutSpacesOfJoin(tokens: seq<string>)
    requires tokens != [] && NoSpaces(tokens)
    ensures WithoutSpaces(Join(tokens)) == Concat(tokens)
  {
    var token, rest := tokens[0], tokens[1..];
    WithoutSpacesOfToken(token);
    if |tokens| > 1 {
      WithoutSpacesOfJoin(rest);
      WithoutSpacesAfterSpace(token, Join(rest));
    } else {
      assert token + "" == token;
    }
  }

  // ---------------------------------------------------------------- no run of letters is left

  ghost predicate AllLetters(alpha: IsAlpha, run: seq<string>) {
    forall k :: 0 <= k < |run| ==> IsLetter(alpha, run[k])
  }

  /** No three neighbouring tokens are single letters. */
  ghost predicate NoSpelling(alpha: IsAlpha, tokens: seq<string>) {
    forall k :: 0 <= k && k + 2 < |tokens| ==>
      !(IsLetter(alpha, tokens[k]) && IsLetter(alpha, tokens[k + 1]) && IsLetter(alpha, tokens[k + 2]))
  }

  lemma {:induction false} ConcatLetters(alpha: IsAlpha, run: seq<string>)
    requires AllLetters(alpha, run) && NoSpaces(run)
    ensures |Concat(run)| == |run| && ' ' !in Concat(run)
  {
    if run != [] {
      assert IsLetter(alpha, run[0]);
      ConcatLetters(alpha, run[1..]);
    }
  }

  /** What a flush leaves: no spelling, and nothing that could start one with the token after it. */
  lemma FlushEndsSpelling(alpha: IsAlpha, run: seq<string>)
    requires AllLetters(alpha, run) && NoSpaces(run)
    ensures |Flush(run)| <= 2 && NoSpaces(Flush(run))
  {
    ConcatLetters(alpha, run);
  }

  lemma {:induction false} JoinedLeavesNoSpelling(alpha: IsAlpha, tokens: seq<string>, run: seq<string>)
    requires AllLetters(alpha, run) && NoSpaces(run) && NoSpaces(tokens)
    ensures NoSpelling(alpha, Joined(alpha, tokens, run)) && NoSpaces(Joined(alpha, tokens, run))
    decreases |tokens|
  {
    FlushEndsSpelling(alpha, run);
    if tokens != [] {
      if IsLetter(alpha, tokens[0]) {
        JoinedLeavesNoSpelling(alpha, tokens[1..], run + [tokens[0]]);
      } else {
        JoinedLeavesNoSpelling(alpha, tokens[1..], []);
        SeparatedByToken(alpha, Flush(run), tokens[0], Joined(alpha, tokens[1..], []));
      }
    }
  }

  /** Two stretches without spelling, with a token that is no letter between them. */
  lemma SeparatedByToken(alpha: IsAlpha, before: seq<string>, token: string, after: seq<string>)
    requires |before| <= 2 && !IsLetter(alpha, token) && NoSpelling(alpha, after)
    ensures NoSpelling(alpha, before + [token] + after)
  {
    var all := before + [token] + after;
    forall k | 0 <= k && k + 2 < |all|
      ensures !(IsLetter(alpha, all[k]) && IsLetter(alpha, all[k + 1]) && IsLetter(alpha, all[k + 2]))
    {
      var i := k - |before| - 1;
      if i >= 0 {
        assert all[k] == after[i] && all[k + 1] == after[i + 1] && all[k + 2] == after[i + 2];
      } else {
        assert all[|before|] == token;
        assert k <= |before| <= k + 2;
      }
    }
  }

  lemma ThirdLetterSpells(alpha: IsAlpha, run: seq<string>, tokens: seq<string>)
    requires |run| == 2 && AllLetters(alpha, run) && tokens != [] && IsLetter(alpha, tokens[0])
    ensures !NoSpelling(alpha, run + tokens)
  {
    var all := run + tokens;
    assert IsLetter(alpha, all[0]) && IsLetter(alpha, all[0 + 1]) && IsLetter(alpha, all[0 + 2]);
  }

  /** Where nothing is spelled out the pass changes nothing. */
  lemma {:induction false} NothingToJoin(alpha: IsAlpha, tokens: seq<string>, run: seq<string>)
    requires |run| <= 2 && AllLetters(alpha, run) && NoSpelling(alpha, run + tokens)
    ensures Joined(alpha, tokens, run) == run + tokens
    decreases |tokens|
  {
    if tokens != [] {
      var rest, all := tokens[1..], run + tokens;
      if IsLetter(alpha, tokens[0]) {
        assert run + [tokens[0]] + rest == all;
        if |run| == 2 {
          ThirdLetterSpells(alpha, run, tokens);
        }
        NothingToJoin(alpha, rest, run + [tokens[0]]);
      } else {
        forall k | 0 <= k && k + 2 < |rest|
          ensures !(IsLetter(alpha, rest[k]) && IsLetter(alpha, rest[k + 1]) && IsLetter(alpha, rest[k + 2]))
        {
          var i := |run| + 1 + k;
          assert all[i] == rest[k] && all[i + 1] == rest[k + 1] && all[i + 2] == rest[k + 2];
        }
        assert [] + rest == rest;
        NothingToJoin(alpha, rest, []);
        assert run + [tokens[0]] + rest == all;
      }
    }
  }

  // ---------------------------------------------------------------- what is joined with what

  function Flatten(groups: seq<seq<string>>): seq<string> {
    if groups == [] then [] else groups[0] + Flatten(groups[1..])
  }

  function JoinEach(groups: seq<seq<string>>): seq<string> {
    seq(|groups|, g requires 0 <= g < |groups| => Concat(groups[g]))
  }

  /** A group is one token as it was, or a whole run of three or more letters, with no letter next to it. */
  ghost predicate WellGrouped(alpha: IsAlpha, groups: seq<seq<string>>) {
    && (forall g :: 0 <= g < |groups| ==> |groups[g]| == 1 || (|groups[g]| >= 3 && AllLetters(alpha, groups[g])))
    && (forall g :: 0 <= g < |groups| - 1 && (|groups[g]| > 1 || |groups[g + 1]| > 1) ==>
          !IsLetter(alpha, groups[g][|groups[g]| - 1]) || !IsLetter(alpha, groups[g + 1][0]))
  }

  lemma {:induction false} FlattenAppend(a: seq<seq<string>>, b: seq<seq<string>>)
    ensures Flatten(a + b) == Flatten(a) + Flatten(b)
  {
    if a == [] {
      assert a + b == b;
    } else {
      assert (a + b)[1..] == a[1..] + b;
      FlattenAppend(a[1..], b);
    }
  }

  function Singles(tokens: seq<string>): seq<seq<string>> {
    seq(|tokens|, k requires 0 <= k < |tokens| => [tokens[k]])
  }

  lemma {:induction false} SinglesFlatten(tokens: seq<string>)
    ensures Flatten(Singles(tokens)) == tokens && JoinEach(Singles(tokens)) == tokens
  {
    forall k | 0 <= k < |tokens| ensures Concat([tokens[k]]) == tokens[k] {
      assert tokens[k] + "" == tokens[k];
    }
    if tokens != [] {
      SinglesFlatten(tokens[1..]);
      assert Singles(tokens)[1..] == Singles(tokens[1..]);
    }
  }

  /** A run of letters, as the flush joins it or does not. */
  lemma FlushIsGrouped(alpha: IsAlpha, run: seq<string>) returns (groups: seq<seq<string>>)
    requires AllLetters(alpha, run)
    ensures Flatten(groups) == run && JoinEach(groups) == Flush(run) && WellGrouped(alpha, groups)
  {
    if |run| >= SPELLED_OUT_MIN_LETTERS {
      groups := [run];
      assert groups[1..] == [];
    } else {
      groups := Singles(run);
      SinglesFlatten(run);
    }
  }

  lemma JoinEachAppend(a: seq<seq<string>>, b: seq<seq<string>>)
    ensures JoinEach(a + b) == JoinEach(a) + JoinEach(b)
  {
  }

  lemma OneToken(token: string)
    ensures Flatten([[token]]) == [token] && JoinEach([[token]]) == [token]
  {
    SinglesFlatten([token]);
    assert Singles([token]) == [[token]];
  }

  /** The groups on both sides of a token that is no letter do not meet. */
  lemma SeparatedGroups(alpha: IsAlpha, before: seq<seq<string>>, token: string, after: seq<seq<string>>)
    requires WellGrouped(alpha, before) && !IsLetter(alpha, token) && WellGrouped(alpha, after)
    ensures WellGrouped(alpha, before + [[token]] + after)
  {
    hide IsLetter, AllLetters;
    var all := before + [[token]] + after;
    forall g | 0 <= g < |all| - 1 && (|all[g]| > 1 || |all[g + 1]| > 1)
      ensures !IsLetter(alpha, all[g][|all[g]| - 1]) || !IsLetter(alpha, all[g + 1][0])
    {
      var h := g - |before| - 1;
      if h >= 0 {
        assert all[g] == after[h] && all[g + 1] == after[h + 1];
      } else if g + 1 < |before| {
        assert all[g] == before[g] && all[g + 1] == before[g + 1];
      } else {
        assert all[g] == [token] || all[g + 1] == [token];
      }
    }
  }

  /** Groups, then a token that is no letter, then groups. */
  lemma GroupedAround(alpha: IsAlpha, before: seq<seq<string>>, token: string, after: seq<seq<string>>)
    requires WellGrouped(alpha, before) && !IsLetter(alpha, token) && WellGrouped(alpha, after)
    ensures WellGrouped(alpha, before + [[token]] + after)
    ensures Flatten(before + [[token]] + after) == Flatten(before) + [token] + Flatten(after)
    ensures JoinEach(before + [[token]] + after) == JoinEach(before) + [token] + JoinEach(after)
  {
    hide WellGrouped, Flatten, JoinEach;
    SeparatedGroups(alpha, before, token, after);
    FlattenAppend(before + [[token]], after);
    FlattenAppend(before, [[token]]);
    JoinEachAppend(before + [[token]], after);
    JoinEachAppend(before, [[token]]);
    OneToken(token);
  }

  lemma OneMoreLetter(alpha: IsAlpha, run: seq<string>, token: string)
    requires AllLetters(alpha, run) && IsLetter(alpha, token)
    ensures AllLetters(alpha, run + [token])
  {
  }

  lemma NoLetters(alpha: IsAlpha)
    ensures AllLetters(alpha, [])
  {
  }

  lemma {:induction false} JoinedIsGrouped(alpha: IsAlpha, tokens: seq<string>, run: seq<string>) returns (groups: seq<seq<string>>)
    requires AllLetters(alpha, run)
    ensures WellGrouped(alpha, groups) && Flatten(groups) == run + tokens && JoinEach(groups) == Joined(alpha, tokens, run)
    decreases |tokens|
  {
    hide WellGrouped, JoinEach, Flatten, AllLetters, IsLetter, Flush;
    if tokens == [] {
      groups := FlushIsGrouped(alpha, run);
      assert run + tokens == run;
    } else if IsLetter(alpha, tokens[0]) {
      OneMoreLetter(alpha, run, tokens[0]);
      groups := JoinedIsGrouped(alpha, tokens[1..], run + [tokens[0]]);
      assert run + [tokens[0]] + tokens[1..] == run + tokens;
    } else {
      var before := FlushIsGrouped(alpha, run);
      NoLetters(alpha);
      var after := JoinedIsGrouped(alpha, tokens[1..], []);
      assert [] + tokens[1..] == tokens[1..];
      assert run + [tokens[0]] + tokens[1..] == run + tokens;
      GroupedAround(alpha, before, tokens[0], after);
      groups := before + [[tokens[0]]] + after;
    }
  }

  /** What the pass does to the tokens of a text. It cuts them into groups and joins each: a run of three
      or more letters between other tokens becomes one word, and every other token stays as it is. With no
      three neighbouring letters left, no such run has been passed over. */
  lemma DespellJoinsTheRuns(alpha: IsAlpha, s: string) returns (groups: seq<seq<string>>)
    ensures WellGrouped(alpha, groups) && Flatten(groups) == Split(s)
    ensures Split(Despell(alpha, s)) == JoinEach(groups) && NoSpelling(alpha, JoinEach(groups))
  {
    SplitTokens(s);
    groups := JoinedIsGrouped(alpha, Split(s), []);
    assert [] + Split(s) == Split(s);
    JoinedIsNotEmpty(alpha, Split(s), []);
    JoinedLeavesNoSpelling(alpha, Split(s), []);
    SplitOfJoin(Joined(alpha, Split(s), []));
  }

  // ---------------------------------------------------------------- the pass

  /** The pass keeps every character that is not a space, in order, and leaves no three neighbouring
      single-letter tokens. It changes a text exactly when the text has such neighbours, and so it is
      idempotent. All of this for any text, and any table of letters. */
  lemma DespellProperties(alpha: IsAlpha, s: string)
    ensures WithoutSpaces(Despell(alpha, s)) == WithoutSpaces(s)
    ensures NoSpelling(alpha, Split(Despell(alpha, s)))
    ensures Despell(alpha, s) == s <==> NoSpelling(alpha, Split(s))
    ensures Despell(alpha, Despell(alpha, s)) == Despell(alpha, s)
  {
    DespellKeeps(alpha, s);
    DespellIsClean(alpha, s);
    CleanIsUnchanged(alpha, Despell(alpha, s));
    if NoSpelling(alpha, Split(s)) { CleanIsUnchanged(alpha, s); }
  }

  lemma DespellKeeps(alpha: IsAlpha, s: string)
    ensures WithoutSpaces(Despell(alpha, s)) == WithoutSpaces(s)
  {
    var joined := Joined(alpha, Split(s), []);
    SplitTokens(s);
    JoinedIsNotEmpty(alpha, Split(s), []);
    JoinedLeavesNoSpelling(alpha, Split(s), []);
    JoinedKeepsCharacters(alpha, Split(s), []);
    assert [] + Split(s) == Split(s);
    WithoutSpacesOfJoin(joined);
    WithoutSpacesOfJoin(Split(s));
  }

  lemma DespellIsClean(alpha: IsAlpha, s: string)
    ensures NoSpelling(alpha, Split(Despell(alpha, s)))
  {
    SplitTokens(s);
    JoinedIsNotEmpty(alpha, Split(s), []);
    JoinedLeavesNoSpelling(alpha, Split(s), []);
    SplitOfJoin(Joined(alpha, Split(s), []));
  }

  lemma CleanIsUnchanged(alpha: IsAlpha, s: string)
    requires NoSpelling(alpha, Split(s))
    ensures Despell(alpha, s) == s
  {
    assert [] + Split(s) == Split(s);
    NothingToJoin(alpha, Split(s), []);
    SplitTokens(s);
  }
}
