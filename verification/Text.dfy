/** The string operations the rule matcher uses: `split(" ")`, `" ".join` and `find`. */
module Text {
  // ---------------------------------------------------------------- split and join

  /** The stretch before the first space. */
  function Head(s: string): string {
    if s == "" || s[0] == ' ' then "" else [s[0]] + Head(s[1..])
  }

  function Split(s: string): (tokens: seq<string>)
    ensures tokens != []
    decreases |s|
  {
    HeadBounds(s);
    var head := Head(s);
    if |head| == |s| then [s] else [head] + Split(s[|head| + 1..])
  }

  lemma {:induction false} HeadBounds(s: string)
    ensures |Head(s)| <= |s| && s[..|Head(s)|] == Head(s) && ' ' !in Head(s)
    ensures |Head(s)| < |s| ==> s[|Head(s)|] == ' '
    ensures forall j :: 0 <= j < |Head(s)| ==> s[j] != ' '
  {
    if s != "" && s[0] != ' ' { HeadBounds(s[1..]); }
  }

  function Join(tokens: seq<string>): string
    requires tokens != []
  {
    if |tokens| == 1 then tokens[0] else tokens[0] + " " + Join(tokens[1..])
  }

  ghost predicate NoSpaces(tokens: seq<string>) {
    forall k :: 0 <= k < |tokens| ==> ' ' !in tokens[k]
  }

  lemma {:induction false} SplitTokens(s: string)
    ensures NoSpaces(Split(s)) && Join(Split(s)) == s
    decreases |s|
  {
    HeadBounds(s);
    var head := Head(s);
    if |head| < |s| {
      SplitTokens(s[|head| + 1..]);
      assert s == head + " " + s[|head| + 1..];
    } else {
      assert s == head;
    }
  }

  lemma {:induction false} HeadOfToken(token: string, rest: string)
    requires ' ' !in token && (rest == "" || rest[0] == ' ')
    ensures Head(token + rest) == token
  {
    if token != "" {
      assert (token + rest)[1..] == token[1..] + rest;
      HeadOfToken(token[1..], rest);
    } else {
      assert token + rest == rest;
    }
  }

  lemma {:induction false} SplitOfJoin(tokens: seq<string>)
    requires tokens != [] && NoSpaces(tokens)
    ensures Split(Join(tokens)) == tokens
  {
    if |tokens| == 1 {
      HeadOfToken(tokens[0], "");
      assert tokens[0] + "" == tokens[0];
    } else {
      var rest := " " + Join(tokens[1..]);
      HeadOfToken(tokens[0], rest);
      assert Join(tokens) == tokens[0] + rest;
      assert Join(tokens)[|tokens[0]| + 1..] == Join(tokens[1..]);
      SplitOfJoin(tokens[1..]);
    }
  }

  // ---------------------------------------------------------------- positions of tokens

  predicate OccursAt(s: string, term: string, i: int) {
    0 <= i && i + |term| <= |s| && s[i..i + |term|] == term
  }

  /** The term fills whole tokens: nothing but a space, or an end of the text, on either side. */
  predicate Aligned(s: string, term: string, i: int) {
    && OccursAt(s, term, i)
    && (i == 0 || s[i - 1] == ' ') && (i + |term| == |s| || s[i + |term|] == ' ')
  }

  /** Where the `k`-th token starts, by the running offset. */
  function Offset(tokens: seq<string>, k: nat): nat
    requires k <= |tokens|
  {
    if k == 0 then 0 else Offset(tokens, k - 1) + |tokens[k - 1]| + 1
  }

  lemma {:induction false} OffsetTail(tokens: seq<string>, k: nat)
    requires 1 <= k <= |tokens|
    ensures Offset(tokens, k) == |tokens[0]| + 1 + Offset(tokens[1..], k - 1)
  {
    if k > 1 { OffsetTail(tokens, k - 1); }
  }

  lemma AlignedAfterSpace(s: string, cut: nat, term: string, i: int)
    requires 0 < cut <= |s| && s[cut - 1] == ' ' && Aligned(s[cut..], term, i)
    ensures Aligned(s, term, cut + i)
  {
  }

  lemma HeadIsAligned(s: string)
    ensures Aligned(s, Head(s), 0)
  {
    HeadBounds(s);
  }

  lemma SplitTail(s: string)
    requires |Head(s)| < |s|
    ensures Split(s)[0] == Head(s) && Split(s)[1..] == Split(s[|Head(s)| + 1..])
  {
    HeadBounds(s);
  }

  /** The running offset of a token is its true position. */
  lemma {:induction false} TokenIsAligned(s: string, k: nat)
    requires k < |Split(s)|
    ensures Aligned(s, Split(s)[k], Offset(Split(s), k))
    decreases |s|
  {
    HeadBounds(s);
    HeadIsAligned(s);
    var cut := |Head(s)| + 1;
    if k > 0 {
      SplitTail(s);
      hide *;
      TokenIsAligned(s[cut..], k - 1);
      OffsetTail(Split(s), k);
      AlignedAfterSpace(s, cut, Split(s)[k], Offset(Split(s[cut..]), k - 1));
    } else {
      assert Split(s)[0] == Head(s);
    }
  }

  lemma AlignedBeyondHead(s: string, term: string, i: int)
    requires Aligned(s, term, i) && i > 0
    ensures var cut := |Head(s)| + 1; cut <= i && cut <= |s| && Aligned(s[cut..], term, i - cut)
  {
    HeadBounds(s);
    var cut := |Head(s)| + 1;
    assert i >= cut;
  }

  lemma AlignedAtStart(s: string, term: string)
    requires Aligned(s, term, 0) && ' ' !in term
    ensures Split(s)[0] == term
  {
    HeadBounds(s);
    HeadOfToken(term, s[|term|..]);
    assert s == term + s[|term|..];
  }

  /** And every space-free stretch between spaces is a token at that offset. */
  lemma {:induction false} AlignedIsToken(s: string, term: string, i: int) returns (k: nat)
    requires Aligned(s, term, i) && ' ' !in term
    ensures k < |Split(s)| && Split(s)[k] == term && Offset(Split(s), k) == i
    decreases |s|
  {
    hide Head, Split;
    if i == 0 {
      AlignedAtStart(s, term);
      k := 0;
    } else {
      AlignedBeyondHead(s, term, i);
      SplitTail(s);
      var cut := |Head(s)| + 1;
      var k' := AlignedIsToken(s[cut..], term, i - cut);
      k := k' + 1;
      OffsetTail(Split(s), k);
    }
  }

  // ---------------------------------------------------------------- find

  /** `i` is the first occurrence at or after `start`, or -1 if there is none. */
  ghost predicate IsNext(s: string, term: string, start: nat, i: int) {
    if i == -1 then forall j :: start <= j ==> !OccursAt(s, term, j)
    else start <= i && OccursAt(s, term, i) && forall j :: start <= j < i ==> !OccursAt(s, term, j)
  }

  /** `s.find(term, start)`. */
  function Find(s: string, term: string, start: nat): (i: int)
    ensures IsNext(s, term, start, i)
    decreases |s| + 1 - start
  {
    if start > |s| then -1
    else if OccursAt(s, term, start) then start
    else Find(s, term, start + 1)
  }
}
