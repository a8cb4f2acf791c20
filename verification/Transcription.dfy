/** `SherpaTranscriptionAdapter` in transcription.py: one call per request, and the batched form that
    regroups a batch by recognizer and scatters the results back to their positions. */
module Transcription {
  import opened Prelude
  import opened Selection
  import opened BatchWorker

  type Samples = seq<real>

  datatype Recognized = Recognized(text: string, language: Option<string>)

  /** What the adapter is built on. A recognizer is known by its identity, decodes each clip alone
      and answers a list of clips position by position; `strip` is Python's `str.strip`. */
  datatype Engine = Engine(decode: (nat, Samples) -> Recognized, strip: string -> string)

  datatype Adapter = Adapter(languages: seq<string>, transcribers: map<string, nat>)

  datatype Error = CountMismatch | NoDefaultLanguage | UnsupportedLanguage(language: string) | UnsupportedDetection

  function TranscriberFor(adapter: Adapter, requested: string): Result<nat, Error> {
    if requested == "auto" then
      if adapter.languages != [] && adapter.languages[0] in adapter.transcribers
      then Ok(adapter.transcribers[adapter.languages[0]])
      else Err(NoDefaultLanguage)
    else if requested in adapter.transcribers then Ok(adapter.transcribers[requested])
    else Err(UnsupportedLanguage(requested))
  }

  function LabelFor(adapter: Adapter, recognized: Recognized, requested: string): string {
    if requested != "auto" then requested
    else if |adapter.languages| == 1 then adapter.languages[0]
    else if recognized.language == None || recognized.language.value == "" then "auto"
    else recognized.language.value
  }

  function ResultOf(engine: Engine, adapter: Adapter, recognized: Recognized, requested: string): Result<Transcript, Error> {
    var language := LabelFor(adapter, recognized, requested);
    if language != "auto" && language !in adapter.languages then Err(UnsupportedDetection)
    else Ok(Transcript(engine.strip(recognized.text), language))
  }

  /** One request on its own. */
  function Call(engine: Engine, adapter: Adapter, samples: Samples, requested: string): Result<Transcript, Error> {
    var transcriber := TranscriberFor(adapter, requested);
    if transcriber.Err? then Err(transcriber.error)
    else ResultOf(engine, adapter, engine.decode(transcriber.value, samples), requested)
  }

  /** What the loader builds: a recognizer for each language of the model, and for no other. */
  ghost predicate FromLoader(adapter: Adapter) {
    && adapter.languages != [] && "auto" !in adapter.languages
    && forall language :: language in adapter.transcribers <==> language in adapter.languages
  }

  /** What a request gets on its own. A language of the model is decoded by its own recognizer, and the
      result carries it whatever was detected. Any other is refused by name. On `auto` the recognizer of
      the first language listens: a model of one language answers with that, and any other with a
      language of its own that was detected, or with `auto` where none was; a detected language that is
      not the model's fails the request. */
  lemma AnswersAlone(engine: Engine, adapter: Adapter, samples: Samples, requested: string)
    requires FromLoader(adapter)
    ensures requested in adapter.languages ==>
              Call(engine, adapter, samples, requested) ==
              Ok(Transcript(engine.strip(engine.decode(adapter.transcribers[requested], samples).text), requested))
    ensures requested !in adapter.languages && requested != "auto" ==>
              Call(engine, adapter, samples, requested) == Err(UnsupportedLanguage(requested))
    ensures requested == "auto" ==>
              var heard := engine.decode(adapter.transcribers[adapter.languages[0]], samples);
              var detected := if heard.language.Some? then heard.language.value else "";
              Call(engine, adapter, samples, requested) ==
                if |adapter.languages| == 1 then Ok(Transcript(engine.strip(heard.text), adapter.languages[0]))
                else if detected in adapter.languages && detected != "" then Ok(Transcript(engine.strip(heard.text), detected))
                else if detected == "" || detected == "auto" then Ok(Transcript(engine.strip(heard.text), "auto"))
                else Err(UnsupportedDetection)
  {
    assert adapter.languages[0] in adapter.languages;
  }

  lemma CallOfMember(engine: Engine, adapter: Adapter, samples: Samples, requested: string, key: nat)
    requires TranscriberFor(adapter, requested) == Ok(key)
    ensures Call(engine, adapter, samples, requested) == ResultOf(engine, adapter, engine.decode(key, samples), requested)
  {
  }

  // ---------------------------------------------------------------- which failure a batch reports

  /** The first request that asks for the same recognizer as request `i`. */
  function Leader(adapter: Adapter, requested: seq<string>, i: nat): (leader: nat)
    requires i < |requested|
    ensures leader <= i && TranscriberFor(adapter, requested[leader]) == TranscriberFor(adapter, requested[i])
    ensures forall j :: 0 <= j < leader ==> TranscriberFor(adapter, requested[j]) != TranscriberFor(adapter, requested[i])
  {
    FirstLike(adapter, requested, i, 0)
  }

  function FirstLike(adapter: Adapter, requested: seq<string>, i: nat, from: nat): (leader: nat)
    requires from <= i < |requested|
    ensures from <= leader <= i && TranscriberFor(adapter, requested[leader]) == TranscriberFor(adapter, requested[i])
    ensures forall j :: from <= j < leader ==> TranscriberFor(adapter, requested[j]) != TranscriberFor(adapter, requested[i])
    decreases i - from
  {
    if TranscriberFor(adapter, requested[from]) == TranscriberFor(adapter, requested[i]) then from
    else FirstLike(adapter, requested, i, from + 1)
  }

  /** Recognizers take their turns in the order in which they were first asked for, and each takes its
      requests in order. */
  ghost predicate DecodedBefore(adapter: Adapter, requested: seq<string>, j: nat, i: nat)
    requires j < |requested| && i < |requested|
  {
    var l, m := Leader(adapter, requested, j), Leader(adapter, requested, i);
    l < m || (l == m && j < i)
  }

  ghost predicate AllSupported(adapter: Adapter, requested: seq<string>) {
    forall i :: 0 <= i < |requested| ==> TranscriberFor(adapter, requested[i]).Ok?
  }

  /** The failure that ends a batch: the first request for an unsupported language, or, where every
      language is supported, the failing request that is decoded before any other failing one. */
  ghost predicate FailsFirst(engine: Engine, adapter: Adapter, batch: seq<Samples>, requested: seq<string>, i: nat)
    requires |batch| == |requested| && i < |batch|
  {
    if AllSupported(adapter, requested) then
      && Call(engine, adapter, batch[i], requested[i]).Err?
      && forall j: nat :: j < |batch| && DecodedBefore(adapter, requested, j, i) ==> Call(engine, adapter, batch[j], requested[j]).Ok?
    else
      && TranscriberFor(adapter, requested[i]).Err?
      && forall j :: 0 <= j < i ==> TranscriberFor(adapter, requested[j]).Ok?
  }

  /** There is one such failure. */
  lemma OneFailsFirst(engine: Engine, adapter: Adapter, batch: seq<Samples>, requested: seq<string>, i: nat, j: nat)
    requires |batch| == |requested| && i < |batch| && j < |batch|
    requires FailsFirst(engine, adapter, batch, requested, i) && FailsFirst(engine, adapter, batch, requested, j)
    ensures i == j
  {
  }

  // ---------------------------------------------------------------- the batch

  /** What a batch answers: the list of what each request would get on its own, if every one of them
      would get something; otherwise the error of the first failure. */
  ghost predicate BatchAnswer(engine: Engine, adapter: Adapter, batch: seq<Samples>, requested: seq<string>,
                              answer: Result<seq<Transcript>, Error>) {
    if |batch| != |requested| then answer == Err(CountMismatch)
    else
      match answer
      case Ok(results) =>
        && |results| == |batch|
        && forall i :: 0 <= i < |batch| ==> Call(engine, adapter, batch[i], requested[i]) == Ok(results[i])
      case Err(error) => exists i: nat :: i < |batch| && FailsFirst(engine, adapter, batch, requested, i)
                                          && Call(engine, adapter, batch[i], requested[i]) == Err(error)
  }

  /** All of these indexes ask for the recognizer `key`. */
  ghost predicate AllUnder(adapter: Adapter, requested: seq<string>, n: nat, key: nat, indexes: seq<nat>)
    requires n <= |requested|
  {
    forall a :: 0 <= a < |indexes| ==> indexes[a] < n && TranscriberFor(adapter, requested[indexes[a]]) == Ok(key)
  }

  /** The indexes grouped so far: each under the recognizer of its language, in one group only. */
  ghost predicate Grouped(adapter: Adapter, requested: seq<string>, n: nat, order: seq<nat>, groups: map<nat, seq<nat>>) {
    && n <= |requested|
    && (forall key :: key in groups <==> key in order)
    && (forall a, b :: 0 <= a < b < |order| ==> order[a] != order[b])
    && (forall key :: key in groups ==> AllUnder(adapter, requested, n, key, groups[key]))
    && (forall i :: 0 <= i < n ==>
          TranscriberFor(adapter, requested[i]).Ok? && var key := TranscriberFor(adapter, requested[i]).value;
          key in groups && i in groups[key])
  }

  ghost predicate Ascending(indexes: seq<nat>) {
    forall a, b :: 0 <= a < b < |indexes| ==> indexes[a] < indexes[b]
  }

  /** No group is empty, each is in order, and the groups are in the order of their first members. */
  ghost predicate InTurn(order: seq<nat>, groups: map<nat, seq<nat>>) {
    && (forall h :: 0 <= h < |order| ==> order[h] in groups && groups[order[h]] != [] && Ascending(groups[order[h]]))
    && (forall h, k :: 0 <= h < k < |order| ==> groups[order[h]][0] < groups[order[k]][0])
  }

  lemma OnlyRecognizer(adapter: Adapter, language: string, key: nat)
    requires forall l :: l in adapter.transcribers ==> adapter.transcribers[l] == key
    ensures TranscriberFor(adapter, language).Ok? ==> TranscriberFor(adapter, language).value == key
  {
  }

  lemma FirstUnder(adapter: Adapter, requested: seq<string>, key: nat, indexes: seq<nat>)
    requires AllUnder(adapter, requested, |requested|, key, indexes) && indexes != []
    ensures indexes[0] < |requested| && TranscriberFor(adapter, requested[indexes[0]]) == Ok(key)
  {
  }

  /** A model with one recognizer for all its languages decodes any mix of them in one pass. */
  lemma OneRecognizerOnePass(adapter: Adapter, requested: seq<string>, order: seq<nat>, groups: map<nat, seq<nat>>, key: nat)
    requires Grouped(adapter, requested, |requested|, order, groups) && InTurn(order, groups)
    requires forall language :: language in adapter.transcribers ==> adapter.transcribers[language] == key
    ensures |order| == if requested == [] then 0 else 1
  {
    hide AllUnder, TranscriberFor;
    forall h | 0 <= h < |order|
      ensures order[h] == key && |requested| > 0
    {
      var group := groups[order[h]];
      FirstUnder(adapter, requested, order[h], group);
      var first: nat := group[0];
      OnlyRecognizer(adapter, requested[first], key);
    }
    if requested != [] { assert TranscriberFor(adapter, requested[0]).value in order; }
    assert Members(order) == if requested == [] then {} else {key};
    DistinctCount(order);
  }

  /** Every member comes before `n`. */
  ghost predicate AllBelow(order: seq<nat>, groups: map<nat, seq<nat>>, n: nat) {
    forall h, a :: 0 <= h < |order| && order[h] in groups && 0 <= a < |groups[order[h]]| ==> groups[order[h]][a] < n
  }

  lemma GroupedBelow(adapter: Adapter, requested: seq<string>, n: nat, order: seq<nat>, groups: map<nat, seq<nat>>)
    requires Grouped(adapter, requested, n, order, groups)
    ensures AllBelow(order, groups, n) && (forall key :: key in groups <==> key in order)
    ensures n <= |requested| && forall j :: 0 <= j < n ==> TranscriberFor(adapter, requested[j]).Ok?
  {
    forall h | 0 <= h < |order| && order[h] in groups
      ensures forall a :: 0 <= a < |groups[order[h]]| ==> groups[order[h]][a] < n
    {
      assert AllUnder(adapter, requested, n, order[h], groups[order[h]]);
    }
  }

  /** `setdefault(key, []).append(index)`. */
  lemma OneMoreAscends(indexes: seq<nat>, n: nat)
    requires Ascending(indexes) && forall a :: 0 <= a < |indexes| ==> indexes[a] < n
    ensures Ascending(indexes + [n])
  {
  }

  /** What one more member does to the group of `order[h]`. */
  lemma OneMoreInGroup(n: nat, key: nat, order: seq<nat>, groups: map<nat, seq<nat>>, h: nat)
    requires InTurn(order, groups) && AllBelow(order, groups, n) && h < |order|
    ensures order[h] in groups && groups[order[h]] != [] && groups[order[h]][0] < n
    ensures var groups' := groups[key := (if key in groups then groups[key] else []) + [n]];
      order[h] in groups' && groups'[order[h]] != [] && Ascending(groups'[order[h]]) && groups'[order[h]][0] == groups[order[h]][0]
  {
    OneMoreAscends(groups[order[h]], n);
  }

  lemma OneMoreInOldGroup(n: nat, key: nat, order: seq<nat>, groups: map<nat, seq<nat>>)
    requires InTurn(order, groups) && AllBelow(order, groups, n) && key in groups
    ensures InTurn(order, groups[key := groups[key] + [n]])
  {
    hide Ascending, AllBelow;
    forall h | 0 <= h < |order|
      ensures var groups' := groups[key := groups[key] + [n]];
        order[h] in groups' && groups'[order[h]] != [] && Ascending(groups'[order[h]]) && groups'[order[h]][0] == groups[order[h]][0]
    {
      OneMoreInGroup(n, key, order, groups, h);
    }
  }

  lemma OneGroupMore(n: nat, key: nat, order: seq<nat>, groups: map<nat, seq<nat>>)
    requires InTurn(order, groups) && AllBelow(order, groups, n) && key !in order
    ensures InTurn(order + [key], groups[key := [n]])
  {
    hide AllBelow;
    forall h | 0 <= h < |order|
      ensures order[h] != key && groups[order[h]][0] < n
    {
      OneMoreInGroup(n, key, order, groups, h);
    }
  }

  lemma OneMoreInTurn(n: nat, key: nat, order: seq<nat>, groups: map<nat, seq<nat>>, order': seq<nat>, groups': map<nat, seq<nat>>)
    requires InTurn(order, groups) && AllBelow(order, groups, n) && forall k :: k in groups <==> k in order
    requires order' == if key in groups then order else order + [key]
    requires groups' == groups[key := (if key in groups then groups[key] else []) + [n]]
    ensures InTurn(order', groups')
  {
    hide InTurn, AllBelow;
    if key in groups {
      OneMoreInOldGroup(n, key, order, groups);
    } else {
      assert [] + [n] == [n];
      OneGroupMore(n, key, order, groups);
    }
  }

  lemma NothingGrouped(adapter: Adapter, requested: seq<string>)
    ensures Grouped(adapter, requested, 0, [], map[]) && InTurn([], map[])
  {
  }

  method Group(adapter: Adapter, requested: seq<string>) returns (error: Option<Error>, order: seq<nat>, groups: map<nat, seq<nat>>)
    ensures error == None ==> Grouped(adapter, requested, |requested|, order, groups) && InTurn(order, groups)
    ensures error.Some? ==> exists i :: 0 <= i < |requested| && TranscriberFor(adapter, requested[i]) == Err(error.value)
                                        && forall j :: 0 <= j < i ==> TranscriberFor(adapter, requested[j]).Ok?
  {
    hide *;
    order, groups := [], map[];
    NothingGrouped(adapter, requested);
    for index := 0 to |requested|
      invariant Grouped(adapter, requested, index, order, groups) && InTurn(order, groups)
    {
      var transcriber := TranscriberFor(adapter, requested[index]);
      GroupedBelow(adapter, requested, index, order, groups);
      if transcriber.Err? {
        return Some(transcriber.error), order, groups;
      }
      var key := transcriber.value;
      ghost var order0, groups0 := order, groups;
      if key !in groups {
        order, groups := order + [key], groups[key := []];
      }
      groups := groups[key := groups[key] + [index]];
      assert groups == groups0[key := (if key in groups0 then groups0[key] else []) + [index]];
      OneMoreGrouped(adapter, requested, index, key, order0, groups0, order, groups);
      OneMoreInTurn(index, key, order0, groups0, order, groups);
    }
    error := None;
  }

  lemma OneMoreUnder(adapter: Adapter, requested: seq<string>, n: nat, key: nat, k: nat, indexes: seq<nat>)
    requires n < |requested| && TranscriberFor(adapter, requested[n]) == Ok(key)
    requires indexes == [] || AllUnder(adapter, requested, n, k, indexes)
    ensures AllUnder(adapter, requested, n + 1, k, indexes)
    ensures k == key ==> AllUnder(adapter, requested, n + 1, key, indexes + [n])
  {
    hide TranscriberFor;
    assert forall a :: 0 <= a < |indexes| ==> (indexes + [n])[a] == indexes[a];
  }

  lemma OneMorePlaced(adapter: Adapter, requested: seq<string>, n: nat, key: nat, groups: map<nat, seq<nat>>, i: nat, k: nat)
    requires n < |requested| && TranscriberFor(adapter, requested[n]) == Ok(key) && i <= n
    requires i < n ==> TranscriberFor(adapter, requested[i]) == Ok(k) && k in groups && i in groups[k]
    requires i == n ==> k == key
    ensures var groups' := groups[key := (if key in groups then groups[key] else []) + [n]];
      TranscriberFor(adapter, requested[i]) == Ok(k) && k in groups' && i in groups'[k]
  {
    hide TranscriberFor;
  }

  lemma OneMoreGrouped(adapter: Adapter, requested: seq<string>, n: nat, key: nat, order: seq<nat>, groups: map<nat, seq<nat>>,
                       order': seq<nat>, groups': map<nat, seq<nat>>)
    requires Grouped(adapter, requested, n, order, groups)
    requires n < |requested| && TranscriberFor(adapter, requested[n]) == Ok(key)
    requires order' == if key in groups then order else order + [key]
    requires groups' == groups[key := (if key in groups then groups[key] else []) + [n]]
    ensures Grouped(adapter, requested, n + 1, order', groups')
  {
    hide AllUnder, TranscriberFor;
    forall k
      ensures k in groups' <==> k in order'
      ensures k in groups' ==> AllUnder(adapter, requested, n + 1, k, groups'[k])
    {
      if k in groups { OneMoreUnder(adapter, requested, n, key, k, groups[k]); }
      if k == key && k !in groups { OneMoreUnder(adapter, requested, n, key, k, []); }
    }
    forall i | 0 <= i < n + 1
      ensures TranscriberFor(adapter, requested[i]).Ok?
      ensures var k := TranscriberFor(adapter, requested[i]).value; k in groups' && i in groups'[k]
    {
      OneMorePlaced(adapter, requested, n, key, groups, i, TranscriberFor(adapter, requested[i]).value);
    }
  }

  /** The leader of a request is the first member of its group. */
  lemma LeaderOfGroup(adapter: Adapter, requested: seq<string>, order: seq<nat>, groups: map<nat, seq<nat>>, h: nat, a: nat)
    requires Grouped(adapter, requested, |requested|, order, groups) && InTurn(order, groups)
    requires h < |order| && a < |groups[order[h]]|
    ensures var group := groups[order[h]];
      group[a] < |requested| && Leader(adapter, requested, group[a]) == group[0]
  {
    var group := groups[order[h]];
    assert AllUnder(adapter, requested, |requested|, order[h], group);
    var leader := Leader(adapter, requested, group[a]);
    assert leader in group;
    assert TranscriberFor(adapter, requested[group[0]]) == TranscriberFor(adapter, requested[group[a]]);
  }

  /** Which group a request is in, and where. */
  lemma PlaceOf(adapter: Adapter, requested: seq<string>, order: seq<nat>, groups: map<nat, seq<nat>>, i: nat) returns (h: nat, a: nat)
    requires Grouped(adapter, requested, |requested|, order, groups) && i < |requested|
    ensures h < |order| && order[h] in groups && a < |groups[order[h]]| && groups[order[h]][a] == i
  {
    var key := TranscriberFor(adapter, requested[i]).value;
    assert key in groups && i in groups[key];
    h :| h < |order| && order[h] == key;
    a :| a < |groups[key]| && groups[key][a] == i;
  }

  /** The first failure of a group, met with the groups before it done, is the first of the batch. */
  lemma FailureIsFirst(engine: Engine, adapter: Adapter, batch: seq<Samples>, requested: seq<string>,
                       order: seq<nat>, groups: map<nat, seq<nat>>, results: seq<Option<Transcript>>, g: nat, a: nat)
    requires |batch| == |requested| && Right(engine, adapter, batch, requested, results)
    requires Grouped(adapter, requested, |requested|, order, groups) && InTurn(order, groups)
    requires GroupsPlaced(order, groups, g, results) && g < |order| && a < |groups[order[g]]|
    requires AllUnder(adapter, requested, |requested|, order[g], groups[order[g]])
    requires var group := groups[order[g]];
      && Call(engine, adapter, batch[group[a]], requested[group[a]]).Err?
      && forall b :: 0 <= b < a ==> Call(engine, adapter, batch[group[b]], requested[group[b]]).Ok?
    ensures FailsFirst(engine, adapter, batch, requested, groups[order[g]][a])
  {
    hide Call, Leader;
    var i := groups[order[g]][a];
    LeaderOfGroup(adapter, requested, order, groups, g, a);
    forall j: nat | j < |batch| && DecodedBefore(adapter, requested, j, i)
      ensures Call(engine, adapter, batch[j], requested[j]).Ok?
    {
      var h, b := PlaceOf(adapter, requested, order, groups, j);
      LeaderOfGroup(adapter, requested, order, groups, h, b);
      if h < g {
        assert AllPlaced(groups[order[h]], results);
      } else {
        assert h == g && b < a;
      }
    }
  }

  /** Every result in place is what its own request would get alone. */
  ghost predicate Right(engine: Engine, adapter: Adapter, batch: seq<Samples>, requested: seq<string>, results: seq<Option<Transcript>>)
    requires |batch| == |requested|
  {
    && |results| == |batch|
    && forall i :: 0 <= i < |batch| && results[i].Some? ==> Call(engine, adapter, batch[i], requested[i]) == Ok(results[i].value)
  }

  ghost predicate AllPlaced(indexes: seq<nat>, results: seq<Option<Transcript>>) {
    forall a :: 0 <= a < |indexes| ==> indexes[a] < |results| && results[indexes[a]].Some?
  }

  ghost predicate StillPlaced(before: seq<Option<Transcript>>, after: seq<Option<Transcript>>) {
    |before| == |after| && forall i :: 0 <= i < |before| && before[i].Some? ==> after[i].Some?
  }

  /** The results of the first `g` groups are in place. */
  ghost predicate GroupsPlaced(order: seq<nat>, groups: map<nat, seq<nat>>, g: nat, results: seq<Option<Transcript>>) {
    && g <= |order|
    && forall h :: 0 <= h < g ==> order[h] in groups && AllPlaced(groups[order[h]], results)
  }

  lemma GroupsStayPlaced(order: seq<nat>, groups: map<nat, seq<nat>>, g: nat,
                         before: seq<Option<Transcript>>, after: seq<Option<Transcript>>)
    requires GroupsPlaced(order, groups, g, before) && StillPlaced(before, after)
    requires g < |order| && order[g] in groups && AllPlaced(groups[order[g]], after)
    ensures GroupsPlaced(order, groups, g + 1, after)
  {
    forall h | 0 <= h < g + 1 ensures order[h] in groups && AllPlaced(groups[order[h]], after) {
      if h < g { assert AllPlaced(groups[order[h]], before); }
    }
  }

  lemma {:induction false} AllOfGroupsPlaced(adapter: Adapter, requested: seq<string>, order: seq<nat>, groups: map<nat, seq<nat>>,
                                             results: seq<Option<Transcript>>, i: nat)
    requires Grouped(adapter, requested, |requested|, order, groups) && i < |requested| == |results|
    requires GroupsPlaced(order, groups, |order|, results)
    ensures results[i].Some?
  {
    var key := TranscriberFor(adapter, requested[i]).value;
    var h :| 0 <= h < |order| && order[h] == key;
    var a :| 0 <= a < |groups[key]| && groups[key][a] == i;
    assert AllPlaced(groups[order[h]], results);
  }

  /** One group: decoded in one pass, and scattered by index. */
  method DecodeGroup(engine: Engine, adapter: Adapter, batch: seq<Samples>, requested: seq<string>,
                     key: nat, indexes: seq<nat>, results: array<Option<Transcript>>)
    returns (error: Option<Error>, ghost failed: nat)
    requires |batch| == |requested| && Right(engine, adapter, batch, requested, results[..])
    requires AllUnder(adapter, requested, |batch|, key, indexes)
    modifies results
    ensures Right(engine, adapter, batch, requested, results[..])
    ensures StillPlaced(old(results[..]), results[..])
    ensures error == None ==> AllPlaced(indexes, results[..])
    ensures error.Some? ==>
              && failed < |indexes| && Call(engine, adapter, batch[indexes[failed]], requested[indexes[failed]]) == Err(error.value)
              && forall b :: 0 <= b < failed ==> Call(engine, adapter, batch[indexes[b]], requested[indexes[b]]).Ok?
  {
    hide Call, TranscriberFor, ResultOf;
    var transcriptions := seq(|indexes|, j requires 0 <= j < |indexes| => engine.decode(key, batch[indexes[j]]));
    for j := 0 to |indexes|
      invariant Right(engine, adapter, batch, requested, results[..])
      invariant StillPlaced(old(results[..]), results[..])
      invariant forall a :: 0 <= a < j ==> results[indexes[a]].Some?
    {
      var index := indexes[j];
      var result := ResultOf(engine, adapter, transcriptions[j], requested[index]);
      CallOfMember(engine, adapter, batch[index], requested[index], key);
      if result.Err? {
        return Some(result.error), j;
      }
      results[index] := Some(result.value);
    }
    error, failed := None, 0;
  }

  lemma UnsupportedFailsFirst(engine: Engine, adapter: Adapter, batch: seq<Samples>, requested: seq<string>, error: Error)
    requires |batch| == |requested|
    requires exists i :: 0 <= i < |requested| && TranscriberFor(adapter, requested[i]) == Err(error)
                         && forall j :: 0 <= j < i ==> TranscriberFor(adapter, requested[j]).Ok?
    ensures BatchAnswer(engine, adapter, batch, requested, Err(error))
  {
    var i: nat :| i < |requested| && TranscriberFor(adapter, requested[i]) == Err(error)
                  && forall j :: 0 <= j < i ==> TranscriberFor(adapter, requested[j]).Ok?;
    assert FailsFirst(engine, adapter, batch, requested, i);
  }

  /** `batch`: regroup, decode each group in one pass, scatter by index. */
  method Batch(engine: Engine, adapter: Adapter, batch: seq<Samples>, requested: seq<string>)
    returns (answer: Result<seq<Transcript>, Error>)
    ensures BatchAnswer(engine, adapter, batch, requested, answer)
  {
    if |batch| != |requested| {
      return Err(CountMismatch);
    }
    hide *;
    var error, order, groups := Group(adapter, requested);
    if error.Some? {
      UnsupportedFailsFirst(engine, adapter, batch, requested, error.value);
      return Err(error.value);
    }
    var results: array<Option<Transcript>> := new Option<Transcript>[|batch|](_ => None);
    NothingPlaced(engine, adapter, batch, requested, order, groups, results[..]);
    for g := 0 to |order|
      invariant Right(engine, adapter, batch, requested, results[..])
      invariant GroupsPlaced(order, groups, g, results[..])
    {
      ghost var before := results[..];
      GroupIsUnder(adapter, requested, order, groups, g);
      ghost var failed: nat;
      error, failed := DecodeGroup(engine, adapter, batch, requested, order[g], groups[order[g]], results);
      if error.Some? {
        FailureIsFirst(engine, adapter, batch, requested, order, groups, before, g, failed);
        FailureIsTheAnswer(engine, adapter, batch, requested, groups[order[g]][failed], error.value);
        return Err(error.value);
      }
      GroupsStayPlaced(order, groups, g, before, results[..]);
    }
    ghost var placed := results[..];
    forall i | 0 <= i < |batch| ensures placed[i].Some? {
      AllOfGroupsPlaced(adapter, requested, order, groups, placed, i);
    }
    var answers := Present(results);
    AllAnswered(engine, adapter, batch, requested, placed, answers);
    return Ok(answers);
  }

  /** The comprehension that leaves `None` out. */
  method Present(results: array<Option<Transcript>>) returns (answers: seq<Transcript>)
    ensures (forall i :: 0 <= i < results.Length ==> results[i].Some?) ==>
              |answers| == results.Length && forall i :: 0 <= i < |answers| ==> results[i] == Some(answers[i])
  {
    answers := [];
    for i := 0 to results.Length
      invariant (forall k :: 0 <= k < results.Length ==> results[k].Some?) ==>
                  |answers| == i && forall k :: 0 <= k < i ==> results[k] == Some(answers[k])
    {
      if results[i].Some? {
        answers := answers + [results[i].value];
      }
    }
  }

  lemma NothingPlaced(engine: Engine, adapter: Adapter, batch: seq<Samples>, requested: seq<string>,
                      order: seq<nat>, groups: map<nat, seq<nat>>, results: seq<Option<Transcript>>)
    requires |batch| == |requested| && |results| == |batch| && forall i :: 0 <= i < |results| ==> results[i] == None
    ensures Right(engine, adapter, batch, requested, results) && GroupsPlaced(order, groups, 0, results)
  {
  }

  lemma GroupIsUnder(adapter: Adapter, requested: seq<string>, order: seq<nat>, groups: map<nat, seq<nat>>, g: nat)
    requires Grouped(adapter, requested, |requested|, order, groups) && g < |order|
    ensures order[g] in groups && AllUnder(adapter, requested, |requested|, order[g], groups[order[g]])
    ensures forall a :: 0 <= a < |groups[order[g]]| ==> groups[order[g]][a] < |requested|
  {
    assert AllUnder(adapter, requested, |requested|, order[g], groups[order[g]]);
  }

  lemma AllAnswered(engine: Engine, adapter: Adapter, batch: seq<Samples>, requested: seq<string>,
                    results: seq<Option<Transcript>>, answers: seq<Transcript>)
    requires |batch| == |requested| == |answers| && Right(engine, adapter, batch, requested, results)
    requires |results| == |batch| && forall k :: 0 <= k < |answers| ==> results[k] == Some(answers[k])
    ensures BatchAnswer(engine, adapter, batch, requested, Ok(answers))
  {
  }

  lemma FailureIsTheAnswer(engine: Engine, adapter: Adapter, batch: seq<Samples>, requested: seq<string>, i: nat, error: Error)
    requires |batch| == |requested| && i < |batch| && FailsFirst(engine, adapter, batch, requested, i)
    requires Call(engine, adapter, batch[i], requested[i]) == Err(error)
    ensures BatchAnswer(engine, adapter, batch, requested, Err(error))
  {
  }

  // ---------------------------------------------------------------- behind the batcher

  function ToOutcome(answer: Result<seq<Transcript>, Error>, describe: Error -> string): BatchOutcome {
    match answer
    case Ok(results) => Results(results)
    case Err(error) => Raises(describe(error))
  }

  /** The batcher's transcriber is this adapter: every dispatch gets an answer of its `Batch`. */
  ghost predicate BackedBy(cfg: Config, engine: Engine, adapter: Adapter, describe: Error -> string) {
    forall n: nat, batch: seq<Samples>, requested: seq<string> {:trigger cfg.transcribe(n, batch, requested)} ::
      exists answer :: BatchAnswer(engine, adapter, batch, requested, answer)
                       && cfg.transcribe(n, batch, requested) == ToOutcome(answer, describe)
  }

  /** Regrouping and scattering by index is the pointwise transcriber. */
  lemma AdapterIsPositional(cfg: Config, engine: Engine, adapter: Adapter, describe: Error -> string,
                            n: nat, samples: seq<Samples>, languages: seq<string>, i: nat)
    requires BackedBy(cfg, engine, adapter, describe)
    requires cfg.transcribe(n, samples, languages).Results? && i < |samples|
    ensures |cfg.transcribe(n, samples, languages).results| == |samples| == |languages|
    ensures Call(engine, adapter, samples[i], languages[i]) == Ok(cfg.transcribe(n, samples, languages).results[i])
  {
    var answer :| BatchAnswer(engine, adapter, samples, languages, answer)
                  && cfg.transcribe(n, samples, languages) == ToOutcome(answer, describe);
    assert Call(engine, adapter, samples[i], languages[i]) == Ok(answer.value[i]);
  }

  /** What a member of the batch would get on its own. */
  function AloneOf(engine: Engine, adapter: Adapter, batch: seq<Ticket>, k: nat): Result<Transcript, Error>
    requires k < |batch|
  {
    Call(engine, adapter, batch[k].pending.samples, batch[k].pending.language)
  }

  lemma ListMeansAllSucceed(engine: Engine, adapter: Adapter, batch: seq<Ticket>, answer: Result<seq<Transcript>, Error>)
    requires BatchAnswer(engine, adapter, SamplesOf(batch), LanguagesOf(batch), answer)
    ensures answer.Ok? ==> forall j :: 0 <= j < |batch| ==> AloneOf(engine, adapter, batch, j).Ok?
  {
    var samples, languages := SamplesOf(batch), LanguagesOf(batch);
    forall j | 0 <= j < |batch|
      ensures answer.Ok? ==> AloneOf(engine, adapter, batch, j).Ok?
    {
      assert samples[j] == batch[j].pending.samples && languages[j] == batch[j].pending.language;
    }
  }

  /** A dispatch succeeds for one member exactly when it would have succeeded for each alone: one
      unsupported language, or one unsupported detection, fails everybody in its batch. */
  lemma OneFailureFailsTheBatch(cfg: Config, engine: Engine, adapter: Adapter, describe: Error -> string,
                                n: nat, batch: seq<Ticket>, k: nat)
    requires BackedBy(cfg, engine, adapter, describe) && k < |batch|
    ensures BatchValues(cfg, n, batch)[k].Success? <==>
              forall j :: 0 <= j < |batch| ==> AloneOf(engine, adapter, batch, j).Ok?
  {
    var samples, languages := SamplesOf(batch), LanguagesOf(batch);
    var outcome := cfg.transcribe(n, samples, languages);
    var answer :| BatchAnswer(engine, adapter, samples, languages, answer) && outcome == ToOutcome(answer, describe);
    ListMeansAllSucceed(engine, adapter, batch, answer);
    if answer.Err? {
      var j :| 0 <= j < |samples| && Call(engine, adapter, samples[j], languages[j]) == Err(answer.error);
      assert AloneOf(engine, adapter, batch, j).Err?;
    }
  }

  /** A failing batch has one failure that counts, and everybody is told that one. */
  lemma EverybodyIsToldTheFirstFailure(cfg: Config, engine: Engine, adapter: Adapter, describe: Error -> string,
                                       n: nat, batch: seq<Ticket>) returns (i: nat)
    requires BackedBy(cfg, engine, adapter, describe)
    requires exists j :: 0 <= j < |batch| && AloneOf(engine, adapter, batch, j).Err?
    ensures i < |batch| && FailsFirst(engine, adapter, SamplesOf(batch), LanguagesOf(batch), i)
    ensures var failure := AloneOf(engine, adapter, batch, i);
      failure.Err? && forall k :: 0 <= k < |batch| ==> BatchValues(cfg, n, batch)[k] == Failed(describe(failure.error))
  {
    hide Call, FailsFirst;
    var samples, languages := SamplesOf(batch), LanguagesOf(batch);
    var outcome := cfg.transcribe(n, samples, languages);
    var answer :| BatchAnswer(engine, adapter, samples, languages, answer) && outcome == ToOutcome(answer, describe);
    ListMeansAllSucceed(engine, adapter, batch, answer);
    i :| i < |samples| && FailsFirst(engine, adapter, samples, languages, i)
         && Call(engine, adapter, samples[i], languages[i]) == Err(answer.error);
  }

  /** What one member of a batch should be given: the result of its own samples and language, if every
      member would get one alone, and otherwise the error of the first failure. */
  ghost predicate AsDecoded(engine: Engine, adapter: Adapter, describe: Error -> string,
                            batch: seq<Ticket>, k: nat, value: Settlement)
    requires k < |batch|
  {
    if forall j :: 0 <= j < |batch| ==> AloneOf(engine, adapter, batch, j).Ok?
    then value == Success(AloneOf(engine, adapter, batch, k).value)
    else exists j: nat :: j < |batch| && FailsFirst(engine, adapter, SamplesOf(batch), LanguagesOf(batch), j)
                          && AloneOf(engine, adapter, batch, j).Err?
                          && value == Failed(describe(AloneOf(engine, adapter, batch, j).error))
  }

  /** One of the batches dispatched holds the ticket, and gave it what that batch should give it. */
  ghost predicate ServedBy(engine: Engine, adapter: Adapter, describe: Error -> string,
                           dispatched: seq<seq<Ticket>>, t: Ticket, value: Settlement) {
    exists n, k :: 0 <= n < |dispatched| && 0 <= k < |dispatched[n]| && dispatched[n][k] == t
                   && AsDecoded(engine, adapter, describe, dispatched[n], k, value)
  }

  lemma GivenAsDecoded(cfg: Config, engine: Engine, adapter: Adapter, describe: Error -> string,
                       dispatched: seq<seq<Ticket>>, n: nat, k: nat, t: Ticket, value: Settlement)
    requires BackedBy(cfg, engine, adapter, describe) && Gives(cfg, dispatched, n, k, t, value)
    ensures ServedBy(engine, adapter, describe, dispatched, t, value)
  {
    hide BackedBy, Call, FailsFirst;
    var batch := dispatched[n];
    assert value == BatchValues(cfg, n, batch)[k];
    OneFailureFailsTheBatch(cfg, engine, adapter, describe, n, batch, k);
    if forall j :: 0 <= j < |batch| ==> AloneOf(engine, adapter, batch, j).Ok? {
      AdapterIsPositional(cfg, engine, adapter, describe, n, SamplesOf(batch), LanguagesOf(batch), k);
    } else {
      var j :| 0 <= j < |batch| && AloneOf(engine, adapter, batch, j).Err?;
      var first := EverybodyIsToldTheFirstFailure(cfg, engine, adapter, describe, n, batch);
      assert AloneOf(engine, adapter, batch, first).Err?;
    }
  }

  /** Through the batcher and the adapter, by the end of any run: a request put behind the first sentinel
      fails as closed, and every other was in a batch and got what that batch should give it. */
  lemma CallersGetTheirOwn(cfg: Config, engine: Engine, adapter: Adapter, describe: Error -> string, events: seq<Event>, last: Event)
    requires cfg.maxBatch >= 1 && BackedBy(cfg, engine, adapter, describe)
    ensures var s := Run(cfg, START, events); var s' := Next(cfg, s, last);
      Stops(cfg, s, last) ==>
        forall i: nat :: i < |s'.log| && s'.log[i].Some? ==>
          && i in s'.worker.settled
          && (Behind(s'.log, i) ==> s'.worker.settled[i] == Closed)
          && (!Behind(s'.log, i) ==>
                ServedBy(engine, adapter, describe, s'.worker.dispatched, Ticket(i, s'.log[i].value), s'.worker.settled[i]))
  {
    hide Run, Next, BackedBy, Behind, Call, AsDecoded, Gives;
    WholeRunSettlement(cfg, events, last);
    var s := Run(cfg, START, events);
    var s' := Next(cfg, s, last);
    if Stops(cfg, s, last) {
      forall i: nat | i < |s'.log| && s'.log[i].Some?
        ensures i in s'.worker.settled && (Behind(s'.log, i) ==> s'.worker.settled[i] == Closed)
        ensures !Behind(s'.log, i) ==> ServedBy(engine, adapter, describe, s'.worker.dispatched, Ticket(i, s'.log[i].value), s'.worker.settled[i])
      {
        assert SettledFairly(cfg, s'.log, s'.worker, i);
        if !Behind(s'.log, i) {
          var t := Ticket(i, s'.log[i].value);
          var n: nat, k: nat :| Gives(cfg, s'.worker.dispatched, n, k, t, s'.worker.settled[i]);
          GivenAsDecoded(cfg, engine, adapter, describe, s'.worker.dispatched, n, k, t, s'.worker.settled[i]);
        }
      }
    }
  }

  /** So a request that would succeed alone can fail for its neighbour's language, and is told so. */
  lemma NeighbourCanFailARequest(cfg: Config, engine: Engine, describe: Error -> string, n: nat, a: Samples, b: Samples)
    requires BackedBy(cfg, engine, Adapter(["en"], map["en" := 0]), describe)
    ensures var adapter := Adapter(["en"], map["en" := 0]);
      && Call(engine, adapter, a, "en").Ok?
      && BatchValues(cfg, n, [Ticket(0, Pending(a, "en")), Ticket(1, Pending(b, "fi"))])[0] ==
         Failed(describe(UnsupportedLanguage("fi")))
  {
    var adapter := Adapter(["en"], map["en" := 0]);
    var batch := [Ticket(0, Pending(a, "en")), Ticket(1, Pending(b, "fi"))];
    assert AloneOf(engine, adapter, batch, 0).Ok?;
    assert AloneOf(engine, adapter, batch, 1) == Err(UnsupportedLanguage("fi"));
    var i := EverybodyIsToldTheFirstFailure(cfg, engine, adapter, describe, n, batch);
  }
}
