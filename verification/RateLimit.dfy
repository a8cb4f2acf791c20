/** `_RateLimitWindows` in app.py: a sliding window per key, pruned on the way in and swept once a
    minute, against a table that keeps every admission for ever. */
module RateLimit {
  import opened Prelude

  datatype Key = Key(tenant: Option<string>, server: string)

  const WINDOW := 60.0
  const SWEEP := 60.0

  datatype State = State(windows: map<Key, seq<real>>, lastSweep: real)

  datatype Verdict = Admitted | RetryAfter(seconds: real)

  // ---------------------------------------------------------------- the code

  function Sweep(s: State, now: real): State {
    if now - s.lastSweep < SWEEP then s
    else
      State(map k | k in s.windows && s.windows[k] != [] && now - s.windows[k][|s.windows[k]| - 1] < WINDOW :: s.windows[k], now)
  }

  /** `popleft` while the front is a window old. */
  function Prune(window: seq<real>, now: real): seq<real> {
    if window != [] && now - window[0] >= WINDOW then Prune(window[1..], now) else window
  }

  function WindowOf(s: State, key: Key): seq<real> {
    if key in s.windows then s.windows[key] else []
  }

  function MaxReal(a: real, b: real): real { if a < b then b else a }

  function Judge(window: seq<real>, limit: nat, now: real): Verdict
    requires limit >= 1
  {
    if |window| >= limit then RetryAfter(MaxReal(1.0, WINDOW - (now - window[0]))) else Admitted
  }

  /** `wait` for a credential with a limit: the new table, and the verdict. */
  function Wait(s: State, key: Key, limit: nat, now: real): (State, Verdict)
    requires limit >= 1
  {
    var swept := Sweep(s, now);
    var window := Prune(WindowOf(swept, key), now);
    var verdict := Judge(window, limit, now);
    (swept.(windows := swept.windows[key := if verdict.Admitted? then window + [now] else window]), verdict)
  }

  class RateLimitWindows {
    var windows: map<Key, seq<real>>
    var lastSweep: real

    function View(): State reads this { State(windows, lastSweep) }

    constructor (now: real)
      ensures View() == State(map[], now)
    {
      windows, lastSweep := map[], now;
    }

    method SweepStale(now: real)
      modifies this
      ensures View() == Sweep(old(View()), now)
    {
      if now - lastSweep < SWEEP {
        return;
      }
      lastSweep := now;
      var stale := set k | k in windows && (windows[k] == [] || now - windows[k][|windows[k]| - 1] >= WINDOW);
      windows := windows - stale;
    }

    /** A credential without a limit is admitted at once; a limit that is not positive never gets
        past the credential checks. */
    method WaitFor(key: Key, limit: Option<nat>, now: real) returns (verdict: Verdict)
      requires limit.Some? ==> limit.value >= 1
      modifies this
      ensures limit == None ==> verdict == Admitted && View() == old(View())
      ensures limit.Some? ==> (View(), verdict) == Wait(old(View()), key, limit.value, now)
    {
      if limit == None {
        return Admitted;
      }
      SweepStale(now);
      var window := if key in windows then windows[key] else [];
      while window != [] && now - window[0] >= WINDOW
        invariant Prune(window, now) == Prune(WindowOf(View(), key), now)
        decreases |window|
      {
        window := window[1..];
      }
      if |window| >= limit.value {
        windows := windows[key := window];
        return RetryAfter(MaxReal(1.0, WINDOW - (now - window[0])));
      }
      windows := windows[key := window + [now]];
      return Admitted;
    }
  }

  // ---------------------------------------------------------------- keeping everything

  /** Every admission of every key, in order, never forgotten. */
  type Archive = map<Key, seq<real>>

  function Admissions(archive: Archive, key: Key): seq<real> {
    if key in archive then archive[key] else []
  }

  /** The admissions less than a window old. */
  function Recent(log: seq<real>, now: real): seq<real> {
    if log == [] then []
    else (if now - log[0] < WINDOW then [log[0]] else []) + Recent(log[1..], now)
  }

  function Decide(archive: Archive, key: Key, limit: nat, now: real): Verdict
    requires limit >= 1
  {
    Judge(Recent(Admissions(archive, key), now), limit, now)
  }

  function Record(archive: Archive, key: Key, limit: nat, now: real): Archive
    requires limit >= 1
  {
    if Decide(archive, key, limit, now).Admitted? then archive[key := Admissions(archive, key) + [now]] else archive
  }

  ghost predicate Ascending(log: seq<real>) {
    forall i, j :: 0 <= i < j < |log| ==> log[i] <= log[j]
  }

  ghost predicate IsOld(stamp: real, now: real) {
    now - stamp >= WINDOW
  }

  ghost predicate OldUntil(log: seq<real>, cut: nat, now: real) {
    cut <= |log| && forall i :: 0 <= i < cut ==> IsOld(log[i], now)
  }

  ghost predicate YoungFrom(log: seq<real>, cut: nat, now: real) {
    forall i :: cut <= i < |log| ==> !IsOld(log[i], now)
  }

  /** The window is what follows `cut` in the archive, and what comes before it is a window old. */
  ghost predicate CutAt(window: seq<real>, log: seq<real>, clock: real, cut: nat) {
    OldUntil(log, cut, clock) && window == log[cut..]
  }

  ghost predicate Suffix(window: seq<real>, log: seq<real>, clock: real) {
    exists cut: nat :: CutAt(window, log, clock, cut)
  }

  ghost predicate StandsFor(window: seq<real>, log: seq<real>, clock: real) {
    && Ascending(log) && (forall i :: 0 <= i < |log| ==> log[i] <= clock)
    && Suffix(window, log, clock)
  }

  ghost predicate Refines(s: State, archive: Archive, clock: real) {
    forall key :: StandsFor(WindowOf(s, key), Admissions(archive, key), clock)
  }

  lemma {:induction false} RecentSkipsOld(log: seq<real>, cut: nat, now: real)
    requires OldUntil(log, cut, now)
    ensures Recent(log, now) == Recent(log[cut..], now)
  {
    if cut == 0 {
      assert log[0..] == log;
    } else {
      var rest := log[1..];
      assert IsOld(log[0], now);
      assert rest[cut - 1..] == log[cut..];
      RecentSkipsOld(rest, cut - 1, now);
    }
  }

  lemma {:induction false} RecentKeepsYoung(log: seq<real>, now: real)
    requires YoungFrom(log, 0, now)
    ensures Recent(log, now) == log
  {
    if log != [] {
      assert !IsOld(log[0], now);
      RecentKeepsYoung(log[1..], now);
    }
  }

  lemma YoungFrontYoungAll(log: seq<real>, now: real)
    requires Ascending(log) && log != [] && !IsOld(log[0], now)
    ensures YoungFrom(log, 0, now)
  {
    forall i | 0 <= i < |log| ensures !IsOld(log[i], now) {
      assert log[0] <= log[i];
    }
  }

  lemma OldOneFurther(log: seq<real>, now: real, cut: nat)
    requires log != [] && IsOld(log[0], now) && OldUntil(log[1..], cut, now)
    ensures OldUntil(log, cut + 1, now) && log[1..][cut..] == log[cut + 1..]
  {
    forall i | 0 <= i < cut + 1 ensures IsOld(log[i], now) {
      if i > 0 { assert log[1..][i - 1] == log[i]; }
    }
  }

  lemma YoungOneFurther(log: seq<real>, now: real, cut: nat)
    requires log != [] && YoungFrom(log[1..], cut, now)
    ensures YoungFrom(log, cut + 1, now)
  {
    forall i | cut + 1 <= i < |log| ensures !IsOld(log[i], now) {
      assert log[1..][i - 1] == log[i];
    }
  }

  /** What is less than a window old is a suffix of an ascending log. */
  lemma {:induction false} RecentIsSuffix(log: seq<real>, now: real) returns (cut: nat)
    requires Ascending(log)
    ensures CutAt(Recent(log, now), log, now, cut) && YoungFrom(log, cut, now)
  {
    cut := 0;
    if log != [] && IsOld(log[0], now) {
      var rest := RecentIsSuffix(log[1..], now);
      OldOneFurther(log, now, rest);
      YoungOneFurther(log, now, rest);
      cut := rest + 1;
    } else if log != [] {
      YoungFrontYoungAll(log, now);
      RecentKeepsYoung(log, now);
      assert log[0..] == log;
    }
  }

  /** Pruning an ascending window leaves what is less than a window old. */
  lemma {:induction false} PruneIsRecent(window: seq<real>, now: real)
    requires Ascending(window)
    ensures Prune(window, now) == Recent(window, now)
  {
    if window != [] {
      if IsOld(window[0], now) {
        PruneIsRecent(window[1..], now);
      } else {
        YoungFrontYoungAll(window, now);
        RecentKeepsYoung(window, now);
      }
    }
  }

  lemma OldStaysOld(log: seq<real>, cut: nat, clock: real, now: real)
    requires OldUntil(log, cut, clock) && clock <= now
    ensures OldUntil(log, cut, now)
  {
    forall i | 0 <= i < cut ensures IsOld(log[i], now) {
      assert IsOld(log[i], clock);
    }
  }

  lemma SuffixLater(window: seq<real>, log: seq<real>, clock: real, now: real)
    requires Suffix(window, log, clock) && clock <= now
    ensures Suffix(window, log, now)
  {
    var cut: nat :| CutAt(window, log, clock, cut);
    OldStaysOld(log, cut, clock, now);
    assert CutAt(window, log, now, cut);
  }

  lemma OldLastOldAll(log: seq<real>, now: real)
    requires Ascending(log) && log != [] && IsOld(log[|log| - 1], now)
    ensures CutAt([], log, now, |log|)
  {
    forall i | 0 <= i < |log| ensures IsOld(log[i], now) {
      assert i < |log| - 1 ==> log[i] <= log[|log| - 1];
    }
    assert log[|log|..] == [];
  }

  /** A window whose last admission is a window old holds nothing that still counts. */
  lemma StaleIsEmpty(window: seq<real>, log: seq<real>, clock: real, now: real)
    requires Ascending(log) && Suffix(window, log, clock)
    requires window != [] && IsOld(window[|window| - 1], now)
    ensures Suffix([], log, now)
  {
    var cut: nat :| CutAt(window, log, clock, cut);
    assert log[|log| - 1] == window[|window| - 1];
    OldLastOldAll(log, now);
  }

  /** A sweep is invisible: it drops only windows that pruning would empty. */
  lemma SweepKeepsRefinement(s: State, archive: Archive, clock: real, now: real)
    requires Refines(s, archive, clock) && clock <= now
    ensures Refines(Sweep(s, now), archive, now)
  {
    var swept := Sweep(s, now);
    forall key
      ensures StandsFor(WindowOf(swept, key), Admissions(archive, key), now)
    {
      var log := Admissions(archive, key);
      assert StandsFor(WindowOf(s, key), log, clock);
      SuffixLater(WindowOf(s, key), log, clock, now);
      if WindowOf(swept, key) != WindowOf(s, key) {
        StaleIsEmpty(WindowOf(s, key), log, clock, now);
      }
    }
  }

  lemma PrunedStandsForLog(window: seq<real>, log: seq<real>, now: real)
    requires StandsFor(window, log, now)
    ensures Prune(window, now) == Recent(log, now) && StandsFor(Prune(window, now), log, now)
  {
    var cut: nat :| CutAt(window, log, now, cut);
    RecentSkipsOld(log, cut, now);
    PruneIsRecent(log[cut..], now);
    var last := RecentIsSuffix(log, now);
  }

  lemma SuffixGrows(window: seq<real>, log: seq<real>, now: real)
    requires StandsFor(window, log, now)
    ensures StandsFor(window + [now], log + [now], now)
  {
    var cut: nat :| CutAt(window, log, now, cut);
    assert window + [now] == (log + [now])[cut..];
    assert CutAt(window + [now], log + [now], now, cut);
  }

  lemma RecordAdmissions(archive: Archive, key: Key, limit: nat, now: real, other: Key)
    requires limit >= 1
    ensures Admissions(Record(archive, key, limit, now), other) ==
            if other == key && Decide(archive, key, limit, now).Admitted? then Admissions(archive, key) + [now]
            else Admissions(archive, other)
  {
  }

  /** What one call leaves, for the key it names and for the others. */
  lemma WaitWindows(s: State, key: Key, limit: nat, now: real, other: Key)
    requires limit >= 1
    ensures var window := Prune(WindowOf(Sweep(s, now), key), now);
      WindowOf(Wait(s, key, limit, now).0, other) ==
        if other != key then WindowOf(Sweep(s, now), other)
        else if Judge(window, limit, now).Admitted? then window + [now] else window
  {
    hide Prune, Judge, Sweep;
  }

  lemma StandsAfterWait(s: State, archive: Archive, key: Key, limit: nat, now: real, other: Key)
    requires Refines(Sweep(s, now), archive, now) && limit >= 1
    ensures Wait(s, key, limit, now).1 == Decide(archive, key, limit, now)
    ensures StandsFor(WindowOf(Wait(s, key, limit, now).0, other), Admissions(Record(archive, key, limit, now), other), now)
  {
    var window, log := WindowOf(Sweep(s, now), key), Admissions(archive, key);
    assert StandsFor(window, log, now);
    assert StandsFor(WindowOf(Sweep(s, now), other), Admissions(archive, other), now);
    hide StandsFor, Prune, Judge, Sweep, Recent, WindowOf, Admissions, Record;
    PrunedStandsForLog(window, log, now);
    SuffixGrows(Prune(window, now), log, now);
    WaitWindows(s, key, limit, now, other);
    RecordAdmissions(archive, key, limit, now, other);
  }

  /** One call: the pruned and swept table gives the verdict of the table that forgets nothing, the
      seconds to wait included, and goes on standing for it. */
  lemma WaitDecidesLikeTheArchive(s: State, archive: Archive, clock: real, key: Key, limit: nat, now: real)
    requires Refines(s, archive, clock) && clock <= now && limit >= 1
    ensures Wait(s, key, limit, now).1 == Decide(archive, key, limit, now)
    ensures Refines(Wait(s, key, limit, now).0, Record(archive, key, limit, now), now)
  {
    hide StandsFor, Wait, Decide, Record, Sweep;
    SweepKeepsRefinement(s, archive, clock, now);
    StandsAfterWait(s, archive, key, limit, now, key);
    forall other
      ensures StandsFor(WindowOf(Wait(s, key, limit, now).0, other), Admissions(Record(archive, key, limit, now), other), now)
    {
      StandsAfterWait(s, archive, key, limit, now, other);
    }
  }

  // ---------------------------------------------------------------- runs

  datatype Call = Call(key: Key, limit: nat, now: real)

  ghost predicate WellTimed(calls: seq<Call>, clock: real)
    decreases |calls|
  {
    calls == [] || (calls[0].limit >= 1 && clock <= calls[0].now && WellTimed(calls[1..], calls[0].now))
  }

  ghost function Verdicts(s: State, calls: seq<Call>, clock: real): (verdicts: seq<Verdict>)
    requires WellTimed(calls, clock)
    ensures |verdicts| == |calls|
    decreases |calls|
  {
    if calls == [] then []
    else
      var (s', verdict) := Wait(s, calls[0].key, calls[0].limit, calls[0].now);
      [verdict] + Verdicts(s', calls[1..], calls[0].now)
  }

  ghost function ArchiveVerdicts(archive: Archive, calls: seq<Call>, clock: real): (verdicts: seq<Verdict>)
    requires WellTimed(calls, clock)
    ensures |verdicts| == |calls|
    decreases |calls|
  {
    if calls == [] then []
    else
      [Decide(archive, calls[0].key, calls[0].limit, calls[0].now)]
      + ArchiveVerdicts(Record(archive, calls[0].key, calls[0].limit, calls[0].now), calls[1..], calls[0].now)
  }

  ghost function FinalArchive(archive: Archive, calls: seq<Call>, clock: real): Archive
    requires WellTimed(calls, clock)
    decreases |calls|
  {
    if calls == [] then archive
    else FinalArchive(Record(archive, calls[0].key, calls[0].limit, calls[0].now), calls[1..], calls[0].now)
  }

  ghost function FinalState(s: State, calls: seq<Call>, clock: real): State
    requires WellTimed(calls, clock)
    decreases |calls|
  {
    if calls == [] then s
    else FinalState(Wait(s, calls[0].key, calls[0].limit, calls[0].now).0, calls[1..], calls[0].now)
  }

  ghost function FinalClock(calls: seq<Call>, clock: real): real {
    if calls == [] then clock else calls[|calls| - 1].now
  }

  lemma FinalClockUnfolds(calls: seq<Call>, clock: real)
    requires calls != []
    ensures FinalClock(calls, clock) == FinalClock(calls[1..], calls[0].now)
  {
  }

  lemma {:induction false} RunRefines(s: State, archive: Archive, calls: seq<Call>, clock: real)
    requires Refines(s, archive, clock) && WellTimed(calls, clock)
    ensures Refines(FinalState(s, calls, clock), FinalArchive(archive, calls, clock), FinalClock(calls, clock))
    decreases |calls|
  {
    if calls != [] {
      var c := calls[0];
      var s', archive' := Wait(s, c.key, c.limit, c.now).0, Record(archive, c.key, c.limit, c.now);
      assert Refines(s', archive', c.now) by { WaitDecidesLikeTheArchive(s, archive, clock, c.key, c.limit, c.now); }
      RunRefines(s', archive', calls[1..], c.now);
      FinalClockUnfolds(calls, clock);
      assert FinalState(s, calls, clock) == FinalState(s', calls[1..], c.now);
      assert FinalArchive(archive, calls, clock) == FinalArchive(archive', calls[1..], c.now);
    }
  }

  lemma {:induction false} QuietKeepsAdmissions(archive: Archive, calls: seq<Call>, clock: real, key: Key)
    requires WellTimed(calls, clock) && forall i :: 0 <= i < |calls| ==> calls[i].key != key
    ensures Admissions(FinalArchive(archive, calls, clock), key) == Admissions(archive, key)
    decreases |calls|
  {
    if calls != [] {
      var c := calls[0];
      QuietKeepsAdmissions(Record(archive, c.key, c.limit, c.now), calls[1..], c.now, key);
    }
  }

  /** Pruning and sweeping change no decision, over any run of calls under a monotone clock, for any
      keys and whatever the limits are from call to call. */
  lemma {:induction false} PruningIsInvisible(s: State, archive: Archive, calls: seq<Call>, clock: real)
    requires Refines(s, archive, clock) && WellTimed(calls, clock)
    ensures Verdicts(s, calls, clock) == ArchiveVerdicts(archive, calls, clock)
    decreases |calls|
  {
    if calls != [] {
      var c := calls[0];
      WaitDecidesLikeTheArchive(s, archive, clock, c.key, c.limit, c.now);
      PruningIsInvisible(Wait(s, c.key, c.limit, c.now).0, Record(archive, c.key, c.limit, c.now), calls[1..], c.now);
    }
  }

  lemma FreshTableRefines(now: real)
    ensures Refines(State(map[], now), map[], now)
  {
    forall key
      ensures StandsFor(WindowOf(State(map[], now), key), Admissions(map[], key), now)
    {
      var log: seq<real> := [];
      assert CutAt([], log, now, 0);
    }
  }

  // ---------------------------------------------------------------- the limit, for a fixed limit

  /** Any `limit + 1` consecutive admissions span at least a window, so no half-open interval of one
      window contains more than `limit` of them. */
  ghost predicate Spaced(log: seq<real>, limit: nat) {
    forall i :: 0 <= i && i + limit < |log| ==> log[i + limit] - log[i] >= WINDOW
  }

  lemma SpacedSpan(log: seq<real>, limit: nat)
    requires Ascending(log) && Spaced(log, limit)
    ensures forall i, j :: 0 <= i && i + limit <= j < |log| ==> log[j] - log[i] >= WINDOW
  {
    forall i, j | 0 <= i && i + limit <= j < |log|
      ensures log[j] - log[i] >= WINDOW
    {
      assert log[i + limit] - log[i] >= WINDOW;
      assert i + limit < j ==> log[i + limit] <= log[j];
    }
  }

  lemma RecordKeepsSpaced(archive: Archive, key: Key, limit: nat, now: real)
    requires limit >= 1 && Ascending(Admissions(archive, key)) && Spaced(Admissions(archive, key), limit)
    ensures Spaced(Admissions(Record(archive, key, limit, now), key), limit)
  {
    var log := Admissions(archive, key);
    var cut := RecentIsSuffix(log, now);
    if Decide(archive, key, limit, now).Admitted? {
      var log' := log + [now];
      forall i | 0 <= i && i + limit < |log'|
        ensures log'[i + limit] - log'[i] >= WINDOW
      {
        if i + limit == |log| { assert i < cut && IsOld(log[i], now); }
      }
    }
  }

  ghost predicate LimitIs(calls: seq<Call>, key: Key, limit: nat) {
    forall i :: 0 <= i < |calls| && calls[i].key == key ==> calls[i].limit == limit
  }

  lemma {:induction false} RunIsSpaced(archive: Archive, calls: seq<Call>, clock: real, key: Key, limit: nat)
    requires limit >= 1 && WellTimed(calls, clock) && LimitIs(calls, key, limit)
    requires Ascending(Admissions(archive, key)) && Spaced(Admissions(archive, key), limit)
    requires forall i :: 0 <= i < |Admissions(archive, key)| ==> Admissions(archive, key)[i] <= clock
    ensures Ascending(Admissions(FinalArchive(archive, calls, clock), key))
    ensures Spaced(Admissions(FinalArchive(archive, calls, clock), key), limit)
    decreases |calls|
  {
    if calls != [] {
      var c := calls[0];
      if c.key == key { RecordKeepsSpaced(archive, key, limit, c.now); }
      RunIsSpaced(Record(archive, c.key, c.limit, c.now), calls[1..], c.now, key, limit);
    }
  }

  /** The times at which calls for the key were admitted, read off the verdicts. */
  ghost function AdmittedTimes(calls: seq<Call>, verdicts: seq<Verdict>, key: Key): seq<real>
    requires |verdicts| == |calls|
    decreases |calls|
  {
    if calls == [] then []
    else
      (if calls[0].key == key && verdicts[0].Admitted? then [calls[0].now] else [])
      + AdmittedTimes(calls[1..], verdicts[1..], key)
  }

  lemma AdmittedTimesUnfold(calls: seq<Call>, first: Verdict, rest: seq<Verdict>, key: Key)
    requires calls != [] && |rest| == |calls| - 1
    ensures AdmittedTimes(calls, [first] + rest, key) ==
            (if calls[0].key == key && first.Admitted? then [calls[0].now] else []) + AdmittedTimes(calls[1..], rest, key)
  {
    assert ([first] + rest)[1..] == rest;
  }

  lemma {:induction false} ArchiveHoldsTheAdmitted(archive: Archive, calls: seq<Call>, clock: real, key: Key)
    requires WellTimed(calls, clock)
    ensures Admissions(FinalArchive(archive, calls, clock), key) ==
            Admissions(archive, key) + AdmittedTimes(calls, ArchiveVerdicts(archive, calls, clock), key)
    decreases |calls|
  {
    hide Decide, Record, Admissions;
    var before := Admissions(archive, key);
    if calls == [] {
      assert before + [] == before;
    } else {
      var c, rest := calls[0], calls[1..];
      var verdict, archive' := Decide(archive, c.key, c.limit, c.now), Record(archive, c.key, c.limit, c.now);
      var now := if c.key == key && verdict.Admitted? then [c.now] else [];
      RecordAdmissions(archive, c.key, c.limit, c.now, key);
      assert Admissions(archive', key) == before + now;
      var later := AdmittedTimes(rest, ArchiveVerdicts(archive', rest, c.now), key);
      AdmittedTimesUnfold(calls, verdict, ArchiveVerdicts(archive', rest, c.now), key);
      ArchiveHoldsTheAdmitted(archive', rest, c.now, key);
      assert before + now + later == before + (now + later);
    }
  }

  /** The archive's log of a key is the list of times at which the code admitted it. */
  lemma CodeAdmitsTheArchive(start: real, calls: seq<Call>, key: Key)
    requires WellTimed(calls, start)
    ensures AdmittedTimes(calls, Verdicts(State(map[], start), calls, start), key) ==
            Admissions(FinalArchive(map[], calls, start), key)
  {
    FreshTableRefines(start);
    PruningIsInvisible(State(map[], start), map[], calls, start);
    ArchiveHoldsTheAdmitted(map[], calls, start, key);
  }

  /** The rate limit holds: over any run from an empty table in which a key's limit stays the same,
      every half-open interval of 60 seconds contains at most `limit` of the times at which `wait`
      admitted the key. */
  lemma AtMostLimitPerWindow(calls: seq<Call>, start: real, key: Key, limit: nat, from: real, i: nat, j: nat)
    requires limit >= 1 && WellTimed(calls, start) && LimitIs(calls, key, limit)
    requires var times := AdmittedTimes(calls, Verdicts(State(map[], start), calls, start), key);
      i <= j < |times| && from <= times[i] && times[j] < from + WINDOW
    ensures j - i + 1 <= limit
  {
    CodeAdmitsTheArchive(start, calls, key);
    RunIsSpaced(map[], calls, start, key, limit);
    SpacedSpan(Admissions(FinalArchive(map[], calls, start), key), limit);
  }

  // ---------------------------------------------------------------- the verdict, exactly

  /** Which of these times are less than 60 seconds old. */
  function Counting(times: seq<real>, now: real): set<nat> {
    set i: nat | i < |times| && now - times[i] < 60.0
  }

  function Stretch(first: nat, stop: nat): (indexes: set<nat>)
    requires first <= stop
    ensures |indexes| == stop - first
    ensures forall i: nat :: i in indexes <==> first <= i < stop
    decreases stop - first
  {
    if first == stop then {} else Stretch(first, stop - 1) + {stop - 1}
  }

  /** What an ascending log still counts: how many, and which is the oldest. */
  lemma RecentIsCounting(log: seq<real>, now: real) returns (oldest: nat)
    requires Ascending(log)
    ensures |Recent(log, now)| == |Counting(log, now)|
    ensures Recent(log, now) != [] ==>
              && oldest in Counting(log, now) && Recent(log, now)[0] == log[oldest]
              && forall k :: k in Counting(log, now) ==> oldest <= k && log[oldest] <= log[k]
  {
    oldest := RecentIsSuffix(log, now);
    forall i: nat
      ensures i in Counting(log, now) <==> i in Stretch(oldest, |log|)
    {
      if i < oldest { assert IsOld(log[i], now); }
      if oldest <= i < |log| { assert !IsOld(log[i], now); }
    }
    assert Counting(log, now) == Stretch(oldest, |log|);
  }

  lemma {:induction false} AdmittedTimesAscend(calls: seq<Call>, verdicts: seq<Verdict>, clock: real, key: Key)
    requires WellTimed(calls, clock) && |verdicts| == |calls|
    ensures Ascending(AdmittedTimes(calls, verdicts, key))
    ensures forall i :: 0 <= i < |AdmittedTimes(calls, verdicts, key)| ==> clock <= AdmittedTimes(calls, verdicts, key)[i]
    decreases |calls|
  {
    if calls != [] {
      AdmittedTimesAscend(calls[1..], verdicts[1..], calls[0].now, key);
    }
  }

  lemma {:induction false} WellTimedPrefix(calls: seq<Call>, clock: real, i: nat)
    requires WellTimed(calls, clock) && i < |calls|
    ensures WellTimed(calls[..i], clock) && calls[i].limit >= 1
    decreases |calls|
  {
    if i > 0 {
      WellTimedPrefix(calls[1..], calls[0].now, i - 1);
      assert calls[..i][1..] == calls[1..][..i - 1];
    }
  }

  /** The verdict on call `i`, from the admissions before it. */
  lemma {:induction false} ArchiveVerdictAt(archive: Archive, calls: seq<Call>, clock: real, i: nat)
    requires WellTimed(calls, clock) && i < |calls| && calls[i].limit >= 1
    ensures var verdicts := ArchiveVerdicts(archive, calls, clock);
      var log := Admissions(archive, calls[i].key) + AdmittedTimes(calls[..i], verdicts[..i], calls[i].key);
      verdicts[i] == Judge(Recent(log, calls[i].now), calls[i].limit, calls[i].now)
    decreases |calls|
  {
    hide Judge, Recent, Record, Admissions, AdmittedTimes;
    if i == 0 {
      assert AdmittedTimes([], [], calls[0].key) == [] by { NobodyAdmitted(calls[0].key); }
      assert Admissions(archive, calls[0].key) + [] == Admissions(archive, calls[0].key);
    } else {
      var c, rest := calls[0], calls[1..];
      var verdict, archive' := Decide(archive, c.key, c.limit, c.now), Record(archive, c.key, c.limit, c.now);
      var later := ArchiveVerdicts(archive', rest, c.now);
      ArchiveVerdictAt(archive', rest, c.now, i - 1);
      assert ([verdict] + later)[..i] == [verdict] + later[..i - 1];
      OneCallLater(archive, calls, later, i);
    }
  }

  lemma NobodyAdmitted(key: Key)
    ensures AdmittedTimes([], [], key) == []
  {
  }

  /** What was admitted before call `i`, counted from the table and from the table after the first call. */
  lemma OneCallLater(archive: Archive, calls: seq<Call>, later: seq<Verdict>, i: nat)
    requires 0 < i < |calls| && |later| == |calls| - 1 && calls[0].limit >= 1
    ensures var c, key := calls[0], calls[i].key;
      var verdict, archive' := Decide(archive, c.key, c.limit, c.now), Record(archive, c.key, c.limit, c.now);
      Admissions(archive, key) + AdmittedTimes(calls[..i], [verdict] + later[..i - 1], key) ==
      Admissions(archive', key) + AdmittedTimes(calls[1..][..i - 1], later[..i - 1], key)
  {
    hide Decide, Record, Admissions, AdmittedTimes;
    var c, key, before := calls[0], calls[i].key, Admissions(archive, calls[i].key);
    var verdict := Decide(archive, c.key, c.limit, c.now);
    RecordAdmissions(archive, c.key, c.limit, c.now, key);
    assert calls[..i][1..] == calls[1..][..i - 1];
    AdmittedTimesUnfold(calls[..i], verdict, later[..i - 1], key);
    var now := if c.key == key && verdict.Admitted? then [c.now] else [];
    var times := AdmittedTimes(calls[1..][..i - 1], later[..i - 1], key);
    assert before + now + times == before + (now + times);
    assert before + [] == before;
  }

  /** A call is refused if and only if at least its limit of the admitted times are less than 60 seconds
      old, and it is told to wait until the oldest of those turns 60 seconds old, but never less than a
      second. */
  ghost predicate Deserved(times: seq<real>, limit: nat, now: real, verdict: Verdict) {
    var counting := Counting(times, now);
    && (verdict.RetryAfter? <==> |counting| >= limit)
    && (verdict.RetryAfter? ==> exists oldest ::
          && oldest in counting && (forall k :: k in counting ==> times[oldest] <= times[k])
          && verdict.seconds == if now - times[oldest] <= 59.0 then 60.0 - (now - times[oldest]) else 1.0)
  }

  lemma JudgedAsDeserved(times: seq<real>, limit: nat, now: real)
    requires Ascending(times) && limit >= 1
    ensures Deserved(times, limit, now, Judge(Recent(times, now), limit, now))
  {
    hide Recent, Counting, Ascending;
    var oldest := RecentIsCounting(times, now);
  }

  /** Every verdict of every run, from nothing but the times admitted before it. */
  lemma VerdictIsExact(calls: seq<Call>, start: real, i: nat)
    requires WellTimed(calls, start) && i < |calls|
    ensures var verdicts := Verdicts(State(map[], start), calls, start);
      Deserved(AdmittedTimes(calls[..i], verdicts[..i], calls[i].key), calls[i].limit, calls[i].now, verdicts[i])
  {
    hide Refines, Recent, Judge, Deserved, Ascending, Verdicts, ArchiveVerdicts, AdmittedTimes, WellTimed;
    FreshTableRefines(start);
    PruningIsInvisible(State(map[], start), map[], calls, start);
    WellTimedPrefix(calls, start, i);
    ArchiveVerdictAt(map[], calls, start, i);
    var verdicts := ArchiveVerdicts(map[], calls, start);
    var times := AdmittedTimes(calls[..i], verdicts[..i], calls[i].key);
    AdmittedTimesAscend(calls[..i], verdicts[..i], start, calls[i].key);
    assert [] + times == times;
    JudgedAsDeserved(times, calls[i].limit, calls[i].now);
  }

  // ---------------------------------------------------------------- what is forgotten

  type Mention = (Key, real)

  function Mentions(calls: seq<Call>): set<Mention> {
    set i | 0 <= i < |calls| :: (calls[i].key, calls[i].now)
  }

  ghost predicate MentionedSince(seen: set<Mention>, key: Key, time: real) {
    exists t: real :: (key, t) in seen && t > time
  }

  /** Every stamp in the table is a call of its key, and every key was called less than 60 seconds before the
      last sweep, or later; and the last sweep is less than 60 seconds old. */
  ghost predicate Tidy(s: State, seen: set<Mention>, clock: real) {
    && (forall k, j :: k in s.windows && 0 <= j < |s.windows[k]| ==> (k, s.windows[k][j]) in seen)
    && (forall k :: k in s.windows ==> MentionedSince(seen, k, s.lastSweep - 60.0))
    && s.lastSweep <= clock < s.lastSweep + 60.0
  }

  lemma {:induction false} PruneKeepsSome(window: seq<real>, now: real)
    ensures forall j :: 0 <= j < |Prune(window, now)| ==> Prune(window, now)[j] in window
  {
    if window != [] { PruneKeepsSome(window[1..], now); }
  }

  lemma SweepTidies(s: State, seen: set<Mention>, clock: real, now: real)
    requires Tidy(s, seen, clock) && clock <= now
    ensures Tidy(Sweep(s, now), seen, now)
  {
    var swept := Sweep(s, now);
    if now - s.lastSweep >= SWEEP {
      forall k | k in swept.windows
        ensures MentionedSince(seen, k, swept.lastSweep - 60.0)
      {
        var last := |s.windows[k]| - 1;
        assert (k, s.windows[k][last]) in seen;
      }
    }
  }

  lemma WaitTidies(s: State, seen: set<Mention>, clock: real, key: Key, limit: nat, now: real)
    requires Tidy(s, seen, clock) && clock <= now && limit >= 1
    ensures Tidy(Wait(s, key, limit, now).0, seen + {(key, now)}, now)
  {
    hide Prune, Judge, Sweep;
    var swept, s', seen' := Sweep(s, now), Wait(s, key, limit, now).0, seen + {(key, now)};
    SweepTidies(s, seen, clock, now);
    PruneKeepsSome(WindowOf(swept, key), now);
    forall k | k in s'.windows
      ensures MentionedSince(seen', k, s'.lastSweep - 60.0)
    {
      if k == key {
        assert (key, now) in seen';
      } else {
        var t: real :| (k, t) in seen && t > swept.lastSweep - 60.0;
        assert (k, t) in seen';
      }
    }
  }

  lemma {:induction false} RunTidies(s: State, seen: set<Mention>, calls: seq<Call>, clock: real)
    requires Tidy(s, seen, clock) && WellTimed(calls, clock)
    ensures Tidy(FinalState(s, calls, clock), seen + Mentions(calls), FinalClock(calls, clock))
    decreases |calls|
  {
    hide Tidy, Wait;
    if calls == [] {
      assert seen + Mentions(calls) == seen;
    } else {
      var c, rest := calls[0], calls[1..];
      WaitTidies(s, seen, clock, c.key, c.limit, c.now);
      RunTidies(Wait(s, c.key, c.limit, c.now).0, seen + {(c.key, c.now)}, rest, c.now);
      FinalClockUnfolds(calls, clock);
      assert Mentions(calls) == {(c.key, c.now)} + Mentions(rest) by {
        assert calls == [c] + rest;
        forall m | m in Mentions(rest) ensures m in Mentions(calls) {
          var i :| 0 <= i < |rest| && m == (rest[i].key, rest[i].now);
          assert calls[i + 1] == rest[i];
        }
      }
      assert seen + {(c.key, c.now)} + Mentions(rest) == seen + Mentions(calls);
    }
  }

  /** The table does not grow with keys that have gone quiet: over any run, a key still in it was called less
      than two minutes before the last call of the run. */
  lemma IdleKeysAreForgotten(start: real, calls: seq<Call>, key: Key)
    requires WellTimed(calls, start) && key in FinalState(State(map[], start), calls, start).windows
    ensures exists i :: 0 <= i < |calls| && calls[i].key == key && calls[i].now > FinalClock(calls, start) - 120.0
  {
    var s := FinalState(State(map[], start), calls, start);
    RunTidies(State(map[], start), {}, calls, start);
    var t: real :| (key, t) in {} + Mentions(calls) && t > s.lastSweep - 60.0;
    var i :| 0 <= i < |calls| && (calls[i].key, calls[i].now) == (key, t);
  }

  lemma QuietKeyIsAdmitted(archive: Archive, key: Key, limit: nat, now: real, later: real)
    requires limit >= 1 && Ascending(Admissions(archive, key)) && Spaced(Admissions(archive, key), limit)
    requires forall i :: 0 <= i < |Admissions(archive, key)| ==> Admissions(archive, key)[i] <= now
    requires Decide(archive, key, limit, now).RetryAfter?
    requires later >= now + Decide(archive, key, limit, now).seconds
    ensures Decide(archive, key, limit, later) == Admitted
  {
    var log := Admissions(archive, key);
    var cut := RecentIsSuffix(log, now);
    var cut' := RecentIsSuffix(log, later);
    assert Recent(log, now)[0] == log[cut];
    assert !IsOld(log[cut], now) && IsOld(log[cut], later);
    assert cut < cut';
    SpacedSpan(log, limit);
    assert log[|log| - 1] - log[cut] < WINDOW;
  }

  /** A refused key that stays quiet for the seconds it was told to wait is admitted next: after any
      run with one limit for the key, a refusal, and any calls of other keys in between. */
  lemma RefusedKeyIsAdmittedAfterItsWait(
      start: real, calls: seq<Call>, key: Key, limit: nat, now: real, quiet: seq<Call>, later: real)
    requires limit >= 1 && WellTimed(calls, start) && LimitIs(calls, key, limit)
    requires FinalClock(calls, start) <= now && WellTimed(quiet, now) && FinalClock(quiet, now) <= later
    requires forall i :: 0 <= i < |quiet| ==> quiet[i].key != key
    requires var s := FinalState(State(map[], start), calls, start);
      Wait(s, key, limit, now).1.RetryAfter? && later >= now + Wait(s, key, limit, now).1.seconds
    ensures var s := FinalState(State(map[], start), calls, start);
      Wait(FinalState(Wait(s, key, limit, now).0, quiet, now), key, limit, later).1 == Admitted
  {
    var empty := State(map[], start);
    FreshTableRefines(start);
    RunRefines(empty, map[], calls, start);
    var s, archive := FinalState(empty, calls, start), FinalArchive(map[], calls, start);
    var clock := FinalClock(calls, start);
    RunIsSpaced(map[], calls, start, key, limit);
    assert StandsFor(WindowOf(s, key), Admissions(archive, key), clock);
    WaitDecidesLikeTheArchive(s, archive, clock, key, limit, now);
    var s' := Wait(s, key, limit, now).0;
    assert Record(archive, key, limit, now) == archive;
    RunRefines(s', archive, quiet, now);
    QuietKeepsAdmissions(archive, quiet, now, key);
    WaitDecidesLikeTheArchive(FinalState(s', quiet, now), FinalArchive(archive, quiet, now), FinalClock(quiet, now), key, limit, later);
    QuietKeyIsAdmitted(archive, key, limit, now, later);
  }
}
