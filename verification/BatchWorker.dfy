/** The worker of `MicroBatcher`, as a machine driven by what each poll of its queue returns, and the
    system in which callers put requests and shutdown sentinels at any moment between two polls. */
module BatchWorker {
  import opened Prelude
  import opened Selection

  datatype Transcript = Transcript(text: string, language: string)

  /** What the model made of one batch: a list of results, of any length, or an exception. */
  datatype BatchOutcome = Results(results: seq<Transcript>) | Raises(error: string)

  datatype Settlement = Success(value: Transcript) | Failed(error: string) | Closed

  const WRONG_COUNT := "transcriber returned the wrong number of results"

  /** `transcribe` takes the number of the dispatch first, so that it may answer the same batch
      differently at different times. */
  datatype Config = Config(maxBatch: nat, window: bool, transcribe: (nat, seq<seq<real>>, seq<string>) -> BatchOutcome)

  datatype Phase =
    | Blocking     // nothing waiting: inside queue.get()
    | Collecting   // the free drain
    | Lingering    // the collection window
    | Failing      // _drain_on_close
    | Stopped

  /** `settled` is what each request's `settle` was last given, `settles` counts those calls. A
      request is known by its place in the order in which items left the queue. `dispatched` is the batches
      handed to the model so far, which the source does not keep. */
  datatype Worker = Worker(
    phase: Phase, waiting: seq<Ticket>, taken: nat,
    settled: map<nat, Settlement>, settles: multiset<nat>,
    batches: nat, utterances: nat, largest: nat, dispatched: seq<seq<Ticket>>)

  datatype Poll = Got(pending: Pending) | Sentinel | Empty

  const FRESH := Worker(Blocking, [], 0, map[], multiset{}, 0, 0, 0, [])

  // ---------------------------------------------------------------- dispatch

  function Settle(w: Worker, place: nat, value: Settlement): Worker {
    w.(settled := w.settled[place := value], settles := w.settles + multiset{place})
  }

  function SettleAll(w: Worker, batch: seq<Ticket>, values: seq<Settlement>): Worker
    requires |batch| == |values|
    decreases |batch|
  {
    if batch == [] then w
    else SettleAll(Settle(w, batch[0].place, values[0]), batch[1..], values[1..])
  }

  /** What a dispatch gives each member of the batch. */
  function Values(outcome: BatchOutcome, n: nat): (values: seq<Settlement>)
    ensures |values| == n
  {
    match outcome
    case Raises(error) => seq(n, _ => Failed(error))
    case Results(results) =>
      if |results| != n then seq(n, _ => Failed(WRONG_COUNT))
      else seq(n, i requires 0 <= i < n => Success(results[i]))
  }

  function SamplesOf(batch: seq<Ticket>): (samples: seq<seq<real>>)
    ensures |samples| == |batch| && forall i :: 0 <= i < |batch| ==> samples[i] == batch[i].pending.samples
  {
    seq(|batch|, i requires 0 <= i < |batch| => batch[i].pending.samples)
  }

  function LanguagesOf(batch: seq<Ticket>): (languages: seq<string>)
    ensures |languages| == |batch| && forall i :: 0 <= i < |batch| ==> languages[i] == batch[i].pending.language
  {
    seq(|batch|, i requires 0 <= i < |batch| => batch[i].pending.language)
  }

  function BatchValues(cfg: Config, n: nat, batch: seq<Ticket>): (values: seq<Settlement>)
    ensures |values| == |batch|
  {
    Values(cfg.transcribe(n, SamplesOf(batch), LanguagesOf(batch)), |batch|)
  }

  function Count(w: Worker, batch: seq<Ticket>): Worker {
    w.(batches := w.batches + 1, utterances := w.utterances + |batch|, largest := Max(w.largest, |batch|),
       dispatched := w.dispatched + [batch])
  }

  function Dispatch(cfg: Config, w: Worker, batch: seq<Ticket>): Worker {
    SettleAll(Count(w, batch), batch, BatchValues(cfg, w.batches, batch))
  }

  // ---------------------------------------------------------------- the worker loop

  function Round(cfg: Config, w: Worker): Worker
    requires cfg.maxBatch >= 1
  {
    var split := Select(w.waiting, cfg.maxBatch);
    Dispatch(cfg, w, split.batch).(waiting := split.rest)
  }

  /** The loop that still decodes whatever was drained before the sentinel. */
  function CloseOut(cfg: Config, w: Worker): Worker
    requires cfg.maxBatch >= 1
    decreases |w.waiting|
  {
    if w.waiting == [] then w.(phase := Failing) else CloseOut(cfg, Round(cfg, w))
  }

  function EndCollect(cfg: Config, w: Worker, closing: bool): Worker
    requires cfg.maxBatch >= 1
  {
    var next := Round(cfg, w);
    if closing then CloseOut(cfg, next)
    else next.(phase := if next.waiting == [] then Blocking else Collecting)
  }

  function Take(w: Worker, pending: Pending): Worker {
    w.(waiting := w.waiting + [Ticket(w.taken, pending)], taken := w.taken + 1)
  }

  function Step(cfg: Config, w: Worker, poll: Poll): Worker
    requires cfg.maxBatch >= 1
  {
    match (w.phase, poll)
    case (Blocking, Got(p)) => Take(w, p).(phase := Collecting)
    case (Blocking, Sentinel) => w.(taken := w.taken + 1, phase := Failing)
    case (Blocking, Empty) => w
    case (Collecting, Got(p)) => Take(w, p)
    case (Collecting, Empty) =>
      if 1 < |w.waiting| < cfg.maxBatch && cfg.window then w.(phase := Lingering) else EndCollect(cfg, w, false)
    case (Lingering, Got(p)) =>
      var grown := Take(w, p);
      if |grown.waiting| < cfg.maxBatch then grown else EndCollect(cfg, grown, false)
    case (Lingering, Empty) => EndCollect(cfg, w, false)
    case (Collecting, Sentinel) => EndCollect(cfg, w.(taken := w.taken + 1), true)
    case (Lingering, Sentinel) => EndCollect(cfg, w.(taken := w.taken + 1), true)
    case (Failing, Got(p)) => Settle(w, w.taken, Closed).(taken := w.taken + 1)
    case (Failing, Sentinel) => w.(taken := w.taken + 1)
    case (Failing, Empty) => w.(phase := Stopped)
    case (Stopped, _) => w
  }

  // ---------------------------------------------------------------- the queue

  /** `log` is everything ever put; the worker has taken a prefix of it, and the queue is the rest. */
  datatype System = System(queue: seq<Option<Pending>>, log: seq<Option<Pending>>, worker: Worker)

  const START := System([], [], FRESH)

  datatype Event =
    | Put(item: Option<Pending>)   // a caller's request, or `close` putting the sentinel
    | PollQueue                    // the worker asks; a blocked `get` waits while there is nothing
    | Deadline                     // the collection window runs out

  function Answer(queue: seq<Option<Pending>>): Poll {
    if queue == [] then Empty else if queue[0].Some? then Got(queue[0].value) else Sentinel
  }

  function Next(cfg: Config, s: System, event: Event): System
    requires cfg.maxBatch >= 1
  {
    match event
    case Put(item) => s.(queue := s.queue + [item], log := s.log + [item])
    case Deadline => if s.worker.phase.Lingering? then s.(worker := Step(cfg, s.worker, Empty)) else s
    case PollQueue =>
      if s.worker.phase.Stopped? then s
      else s.(queue := if s.queue == [] then [] else s.queue[1..], worker := Step(cfg, s.worker, Answer(s.queue)))
  }

  function Run(cfg: Config, s: System, events: seq<Event>): System
    requires cfg.maxBatch >= 1
    decreases |events|
  {
    if events == [] then s else Run(cfg, Next(cfg, s, events[0]), events[1..])
  }

  // ---------------------------------------------------------------- invariant

  function Tickets(waiting: seq<Ticket>): set<Ticket> { set t: Ticket | t in waiting }

  /** `n` items of the log have been taken. The open tickets and the places settled share out the
      requests among them, and every `settle` was called once. */
  ghost predicate Balanced(
      log: seq<Option<Pending>>, open: set<Ticket>, n: nat,
      settled: map<nat, Settlement>, settles: multiset<nat>)
  {
    && n <= |log|
    && (forall t :: t in open ==> t.place < n && log[t.place] == Some(t.pending) && t.place !in settled)
    && (forall i :: i in settled ==> i < n && log[i].Some?)
    && (forall i: nat :: i < n && log[i].Some? ==> i in settled || Ticket(i, log[i].value) in open)
    && settles == multiset(settled.Keys)
  }

  ghost predicate Accounted(log: seq<Option<Pending>>, open: set<Ticket>, n: nat, w: Worker) {
    Balanced(log, open, n, w.settled, w.settles)
  }

  /** A sentinel lies before place `i`. */
  ghost predicate Behind(log: seq<Option<Pending>>, i: nat) {
    exists j :: 0 <= j < i && j < |log| && log[j] == None
  }

  /** The requests failed as closed are exactly the settled ones behind the first sentinel. */
  ghost predicate ClosedFairly(log: seq<Option<Pending>>, settled: map<nat, Settlement>) {
    forall i :: i in settled ==> (settled[i] == Closed <==> Behind(log, i))
  }

  ghost predicate Invariant(log: seq<Option<Pending>>, w: Worker) {
    && Accounted(log, Tickets(w.waiting), w.taken, w)
    && Arrived(w.waiting)
    && ClosedFairly(log, w.settled)
    && (Behind(log, w.taken) <==> w.phase.Failing? || w.phase.Stopped?)
    && (w.waiting == [] <==> !w.phase.Collecting? && !w.phase.Lingering?)
  }

  ghost predicate SystemInvariant(s: System) {
    && Invariant(s.log, s.worker)
    && s.queue == s.log[s.worker.taken..]
  }

  // ---------------------------------------------------------------- settling a batch

  /** The tickets left open after one of them is settled. */
  lemma SettleLeavesOpen(log: seq<Option<Pending>>, open: set<Ticket>, n: nat,
                         settled: map<nat, Settlement>, settles: multiset<nat>, t: Ticket, value: Settlement)
    requires Balanced(log, open, n, settled, settles) && t in open
    ensures n <= |log| && forall other :: other in open - {t} ==>
              other.place < n && log[other.place] == Some(other.pending) && other.place !in settled[t.place := value]
    ensures forall i: nat :: i < n && log[i].Some? ==> i in settled[t.place := value] || Ticket(i, log[i].value) in open - {t}
  {
    forall other | other in open - {t}
      ensures other.place < n && log[other.place] == Some(other.pending) && other.place !in settled[t.place := value]
    {
      assert other in open;
    }
    forall i: nat | i < n && log[i].Some?
      ensures i in settled[t.place := value] || Ticket(i, log[i].value) in open - {t}
    {
      assert i in settled || Ticket(i, log[i].value) in open;
    }
  }

  lemma SettleBalances(log: seq<Option<Pending>>, open: set<Ticket>, n: nat,
                       settled: map<nat, Settlement>, settles: multiset<nat>, t: Ticket, value: Settlement)
    requires Balanced(log, open, n, settled, settles) && t in open
    ensures Balanced(log, open - {t}, n, settled[t.place := value], settles + multiset{t.place})
  {
    SettleLeavesOpen(log, open, n, settled, settles, t, value);
    assert settled[t.place := value].Keys == settled.Keys + {t.place};
  }

  lemma SettleOne(log: seq<Option<Pending>>, open: set<Ticket>, n: nat,
                  w: Worker, t: Ticket, value: Settlement)
    requires Accounted(log, open, n, w) && ClosedFairly(log, w.settled) && t in open
    requires value == Closed <==> Behind(log, t.place)
    ensures Accounted(log, open - {t}, n, Settle(w, t.place, value))
    ensures ClosedFairly(log, Settle(w, t.place, value).settled)
  {
    hide Balanced, Behind;
    SettleBalances(log, open, n, w.settled, w.settles, t, value);
  }

  lemma OpenIsAhead(log: seq<Option<Pending>>, open: set<Ticket>, n: nat, w: Worker, t: Ticket)
    requires Accounted(log, open, n, w) && t in open && !Behind(log, n)
    ensures !Behind(log, t.place)
  {
  }

  lemma {:induction false} SettleAllKeepsAccounted(
      log: seq<Option<Pending>>, open: set<Ticket>, n: nat,
      w: Worker, batch: seq<Ticket>, values: seq<Settlement>)
    requires |batch| == |values|
    requires Accounted(log, open, n, w) && ClosedFairly(log, w.settled)
    requires Arrived(batch) && Tickets(batch) <= open && !Behind(log, n)
    requires forall k :: 0 <= k < |values| ==> values[k] != Closed
    ensures Accounted(log, open - Tickets(batch), n, SettleAll(w, batch, values))
    ensures ClosedFairly(log, SettleAll(w, batch, values).settled)
    decreases |batch|
  {
    hide Balanced, ClosedFairly;
    if batch == [] {
      assert open - Tickets(batch) == open;
    } else {
      var rest := batch[1..];
      assert batch == [batch[0]] + rest;
      assert batch[0] in Tickets(batch);
      OpenIsAhead(log, open, n, w, batch[0]);
      SettleOne(log, open, n, w, batch[0], values[0]);
      assert Tickets(batch) == {batch[0]} + Tickets(rest);
      assert batch[0] !in rest by {
        forall t | t in rest ensures t.place > batch[0].place {
          var i :| 0 <= i < |rest| && rest[i] == t;
          assert batch[i + 1] == t;
        }
      }
      SettleAllKeepsAccounted(log, open - {batch[0]}, n, Settle(w, batch[0].place, values[0]), rest, values[1..]);
      assert open - {batch[0]} - Tickets(rest) == open - Tickets(batch);
    }
  }

  lemma SettleAllFrame(w: Worker, batch: seq<Ticket>, values: seq<Settlement>)
    requires |batch| == |values|
    ensures var w' := SettleAll(w, batch, values);
      w' == w.(settled := w'.settled, settles := w'.settles)
    decreases |batch|
  {
    if batch != [] { SettleAllFrame(Settle(w, batch[0].place, values[0]), batch[1..], values[1..]); }
  }

  lemma BatchIsNeverClosed(cfg: Config, n: nat, batch: seq<Ticket>)
    ensures forall k :: 0 <= k < |batch| ==> BatchValues(cfg, n, batch)[k] != Closed
  {
  }

  ghost predicate InBatch(batch: seq<Ticket>, place: nat) {
    exists t :: t in batch && t.place == place
  }

  lemma {:induction false} SettleAllLeaves(w: Worker, batch: seq<Ticket>, values: seq<Settlement>, place: nat)
    requires |batch| == |values| && !InBatch(batch, place)
    ensures place in SettleAll(w, batch, values).settled <==> place in w.settled
    ensures place in w.settled ==> SettleAll(w, batch, values).settled[place] == w.settled[place]
    decreases |batch|
  {
    if batch != [] {
      assert batch[0] in batch && forall t :: t in batch[1..] ==> t in batch;
      SettleAllLeaves(Settle(w, batch[0].place, values[0]), batch[1..], values[1..], place);
    }
  }

  /** Each ticket of the batch gets the value at its own position. */
  lemma {:induction false} SettleAllGives(w: Worker, batch: seq<Ticket>, values: seq<Settlement>, k: nat)
    requires |batch| == |values| && Arrived(batch) && k < |batch|
    ensures batch[k].place in SettleAll(w, batch, values).settled
    ensures SettleAll(w, batch, values).settled[batch[k].place] == values[k]
    decreases |batch|
  {
    var first, rest := Settle(w, batch[0].place, values[0]), batch[1..];
    if k > 0 {
      SettleAllGives(first, rest, values[1..], k - 1);
    } else {
      assert !InBatch(rest, batch[0].place) by {
        forall t | t in rest ensures t.place != batch[0].place {
          var i :| 0 <= i < |rest| && rest[i] == t;
          assert batch[i + 1] == t;
        }
      }
      SettleAllLeaves(first, rest, values[1..], batch[0].place);
    }
  }

  /** A dispatch settles every member of its batch, and nobody else. */
  lemma DispatchKeepsAccounted(cfg: Config, log: seq<Option<Pending>>,
                               open: set<Ticket>, n: nat, w: Worker, batch: seq<Ticket>)
    requires Accounted(log, open, n, w) && ClosedFairly(log, w.settled)
    requires Arrived(batch) && Tickets(batch) <= open && !Behind(log, n)
    ensures var w' := Dispatch(cfg, w, batch);
      && Accounted(log, open - Tickets(batch), n, w') && ClosedFairly(log, w'.settled)
      && w'.taken == w.taken && w'.phase == w.phase && w'.batches == w.batches + 1
  {
    BatchIsNeverClosed(cfg, w.batches, batch);
    SettleAllKeepsAccounted(log, open, n, Count(w, batch), batch, BatchValues(cfg, w.batches, batch));
    SettleAllFrame(Count(w, batch), batch, BatchValues(cfg, w.batches, batch));
  }

  /** A round settles its batch and leaves the rest waiting. */
  lemma RoundKeepsAccounted(cfg: Config, log: seq<Option<Pending>>, w: Worker, n: nat)
    requires cfg.maxBatch >= 1
    requires Accounted(log, Tickets(w.waiting), n, w) && ClosedFairly(log, w.settled)
    requires Arrived(w.waiting) && !Behind(log, n)
    ensures var w' := Round(cfg, w);
      && Accounted(log, Tickets(w'.waiting), n, w') && ClosedFairly(log, w'.settled) && Arrived(w'.waiting)
      && w'.waiting == Select(w.waiting, cfg.maxBatch).rest && w'.taken == w.taken && w'.phase == w.phase
      && w'.batches == w.batches + 1
  {
    var split := Select(w.waiting, cfg.maxBatch);
    SelectPartitions(w.waiting, cfg.maxBatch);
    DispatchKeepsAccounted(cfg, log, Tickets(w.waiting), n, w, split.batch);
    assert Tickets(w.waiting) - Tickets(split.batch) == Tickets(split.rest);
  }

  lemma {:induction false} CloseOutKeepsAccounted(
      cfg: Config, log: seq<Option<Pending>>, w: Worker, n: nat)
    requires cfg.maxBatch >= 1
    requires Accounted(log, Tickets(w.waiting), n, w) && ClosedFairly(log, w.settled)
    requires Arrived(w.waiting) && !Behind(log, n)
    ensures var w' := CloseOut(cfg, w);
      && Accounted(log, {}, n, w') && ClosedFairly(log, w'.settled)
      && w'.waiting == [] && w'.taken == w.taken && w'.phase == Failing
    decreases |w.waiting|
  {
    if w.waiting == [] {
      assert Tickets(w.waiting) == {};
    } else {
      RoundKeepsAccounted(cfg, log, w, n);
      CloseOutKeepsAccounted(cfg, log, Round(cfg, w), n);
    }
  }

  // ---------------------------------------------------------------- every step

  /** Taking a request opens its ticket. */
  lemma TakeKeepsAccounted(log: seq<Option<Pending>>, w: Worker)
    requires Accounted(log, Tickets(w.waiting), w.taken, w) && Arrived(w.waiting)
    requires w.taken < |log| && log[w.taken].Some?
    ensures var w' := Take(w, log[w.taken].value);
      Accounted(log, Tickets(w'.waiting), w'.taken, w') && Arrived(w'.waiting)
  {
    var t := Ticket(w.taken, log[w.taken].value);
    var w' := Take(w, log[w.taken].value);
    assert Tickets(w'.waiting) == Tickets(w.waiting) + {t};
    forall a | 0 <= a < |w.waiting| ensures w.waiting[a].place < w.taken {
      assert w.waiting[a] in Tickets(w.waiting);
    }
  }

  /** Passing over a sentinel opens nothing. */
  lemma SkipKeepsAccounted(log: seq<Option<Pending>>, open: set<Ticket>, n: nat, w: Worker)
    requires Accounted(log, open, n, w) && n < |log| && log[n] == None
    ensures Accounted(log, open, n + 1, w)
  {
  }

  lemma BehindNext(log: seq<Option<Pending>>, n: nat)
    requires n < |log|
    ensures Behind(log, n + 1) <==> Behind(log, n) || log[n] == None
  {
    if log[n] == None { assert Behind(log, n + 1); }
  }

  lemma EndCollectKeepsInvariant(cfg: Config, log: seq<Option<Pending>>, w: Worker)
    requires cfg.maxBatch >= 1 && Invariant(log, w)
    requires w.phase.Collecting? || w.phase.Lingering?
    ensures Invariant(log, EndCollect(cfg, w, false))
    ensures EndCollect(cfg, w, false).taken == w.taken
  {
    hide Balanced, Round, Behind;
    RoundKeepsAccounted(cfg, log, w, w.taken);
  }

  lemma ClosingKeepsInvariant(cfg: Config, log: seq<Option<Pending>>, w: Worker)
    requires cfg.maxBatch >= 1 && Invariant(log, w)
    requires w.phase.Collecting? || w.phase.Lingering?
    requires w.taken < |log| && log[w.taken] == None
    ensures var w' := EndCollect(cfg, w.(taken := w.taken + 1), true);
      Invariant(log, w') && w'.taken == w.taken + 1
  {
    hide Balanced, Round, Behind;
    var passed := w.(taken := w.taken + 1);
    RoundKeepsAccounted(cfg, log, passed, w.taken);
    CloseOutKeepsAccounted(cfg, log, Round(cfg, passed), w.taken);
    var w' := CloseOut(cfg, Round(cfg, passed));
    SkipKeepsAccounted(log, {}, w.taken, w');
    BehindNext(log, w.taken);
    assert Tickets(w'.waiting) == {};
    assert w' == EndCollect(cfg, passed, true);
  }

  lemma FailKeepsInvariant(log: seq<Option<Pending>>, w: Worker)
    requires Invariant(log, w) && w.phase.Failing? && w.taken < |log| && log[w.taken].Some?
    ensures Invariant(log, Settle(w, w.taken, Closed).(taken := w.taken + 1))
  {
    var t := Ticket(w.taken, log[w.taken].value);
    assert w.waiting == [];
    assert Tickets(w.waiting) == {};
    var open := w.(taken := w.taken + 1);
    assert Accounted(log, {t}, w.taken + 1, open);
    SettleOne(log, {t}, w.taken + 1, open, t, Closed);
    assert {t} - {t} == Tickets(w.waiting);
    BehindNext(log, w.taken);
  }

  /** What a poll of the queue hands the worker, given how much of the log it has taken. */
  ghost predicate Delivers(log: seq<Option<Pending>>, taken: nat, poll: Poll) {
    match poll
    case Got(p) => taken < |log| && log[taken] == Some(p)
    case Sentinel => taken < |log| && log[taken] == None
    case Empty => true
  }

  lemma IdleStepKeepsInvariant(cfg: Config, log: seq<Option<Pending>>, w: Worker, poll: Poll)
    requires cfg.maxBatch >= 1 && Invariant(log, w) && Delivers(log, w.taken, poll)
    requires w.phase.Blocking? || w.phase.Failing?
    ensures var w' := Step(cfg, w, poll);
      Invariant(log, w') && w'.taken == w.taken + if poll.Empty? then 0 else 1
  {
    if !poll.Empty? { BehindNext(log, w.taken); }
    match (w.phase, poll)
    case (Blocking, Got(p)) => TakeKeepsAccounted(log, w);
    case (Failing, Got(p)) => FailKeepsInvariant(log, w);
    case (_, Sentinel) => SkipKeepsAccounted(log, Tickets(w.waiting), w.taken, w);
    case (_, Empty) =>
  }

  lemma GatherKeepsInvariant(log: seq<Option<Pending>>, w: Worker)
    requires Invariant(log, w) && (w.phase.Collecting? || w.phase.Lingering?)
    requires w.taken < |log| && log[w.taken].Some?
    ensures Invariant(log, Take(w, log[w.taken].value))
  {
    BehindNext(log, w.taken);
    TakeKeepsAccounted(log, w);
  }

  lemma CollectGotKeepsInvariant(cfg: Config, log: seq<Option<Pending>>, w: Worker, poll: Poll)
    requires cfg.maxBatch >= 1 && Invariant(log, w) && Delivers(log, w.taken, poll)
    requires (w.phase.Collecting? || w.phase.Lingering?) && poll.Got?
    ensures var w' := Step(cfg, w, poll);
      Invariant(log, w') && w'.taken == w.taken + if poll.Empty? then 0 else 1
  {
    GatherKeepsInvariant(log, w);
    var grown := Take(w, poll.pending);
    if w.phase.Lingering? && |grown.waiting| >= cfg.maxBatch {
      EndCollectKeepsInvariant(cfg, log, grown);
      assert Step(cfg, w, poll) == EndCollect(cfg, grown, false);
    } else {
      assert Step(cfg, w, poll) == grown;
    }
  }

  lemma CollectEmptyKeepsInvariant(cfg: Config, log: seq<Option<Pending>>, w: Worker, poll: Poll)
    requires cfg.maxBatch >= 1 && Invariant(log, w) && Delivers(log, w.taken, poll)
    requires (w.phase.Collecting? || w.phase.Lingering?) && poll.Empty?
    ensures var w' := Step(cfg, w, poll);
      Invariant(log, w') && w'.taken == w.taken + if poll.Empty? then 0 else 1
  {
    if w.phase.Collecting? && 1 < |w.waiting| < cfg.maxBatch && cfg.window {
      assert Step(cfg, w, poll) == w.(phase := Lingering);
    } else {
      EndCollectKeepsInvariant(cfg, log, w);
      assert Step(cfg, w, poll) == EndCollect(cfg, w, false);
    }
  }

  lemma StepKeepsInvariant(cfg: Config, log: seq<Option<Pending>>, w: Worker, poll: Poll)
    requires cfg.maxBatch >= 1 && Invariant(log, w) && Delivers(log, w.taken, poll)
    requires !w.phase.Stopped?
    ensures var w' := Step(cfg, w, poll);
      Invariant(log, w') && w'.taken == w.taken + if poll.Empty? then 0 else 1
  {
    hide Invariant, EndCollect;
    if w.phase.Blocking? || w.phase.Failing? {
      IdleStepKeepsInvariant(cfg, log, w, poll);
    } else if poll.Got? {
      CollectGotKeepsInvariant(cfg, log, w, poll);
    } else if poll.Empty? {
      CollectEmptyKeepsInvariant(cfg, log, w, poll);
    } else {
      ClosingKeepsInvariant(cfg, log, w);
    }
  }

  lemma PutKeepsInvariant(log: seq<Option<Pending>>, w: Worker, item: Option<Pending>)
    requires Invariant(log, w)
    ensures Invariant(log + [item], w)
  {
    var log' := log + [item];
    forall i: nat | i <= |log|
      ensures Behind(log', i) <==> Behind(log, i)
    {
      if Behind(log', i) {
        var j :| 0 <= j < i && j < |log'| && log'[j] == None;
        assert log[j] == None;
      }
      if Behind(log, i) {
        var j :| 0 <= j < i && j < |log| && log[j] == None;
        assert log'[j] == None;
      }
    }
  }

  lemma NextKeepsInvariant(cfg: Config, s: System, event: Event)
    requires cfg.maxBatch >= 1 && SystemInvariant(s)
    ensures SystemInvariant(Next(cfg, s, event))
  {
    match event
    case Put(item) => PutKeepsInvariant(s.log, s.worker, item);
    case Deadline =>
      if s.worker.phase.Lingering? { StepKeepsInvariant(cfg, s.log, s.worker, Empty); }
    case PollQueue =>
      if !s.worker.phase.Stopped? { StepKeepsInvariant(cfg, s.log, s.worker, Answer(s.queue)); }
  }

  lemma {:induction false} RunKeepsInvariant(cfg: Config, s: System, events: seq<Event>)
    requires cfg.maxBatch >= 1 && SystemInvariant(s)
    ensures SystemInvariant(Run(cfg, s, events))
    decreases |events|
  {
    if events != [] {
      NextKeepsInvariant(cfg, s, events[0]);
      RunKeepsInvariant(cfg, Next(cfg, s, events[0]), events[1..]);
    }
  }

  // ---------------------------------------------------------------- what a settlement goes back to

  /** What request `k` of a batch of `n` is given when the model answers this. */
  predicate Deserves(outcome: BatchOutcome, n: nat, k: nat, value: Settlement) {
    k < n &&
    match outcome
    case Raises(error) => value == Failed(error)
    case Results(results) =>
      if |results| == n then value == Success(results[k])
      else value == Failed("transcriber returned the wrong number of results")
  }

  /** The `n`-th batch dispatched holds the ticket in position `k`, and gave it the value. */
  ghost predicate Gives(cfg: Config, dispatched: seq<seq<Ticket>>, n: nat, k: nat, t: Ticket, value: Settlement) {
    && n < |dispatched| && k < |dispatched[n]| && dispatched[n][k] == t
    && Deserves(cfg.transcribe(n, SamplesOf(dispatched[n]), LanguagesOf(dispatched[n])), |dispatched[n]|, k, value)
  }

  ghost predicate Given(cfg: Config, dispatched: seq<seq<Ticket>>, i: nat, value: Settlement) {
    exists n: nat, k: nat :: n < |dispatched| && k < |dispatched[n]| && dispatched[n][k].place == i
                             && Gives(cfg, dispatched, n, k, dispatched[n][k], value)
  }

  function Utterances(dispatched: seq<seq<Ticket>>): nat {
    if dispatched == [] then 0 else Utterances(dispatched[..|dispatched| - 1]) + |dispatched[|dispatched| - 1]|
  }

  /** The statistics are those of the batches dispatched, and every batch is within its bound. */
  ghost predicate Tallied(cfg: Config, w: Worker) {
    && w.batches == |w.dispatched| && w.utterances == Utterances(w.dispatched)
    && (forall n :: 0 <= n < |w.dispatched| ==> 1 <= |w.dispatched[n]| <= Min(cfg.maxBatch, w.largest))
    && (w.largest == 0 || exists n :: 0 <= n < |w.dispatched| && |w.dispatched[n]| == w.largest)
  }

  /** Every ticket dispatched is a request of the log, and every settlement but the closed error was given
      by a batch. */
  ghost predicate Explained(cfg: Config, log: seq<Option<Pending>>, w: Worker) {
    && Tallied(cfg, w)
    && (forall n, k :: 0 <= n < |w.dispatched| && 0 <= k < |w.dispatched[n]| ==>
          var t := w.dispatched[n][k]; t.place < |log| && log[t.place] == Some(t.pending))
    && (forall i :: i in w.settled && w.settled[i] != Closed ==> Given(cfg, w.dispatched, i, w.settled[i]))
  }

  lemma CountTallies(cfg: Config, w: Worker, batch: seq<Ticket>)
    requires Tallied(cfg, w) && 1 <= |batch| <= cfg.maxBatch
    ensures Tallied(cfg, Count(w, batch))
  {
    var w' := Count(w, batch);
    assert w'.dispatched[..|w.dispatched|] == w.dispatched;
    assert w'.dispatched[|w.dispatched|] == batch;
    if w.largest != 0 {
      var n :| 0 <= n < |w.dispatched| && |w.dispatched[n]| == w.largest;
      assert w'.dispatched[n] == w.dispatched[n];
    }
  }

  lemma GivenStays(cfg: Config, dispatched: seq<seq<Ticket>>, batch: seq<Ticket>, i: nat, value: Settlement)
    requires Given(cfg, dispatched, i, value)
    ensures Given(cfg, dispatched + [batch], i, value)
  {
    hide Deserves;
    var n: nat, k: nat :| n < |dispatched| && k < |dispatched[n]| && dispatched[n][k].place == i
                          && Gives(cfg, dispatched, n, k, dispatched[n][k], value);
    assert (dispatched + [batch])[n] == dispatched[n];
  }

  lemma BatchIsGiven(cfg: Config, dispatched: seq<seq<Ticket>>, batch: seq<Ticket>, k: nat)
    requires k < |batch|
    ensures Given(cfg, dispatched + [batch], batch[k].place, BatchValues(cfg, |dispatched|, batch)[k])
  {
    var n := |dispatched|;
    assert (dispatched + [batch])[n] == batch;
    assert Gives(cfg, dispatched + [batch], n, k, batch[k], BatchValues(cfg, n, batch)[k]);
  }

  lemma OpenIsLogged(log: seq<Option<Pending>>, open: set<Ticket>, n: nat, w: Worker, batch: seq<Ticket>, k: nat)
    requires Accounted(log, open, n, w) && Tickets(batch) <= open && k < |batch|
    ensures batch[k].place < |log| && log[batch[k].place] == Some(batch[k].pending)
  {
    assert batch[k] in Tickets(batch);
  }

  lemma DispatchGives(cfg: Config, log: seq<Option<Pending>>, w: Worker, batch: seq<Ticket>, i: nat)
    requires Explained(cfg, log, w) && Arrived(batch)
    requires i in Dispatch(cfg, w, batch).settled && Dispatch(cfg, w, batch).settled[i] != Closed
    ensures Given(cfg, w.dispatched + [batch], i, Dispatch(cfg, w, batch).settled[i])
  {
    hide Given, BatchValues, SettleAll;
    var counted, values := Count(w, batch), BatchValues(cfg, w.batches, batch);
    if InBatch(batch, i) {
      var t :| t in batch && t.place == i;
      var k :| 0 <= k < |batch| && batch[k] == t;
      SettleAllGives(counted, batch, values, k);
      BatchIsGiven(cfg, w.dispatched, batch, k);
    } else {
      SettleAllLeaves(counted, batch, values, i);
      GivenStays(cfg, w.dispatched, batch, i, w.settled[i]);
    }
  }

  lemma DispatchExplains(cfg: Config, log: seq<Option<Pending>>, open: set<Ticket>, n: nat, w: Worker, batch: seq<Ticket>)
    requires Explained(cfg, log, w) && Accounted(log, open, n, w)
    requires Arrived(batch) && Tickets(batch) <= open && 1 <= |batch| <= cfg.maxBatch
    ensures Explained(cfg, log, Dispatch(cfg, w, batch))
  {
    hide Given, SettleAll, BatchValues, Tickets, Balanced, Utterances;
    var w' := Dispatch(cfg, w, batch);
    CountTallies(cfg, w, batch);
    SettleAllFrame(Count(w, batch), batch, BatchValues(cfg, w.batches, batch));
    forall k | 0 <= k < |batch|
      ensures batch[k].place < |log| && log[batch[k].place] == Some(batch[k].pending)
    {
      OpenIsLogged(log, open, n, w, batch, k);
    }
    forall i | i in w'.settled && w'.settled[i] != Closed
      ensures Given(cfg, w'.dispatched, i, w'.settled[i])
    {
      DispatchGives(cfg, log, w, batch, i);
    }
  }

  lemma RoundExplains(cfg: Config, log: seq<Option<Pending>>, w: Worker, n: nat)
    requires cfg.maxBatch >= 1 && Explained(cfg, log, w)
    requires Accounted(log, Tickets(w.waiting), n, w) && Arrived(w.waiting) && w.waiting != []
    ensures Explained(cfg, log, Round(cfg, w))
  {
    hide Balanced, Given;
    var split := Select(w.waiting, cfg.maxBatch);
    SelectPartitions(w.waiting, cfg.maxBatch);
    DispatchExplains(cfg, log, Tickets(w.waiting), n, w, split.batch);
  }

  lemma {:induction false} CloseOutExplains(cfg: Config, log: seq<Option<Pending>>, w: Worker, n: nat)
    requires cfg.maxBatch >= 1 && Explained(cfg, log, w)
    requires Accounted(log, Tickets(w.waiting), n, w) && ClosedFairly(log, w.settled)
    requires Arrived(w.waiting) && !Behind(log, n)
    ensures Explained(cfg, log, CloseOut(cfg, w))
    decreases |w.waiting|
  {
    hide Accounted, Given;
    if w.waiting != [] {
      RoundExplains(cfg, log, w, n);
      RoundKeepsAccounted(cfg, log, w, n);
      CloseOutExplains(cfg, log, Round(cfg, w), n);
    }
  }

  lemma EndCollectExplains(cfg: Config, log: seq<Option<Pending>>, w: Worker, n: nat, closing: bool)
    requires cfg.maxBatch >= 1 && Explained(cfg, log, w)
    requires Accounted(log, Tickets(w.waiting), n, w) && ClosedFairly(log, w.settled)
    requires Arrived(w.waiting) && !Behind(log, n) && w.waiting != []
    ensures Explained(cfg, log, EndCollect(cfg, w, closing))
  {
    hide Accounted, Given, Round;
    RoundExplains(cfg, log, w, n);
    RoundKeepsAccounted(cfg, log, w, n);
    if closing { CloseOutExplains(cfg, log, Round(cfg, w), n); }
  }

  lemma CollectingExplains(cfg: Config, log: seq<Option<Pending>>, w: Worker, poll: Poll)
    requires cfg.maxBatch >= 1 && Invariant(log, w) && Delivers(log, w.taken, poll) && Explained(cfg, log, w)
    requires w.phase.Collecting? || w.phase.Lingering?
    ensures var due := match poll case Got(p) => Take(w, p) case Sentinel => w.(taken := w.taken + 1) case Empty => w;
      && Explained(cfg, log, due)
      && Explained(cfg, log, EndCollect(cfg, due, poll.Sentinel?))
  {
    hide Balanced, EndCollect, Given, Utterances, Behind, ClosedFairly;
    match poll
    case Got(p) =>
      GatherKeepsInvariant(log, w);
      EndCollectExplains(cfg, log, Take(w, p), w.taken + 1, false);
    case Sentinel =>
      EndCollectExplains(cfg, log, w.(taken := w.taken + 1), w.taken, true);
    case Empty =>
      EndCollectExplains(cfg, log, w, w.taken, false);
  }

  lemma IdleExplains(cfg: Config, log: seq<Option<Pending>>, w: Worker, poll: Poll)
    requires cfg.maxBatch >= 1 && Explained(cfg, log, w) && !w.phase.Collecting? && !w.phase.Lingering?
    ensures Explained(cfg, log, Step(cfg, w, poll))
  {
    hide EndCollect, Given, Utterances;
  }

  lemma StepExplains(cfg: Config, log: seq<Option<Pending>>, w: Worker, poll: Poll)
    requires cfg.maxBatch >= 1 && Invariant(log, w) && Delivers(log, w.taken, poll)
    requires Explained(cfg, log, w)
    ensures Explained(cfg, log, Step(cfg, w, poll))
  {
    hide Invariant, EndCollect, Given, Utterances;
    if w.phase.Collecting? || w.phase.Lingering? {
      CollectingExplains(cfg, log, w, poll);
    } else {
      hide Step;
      IdleExplains(cfg, log, w, poll);
    }
  }

  lemma NextExplains(cfg: Config, s: System, event: Event)
    requires cfg.maxBatch >= 1 && SystemInvariant(s) && Explained(cfg, s.log, s.worker)
    ensures Explained(cfg, Next(cfg, s, event).log, Next(cfg, s, event).worker)
  {
    hide Step, Invariant, Given, Tallied;
    match event
    case Put(item) =>
    case Deadline =>
      if s.worker.phase.Lingering? { StepExplains(cfg, s.log, s.worker, Empty); }
    case PollQueue =>
      if !s.worker.phase.Stopped? {
        QueueIsTheRest(s);
        StepExplains(cfg, s.log, s.worker, Answer(s.queue));
      }
  }

  lemma {:induction false} RunExplains(cfg: Config, s: System, events: seq<Event>)
    requires cfg.maxBatch >= 1 && SystemInvariant(s) && Explained(cfg, s.log, s.worker)
    ensures Explained(cfg, Run(cfg, s, events).log, Run(cfg, s, events).worker)
    decreases |events|
  {
    hide SystemInvariant, Explained, Next;
    if events != [] {
      NextKeepsInvariant(cfg, s, events[0]);
      NextExplains(cfg, s, events[0]);
      RunExplains(cfg, Next(cfg, s, events[0]), events[1..]);
    }
  }

  // ---------------------------------------------------------------- whole runs

  lemma StartInvariant()
    ensures SystemInvariant(START)
  {
    assert Tickets([]) == {};
  }

  lemma StepStopsOnEmpty(cfg: Config, w: Worker, poll: Poll)
    requires cfg.maxBatch >= 1 && !w.phase.Stopped?
    ensures Step(cfg, w, poll).phase.Stopped? <==> w.phase.Failing? && poll.Empty?
  {
    hide EndCollect;
    EndCollectNeverStops(cfg, w, false);
    EndCollectNeverStops(cfg, w.(taken := w.taken + 1), true);
    if poll.Got? { EndCollectNeverStops(cfg, Take(w, poll.pending), false); }
  }

  /** The event ends the worker's final drain. */
  predicate Stops(cfg: Config, s: System, event: Event)
    requires cfg.maxBatch >= 1
  {
    !s.worker.phase.Stopped? && Next(cfg, s, event).worker.phase.Stopped?
  }

  /** The worker stops only on finding the queue empty, so at that moment it has taken everything
      that was ever put. */
  lemma StopsOnlyWhenDrained(cfg: Config, s: System, event: Event)
    requires cfg.maxBatch >= 1 && SystemInvariant(s)
    ensures Stops(cfg, s, event) ==> s.worker.phase.Failing? && Next(cfg, s, event).worker.taken == |Next(cfg, s, event).log|
  {
    hide Step, SystemInvariant;
    if Stops(cfg, s, event) {
      NextKeepsInvariant(cfg, s, event);
      StepStopsOnEmpty(cfg, s.worker, if event.PollQueue? then Answer(s.queue) else Empty);
      QueueIsTheRest(s);
      QueueIsTheRest(Next(cfg, s, event));
    }
  }

  lemma QueueIsTheRest(s: System)
    requires SystemInvariant(s)
    ensures s.worker.taken <= |s.log| && s.queue == s.log[s.worker.taken..]
  {
  }

  lemma EndCollectNeverStops(cfg: Config, w: Worker, closing: bool)
    requires cfg.maxBatch >= 1
    ensures !EndCollect(cfg, w, closing).phase.Stopped?
  {
    if closing { CloseOutFails(cfg, Round(cfg, w)); }
  }

  lemma {:induction false} CloseOutFails(cfg: Config, w: Worker)
    requires cfg.maxBatch >= 1
    ensures CloseOut(cfg, w).phase.Failing?
    decreases |w.waiting|
  {
    if w.waiting != [] { CloseOutFails(cfg, Round(cfg, w)); }
  }

  /** The request at place `i` was settled, once: behind the first sentinel with the closed error, and
      ahead of it in a batch that was dispatched, with what the model made of that batch. */
  ghost predicate SettledFairly(cfg: Config, log: seq<Option<Pending>>, w: Worker, i: nat)
    requires i < |log| && log[i].Some?
  {
    && i in w.settled && w.settles[i] == 1
    && (w.settled[i] == Closed <==> Behind(log, i))
    && (!Behind(log, i) ==> exists n: nat, k: nat :: Gives(cfg, w.dispatched, n, k, Ticket(i, log[i].value), w.settled[i]))
  }

  /** With nothing waiting, everything taken has been settled. */
  lemma NothingWaitingMeansSettled(cfg: Config, log: seq<Option<Pending>>, w: Worker, i: nat)
    requires Invariant(log, w) && Explained(cfg, log, w) && w.waiting == [] && i < w.taken && log[i].Some?
    ensures SettledFairly(cfg, log, w, i)
  {
    assert Tickets(w.waiting) == {};
    if !Behind(log, i) {
      var n: nat, k: nat :| n < |w.dispatched| && k < |w.dispatched[n]| && w.dispatched[n][k].place == i
                            && Gives(cfg, w.dispatched, n, k, w.dispatched[n][k], w.settled[i]);
    }
  }

  /** Settlement of whole runs. Take any run up to the moment the final drain ends, with requests and
      sentinels put at any points of it. Every request put by then has been settled, once and fairly. */
  lemma WholeRunSettlement(cfg: Config, events: seq<Event>, last: Event)
    requires cfg.maxBatch >= 1
    ensures var s := Run(cfg, START, events); var s' := Next(cfg, s, last);
      Stops(cfg, s, last) ==>
        forall i: nat :: i < |s'.log| && s'.log[i].Some? ==> SettledFairly(cfg, s'.log, s'.worker, i)
  {
    hide Next, Invariant, SettledFairly;
    var s := Run(cfg, START, events);
    var s' := Next(cfg, s, last);
    StartInvariant();
    RunKeepsInvariant(cfg, START, events);
    RunExplains(cfg, START, events);
    StopsOnlyWhenDrained(cfg, s, last);
    NextKeepsInvariant(cfg, s, last);
    NextExplains(cfg, s, last);
    if Stops(cfg, s, last) {
      StoppedIsIdle(s'.log, s'.worker);
      forall i: nat | i < |s'.log| && s'.log[i].Some?
        ensures SettledFairly(cfg, s'.log, s'.worker, i)
      {
        NothingWaitingMeansSettled(cfg, s'.log, s'.worker, i);
      }
    }
  }

  lemma StoppedIsIdle(log: seq<Option<Pending>>, w: Worker)
    requires Invariant(log, w) && w.phase.Stopped?
    ensures w.waiting == []
  {
  }

  /** Everybody ahead of the first sentinel gets a transcript when the model always answers with a list
      of the right length. */
  lemma ReliableModelServesAll(cfg: Config, events: seq<Event>, last: Event)
    requires cfg.maxBatch >= 1
    requires forall n: nat, samples: seq<seq<real>>, languages: seq<string> :: |samples| == |languages| ==>
               cfg.transcribe(n, samples, languages).Results? && |cfg.transcribe(n, samples, languages).results| == |samples|
    ensures var s := Run(cfg, START, events); var s' := Next(cfg, s, last);
      Stops(cfg, s, last) ==>
        forall i: nat :: i < |s'.log| && s'.log[i].Some? && !Behind(s'.log, i) ==>
          i in s'.worker.settled && s'.worker.settled[i].Success?
  {
    hide Next, Run, Behind;
    WholeRunSettlement(cfg, events, last);
    var s' := Next(cfg, Run(cfg, START, events), last);
    if Stops(cfg, Run(cfg, START, events), last) {
      forall i: nat | i < |s'.log| && s'.log[i].Some? && !Behind(s'.log, i)
        ensures i in s'.worker.settled && s'.worker.settled[i].Success?
      {
        assert SettledFairly(cfg, s'.log, s'.worker, i);
      }
    }
  }

  /** In every state of every run the statistics are those of the batches dispatched, and nobody was
      settled by anything else, short of the closed error. */
  lemma StatisticsAreExact(cfg: Config, events: seq<Event>)
    requires cfg.maxBatch >= 1
    ensures Tallied(cfg, Run(cfg, START, events).worker)
    ensures Explained(cfg, Run(cfg, START, events).log, Run(cfg, START, events).worker)
  {
    StartInvariant();
    RunExplains(cfg, START, events);
  }

  /** A request alone is never kept waiting, and neither is a full batch. The collection window is open
      only while at least two wait, and there is room for more. */
  ghost predicate LingersForCompany(cfg: Config, w: Worker) {
    w.phase.Lingering? ==> cfg.window && 1 < |w.waiting| < cfg.maxBatch
  }

  /** What the event finds: the free drain has ended and no window is to open, or the window has run out
      or brought the request that fills the batch. */
  predicate Due(cfg: Config, s: System, event: Event) {
    var w := s.worker;
    || (w.phase.Collecting? && event.PollQueue? && s.queue == [] && (|w.waiting| == 1 || |w.waiting| >= cfg.maxBatch || !cfg.window))
    || (w.phase.Lingering? && (event.Deadline? || (event.PollQueue? && (s.queue == [] || |w.waiting| + 1 >= cfg.maxBatch))))
  }

  lemma RoundCounts(cfg: Config, w: Worker)
    requires cfg.maxBatch >= 1
    ensures Round(cfg, w).batches == w.batches + 1
  {
    var batch := Select(w.waiting, cfg.maxBatch).batch;
    SettleAllFrame(Count(w, batch), batch, BatchValues(cfg, w.batches, batch));
  }

  lemma NextLingersForCompany(cfg: Config, s: System, event: Event)
    requires cfg.maxBatch >= 1 && LingersForCompany(cfg, s.worker)
    ensures LingersForCompany(cfg, Next(cfg, s, event).worker)
  {
    hide Round;
    CloseOutFails(cfg, Round(cfg, s.worker.(taken := s.worker.taken + 1)));
  }

  lemma {:induction false} RunLingersForCompany(cfg: Config, s: System, events: seq<Event>)
    requires cfg.maxBatch >= 1 && LingersForCompany(cfg, s.worker)
    ensures LingersForCompany(cfg, Run(cfg, s, events).worker)
    decreases |events|
  {
    hide LingersForCompany, Next;
    if events != [] {
      NextLingersForCompany(cfg, s, events[0]);
      RunLingersForCompany(cfg, Next(cfg, s, events[0]), events[1..]);
    }
  }

  /** In every run, short of a sentinel: one batch is dispatched whenever one is due, and none before. */
  lemma DispatchesWhenDue(cfg: Config, events: seq<Event>, event: Event)
    requires cfg.maxBatch >= 1
    ensures var s := Run(cfg, START, events);
      (event.PollQueue? ==> s.queue == [] || s.queue[0].Some?) ==>
        && LingersForCompany(cfg, s.worker)
        && Next(cfg, s, event).worker.batches == s.worker.batches + if Due(cfg, s, event) then 1 else 0
  {
    hide Accounted, Arrived, ClosedFairly, Behind, Round;
    var s := Run(cfg, START, events);
    StartInvariant();
    RunKeepsInvariant(cfg, START, events);
    RunLingersForCompany(cfg, START, events);
    RoundCounts(cfg, s.worker);
    if event.PollQueue? && s.queue != [] && s.queue[0].Some? { RoundCounts(cfg, Take(s.worker, s.queue[0].value)); }
  }

  // ---------------------------------------------------------------- nobody starves

  /** The request at place `p` is settled, or it waits at an index that, with the number of batches
      dispatched so far, is at most `bound`. */
  ghost predicate Served(w: Worker, p: nat, bound: nat) {
    || p in w.settled
    || exists k :: 0 <= k < |w.waiting| && w.waiting[k].place == p && k + w.batches <= bound
  }

  lemma SettleAllServes(w: Worker, batch: seq<Ticket>, values: seq<Settlement>, place: nat)
    requires |batch| == |values| && Arrived(batch) && (place in w.settled || InBatch(batch, place))
    ensures place in SettleAll(w, batch, values).settled
  {
    if InBatch(batch, place) {
      var t :| t in batch && t.place == place;
      var k :| 0 <= k < |batch| && batch[k] == t;
      SettleAllGives(w, batch, values, k);
    } else {
      SettleAllLeaves(w, batch, values, place);
    }
  }

  /** A round settles the request or moves it at least one place forward. */
  lemma RoundServes(cfg: Config, w: Worker, p: nat, bound: nat)
    requires cfg.maxBatch >= 1 && Arrived(w.waiting) && Served(w, p, bound)
    ensures Served(Round(cfg, w), p, bound) && Arrived(Round(cfg, w).waiting)
  {
    hide SettleAll, BatchValues;
    var split := Select(w.waiting, cfg.maxBatch);
    var w' := Round(cfg, w);
    SelectPartitions(w.waiting, cfg.maxBatch);
    var counted, values := Count(w, split.batch), BatchValues(cfg, w.batches, split.batch);
    SettleAllFrame(counted, split.batch, values);
    if p in w.settled || InBatch(split.batch, p) {
      SettleAllServes(counted, split.batch, values, p);
    } else {
      var k :| 0 <= k < |w.waiting| && w.waiting[k].place == p && k + w.batches <= bound;
      var k' := SelectAdvances(w.waiting, cfg.maxBatch, k);
      assert w'.waiting[k'].place == p && k' + w'.batches <= bound;
    }
  }

  lemma {:induction false} CloseOutServes(cfg: Config, w: Worker, p: nat, bound: nat)
    requires cfg.maxBatch >= 1 && Arrived(w.waiting) && Served(w, p, bound)
    ensures Served(CloseOut(cfg, w), p, bound)
    decreases |w.waiting|
  {
    if w.waiting != [] {
      RoundServes(cfg, w, p, bound);
      CloseOutServes(cfg, Round(cfg, w), p, bound);
    }
  }

  lemma EndCollectServes(cfg: Config, w: Worker, closing: bool, p: nat, bound: nat)
    requires cfg.maxBatch >= 1 && Arrived(w.waiting) && Served(w, p, bound)
    ensures Served(EndCollect(cfg, w, closing), p, bound)
  {
    RoundServes(cfg, w, p, bound);
    if closing { CloseOutServes(cfg, Round(cfg, w), p, bound); }
  }

  lemma TakeServes(w: Worker, pending: Pending, p: nat, bound: nat)
    requires Served(w, p, bound)
    ensures Served(Take(w, pending), p, bound)
  {
    if p !in w.settled {
      var k :| 0 <= k < |w.waiting| && w.waiting[k].place == p && k + w.batches <= bound;
      assert Take(w, pending).waiting[k].place == p;
    }
  }

  lemma GotServes(cfg: Config, w: Worker, pending: Pending, p: nat, bound: nat)
    requires cfg.maxBatch >= 1 && (w.phase.Collecting? || w.phase.Lingering?)
    requires Arrived(Take(w, pending).waiting) && Served(w, p, bound)
    ensures Served(Step(cfg, w, Got(pending)), p, bound)
  {
    var grown := Take(w, pending);
    TakeServes(w, pending, p, bound);
    if w.phase.Lingering? && |grown.waiting| >= cfg.maxBatch {
      EndCollectServes(cfg, grown, false, p, bound);
      assert Step(cfg, w, Got(pending)) == EndCollect(cfg, grown, false);
    } else {
      assert Step(cfg, w, Got(pending)) == grown;
    }
  }

  lemma EmptyServes(cfg: Config, w: Worker, p: nat, bound: nat)
    requires cfg.maxBatch >= 1 && (w.phase.Collecting? || w.phase.Lingering?)
    requires Arrived(w.waiting) && Served(w, p, bound)
    ensures Served(Step(cfg, w, Empty), p, bound)
  {
    if w.phase.Collecting? && 1 < |w.waiting| < cfg.maxBatch && cfg.window {
      assert Step(cfg, w, Empty) == w.(phase := Lingering);
    } else {
      EndCollectServes(cfg, w, false, p, bound);
      assert Step(cfg, w, Empty) == EndCollect(cfg, w, false);
    }
  }

  lemma IdleServes(cfg: Config, w: Worker, poll: Poll, p: nat, bound: nat)
    requires cfg.maxBatch >= 1 && !w.phase.Collecting? && !w.phase.Lingering?
    requires w.waiting == [] && Served(w, p, bound)
    ensures Served(Step(cfg, w, poll), p, bound)
  {
    assert p in w.settled;
  }

  lemma SentinelServes(cfg: Config, w: Worker, p: nat, bound: nat)
    requires cfg.maxBatch >= 1 && (w.phase.Collecting? || w.phase.Lingering?)
    requires Arrived(w.waiting) && Served(w, p, bound)
    ensures Served(Step(cfg, w, Sentinel), p, bound)
  {
    hide EndCollect, Round, CloseOut;
    var passed := w.(taken := w.taken + 1);
    EndCollectServes(cfg, passed, true, p, bound);
    assert Step(cfg, w, Sentinel) == EndCollect(cfg, passed, true);
  }

  lemma StepServes(cfg: Config, log: seq<Option<Pending>>, w: Worker, poll: Poll, p: nat, bound: nat)
    requires cfg.maxBatch >= 1 && Invariant(log, w) && Delivers(log, w.taken, poll)
    requires Served(w, p, bound)
    ensures Served(Step(cfg, w, poll), p, bound)
  {
    hide Served, Step, Accounted;
    if !w.phase.Collecting? && !w.phase.Lingering? {
      IdleServes(cfg, w, poll, p, bound);
    } else if poll.Got? {
      GatherKeepsInvariant(log, w);
      GotServes(cfg, w, poll.pending, p, bound);
    } else if poll.Empty? {
      EmptyServes(cfg, w, p, bound);
    } else {
      SentinelServes(cfg, w, p, bound);
    }
  }

  lemma {:induction false} RunServes(cfg: Config, s: System, events: seq<Event>,
                                     p: nat, bound: nat)
    requires cfg.maxBatch >= 1 && SystemInvariant(s) && Served(s.worker, p, bound)
    ensures Served(Run(cfg, s, events).worker, p, bound)
    decreases |events|
  {
    if events != [] {
      match events[0] {
        case Put(_) =>
        case Deadline =>
          if s.worker.phase.Lingering? { StepServes(cfg, s.log, s.worker, Empty, p, bound); }
        case PollQueue =>
          if !s.worker.phase.Stopped? { StepServes(cfg, s.log, s.worker, Answer(s.queue), p, bound); }
      }
      NextKeepsInvariant(cfg, s, events[0]);
      RunServes(cfg, Next(cfg, s, events[0]), events[1..], p, bound);
    }
  }

  /** Nobody starves: take any run from the start, and in it a request waiting at index `k`. Once
      `k + 1` more batches have been dispatched it has been settled, whatever arrives in between. */
  lemma NobodyStarves(cfg: Config, before: seq<Event>, after: seq<Event>, k: nat)
    requires cfg.maxBatch >= 1
    requires var s := Run(cfg, START, before);
      k < |s.worker.waiting| && Run(cfg, s, after).worker.batches >= s.worker.batches + k + 1
    ensures var s := Run(cfg, START, before);
      s.worker.waiting[k].place in Run(cfg, s, after).worker.settled
  {
    hide Run;
    var s := Run(cfg, START, before);
    StartInvariant();
    RunKeepsInvariant(cfg, START, before);
    RunServes(cfg, s, after, s.worker.waiting[k].place, k + s.worker.batches);
  }
}
