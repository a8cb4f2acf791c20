/** The queue of `EventReporter` in event_reporter.py: a bounded deque, batches taken from its front,
    and batches put back when the API could not answer. */
module Events {
  import opened Prelude

  // ---------------------------------------------------------------- Python's bounded deque

  /** `append` on a full deque discards at the left end. */
  function Append<E>(queue: seq<E>, e: E, maxlen: nat): seq<E> {
    var grown := queue + [e];
    if |grown| <= maxlen then grown else grown[1..]
  }

  /** `appendleft` on a full deque discards at the right end. */
  function AppendLeft<E>(queue: seq<E>, e: E, maxlen: nat): seq<E> {
    var grown := [e] + queue;
    if |grown| <= maxlen then grown else grown[..|queue|]
  }

  /** `_requeue`: the batch from its last event to its first. */
  function Requeue<E>(queue: seq<E>, batch: seq<E>, maxlen: nat): seq<E>
    decreases |batch|
  {
    if batch == [] then queue
    else Requeue(AppendLeft(queue, batch[|batch| - 1], maxlen), batch[..|batch| - 1], maxlen)
  }

  /** Putting a batch back keeps the whole batch, in front, and cuts the queue at its right end. */
  lemma {:induction false} RequeueCutsTheRight<E>(queue: seq<E>, batch: seq<E>, maxlen: nat)
    requires |queue| <= maxlen && |batch| <= maxlen
    ensures Requeue(queue, batch, maxlen) == (batch + queue)[..Min(|batch| + |queue|, maxlen)]
    decreases |batch|
  {
    if batch == [] {
      assert batch + queue == queue;
    } else {
      var last, front := batch[|batch| - 1], batch[..|batch| - 1];
      RequeueCutsTheRight(AppendLeft(queue, last, maxlen), front, maxlen);
      assert batch == front + [last];
      assert batch + queue == front + ([last] + queue);
    }
  }

  // ---------------------------------------------------------------- the life of every event

  type EventId = nat   // the place of an event in the order of recording

  datatype Fate = Delivered | Refused | DroppedAtRecord | DroppedAtPutBack

  datatype Limits = Limits(maxQueue: nat, maxBatch: nat)

  /** `delivered` lists the delivered events in the order in which they were posted; `dropped` is the
      counter that the next flush will report, `reported` the sum of what flushes have reported. */
  datatype State = State(
    recorded: nat, queue: seq<EventId>, inFlight: seq<EventId>, flushing: bool,
    fates: map<EventId, Fate>, delivered: seq<EventId>, dropped: nat, reported: nat)

  const EMPTY := State(0, [], [], false, map[], [], 0, 0)

  datatype Step = Record | Begin | Land | FailRetryably | FailRefused

  predicate Enabled(s: State, step: Step) {
    match step
    case Record => true
    case Begin => !s.flushing
    case _ => s.flushing
  }

  function Assign(fates: map<EventId, Fate>, ids: seq<EventId>, fate: Fate): map<EventId, Fate> {
    fates + map i: EventId | i in ids :: fate
  }

  function Next(limits: Limits, s: State, step: Step): State
    requires Enabled(s, step)
  {
    match step
    case Record =>
      var grown := s.queue + [s.recorded];
      var full := |s.queue| == limits.maxQueue;
      s.(recorded := s.recorded + 1,
         queue := Append(s.queue, s.recorded, limits.maxQueue),
         dropped := s.dropped + if full then 1 else 0,
         fates := if full then s.fates[grown[0] := DroppedAtRecord] else s.fates)
    case Begin =>
      var n := Min(limits.maxBatch, |s.queue|);
      s.(reported := s.reported + s.dropped, dropped := 0, flushing := s.queue != [],
         inFlight := s.queue[..n], queue := s.queue[n..])
    case Land =>
      s.(flushing := false, inFlight := [], delivered := s.delivered + s.inFlight, fates := Assign(s.fates, s.inFlight, Delivered))
    case FailRetryably =>
      var kept := Requeue(s.queue, s.inFlight, limits.maxQueue);
      s.(flushing := false, inFlight := [], queue := kept,
         fates := Assign(s.fates, Lost(s.inFlight + s.queue, kept), DroppedAtPutBack))
    case FailRefused =>
      s.(flushing := false, inFlight := [], fates := Assign(s.fates, s.inFlight, Refused))
  }

  /** The events of `before` that are not in `after`, in order. */
  function Lost(before: seq<EventId>, after: seq<EventId>): seq<EventId> {
    if before == [] then []
    else (if before[0] in after then [] else [before[0]]) + Lost(before[1..], after)
  }

  function Run(limits: Limits, s: State, steps: seq<Step>): State
    requires Possible(limits, s, steps)
    decreases |steps|
  {
    if steps == [] then s else Run(limits, Next(limits, s, steps[0]), steps[1..])
  }

  predicate Possible(limits: Limits, s: State, steps: seq<Step>)
    decreases |steps|
  {
    steps == [] || (Enabled(s, steps[0]) && Possible(limits, Next(limits, s, steps[0]), steps[1..]))
  }

  // ---------------------------------------------------------------- invariant

  /** In the order of recording, without duplicates. */
  ghost predicate Increasing(ids: seq<EventId>) {
    forall i, j :: 0 <= i < j < |ids| ==> ids[i] < ids[j]
  }

  function WithFate(fates: map<EventId, Fate>, fate: Fate): set<EventId> {
    set i | i in fates && fates[i] == fate
  }

  /** Delivered events, then the batch in flight, then the queue: one increasing sequence. */
  ghost predicate Ordered(s: State) {
    Increasing(s.delivered + s.inFlight + s.queue)
  }

  /** Every recorded event is queued, in flight, or has exactly one fate; and no other event is. */
  ghost predicate Conserved(s: State) {
    && (forall i: EventId :: i < s.recorded ==> i in s.fates || i in s.inFlight || i in s.queue)
    && (forall i :: i in s.fates ==> i < s.recorded && i !in s.inFlight && i !in s.queue)
    && (forall i :: i in s.inFlight ==> i < s.recorded && i !in s.queue)
    && (forall i :: i in s.queue ==> i < s.recorded)
    && (forall i: EventId :: i in s.delivered <==> i in s.fates && s.fates[i] == Delivered)
  }

  ghost predicate Invariant(limits: Limits, s: State) {
    && |s.queue| <= limits.maxQueue && |s.inFlight| <= limits.maxQueue && (!s.flushing ==> s.inFlight == [])
    && Ordered(s) && Conserved(s)
    && s.dropped + s.reported == |WithFate(s.fates, DroppedAtRecord)|
  }

  lemma IncreasingConcat(a: seq<EventId>, b: seq<EventId>)
    ensures Increasing(a + b) <==> Increasing(a) && Increasing(b) && forall x, y :: x in a && y in b ==> x < y
  {
    var c := a + b;
    assert forall i :: 0 <= i < |a| ==> c[i] == a[i];
    assert forall j :: 0 <= j < |b| ==> c[|a| + j] == b[j];
    if Increasing(c) {
      forall x, y | x in a && y in b ensures x < y {
        var i :| 0 <= i < |a| && a[i] == x;
        var j :| 0 <= j < |b| && b[j] == y;
        assert c[i] < c[|a| + j];
      }
      forall i, j | 0 <= i < j < |b| ensures b[i] < b[j] {
        assert c[|a| + i] < c[|a| + j];
      }
    }
    if Increasing(a) && Increasing(b) && forall x, y :: x in a && y in b ==> x < y {
      forall i, j | 0 <= i < j < |c| ensures c[i] < c[j] {
        if i < |a| <= j { assert a[i] in a && b[j - |a|] in b; }
      }
    }
  }

  /** The three stretches of `Ordered`, told apart. */
  ghost predicate InSequence(delivered: seq<EventId>, inFlight: seq<EventId>, queue: seq<EventId>) {
    && Increasing(delivered) && Increasing(inFlight) && Increasing(queue)
    && (forall x, y :: x in delivered && y in inFlight ==> x < y)
    && (forall x, y :: x in delivered && y in queue ==> x < y)
    && (forall x, y :: x in inFlight && y in queue ==> x < y)
  }

  lemma OrderedIsInSequence(s: State)
    ensures Ordered(s) <==> InSequence(s.delivered, s.inFlight, s.queue)
  {
    IncreasingConcat(s.delivered, s.inFlight);
    IncreasingConcat(s.delivered + s.inFlight, s.queue);
    assert forall y :: y in s.delivered + s.inFlight <==> y in s.delivered || y in s.inFlight;
  }

  lemma GrownIsInSequence(delivered: seq<EventId>, inFlight: seq<EventId>, queue: seq<EventId>, id: EventId)
    requires InSequence(delivered, inFlight, queue)
    requires forall x :: x in delivered || x in inFlight || x in queue ==> x < id
    ensures InSequence(delivered, inFlight, queue + [id])
  {
    IncreasingConcat(queue, [id]);
    assert forall x :: x in queue + [id] <==> x in queue || x == id;
  }

  lemma TailIsInSequence(delivered: seq<EventId>, inFlight: seq<EventId>, queue: seq<EventId>)
    requires InSequence(delivered, inFlight, queue) && queue != []
    ensures InSequence(delivered, inFlight, queue[1..])
  {
    IncreasingConcat([queue[0]], queue[1..]);
    assert queue == [queue[0]] + queue[1..];
    assert forall x :: x in queue[1..] ==> x in queue;
  }

  lemma RecordKeepsOrder(limits: Limits, s: State)
    requires Invariant(limits, s)
    ensures Ordered(Next(limits, s, Record))
  {
    hide InSequence;
    var grown := s.queue + [s.recorded];
    OrderedIsInSequence(s);
    OrderedIsInSequence(Next(limits, s, Record));
    forall x | x in s.delivered ensures x < s.recorded {
      assert x in s.fates;
    }
    GrownIsInSequence(s.delivered, s.inFlight, s.queue, s.recorded);
    TailIsInSequence(s.delivered, s.inFlight, grown);
  }

  /** When the deque is full, recording discards the oldest event of the queue, or the new event
      itself if the queue has no room at all. */
  lemma RecordDropsTheOldest(limits: Limits, s: State)
    requires Invariant(limits, s) && |s.queue| == limits.maxQueue
    ensures var grown, s' := s.queue + [s.recorded], Next(limits, s, Record);
      && s'.queue == grown[1..] && s'.fates == s.fates[grown[0] := DroppedAtRecord] 
      && grown[0] !in s.fates && grown[0] !in s.inFlight && grown[0] <= s.recorded
      && (forall x :: x in s'.queue <==> x in grown && x != grown[0])
      && forall x :: x in s'.queue ==> grown[0] < x
  {
    OrderedIsInSequence(s);
    var grown := s.queue + [s.recorded];
    IncreasingConcat(s.queue, [s.recorded]);
    assert grown == [grown[0]] + grown[1..];
    IncreasingConcat([grown[0]], grown[1..]);
    assert grown[0] in [grown[0]];
    if s.queue != [] { assert grown[0] == s.queue[0] && s.queue[0] in s.queue; }
  }

  lemma RecordKeepsInvariant(limits: Limits, s: State)
    requires Invariant(limits, s)
    ensures Invariant(limits, Next(limits, s, Record))
  {
    var s' := Next(limits, s, Record);
    RecordKeepsOrder(limits, s);
    if |s.queue| == limits.maxQueue {
      RecordDropsTheOldest(limits, s);
      var lost := (s.queue + [s.recorded])[0];
      assert WithFate(s'.fates, DroppedAtRecord) == WithFate(s.fates, DroppedAtRecord) + {lost};
      assert forall x :: x in s.queue + [s.recorded] <==> x in s.queue || x == s.recorded;
    } else {
      assert forall x :: x in s'.queue <==> x in s.queue || x == s.recorded;
    }
  }

  lemma BeginKeepsInvariant(limits: Limits, s: State)
    requires Invariant(limits, s) && !s.flushing
    ensures Invariant(limits, Next(limits, s, Begin))
  {
    var s' := Next(limits, s, Begin);
    assert s.queue == s'.inFlight + s'.queue;
    assert s.delivered + s.inFlight + s.queue == s'.delivered + s'.inFlight + s'.queue;
    OrderedIsInSequence(s');
    assert forall x :: x in s.queue <==> x in s'.inFlight || x in s'.queue;
    forall x | x in s'.inFlight ensures x !in s'.queue {
    }
  }

  function IdsOf(ids: seq<EventId>): set<EventId> {
    set i | i in ids
  }

  /** Giving new events one fate leaves those of any other fate as they were. */
  lemma AssignedFates(fates: map<EventId, Fate>, ids: seq<EventId>, fate: Fate, other: Fate)
    requires forall i :: i in ids ==> i !in fates
    ensures forall i :: i in Assign(fates, ids, fate) <==> i in fates || i in ids
    ensures forall i :: i in ids ==> Assign(fates, ids, fate)[i] == fate
    ensures forall i :: i in fates ==> Assign(fates, ids, fate)[i] == fates[i]
    ensures WithFate(Assign(fates, ids, fate), other) == WithFate(fates, other) + if other == fate then IdsOf(ids) else {}
  {
  }

  lemma LandKeepsInvariant(limits: Limits, s: State)
    requires Invariant(limits, s) && s.flushing
    ensures Invariant(limits, Next(limits, s, Land))
  {
    hide Increasing;
    var s' := Next(limits, s, Land);
    assert s.delivered + s.inFlight + s.queue == s'.delivered + s'.inFlight + s'.queue;
    AssignedFates(s.fates, s.inFlight, Delivered, DroppedAtRecord);
    assert forall i :: i in s'.delivered <==> i in s.delivered || i in s.inFlight;
  }

  lemma RefusalKeepsInvariant(limits: Limits, s: State)
    requires Invariant(limits, s) && s.flushing
    ensures Invariant(limits, Next(limits, s, FailRefused))
  {
    hide Increasing;
    var s' := Next(limits, s, FailRefused);
    OrderedIsInSequence(s);
    OrderedIsInSequence(s');
    assert [] + s.queue == s.queue;
    IncreasingConcat([], s.queue);
    AssignedFates(s.fates, s.inFlight, Refused, DroppedAtRecord);
  }

  lemma {:induction false} LostBehindKept(kept: seq<EventId>, cut: seq<EventId>, after: seq<EventId>)
    requires forall x :: x in kept ==> x in after
    requires forall x :: x in cut ==> x !in after
    ensures Lost(kept + cut, after) == cut
    decreases |kept| + |cut|
  {
    if kept != [] {
      assert (kept + cut)[0] == kept[0] && kept[0] in kept;
      assert (kept + cut)[1..] == kept[1..] + cut;
      LostBehindKept(kept[1..], cut, after);
    } else if cut != [] {
      assert kept + cut == cut && cut[0] in cut;
      assert [] + cut[1..] == cut[1..];
      LostBehindKept([], cut[1..], after);
    }
  }

  /** A put-back keeps the batch and then as much of the queue as fits, and what it discards is newer
      than everything it keeps. */
  lemma PutBackDropsTheNewest(limits: Limits, s: State)
    requires Invariant(limits, s) && s.flushing
    ensures var all, s' := s.inFlight + s.queue, Next(limits, s, FailRetryably);
      var n := Min(|all|, limits.maxQueue);
      && s'.queue == all[..n] && s.inFlight <= s'.queue
      && Lost(all, s'.queue) == all[n..]
      && (forall x, y :: x in s'.queue && y in all[n..] ==> x < y)
      && Increasing(s'.queue) && Increasing(all[n..])
  {
    hide Increasing;
    var all := s.inFlight + s.queue;
    var n := Min(|all|, limits.maxQueue);
    var kept, cut := all[..n], all[n..];
    RequeueCutsTheRight(s.queue, s.inFlight, limits.maxQueue);
    OrderedIsInSequence(s);
    IncreasingConcat(s.inFlight, s.queue);
    assert all == kept + cut;
    IncreasingConcat(kept, cut);
    LostBehindKept(kept, cut, kept);
  }

  lemma PutBackKeepsOrder(limits: Limits, s: State)
    requires Invariant(limits, s) && s.flushing
    ensures Ordered(Next(limits, s, FailRetryably))
  {
    hide Increasing, Conserved, Requeue, Lost;
    PutBackDropsTheNewest(limits, s);
    var all, s' := s.inFlight + s.queue, Next(limits, s, FailRetryably);
    var cut := all[Min(|all|, limits.maxQueue)..];
    assert s.delivered + s.inFlight + s.queue == s.delivered + s'.queue + cut;
    IncreasingConcat(s.delivered + s'.queue, cut);
    assert s'.delivered + s'.inFlight + s'.queue == s.delivered + s'.queue;
  }

  /** What was in flight or queued is now queued or lost. */
  lemma PutBackSplits(limits: Limits, s: State)
    requires Invariant(limits, s) && s.flushing
    ensures var s' := Next(limits, s, FailRetryably);
      var lost := Lost(s.inFlight + s.queue, s'.queue);
      && s'.fates == Assign(s.fates, lost, DroppedAtPutBack) && s'.inFlight == []
      && s'.recorded == s.recorded && s'.delivered == s.delivered
      && (forall x :: x in s'.queue || x in lost <==> x in s.inFlight || x in s.queue)
      && (forall x :: x in s'.queue ==> x !in lost)
      && (forall x :: x in lost ==> x !in s.fates)
  {
    hide Increasing, Requeue, Lost;
    PutBackDropsTheNewest(limits, s);
    var all, s' := s.inFlight + s.queue, Next(limits, s, FailRetryably);
    var cut := all[Min(|all|, limits.maxQueue)..];
    assert all == s'.queue + cut;
    assert forall x :: x in all <==> x in s.inFlight || x in s.queue;
    assert forall x :: x in all <==> x in s'.queue || x in cut;
  }

  lemma PutBackConserves(limits: Limits, s: State)
    requires Invariant(limits, s) && s.flushing
    ensures Conserved(Next(limits, s, FailRetryably))
    ensures WithFate(Next(limits, s, FailRetryably).fates, DroppedAtRecord) == WithFate(s.fates, DroppedAtRecord)
  {
    hide Next, Lost, Ordered, Assign, WithFate, Increasing;
    var lost := Lost(s.inFlight + s.queue, Next(limits, s, FailRetryably).queue);
    PutBackSplits(limits, s);
    AssignedFates(s.fates, lost, DroppedAtPutBack, DroppedAtRecord);
  }

  lemma PutBackKeepsInvariant(limits: Limits, s: State)
    requires Invariant(limits, s) && s.flushing
    ensures Invariant(limits, Next(limits, s, FailRetryably))
  {
    hide Ordered, Conserved, WithFate, Increasing, Lost, Assign;
    PutBackKeepsOrder(limits, s);
    PutBackConserves(limits, s);
    PutBackDropsTheNewest(limits, s);
  }

  /** Order and conservation, for every interleaving of recording with flushes that land, fail
      retryably or are refused. */
  lemma {:induction false} RunKeepsInvariant(limits: Limits, s: State, steps: seq<Step>)
    requires Invariant(limits, s) && Possible(limits, s, steps)
    ensures Invariant(limits, Run(limits, s, steps))
    decreases |steps|
  {
    if steps != [] {
      match steps[0] {
        case Record => RecordKeepsInvariant(limits, s);
        case Begin => BeginKeepsInvariant(limits, s);
        case Land => LandKeepsInvariant(limits, s);
        case FailRetryably => PutBackKeepsInvariant(limits, s);
        case FailRefused => RefusalKeepsInvariant(limits, s);
      }
      RunKeepsInvariant(limits, Next(limits, s, steps[0]), steps[1..]);
    }
  }

  lemma EmptyInvariant(limits: Limits)
    ensures Invariant(limits, EMPTY)
  {
    assert WithFate(map[], DroppedAtRecord) == {};
  }

  /** What an observer can say at any moment of any run. */
  lemma EveryEventIsAccountedFor(limits: Limits, steps: seq<Step>)
    requires Possible(limits, EMPTY, steps)
    ensures var s := Run(limits, EMPTY, steps);
      && |s.queue| <= limits.maxQueue
      && Increasing(s.delivered + s.inFlight + s.queue)
      && Conserved(s)
      && s.dropped + s.reported == |WithFate(s.fates, DroppedAtRecord)|
  {
    EmptyInvariant(limits);
    RunKeepsInvariant(limits, EMPTY, steps);
  }

  lemma {:induction false} IncreasingCount(ids: seq<EventId>)
    requires Increasing(ids)
    ensures |IdsOf(ids)| == |ids|
  {
    hide Increasing;
    if ids != [] {
      var first, rest := ids[0], ids[1..];
      assert ids == [first] + rest;
      IncreasingConcat([first], rest);
      assert first in [first];
      IncreasingCount(rest);
      assert IdsOf(ids) == {first} + IdsOf(rest);
      assert first !in IdsOf(rest);
    }
  }

  /** What a put-back costs: as many events as batch and queue exceed the bound by, each with that
      fate for good, and none of them is among the drops that a flush has reported or will report. */
  lemma PutBackLossIsUncounted(limits: Limits, s: State)
    requires Invariant(limits, s) && s.flushing
    ensures var all, s' := s.inFlight + s.queue, Next(limits, s, FailRetryably);
      var excess := Max(0, |all| - limits.maxQueue);
      && |Lost(all, s'.queue)| == excess
      && |WithFate(s'.fates, DroppedAtPutBack)| == |WithFate(s.fates, DroppedAtPutBack)| + excess
      && s'.dropped + s'.reported == |WithFate(s'.fates, DroppedAtRecord)| == |WithFate(s.fates, DroppedAtRecord)|
  {
    hide Next, Lost, Assign, Ordered, Conserved, WithFate, Increasing, Invariant, IdsOf;
    var all, s' := s.inFlight + s.queue, Next(limits, s, FailRetryably);
    var lost := Lost(all, s'.queue);
    PutBackLength(limits, s);
    PutBackSplits(limits, s);
    AssignedFates(s.fates, lost, DroppedAtPutBack, DroppedAtPutBack);
    IncreasingCount(lost);
    NewFates(s.fates, lost, DroppedAtPutBack);
    PutBackConserves(limits, s);
    PutBackKeepsInvariant(limits, s);
    CountedDrops(limits, s);
    CountedDrops(limits, s');
  }

  lemma CountedDrops(limits: Limits, s: State)
    requires Invariant(limits, s)
    ensures s.dropped + s.reported == |WithFate(s.fates, DroppedAtRecord)|
  {
  }

  lemma PutBackLength(limits: Limits, s: State)
    requires Invariant(limits, s) && s.flushing
    ensures var all := s.inFlight + s.queue;
      var lost := Lost(all, Next(limits, s, FailRetryably).queue);
      |lost| == Max(0, |all| - limits.maxQueue) && Increasing(lost)
  {
    PutBackDropsTheNewest(limits, s);
  }

  lemma NewFates(fates: map<EventId, Fate>, ids: seq<EventId>, fate: Fate)
    requires forall i :: i in ids ==> i !in fates
    ensures |WithFate(fates, fate) + IdsOf(ids)| == |WithFate(fates, fate)| + |IdsOf(ids)|
  {
    assert WithFate(fates, fate) !! IdsOf(ids);
  }

  lemma LoserBeforePutBack()
    ensures var limits := Limits(1, 1);
      && Possible(limits, EMPTY, [Record, Begin, Record])
      && Run(limits, EMPTY, [Record, Begin, Record]) == State(2, [1], [0], true, map[], [], 0, 0)
  {
    var limits := Limits(1, 1);
    var one := Next(limits, EMPTY, Record);
    var two := Next(limits, one, Begin);
    assert one == State(1, [0], [], false, map[], [], 0, 0);
    assert two == State(1, [], [0], true, map[], [], 0, 0);
    assert Next(limits, two, Record) == State(2, [1], [0], true, map[], [], 0, 0);
  }

  lemma {:induction false} RunAppends(limits: Limits, s: State, steps: seq<Step>, last: Step)
    requires Possible(limits, s, steps) && Enabled(Run(limits, s, steps), last)
    ensures Possible(limits, s, steps + [last]) && Run(limits, s, steps + [last]) == Next(limits, Run(limits, s, steps), last)
    decreases |steps|
  {
    if steps == [] {
      assert [] + [last] == [last];
    } else {
      var first, rest := steps[0], steps[1..];
      RunAppends(limits, Next(limits, s, first), rest, last);
      assert [first] + (rest + [last]) == steps + [last];
    }
  }

  lemma LoserPutBack()
    ensures Next(Limits(1, 1), State(2, [1], [0], true, map[], [], 0, 0), FailRetryably) ==
            State(2, [0], [], false, map[1 := DroppedAtPutBack], [], 0, 0)
  {
    RequeueCutsTheRight([1], [0], 1);
    assert [0] + [1] == [0, 1] && [0, 1][..1] == [0];
    LostBehindKept([0], [1], [0]);
  }

  /** The shortest run in which it happens. A queue with room for one event holds the first; a flush
      takes it; the second is recorded; the post fails and can be tried again. The first event is back
      in the queue, the second, the newest, is gone, and no counter knows. */
  lemma NewestIsLostUncounted()
    ensures var limits, steps := Limits(1, 1), [Record, Begin, Record, FailRetryably];
      && Possible(limits, EMPTY, steps)
      && var s := Run(limits, EMPTY, steps);
         s.queue == [0] && s.fates == map[1 := DroppedAtPutBack] && s.dropped + s.reported == 0
  {
    hide Next, Run, Possible;
    LoserBeforePutBack();
    RunAppends(Limits(1, 1), EMPTY, [Record, Begin, Record], FailRetryably);
    assert [Record, Begin, Record] + [FailRetryably] == [Record, Begin, Record, FailRetryably];
    LoserPutBack();
  }

  // ---------------------------------------------------------------- one step, exactly

  /** Where a step leaves the events. A batch is the first `maxBatch` events of the queue, or all of it;
      only a full queue drops anything at recording; only a retryable failure puts a batch back; and a flush
      reports every drop counted since the one before. */
  lemma StepMovesEvents(limits: Limits, s: State, step: Step)
    requires Invariant(limits, s) && Enabled(s, step)
    ensures var s' := Next(limits, s, step);
      && (s'.flushing <==> (step.Begin? && s.queue != []) || (step.Record? && s.flushing))
      && match step
         case Record =>
           && s'.inFlight == s.inFlight
           && s'.queue == (s.queue + [s.recorded])[if |s.queue| < limits.maxQueue then 0 else 1..]
         case Begin =>
           && s'.inFlight + s'.queue == s.queue && |s'.inFlight| == Min(limits.maxBatch, |s.queue|)
           && s'.dropped == 0 && s'.reported == s.reported + s.dropped
         case FailRetryably =>
           s'.inFlight == [] && s'.queue == (s.inFlight + s.queue)[..Min(|s.inFlight + s.queue|, limits.maxQueue)]
         case _ => s'.inFlight == [] && s'.queue == s.queue
  {
    hide Ordered, Conserved, WithFate, Assign, Requeue, Lost;
    if step.FailRetryably? {
      RequeueCutsTheRight(s.queue, s.inFlight, limits.maxQueue);
    }
  }

  /** The fate that a step decides. */
  function FateOf(step: Step): Fate {
    match step
    case Record => DroppedAtRecord
    case Land => Delivered
    case FailRefused => Refused
    case _ => DroppedAtPutBack
  }

  /** Which events have their fate decided by a step, and which fate. It is never decided twice. */
  lemma StepDecidesFates(limits: Limits, s: State, step: Step, i: EventId)
    requires Invariant(limits, s) && Enabled(s, step)
    ensures var s' := Next(limits, s, step);
      if i in s.fates then i in s'.fates && s'.fates[i] == s.fates[i]
      else
        && (i in s'.fates ==> s'.fates[i] == FateOf(step))
        && (i in s'.fates <==>
              match step
              case Record => |s.queue| == limits.maxQueue && i == (if s.queue == [] then s.recorded else s.queue[0])
              case Begin => false
              case FailRetryably => i in s.queue && i !in s'.queue
              case _ => i in s.inFlight)
  {
    hide Ordered, Requeue, WithFate;
    if step.FailRetryably? {
      PutBackDropsTheNewest(limits, s);
      PutBackSplits(limits, s);
    }
  }

  // ---------------------------------------------------------------- the reporter

  /** The events that stand at these places of the recorded sequence. */
  function Pick<E>(log: seq<E>, ids: seq<EventId>): (events: seq<E>)
    requires forall i :: i in ids ==> i < |log|
    ensures |events| == |ids|
  {
    seq(|ids|, k requires 0 <= k < |ids| => assert ids[k] in ids; log[ids[k]])
  }

  lemma PickGrows<E>(log: seq<E>, event: E, ids: seq<EventId>)
    requires forall i :: i in ids ==> i < |log|
    ensures Pick(log + [event], ids) == Pick(log, ids)
    ensures forall i :: i in ids + [|log|] ==> i < |log + [event]|
    ensures Pick(log + [event], ids + [|log|]) == Pick(log, ids) + [event]
  {
    forall k | 0 <= k < |ids| ensures ids[k] < |log| {
      assert ids[k] in ids;
    }
  }

  lemma PickSlice<E>(log: seq<E>, ids: seq<EventId>, from: nat, to: nat)
    requires from <= to <= |ids| && forall i :: i in ids ==> i < |log|
    ensures forall i :: i in ids[from..to] ==> i < |log|
    ensures Pick(log, ids[from..to]) == Pick(log, ids)[from..to]
  {
    assert forall i :: i in ids[from..to] ==> i in ids;
  }

  lemma PickConcat<E>(log: seq<E>, a: seq<EventId>, b: seq<EventId>)
    requires forall i :: i in a + b ==> i < |log|
    ensures (forall i :: i in a ==> i < |log|) && (forall i :: i in b ==> i < |log|)
    ensures Pick(log, a + b) == Pick(log, a) + Pick(log, b)
  {
    assert forall i :: i in a ==> i in a + b;
    assert forall i :: i in b ==> i in a + b;
  }

  /** `EventReporter` as the source writes it, next to the life of its events: `log` is everything ever
      recorded, and `state` is where the machine above has got to with the same calls. */
  class EventReporter<E> {
    const maxQueue: nat
    const maxBatch: nat
    var queue: seq<E>
    var dropped: nat
    var failures: nat
    ghost var log: seq<E>
    ghost var state: State

    function Bounds(): Limits { Limits(maxQueue, maxBatch) }

    ghost predicate Valid() reads this {
      && Invariant(Bounds(), state) && state.recorded == |log|
      && queue == Pick(log, state.queue) && dropped == state.dropped
    }

    constructor (maxQueue: nat, maxBatch: nat)
      ensures Valid() && state == EMPTY && log == []
      ensures this.maxQueue == maxQueue && this.maxBatch == maxBatch && failures == 0
    {
      this.maxQueue, this.maxBatch := maxQueue, maxBatch;
      queue, dropped, failures := [], 0, 0;
      log, state := [], EMPTY;
      new;
      EmptyInvariant(Bounds());
    }

    method Record(event: E)
      requires Valid()
      modifies this
      ensures Valid() && log == old(log) + [event] && failures == old(failures)
      ensures state == Next(Bounds(), old(state), Step.Record)
    {
      RecordKeepsInvariant(Bounds(), state);
      PickGrows(log, event, state.queue);
      ghost var grown := state.queue + [|log|];
      if |grown| > 0 { PickSlice(log + [event], grown, 1, |grown|); }
      hide Invariant;
      if |queue| == maxQueue {
        dropped := dropped + 1;
      }
      queue := Append(queue, event, maxQueue);
      log := log + [event];
      state := Next(Bounds(), state, Step.Record);
    }

    /** `flush_once` up to the post: report the drops, and take a batch unless nothing is queued. */
    method BeginFlush() returns (reported: nat, batch: Option<seq<E>>)
      requires Valid() && !state.flushing
      modifies this
      ensures Valid() && log == old(log) && failures == old(failures) && reported == old(dropped)
      ensures state == Next(Bounds(), old(state), Begin)
      ensures batch == if state.flushing then Some(Pick(log, state.inFlight)) else None
    {
      BeginKeepsInvariant(Bounds(), state);
      ghost var n' := Min(maxBatch, |state.queue|);
      PickSlice(log, state.queue, 0, n');
      PickSlice(log, state.queue, n', |state.queue|);
      hide Invariant;
      reported := dropped;
      dropped := 0;
      ghost var before := state;
      state := Next(Bounds(), state, Begin);
      if queue == [] {
        return reported, None;
      }
      var taken: seq<E> := [];
      var n := Min(maxBatch, |queue|);
      for i := 0 to n
        invariant |queue| == |old(queue)| - i && taken == old(queue)[..i] && queue == old(queue)[i..]
        invariant dropped == 0 && failures == old(failures) && log == old(log)
        invariant state == Next(Bounds(), before, Begin)
      {
        taken := taken + [queue[0]];
        queue := queue[1..];
      }
      assert before.queue[0..n] == before.queue[..n] && before.queue[n..|before.queue|] == before.queue[n..];
      batch := Some(taken);
    }

    /** The post went through. */
    method Landed()
      requires Valid() && state.flushing
      modifies this
      ensures Valid() && log == old(log) && failures == 0
      ensures state == Next(Bounds(), old(state), Land)
    {
      LandKeepsInvariant(Bounds(), state);
      hide Invariant;
      if failures > 0 {
        failures := 0;
      }
      state := Next(Bounds(), state, Land);
    }

    /** `_requeue`: from the last event of the batch to the first. */
    method PutBack(batch: seq<E>)
      modifies this`queue
      ensures queue == Requeue(old(queue), batch, maxQueue)
    {
      var i := |batch|;
      assert batch[..i] == batch;
      while i > 0
        invariant 0 <= i <= |batch|
        invariant Requeue(queue, batch[..i], maxQueue) == Requeue(old(queue), batch, maxQueue)
      {
        i := i - 1;
        assert batch[..i + 1][..i] == batch[..i];
        queue := AppendLeft(queue, batch[i], maxQueue);
      }
    }

    /** `_failed`: a retryable failure puts the batch back, a refusal ends it. */
    method Failed(batch: seq<E>, retryable: bool)
      requires Valid() && state.flushing && batch == Pick(log, state.inFlight)
      modifies this
      ensures Valid() && log == old(log) && failures == old(failures) + if retryable then 1 else 0
      ensures state == Next(Bounds(), old(state), if retryable then FailRetryably else FailRefused)
    {
      hide Invariant, Requeue, Lost, Assign;
      if retryable {
        PutBackPicks(Bounds(), log, state);
        failures := failures + 1;
        PutBack(batch);
        state := Next(Bounds(), state, FailRetryably);
      } else {
        RefusalKeepsInvariant(Bounds(), state);
        state := Next(Bounds(), state, FailRefused);
      }
    }
  }

  lemma RequeuePicks<E>(log: seq<E>, queue: seq<EventId>, batch: seq<EventId>, maxlen: nat)
    requires |queue| <= maxlen && |batch| <= maxlen && forall i :: i in batch + queue ==> i < |log|
    ensures (forall i :: i in batch ==> i < |log|) && (forall i :: i in queue ==> i < |log|)
    ensures var kept := (batch + queue)[..Min(|batch| + |queue|, maxlen)];
      (forall i :: i in kept ==> i < |log|) && Requeue(Pick(log, queue), Pick(log, batch), maxlen) == Pick(log, kept)
  {
    hide Requeue, Pick;
    PickConcat(log, batch, queue);
    RequeueCutsTheRight(Pick(log, queue), Pick(log, batch), maxlen);
    var all, n := batch + queue, Min(|batch| + |queue|, maxlen);
    PickSlice(log, all, 0, n);
    assert all[0..n] == all[..n];
  }

  /** Putting back the events is putting back their places. */
  lemma PutBackPicks<E>(limits: Limits, log: seq<E>, s: State)
    requires Invariant(limits, s) && s.flushing && s.recorded == |log|
    ensures Invariant(limits, Next(limits, s, FailRetryably))
    ensures Requeue(Pick(log, s.queue), Pick(log, s.inFlight), limits.maxQueue) == Pick(log, Next(limits, s, FailRetryably).queue)
  {
    hide Lost, Assign, WithFate, Increasing, Ordered, Requeue, Pick;
    PutBackKeepsInvariant(limits, s);
    assert forall x :: x in s.inFlight + s.queue ==> x in s.inFlight || x in s.queue;
    RequeueCutsTheRight(s.queue, s.inFlight, limits.maxQueue);
    RequeuePicks(log, s.queue, s.inFlight, limits.maxQueue);
  }
}
