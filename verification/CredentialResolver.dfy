/** `CloudCredentialResolver.resolve`: concurrent callers, one reference-counted lock per digest being
    looked up, and the tables in front of both. */
module CredentialResolver {
  import opened Prelude
  import opened CredentialTables

  type CallerId = nat

  datatype Phase = WaitingForLock | LookingUp

  /** A caller inside the guarded part of `resolve`, holding one claim on its lookup's lock object. `L` is
      whatever identifies a lock object; in the class it is a reference to the object itself. */
  datatype Caller<L> = Caller(digest: Digest, inflight: L, phase: Phase)

  /** `locks` is the table of lock objects, `waiters` each object's count. An object keeps its count
      whether or not the table still knows it. */
  datatype State<L> = State(
    memory: Memory, locks: map<Digest, L>, waiters: map<L, int>, callers: map<CallerId, Caller<L>>)

  datatype Event<L> =
    | Arrive(id: CallerId, digest: Digest, now: real, unused: L)   // up to the first suspension
    | Acquire(id: CallerId, now: real)                                     // the lock is ours: look again
    | Answered(id: CallerId, credential: Option<Credential>, now: real)      // the lookup came back
    | Outage(id: CallerId)                                                 // IntrospectionUnavailable
    | Cancel(id: CallerId)                                                 // at either suspension

  /** Nobody is looking up under this lock object. */
  predicate Free<L(==)>(callers: map<CallerId, Caller<L>>, inflight: L) {
    forall c :: c in callers && callers[c].inflight == inflight ==> callers[c].phase != LookingUp
  }

  predicate Enabled<L(==)>(s: State<L>, event: Event<L>) {
    match event
    case Arrive(id, digest, now, unused) => id !in s.callers && unused !in s.waiters && s.memory.clock <= now
    case Acquire(id, now) =>
      && id in s.callers && s.callers[id].phase == WaitingForLock
      && Free(s.callers, s.callers[id].inflight) && s.memory.clock <= now
    case Answered(id, _, now) => id in s.callers && s.callers[id].phase == LookingUp && s.memory.clock <= now
    case Outage(id) => id in s.callers && s.callers[id].phase == LookingUp
    case Cancel(id) => id in s.callers
  }

  function Waiters<L(==)>(s: State<L>, inflight: L): int {
    if inflight in s.waiters then s.waiters[inflight] else 0
  }

  /** The claim made before the first await. */
  function Claim<L(==)>(s: State<L>, id: CallerId, digest: Digest, unused: L): State<L> {
    var inflight := if digest in s.locks then s.locks[digest] else unused;
    s.(locks := s.locks[digest := inflight],
       waiters := s.waiters[inflight := Waiters(s, inflight) + 1],
       callers := s.callers[id := Caller(digest, inflight, WaitingForLock)])
  }

  /** The `finally` block: every way out passes it. */
  function Leave<L(==)>(s: State<L>, id: CallerId): State<L>
    requires id in s.callers
  {
    var caller := s.callers[id];
    var count := Waiters(s, caller.inflight) - 1;
    s.(waiters := s.waiters[caller.inflight := count],
       locks := if count == 0 && caller.digest in s.locks && s.locks[caller.digest] == caller.inflight
                then s.locks - {caller.digest} else s.locks,
       callers := s.callers - {id})
  }

  function AfterLookup<L>(limits: Limits, s: State<L>, digest: Digest, now: real): State<L>
    requires limits.maxPositive >= 1 && limits.maxNegative >= 1
  {
    s.(memory := Apply(limits, s.memory, Lookup(digest, now)))
  }

  function AfterAnswer<L>(limits: Limits, s: State<L>, digest: Digest, credential: Option<Credential>, now: real): State<L>
    requires limits.maxPositive >= 1 && limits.maxNegative >= 1
  {
    s.(memory := Apply(limits, s.memory, Remember(digest, credential, now)))
  }

  function Next<L(==)>(limits: Limits, s: State<L>, event: Event<L>): State<L>
    requires limits.maxPositive >= 1 && limits.maxNegative >= 1 && Enabled(s, event)
  {
    match event
    case Arrive(id, digest, now, unused) =>
      var looked := AfterLookup(limits, s, digest, now);
      if Cached(s.memory.tables, digest, now).1.Some? then looked else Claim(looked, id, digest, unused)
    case Acquire(id, now) =>
      var looked := AfterLookup(limits, s, s.callers[id].digest, now);
      if Cached(s.memory.tables, s.callers[id].digest, now).1.Some? then Leave(looked, id)
      else looked.(callers := s.callers[id := s.callers[id].(phase := LookingUp)])
    case Answered(id, credential, now) =>
      Leave(AfterAnswer(limits, s, s.callers[id].digest, credential, now), id)
    case Outage(id) => Leave(s, id)
    case Cancel(id) => Leave(s, id)
  }

  function Run<L(==)>(limits: Limits, s: State<L>, events: seq<Event<L>>): State<L>
    requires limits.maxPositive >= 1 && limits.maxNegative >= 1 && Possible(limits, s, events)
    decreases |events|
  {
    if events == [] then s else Run(limits, Next(limits, s, events[0]), events[1..])
  }

  predicate Possible<L(==)>(limits: Limits, s: State<L>, events: seq<Event<L>>)
    requires limits.maxPositive >= 1 && limits.maxNegative >= 1
    decreases |events|
  {
    events == [] || (Enabled(s, events[0]) && Possible(limits, Next(limits, s, events[0]), events[1..]))
  }

  // ---------------------------------------------------------------- invariant

  function Inside<L(==)>(callers: map<CallerId, Caller<L>>, digest: Digest): set<CallerId> {
    set c | c in callers && callers[c].digest == digest
  }

  type Callers<L> = map<CallerId, Caller<L>>
  type Locks<L> = map<Digest, L>

  /** Every caller holds the lock object the table has for its digest. */
  ghost predicate SharedLocks<L>(locks: Locks<L>, callers: Callers<L>) {
    forall c :: c in callers ==> callers[c].digest in locks && locks[callers[c].digest] == callers[c].inflight
  }

  /** Every lock object in the table counts the callers inside for its digest, at least one. */
  ghost predicate ExactCounts<L>(locks: Locks<L>, waiters: map<L, int>, callers: Callers<L>) {
    forall d :: d in locks ==>
      locks[d] in waiters && waiters[locks[d]] == |Inside(callers, d)| && Inside(callers, d) != {}
  }

  ghost predicate OneObjectEach<L>(locks: Locks<L>) {
    forall d, e :: d in locks && e in locks && locks[d] == locks[e] ==> d == e
  }

  ghost predicate MutualExclusion<L>(callers: Callers<L>) {
    forall a, b ::
      (a in callers && b in callers && callers[a].phase == LookingUp && callers[b].phase == LookingUp
       && callers[a].inflight == callers[b].inflight) ==> a == b
  }

  ghost predicate LockInvariant<L>(s: State<L>) {
    && SharedLocks(s.locks, s.callers) && ExactCounts(s.locks, s.waiters, s.callers)
    && OneObjectEach(s.locks) && MutualExclusion(s.callers)
  }

  ghost predicate Invariant<L>(limits: Limits, s: State<L>) {
    CredentialTables.Invariant(limits, s.memory.tables, s.memory.last, s.memory.clock) && LockInvariant(s)
  }

  lemma InsideAdd<L>(callers: Callers<L>, id: CallerId, caller: Caller<L>, d: Digest)
    requires id !in callers
    ensures Inside(callers[id := caller], d) == Inside(callers, d) + if d == caller.digest then {id} else {}
    ensures |Inside(callers[id := caller], d)| == |Inside(callers, d)| + if d == caller.digest then 1 else 0
  {
    assert Inside(callers[id := caller], d) == Inside(callers, d) + if d == caller.digest then {id} else {};
  }

  lemma InsideRemove<L>(callers: Callers<L>, id: CallerId, d: Digest)
    requires id in callers
    ensures Inside(callers - {id}, d) == Inside(callers, d) - {id}
    ensures d != callers[id].digest ==> Inside(callers - {id}, d) == Inside(callers, d)
    ensures d == callers[id].digest ==> |Inside(callers - {id}, d)| == |Inside(callers, d)| - 1
  {
    assert Inside(callers - {id}, d) == Inside(callers, d) - {id};
    if d == callers[id].digest { assert id in Inside(callers, d); }
  }

  lemma NobodyInside<L>(locks: Locks<L>, callers: Callers<L>, digest: Digest)
    requires SharedLocks(locks, callers) && digest !in locks
    ensures Inside(callers, digest) == {}
  {
  }

  lemma ClaimKeepsObjectsApart<L>(s: State<L>, digest: Digest, unused: L)
    requires LockInvariant(s) && (digest !in s.locks ==> unused !in s.waiters)
    ensures OneObjectEach(s.locks[digest := if digest in s.locks then s.locks[digest] else unused])
  {
  }

  lemma ClaimKeepsCounts<L>(s: State<L>, id: CallerId, digest: Digest, unused: L)
    requires LockInvariant(s) && id !in s.callers && (digest !in s.locks ==> unused !in s.waiters)
    ensures var s' := Claim(s, id, digest, unused); ExactCounts(s'.locks, s'.waiters, s'.callers)
  {
    hide Inside, MutualExclusion;
    var s' := Claim(s, id, digest, unused);
    var caller := s'.callers[id];
    forall d | d in s'.locks
      ensures s'.locks[d] in s'.waiters && s'.waiters[s'.locks[d]] == |Inside(s'.callers, d)| && Inside(s'.callers, d) != {}
    {
      InsideAdd(s.callers, id, caller, d);
      if digest !in s.locks { NobodyInside(s.locks, s.callers, digest); }
    }
  }

  lemma ClaimKeepsLocks<L>(s: State<L>, id: CallerId, digest: Digest, unused: L)
    requires LockInvariant(s) && id !in s.callers && (digest !in s.locks ==> unused !in s.waiters)
    ensures LockInvariant(Claim(s, id, digest, unused))
  {
    ClaimKeepsCounts(s, id, digest, unused);
    ClaimKeepsObjectsApart(s, digest, unused);
    var s' := Claim(s, id, digest, unused);
    assert SharedLocks(s'.locks, s'.callers);
    assert MutualExclusion(s'.callers);
  }

  lemma LeaveKeepsCounts<L>(s: State<L>, id: CallerId)
    requires LockInvariant(s) && id in s.callers
    ensures var s' := Leave(s, id);
      ExactCounts(s'.locks, s'.waiters, s'.callers) && OneObjectEach(s'.locks)
    ensures Leave(s, id).locks == if Inside(s.callers - {id}, s.callers[id].digest) == {} then s.locks - {s.callers[id].digest} else s.locks
  {
    var s' := Leave(s, id);
    InsideRemove(s.callers, id, s.callers[id].digest);
    forall d | d in s'.locks
      ensures s'.locks[d] in s'.waiters && s'.waiters[s'.locks[d]] == |Inside(s'.callers, d)| && Inside(s'.callers, d) != {}
    {
      InsideRemove(s.callers, id, d);
    }
  }

  lemma LeaveKeepsLocks<L>(s: State<L>, id: CallerId)
    requires LockInvariant(s) && id in s.callers
    ensures LockInvariant(Leave(s, id))
  {
    LeaveKeepsCounts(s, id);
    var s' := Leave(s, id);
    forall c | c in s'.callers
      ensures s'.callers[c].digest in s'.locks && s'.locks[s'.callers[c].digest] == s'.callers[c].inflight
    {
      assert c in Inside(s.callers - {id}, s.callers[c].digest);
    }
    assert MutualExclusion(s'.callers);
  }

  lemma LookKeepsLocks<L>(s: State<L>, id: CallerId)
    requires LockInvariant(s) && id in s.callers && Free(s.callers, s.callers[id].inflight)
    ensures LockInvariant(s.(callers := s.callers[id := s.callers[id].(phase := LookingUp)]))
  {
    var s' := s.(callers := s.callers[id := s.callers[id].(phase := LookingUp)]);
    forall d
      ensures Inside(s'.callers, d) == Inside(s.callers, d)
    {
    }
  }

  lemma LookupKeepsInvariant<L>(limits: Limits, s: State<L>, digest: Digest, now: real)
    requires Invariant(limits, s) && s.memory.clock <= now
    ensures Invariant(limits, AfterLookup(limits, s, digest, now))
  {
    CallKeepsInvariant(limits, s.memory, Lookup(digest, now));
  }

  lemma AnswerKeepsInvariant<L>(limits: Limits, s: State<L>, digest: Digest, credential: Option<Credential>, now: real)
    requires Invariant(limits, s) && s.memory.clock <= now
    ensures Invariant(limits, AfterAnswer(limits, s, digest, credential, now))
  {
    CallKeepsInvariant(limits, s.memory, Remember(digest, credential, now));
  }

  lemma ClaimKeepsInvariant<L>(limits: Limits, s: State<L>, id: CallerId, digest: Digest, unused: L)
    requires Invariant(limits, s) && id !in s.callers && (digest !in s.locks ==> unused !in s.waiters)
    ensures Invariant(limits, Claim(s, id, digest, unused))
  {
    ClaimKeepsLocks(s, id, digest, unused);
  }

  lemma LeaveKeepsInvariant<L>(limits: Limits, s: State<L>, id: CallerId)
    requires Invariant(limits, s) && id in s.callers
    ensures Invariant(limits, Leave(s, id))
  {
    LeaveKeepsLocks(s, id);
  }

  lemma LookKeepsInvariant<L>(limits: Limits, s: State<L>, id: CallerId)
    requires Invariant(limits, s) && id in s.callers && Free(s.callers, s.callers[id].inflight)
    ensures Invariant(limits, s.(callers := s.callers[id := s.callers[id].(phase := LookingUp)]))
  {
    LookKeepsLocks(s, id);
  }

  lemma NextKeepsInvariant<L>(limits: Limits, s: State<L>, event: Event<L>)
    requires limits.maxPositive >= 1 && limits.maxNegative >= 1
    requires Invariant(limits, s) && Enabled(s, event)
    ensures Invariant(limits, Next(limits, s, event))
  {
    hide Invariant, Cached, Store, Free;
    match event
    case Arrive(id, digest, now, unused) =>
      LookupKeepsInvariant(limits, s, digest, now);
      ClaimKeepsInvariant(limits, AfterLookup(limits, s, digest, now), id, digest, unused);
    case Acquire(id, now) =>
      LookupKeepsInvariant(limits, s, s.callers[id].digest, now);
      LeaveKeepsInvariant(limits, AfterLookup(limits, s, s.callers[id].digest, now), id);
      LookKeepsInvariant(limits, AfterLookup(limits, s, s.callers[id].digest, now), id);
    case Answered(id, credential, now) =>
      AnswerKeepsInvariant(limits, s, s.callers[id].digest, credential, now);
      LeaveKeepsInvariant(limits, AfterAnswer(limits, s, s.callers[id].digest, credential, now), id);
    case Outage(id) => LeaveKeepsInvariant(limits, s, id);
    case Cancel(id) => LeaveKeepsInvariant(limits, s, id);
  }

  /** In every interleaving, outages and cancellations included. */
  lemma {:induction false} RunKeepsInvariant<L>(limits: Limits, s: State<L>, events: seq<Event<L>>)
    requires Invariant(limits, s) && Possible(limits, s, events)
    ensures Invariant(limits, Run(limits, s, events))
    decreases |events|
  {
    if events != [] {
      NextKeepsInvariant(limits, s, events[0]);
      RunKeepsInvariant(limits, Next(limits, s, events[0]), events[1..]);
    }
  }

  /** Nothing remembered, nobody inside, and the clock at `start`. */
  function Fresh<L>(start: real): State<L> {
    State(Memory(Tables([], []), map[], start), map[], map[], map[])
  }

  lemma FreshInvariant<L>(limits: Limits, start: real)
    requires limits.maxPositive >= 1 && limits.maxNegative >= 1
    ensures Invariant(limits, Fresh<L>(start))
  {
  }

  // ---------------------------------------------------------------- single flight, no leaks

  /** At most one lookup per digest is awaited at once. */
  lemma SingleFlight<L>(limits: Limits, start: real, events: seq<Event<L>>, a: CallerId, b: CallerId)
    requires limits.maxPositive >= 1 && limits.maxNegative >= 1 && Possible(limits, Fresh<L>(start), events)
    requires var s := Run(limits, Fresh<L>(start), events);
      && a in s.callers && b in s.callers && s.callers[a].phase == LookingUp && s.callers[b].phase == LookingUp
      && s.callers[a].digest == s.callers[b].digest
    ensures a == b
  {
    FreshInvariant<L>(limits, start);
    RunKeepsInvariant(limits, Fresh<L>(start), events);
  }

  /** The lock table holds an object for exactly the digests somebody is inside for, and each
      object's count is the number of those callers: with nobody inside the table is empty. */
  lemma NoLeakedLocks<L>(limits: Limits, start: real, events: seq<Event<L>>, digest: Digest)
    requires limits.maxPositive >= 1 && limits.maxNegative >= 1 && Possible(limits, Fresh<L>(start), events)
    ensures var s := Run(limits, Fresh<L>(start), events);
      && (digest in s.locks <==> Inside(s.callers, digest) != {})
      && (digest in s.locks ==> Waiters(s, s.locks[digest]) == |Inside(s.callers, digest)|)
      && (s.callers == map[] ==> s.locks == map[])
  {
    FreshInvariant<L>(limits, start);
    RunKeepsInvariant(limits, Fresh<L>(start), events);
    var s := Run(limits, Fresh<L>(start), events);
    if Inside(s.callers, digest) != {} {
      var c :| c in Inside(s.callers, digest);
      assert c in s.callers;
    }
    if s.callers == map[] {
      assert forall d :: Inside(s.callers, d) == {};
      assert s.locks.Keys == {};
    }
  }

  /** One lookup answers the burst: a caller that was waiting when the answer was stored, and gets
      the lock before the answer expires, leaves with it and makes no lookup of its own. */
  lemma WaiterTakesTheAnswer<L>(limits: Limits, s: State<L>, id: CallerId, credential: Option<Credential>, now: real,
                             waiter: CallerId, later: real)
    requires Invariant(limits, s) && Enabled(s, Answered(id, credential, now))
    requires waiter != id && waiter in s.callers && s.callers[waiter].digest == s.callers[id].digest
    requires now <= later < now + Ttl(limits, credential)
    ensures var s' := Next(limits, s, Answered(id, credential, now));
      && Enabled(s', Acquire(waiter, later))
      && waiter !in Next(limits, s', Acquire(waiter, later)).callers
      && Cached(s'.memory.tables, s.callers[waiter].digest, later).1 ==
         Some(Row(s.callers[waiter].digest, credential, now + Ttl(limits, credential)))
  {
    StoredAnswerIsFound(limits, s.memory.tables, s.callers[id].digest, credential, now, later);
    var s' := Next(limits, s, Answered(id, credential, now));
    assert s.callers[waiter].inflight == s.callers[id].inflight;
  }

  // ---------------------------------------------------------------- what reaches the tables

  /** The call that a step makes of the tables: a lookup on arrival and when the lock is had, a store for
      an answer. Outages and cancellations make none. */
  function TableCall<L(==)>(s: State<L>, event: Event<L>): Option<Op>
    requires Enabled(s, event)
  {
    match event
    case Arrive(_, digest, now, _) => Some(Lookup(digest, now))
    case Acquire(id, now) => Some(Lookup(s.callers[id].digest, now))
    case Answered(id, credential, now) => Some(Remember(s.callers[id].digest, credential, now))
    case _ => None
  }

  function TableCalls<L(==)>(limits: Limits, s: State<L>, events: seq<Event<L>>): seq<Op>
    requires limits.maxPositive >= 1 && limits.maxNegative >= 1 && Possible(limits, s, events)
    decreases |events|
  {
    if events == [] then []
    else
      var rest := TableCalls(limits, Next(limits, s, events[0]), events[1..]);
      if TableCall(s, events[0]).Some? then [TableCall(s, events[0]).value] + rest else rest
  }

  lemma StepMemory<L>(limits: Limits, s: State<L>, event: Event<L>)
    requires limits.maxPositive >= 1 && limits.maxNegative >= 1 && Enabled(s, event)
    ensures match TableCall(s, event)
      case None => Next(limits, s, event).memory == s.memory
      case Some(op) => Next(limits, s, event).memory == Apply(limits, s.memory, op) && s.memory.clock <= op.now
    ensures TableCall(s, event).Some? ==> Next(limits, s, event).memory.clock == TableCall(s, event).value.now
  {
    hide Cached, Store, Free;
  }

  /** What is remembered after a run is what those calls leave: an outage is never remembered as a refusal,
      and a caller that is cancelled leaves no trace. */
  lemma {:induction false} MemoryIsItsCalls<L>(limits: Limits, s: State<L>, events: seq<Event<L>>)
    requires limits.maxPositive >= 1 && limits.maxNegative >= 1 && Possible(limits, s, events)
    ensures Run(limits, s, events).memory == ApplyAll(limits, s.memory, TableCalls(limits, s, events))
    ensures Monotone(TableCalls(limits, s, events), s.memory.clock)
    decreases |events|
  {
    hide Next, Enabled, Apply, TableCall;
    if events != [] {
      StepMemory(limits, s, events[0]);
      MemoryIsItsCalls(limits, Next(limits, s, events[0]), events[1..]);
    }
  }

  /** A caller goes inside only if no unexpired row answers it, and makes a lookup only if, with the lock
      in hand, there still is none. */
  lemma MissIsLookedUp<L>(limits: Limits, s: State<L>, event: Event<L>)
    requires Invariant(limits, s) && Enabled(s, event) && (event.Arrive? || event.Acquire?)
    ensures var digest := if event.Arrive? then event.digest else s.callers[event.id].digest;
      var s' := Next(limits, s, event);
      var answered := exists r :: (r in s.memory.tables.positive || r in s.memory.tables.negative) && r.digest == digest && r.expires > event.now;
      if answered then event.id !in s'.callers
      else event.id in s'.callers && s'.callers[event.id].digest == digest
           && s'.callers[event.id].phase == if event.Arrive? then WaitingForLock else LookingUp
  {
    var digest := if event.Arrive? then event.digest else s.callers[event.id].digest;
    HitIsTheLastAnswer(limits, s.memory, digest, event.now);
    hide LockInvariant, CredentialTables.Invariant, Cached;
  }

  /** Nothing waits for ever: a caller inside can go on, unless it waits for another that can. */
  lemma EveryCallerCanProceed<L>(limits: Limits, s: State<L>, id: CallerId, credential: Option<Credential>, now: real)
    requires Invariant(limits, s) && id in s.callers && s.memory.clock <= now
    ensures Enabled(s, Cancel(id))
    ensures s.callers[id].phase.LookingUp? ==> Enabled(s, Answered(id, credential, now)) && Enabled(s, Outage(id))
    ensures s.callers[id].phase.WaitingForLock? ==>
              || Enabled(s, Acquire(id, now))
              || exists other :: other in s.callers && s.callers[other].phase.LookingUp? && s.callers[other].digest == s.callers[id].digest
  {
    if s.callers[id].phase.WaitingForLock? && !Enabled(s, Acquire(id, now)) {
      var other :| other in s.callers && s.callers[other].inflight == s.callers[id].inflight && s.callers[other].phase == LookingUp;
      assert s.callers[other].digest == s.callers[id].digest;
    }
  }
}
