/** Any number of concurrent `IdempotencyCache.execute` calls, interleaved at the points where the
    source can be suspended: before a lock section, while the operation runs, and while a follower
    waits for the event of the entry it joined. */
module Coalescing {
  import opened Prelude
  import opened Keys
  import opened ExpiryQueue
  import opened Idempotency

  type CallId = nat

  datatype Phase =
    | Created                                     // the cache task exists; the first section has not run
    | Running                                     // owner, awaiting the operation
    | Publishing(outcome: Outcome)                // owner, the operation has ended
    | Joined(owner: CallId)                       // follower of the entry that `owner` opened
    | Refused(reused: bool)                       // RequestIdReuseError, or IdempotencyCapacityError
    | Answered(owner: CallId, outcome: Outcome)   // returned or raised, from the entry of `owner`

  datatype Call = Call(key: Key, digest: Digest, phase: Phase)

  datatype Limits = Limits(maxEntries: nat, maxActive: nat, ttl: real)

  /** `published` holds the result or error of each entry whose event is set. An entry is named by
      the call that opened it, and outlives its row in the table for as long as anybody holds it. */
  datatype State = State(cache: Cache<CallId>, calls: map<CallId, Call>, published: map<CallId, Outcome>)

  const EMPTY := State(Cache(map[], [], 0, 0), map[], map[])

  datatype Event =
    | Create(id: CallId, key: Key, digest: Digest)
    | Enter(id: CallId, now: real)
    | Finish(id: CallId, outcome: Outcome)
    | Publish(id: CallId, now: real)
    | Wake(id: CallId)

  function SetPhase(calls: map<CallId, Call>, id: CallId, phase: Phase): map<CallId, Call>
    requires id in calls
  {
    calls[id := calls[id].(phase := phase)]
  }

  predicate Enabled(s: State, event: Event) {
    match event
    case Create(id, _, _) => id !in s.calls
    case Enter(id, _) => id in s.calls && s.calls[id].phase == Created
    case Finish(id, _) => id in s.calls && s.calls[id].phase == Running
    case Publish(id, _) => id in s.calls && s.calls[id].phase.Publishing? && s.calls[id].key in s.cache.entries
    case Wake(id) => id in s.calls && s.calls[id].phase.Joined? && s.calls[id].phase.owner in s.published
  }

  function EnterSection(limits: Limits, s: State, id: CallId, now: real): State
    requires id in s.calls
  {
    var purged := RemoveExpired(s.cache, now);
    var call := s.calls[id];
    match Lookup(purged, call.key, call.digest, limits.maxActive)
    case Reused => s.(cache := purged, calls := SetPhase(s.calls, id, Refused(true)))
    case Full => s.(cache := purged, calls := SetPhase(s.calls, id, Refused(false)))
    case Follower(owner) => s.(cache := purged, calls := SetPhase(s.calls, id, Joined(owner)))
    case Owner => s.(cache := Open(purged, call.key, call.digest, id), calls := SetPhase(s.calls, id, Running))
  }

  function PublishSection(limits: Limits, s: State, id: CallId, now: real): State
    requires id in s.calls && s.calls[id].phase.Publishing? && s.calls[id].key in s.cache.entries
  {
    var key, outcome := s.calls[id].key, s.calls[id].phase.outcome;
    State(if outcome.Returned? then EvictCompleted(Complete(s.cache, key, now + limits.ttl), limits.maxEntries)
          else Discard(s.cache, key, id),
          SetPhase(s.calls, id, Answered(id, outcome)),
          s.published[id := outcome])
  }

  function Next(limits: Limits, s: State, event: Event): State
    requires Enabled(s, event)
  {
    match event
    case Create(id, key, digest) => s.(calls := s.calls[id := Call(key, digest, Created)])
    case Enter(id, now) => EnterSection(limits, s, id, now)
    case Finish(id, outcome) => s.(calls := SetPhase(s.calls, id, Publishing(outcome)))
    case Publish(id, now) => PublishSection(limits, s, id, now)
    case Wake(id) =>
      var owner := s.calls[id].phase.owner;
      s.(calls := SetPhase(s.calls, id, Answered(owner, s.published[owner])))
  }

  ghost predicate IsRun(limits: Limits, states: seq<State>, events: seq<Event>) {
    && |states| == |events| + 1
    && forall i :: 0 <= i < |events| ==> Enabled(states[i], events[i]) && states[i + 1] == Next(limits, states[i], events[i])
  }

  // ---------------------------------------------------------------- invariant

  predicate Owning(call: Call) { call.phase.Running? || call.phase.Publishing? }

  type Table = map<Key, Slot<CallId>>
  type Calls = map<CallId, Call>
  type Events = map<CallId, Outcome>

  /** Both calls are known and asked for the same thing. */
  predicate SameRequest(calls: Calls, a: CallId, b: CallId) {
    a in calls && b in calls && calls[a].key == calls[b].key && calls[a].digest == calls[b].digest
  }

  /** The call joined, or was answered from, the entry that `owner` opened. */
  predicate DependsOn(call: Call, owner: CallId) {
    (call.phase.Joined? || call.phase.Answered?) && call.phase.owner == owner
  }

  ghost predicate OwnersHoldTheirEntry(table: Table, calls: Calls, published: Events) {
    forall id :: id in calls && Owning(calls[id]) ==>
      && calls[id].key in table
      && table[calls[id].key] == Slot(id, calls[id].digest, None)
      && id !in published
  }

  ghost predicate EntriesHaveOwners(table: Table, calls: Calls, published: Events) {
    forall k :: k in table ==>
      && table[k].entry in calls && calls[table[k].entry].key == k && calls[table[k].entry].digest == table[k].digest
      && (table[k].expires == None ==> Owning(calls[table[k].entry]))
      && (table[k].expires.Some? ==> table[k].entry in published && published[table[k].entry].Returned?)
  }

  ghost predicate PublishedByOwners(calls: Calls, published: Events) {
    forall id :: id in published ==> id in calls && calls[id].phase == Answered(id, published[id])
  }

  ghost predicate FollowersHaveOwners(calls: Calls, published: Events) {
    forall id, owner :: id in calls && DependsOn(calls[id], owner) ==>
      && SameRequest(calls, id, owner)
      && (calls[id].phase.Joined? ==> Owning(calls[owner]) || owner in published)
      && (calls[id].phase.Answered? ==> owner in published && published[owner] == calls[id].phase.outcome)
  }

  ghost predicate Linked(table: Table, calls: Calls, published: Events) {
    && OwnersHoldTheirEntry(table, calls, published) && EntriesHaveOwners(table, calls, published)
    && PublishedByOwners(calls, published) && FollowersHaveOwners(calls, published)
  }

  ghost predicate WithinLimits(limits: Limits, cache: Cache<CallId>) {
    Consistent(cache) && cache.active <= limits.maxActive && cache.completed <= limits.maxEntries
  }

  ghost predicate Invariant(limits: Limits, s: State) {
    WithinLimits(limits, s.cache) && Linked(s.cache.entries, s.calls, s.published)
  }

  /** `after` is `before` less some completed entries. */
  ghost predicate Forgets(before: Table, after: Table) {
    && (forall k :: k in after ==> k in before && after[k] == before[k])
    && (forall k :: k in before && before[k].expires == None ==> k in after)
  }

  lemma LinkedAfterForgetting(before: Table, after: Table, calls: Calls, published: Events)
    requires Linked(before, calls, published) && Forgets(before, after)
    ensures Linked(after, calls, published)
  {
  }

  lemma TableAfterQuietPhase(table: Table, calls: Calls, published: Events, id: CallId, call: Call)
    requires Linked(table, calls, published)
    requires id in calls ==> calls[id].phase == Created
    requires !Owning(call)
    ensures id !in published
    ensures OwnersHoldTheirEntry(table, calls[id := call], published) && EntriesHaveOwners(table, calls[id := call], published)
    ensures call.key in table && table[call.key].digest == call.digest ==>
              var owner := table[call.key].entry;
              owner != id && owner in calls && calls[owner].key == call.key && calls[owner].digest == call.digest
              && (Owning(calls[owner]) || owner in published)
  {
    assert id !in published;
    forall k | k in table
      ensures table[k].entry != id
    {
    }
  }

  lemma FollowersAfterQuietPhase(calls: Calls, published: Events, id: CallId, call: Call)
    requires PublishedByOwners(calls, published) && FollowersHaveOwners(calls, published) && id !in published
    requires id in calls ==> calls[id].phase == Created && calls[id].key == call.key && calls[id].digest == call.digest
    requires call.phase.Created? || call.phase.Refused? ||
             (call.phase.Joined? && var owner := call.phase.owner;
              owner != id && owner in calls && calls[owner].key == call.key && calls[owner].digest == call.digest
              && (Owning(calls[owner]) || owner in published))
    ensures PublishedByOwners(calls[id := call], published) && FollowersHaveOwners(calls[id := call], published)
  {
    var calls' := calls[id := call];
    forall other, owner | other in calls' && DependsOn(calls'[other], owner)
      ensures SameRequest(calls', other, owner)
      ensures calls'[other].phase.Joined? ==> Owning(calls'[owner]) || owner in published
      ensures calls'[other].phase.Answered? ==> owner in published && published[owner] == calls'[other].phase.outcome
    {
      if other != id {
        assert DependsOn(calls[other], owner);
      }
    }
  }

  /** A call that owns nothing and that nobody depends on may enter any phase that claims nothing,
      or join an entry of the table that carries its digest. */
  lemma LinkedAfterQuietPhase(table: Table, calls: Calls, published: Events, id: CallId, call: Call)
    requires Linked(table, calls, published)
    requires id in calls ==> calls[id].phase == Created && calls[id].key == call.key && calls[id].digest == call.digest
    requires call.phase.Created? || call.phase.Refused? ||
             (call.phase.Joined? && call.key in table && table[call.key].entry == call.phase.owner && table[call.key].digest == call.digest)
    ensures Linked(table, calls[id := call], published)
  {
    hide OwnersHoldTheirEntry, EntriesHaveOwners, PublishedByOwners, FollowersHaveOwners;
    TableAfterQuietPhase(table, calls, published, id, call);
    FollowersAfterQuietPhase(calls, published, id, call);
  }

  lemma FollowersAfterOpening(calls: Calls, published: Events, id: CallId)
    requires PublishedByOwners(calls, published) && FollowersHaveOwners(calls, published)
    requires id in calls && calls[id].phase == Created
    ensures PublishedByOwners(SetPhase(calls, id, Running), published) && FollowersHaveOwners(SetPhase(calls, id, Running), published)
  {
    var calls' := SetPhase(calls, id, Running);
    forall other, owner | other in calls' && DependsOn(calls'[other], owner)
      ensures SameRequest(calls', other, owner) && (owner == id || calls'[owner] == calls[owner])
    {
      assert DependsOn(calls[other], owner);
    }
  }

  lemma LinkedAfterOpening(table: Table, calls: Calls, published: Events, id: CallId)
    requires Linked(table, calls, published)
    requires id in calls && calls[id].phase == Created && calls[id].key !in table
    ensures Linked(table[calls[id].key := Slot(id, calls[id].digest, None)], SetPhase(calls, id, Running), published)
  {
    hide OwnersHoldTheirEntry, EntriesHaveOwners, PublishedByOwners, FollowersHaveOwners;
    TableAfterOpening(table, calls, published, id);
    FollowersAfterOpening(calls, published, id);
  }

  lemma TableAfterOpening(table: Table, calls: Calls, published: Events, id: CallId)
    requires Linked(table, calls, published)
    requires id in calls && calls[id].phase == Created && calls[id].key !in table
    ensures id !in published
    ensures var table', calls' := table[calls[id].key := Slot(id, calls[id].digest, None)], SetPhase(calls, id, Running);
      OwnersHoldTheirEntry(table', calls', published) && EntriesHaveOwners(table', calls', published)
  {
  }

  function AfterPublishing(table: Table, call: Call, id: CallId, expires: real): Table
    requires call.phase.Publishing?
  {
    if call.phase.outcome.Returned? then table[call.key := Slot(id, call.digest, Some(expires))] else table - {call.key}
  }

  /** An owner publishes: its entry becomes completed, or goes. */
  lemma EntriesAfterPublishing(table: Table, calls: Calls, published: Events, id: CallId, expires: real)
    requires Linked(table, calls, published) && id in calls && calls[id].phase.Publishing?
    ensures var outcome := calls[id].phase.outcome;
      var table', calls' := AfterPublishing(table, calls[id], id, expires), SetPhase(calls, id, Answered(id, outcome));
      OwnersHoldTheirEntry(table', calls', published[id := outcome]) && EntriesHaveOwners(table', calls', published[id := outcome])
  {
    var key := calls[id].key;
    assert table[key].entry == id;
    forall k | k in table && k != key
      ensures table[k].entry != id
    {
    }
    forall other | other in calls && other != id && Owning(calls[other])
      ensures calls[other].key != key
    {
    }
  }

  /** An owner publishes: every follower of its entry can wake, and will find this outcome. */
  lemma LinkedAfterPublishing(table: Table, calls: Calls, published: Events, id: CallId, expires: real)
    requires Linked(table, calls, published) && id in calls && calls[id].phase.Publishing?
    ensures var outcome := calls[id].phase.outcome;
      Linked(AfterPublishing(table, calls[id], id, expires), SetPhase(calls, id, Answered(id, outcome)), published[id := outcome])
  {
    EntriesAfterPublishing(table, calls, published, id, expires);
    var outcome := calls[id].phase.outcome;
    var calls', published' := SetPhase(calls, id, Answered(id, outcome)), published[id := outcome];
    forall other, owner | other in calls' && DependsOn(calls'[other], owner)
      ensures SameRequest(calls', other, owner)
      ensures calls'[other].phase.Joined? ==> Owning(calls'[owner]) || owner in published'
      ensures calls'[other].phase.Answered? ==> owner in published' && published'[owner] == calls'[other].phase.outcome
    {
      if other != id { assert DependsOn(calls[other], owner); }
    }
  }

  predicate Progresses(call: Call, published: Events, phase: Phase) {
    || (call.phase.Running? && phase.Publishing?)
    || (call.phase.Joined? && call.phase.owner in published && phase == Answered(call.phase.owner, published[call.phase.owner]))
  }

  lemma TableAfterProgress(table: Table, calls: Calls, published: Events, id: CallId, phase: Phase)
    requires Linked(table, calls, published) && id in calls && Progresses(calls[id], published, phase)
    ensures id !in published
    ensures OwnersHoldTheirEntry(table, SetPhase(calls, id, phase), published) && EntriesHaveOwners(table, SetPhase(calls, id, phase), published)
  {
    assert id !in published;
  }

  lemma FollowersAfterProgress(calls: Calls, published: Events, id: CallId, phase: Phase)
    requires PublishedByOwners(calls, published) && FollowersHaveOwners(calls, published)
    requires id in calls && id !in published && Progresses(calls[id], published, phase)
    ensures PublishedByOwners(SetPhase(calls, id, phase), published) && FollowersHaveOwners(SetPhase(calls, id, phase), published)
  {
    var calls' := SetPhase(calls, id, phase);
    forall other, owner | other in calls' && DependsOn(calls'[other], owner)
      ensures SameRequest(calls', other, owner)
      ensures calls'[other].phase.Joined? ==> Owning(calls'[owner]) || owner in published
      ensures calls'[other].phase.Answered? ==> owner in published && published[owner] == calls'[other].phase.outcome
    {
      assert DependsOn(calls[other], owner);
    }
  }

  lemma LinkedAfterProgress(table: Table, calls: Calls, published: Events, id: CallId, phase: Phase)
    requires Linked(table, calls, published) && id in calls && Progresses(calls[id], published, phase)
    ensures Linked(table, SetPhase(calls, id, phase), published)
  {
    hide OwnersHoldTheirEntry, EntriesHaveOwners, PublishedByOwners, FollowersHaveOwners;
    TableAfterProgress(table, calls, published, id, phase);
    FollowersAfterProgress(calls, published, id, phase);
  }

  lemma EnterKeepsInvariant(limits: Limits, s: State, id: CallId, now: real)
    requires Invariant(limits, s) && Enabled(s, Enter(id, now))
    ensures Invariant(limits, EnterSection(limits, s, id, now))
  {
    hide Linked;
    var purged, call := RemoveExpired(s.cache, now), s.calls[id];
    RemoveExpiredExact(s.cache, now);
    LinkedAfterForgetting(s.cache.entries, purged.entries, s.calls, s.published);
    match Lookup(purged, call.key, call.digest, limits.maxActive)
    case Owner =>
      OpenKeepsConsistent(purged, call.key, call.digest, id);
      LinkedAfterOpening(purged.entries, s.calls, s.published, id);
    case Reused => LinkedAfterQuietPhase(purged.entries, s.calls, s.published, id, call.(phase := Refused(true)));
    case Full => LinkedAfterQuietPhase(purged.entries, s.calls, s.published, id, call.(phase := Refused(false)));
    case Follower(owner) => LinkedAfterQuietPhase(purged.entries, s.calls, s.published, id, call.(phase := Joined(owner)));
  }

  lemma OwnerHoldsRow(table: Table, calls: Calls, published: Events, id: CallId)
    requires Linked(table, calls, published) && id in calls && Owning(calls[id])
    ensures calls[id].key in table && table[calls[id].key] == Slot(id, calls[id].digest, None)
  {
  }

  lemma PublishKeepsInvariant(limits: Limits, s: State, id: CallId, now: real)
    requires Invariant(limits, s) && Enabled(s, Publish(id, now))
    ensures Invariant(limits, PublishSection(limits, s, id, now))
  {
    hide Linked, Consistent, PopOldest;
    var key, outcome := s.calls[id].key, s.calls[id].phase.outcome;
    OwnerHoldsRow(s.cache.entries, s.calls, s.published, id);
    assert key in ActiveKeys(s.cache);
    if outcome.Returned? {
      var completed := Complete(s.cache, key, now + limits.ttl);
      CompleteKeepsConsistent(s.cache, key, now + limits.ttl);
      EvictKeepsYoungest(completed, limits.maxEntries);
      LinkedAfterPublishing(s.cache.entries, s.calls, s.published, id, now + limits.ttl);
      LinkedAfterForgetting(completed.entries, EvictCompleted(completed, limits.maxEntries).entries,
                            SetPhase(s.calls, id, Answered(id, outcome)), s.published[id := outcome]);
    } else {
      DiscardKeepsConsistent(s.cache, key, id);
      LinkedAfterPublishing(s.cache.entries, s.calls, s.published, id, now);
    }
  }

  lemma NextKeepsInvariant(limits: Limits, s: State, event: Event)
    requires Invariant(limits, s) && Enabled(s, event)
    ensures Invariant(limits, Next(limits, s, event))
  {
    match event
    case Create(id, key, digest) =>
      LinkedAfterQuietPhase(s.cache.entries, s.calls, s.published, id, Call(key, digest, Created));
    case Enter(id, now) => EnterKeepsInvariant(limits, s, id, now);
    case Finish(id, outcome) => LinkedAfterProgress(s.cache.entries, s.calls, s.published, id, Publishing(outcome));
    case Publish(id, now) => PublishKeepsInvariant(limits, s, id, now);
    case Wake(id) =>
      var owner := s.calls[id].phase.owner;
      LinkedAfterProgress(s.cache.entries, s.calls, s.published, id, Answered(owner, s.published[owner]));
  }

  lemma EmptyInvariant(limits: Limits)
    ensures Invariant(limits, EMPTY)
  {
    assert ActiveKeys(EMPTY.cache) == {};
  }

  lemma {:induction false} RunKeepsInvariant(limits: Limits, states: seq<State>, events: seq<Event>, i: nat)
    requires IsRun(limits, states, events) && i < |states| && states[0] == EMPTY
    ensures Invariant(limits, states[i])
  {
    hide Invariant, Next, Enabled;
    if i > 0 {
      RunKeepsInvariant(limits, states, events, i - 1);
      NextKeepsInvariant(limits, states[i - 1], events[i - 1]);
      assert states[i - 1 + 1] == Next(limits, states[i - 1], events[i - 1]);
    } else {
      EmptyInvariant(limits);
    }
  }

  // ---------------------------------------------------------------- what callers may count on

  /** Some run from the empty cache leads to the state. */
  ghost predicate Reachable(limits: Limits, s: State) {
    exists states, events :: IsRun(limits, states, events) && states[0] == EMPTY && s == states[|events|]
  }

  lemma ReachableInvariant(limits: Limits, s: State)
    requires Reachable(limits, s)
    ensures Invariant(limits, s)
  {
    hide Invariant, Next;
    var states, events :| IsRun(limits, states, events) && states[0] == EMPTY && s == states[|events|];
    RunKeepsInvariant(limits, states, events, |events|);
  }

  /** Nothing waits for ever: every call has a next step, except a follower whose owner has one. */
  lemma EveryCallCanProceed(limits: Limits, s: State, id: CallId, now: real, outcome: Outcome)
    requires Reachable(limits, s) && id in s.calls
    ensures match s.calls[id].phase
      case Created => Enabled(s, Enter(id, now))
      case Running => Enabled(s, Finish(id, outcome))
      case Publishing(_) => Enabled(s, Publish(id, now))
      case Joined(owner) => Enabled(s, Wake(id)) || (owner in s.calls && Owning(s.calls[owner]))
      case _ => true
  {
    ReachableInvariant(limits, s);
    if s.calls[id].phase.Joined? {
      assert DependsOn(s.calls[id], s.calls[id].phase.owner);
    }
  }

  /** At most one operation runs per key at any time. */
  lemma SingleFlight(limits: Limits, s: State, a: CallId, b: CallId)
    requires Reachable(limits, s)
    requires a in s.calls && b in s.calls && Owning(s.calls[a]) && Owning(s.calls[b])
    requires s.calls[a].key == s.calls[b].key
    ensures a == b
  {
    ReachableInvariant(limits, s);
    OwnerHoldsRow(s.cache.entries, s.calls, s.published, a);
    OwnerHoldsRow(s.cache.entries, s.calls, s.published, b);
  }

  lemma PublishedStays(limits: Limits, s: State, event: Event, owner: CallId)
    requires Invariant(limits, s) && Enabled(s, event) && owner in s.published
    ensures var s' := Next(limits, s, event); owner in s'.published && s'.published[owner] == s.published[owner]
  {
  }

  /** The event of an entry is set once and its result never changes afterwards, whatever happens
      to the entry's row in the table. */
  lemma {:induction false} PublishedForever(limits: Limits, states: seq<State>, events: seq<Event>, i: nat, j: nat, owner: CallId)
    requires IsRun(limits, states, events) && states[0] == EMPTY
    requires i <= j < |states| && owner in states[i].published
    ensures owner in states[j].published && states[j].published[owner] == states[i].published[owner]
    decreases j - i
  {
    hide Invariant, Next, Enabled;
    if i < j {
      PublishedForever(limits, states, events, i, j - 1, owner);
      RunKeepsInvariant(limits, states, events, j - 1);
      PublishedStays(limits, states[j - 1], events[j - 1], owner);
      assert states[j - 1 + 1] == Next(limits, states[j - 1], events[j - 1]);
    }
  }

  /** Every caller that joined an entry, and has been answered by the end of the run, was answered
      with exactly what the operation of the entry's owner returned or raised, and that owner asked
      with the same key and digest. The entry may have expired or been evicted in between. */
  lemma FollowersGetTheOwnersOutcome(
      limits: Limits, states: seq<State>, events: seq<Event>, i: nat, j: nat, follower: CallId, owner: CallId)
    requires IsRun(limits, states, events) && states[0] == EMPTY && i <= j < |states|
    requires owner in states[i].calls && states[i].calls[owner].phase.Publishing?
    requires follower in states[j].calls && states[j].calls[follower].phase.Answered?
    requires states[j].calls[follower].phase.owner == owner
    ensures states[j].calls[follower].phase.outcome == states[i].calls[owner].phase.outcome
    ensures SameRequest(states[j].calls, follower, owner)
  {
    RunKeepsInvariant(limits, states, events, j);
    PublishingIsDecided(limits, states, events, i, j, owner, states[i].calls[owner].phase.outcome);
    assert DependsOn(states[j].calls[follower], owner);
  }

  /** The entry of `owner` is published with `outcome`, or can only be published with it. */
  predicate Decided(s: State, owner: CallId, outcome: Outcome) {
    || (owner in s.calls && s.calls[owner].phase == Publishing(outcome))
    || (owner in s.published && s.published[owner] == outcome)
  }

  lemma StepKeepsDecided(limits: Limits, s: State, event: Event, owner: CallId, outcome: Outcome)
    requires Invariant(limits, s) && Enabled(s, event) && Decided(s, owner, outcome)
    ensures Decided(Next(limits, s, event), owner, outcome)
  {
    if owner in s.published {
      PublishedIsAnswered(limits, s, owner);
    }
    hide Invariant, RemoveExpired, EvictCompleted, Complete, Discard, Open;
  }

  lemma {:induction false} PublishingIsDecided(
      limits: Limits, states: seq<State>, events: seq<Event>, i: nat, j: nat, owner: CallId, outcome: Outcome)
    requires IsRun(limits, states, events) && states[0] == EMPTY && i <= j < |states|
    requires Decided(states[i], owner, outcome)
    ensures Decided(states[j], owner, outcome)
    decreases j - i
  {
    hide Invariant, Next, Enabled, Decided;
    if i < j {
      PublishingIsDecided(limits, states, events, i, j - 1, owner, outcome);
      RunKeepsInvariant(limits, states, events, j - 1);
      StepKeepsDecided(limits, states[j - 1], events[j - 1], owner, outcome);
      assert states[j - 1 + 1] == Next(limits, states[j - 1], events[j - 1]);
    }
  }

  /** An operation that failed leaves no trace: its key is gone from the table and the queue, the
      active count falls by one, and no other row, no record and no completed count has changed. */
  lemma FailureLeavesNoTrace(limits: Limits, s: State, id: CallId, now: real)
    requires Reachable(limits, s) && Enabled(s, Publish(id, now)) && s.calls[id].phase.outcome.Raised?
    ensures var s' := Next(limits, s, Publish(id, now));
      && s'.cache.entries == s.cache.entries - {s.calls[id].key}
      && s'.cache.queue == s.cache.queue && (forall r :: r in s'.cache.queue ==> r.key != s.calls[id].key)
      && s'.cache.active == s.cache.active - 1 && s'.cache.completed == s.cache.completed
  {
    ReachableInvariant(limits, s);
    OwnerHoldsRow(s.cache.entries, s.calls, s.published, id);
  }

  /** What a new caller meets on a completed entry. Strictly before the entry's expiry it joins it,
      or is rejected for a different digest, and no operation starts; from the expiry on it starts
      one afresh, if an active place is free. */
  lemma CompletedEntryAnswers(limits: Limits, s: State, id: CallId, now: real)
    requires Reachable(limits, s) && Enabled(s, Enter(id, now))
    requires var key := s.calls[id].key; key in s.cache.entries && s.cache.entries[key].expires.Some?
    ensures var slot := s.cache.entries[s.calls[id].key];
      Next(limits, s, Enter(id, now)).calls[id].phase ==
        if now < slot.expires.value then
          if s.calls[id].digest == slot.digest then Joined(slot.entry) else Refused(true)
        else if s.cache.active < limits.maxActive then Running
        else Refused(false)
  {
    ReachableInvariant(limits, s);
    hide Linked;
    RemoveExpiredExact(s.cache, now);
  }

  // ---------------------------------------------------------------- what a new caller becomes

  function Owners(calls: Calls): set<CallId> {
    set id | id in calls && Owning(calls[id])
  }

  lemma EntryOwns(table: Table, calls: Calls, published: Events, key: Key)
    requires Linked(table, calls, published) && key in table
    ensures var owner := table[key].entry;
      owner in calls && calls[owner].key == key && calls[owner].digest == table[key].digest
      && (table[key].expires == None ==> Owning(calls[owner]))
  {
  }

  /** The active count is the number of calls that own a key. */
  lemma ActiveAreOwners(limits: Limits, s: State)
    requires Invariant(limits, s)
    ensures s.cache.active == |Owners(s.calls)|
  {
    hide Linked;
    var table := s.cache.entries;
    var entryOf := map k | k in table :: table[k].entry;
    var keyOf := map id | id in s.calls :: s.calls[id].key;
    forall k | k in ActiveKeys(s.cache)
      ensures entryOf[k] in Owners(s.calls) && keyOf[entryOf[k]] == k
    {
      EntryOwns(table, s.calls, s.published, k);
    }
    forall id | id in Owners(s.calls)
      ensures keyOf[id] in ActiveKeys(s.cache) && entryOf[keyOf[id]] == id
    {
      OwnerHoldsRow(table, s.calls, s.published, id);
    }
    InjectiveImage(ActiveKeys(s.cache), Owners(s.calls), entryOf);
    InjectiveImage(Owners(s.calls), ActiveKeys(s.cache), keyOf);
  }

  /** A duplicate of a request in flight joins it. Whatever has expired meanwhile, a caller that finds its
      key owned follows the owner if it asks for the same thing, and is told of the reuse if it does not. */
  lemma DuplicateInFlightJoins(limits: Limits, s: State, id: CallId, now: real, owner: CallId)
    requires Reachable(limits, s) && Enabled(s, Enter(id, now))
    requires owner in s.calls && Owning(s.calls[owner]) && s.calls[owner].key == s.calls[id].key
    ensures Next(limits, s, Enter(id, now)).calls[id].phase ==
            if s.calls[owner].digest == s.calls[id].digest then Joined(owner) else Refused(true)
  {
    ReachableInvariant(limits, s);
    OwnerHoldsRow(s.cache.entries, s.calls, s.published, owner);
    RemoveExpiredExact(s.cache, now);
  }

  /** A caller whose key nobody owns, and which has no completed entry still to expire, starts the
      operation if fewer than `maxActive` calls own a key, and is refused for capacity if not. */
  lemma NewKeyStartsOrIsRefused(limits: Limits, s: State, id: CallId, now: real)
    requires Reachable(limits, s) && Enabled(s, Enter(id, now))
    requires forall owner :: owner in s.calls && Owning(s.calls[owner]) ==> s.calls[owner].key != s.calls[id].key
    requires var key := s.calls[id].key;
      key in s.cache.entries && s.cache.entries[key].expires.Some? ==> s.cache.entries[key].expires.value <= now
    ensures Next(limits, s, Enter(id, now)).calls[id].phase ==
            if |Owners(s.calls)| < limits.maxActive then Running else Refused(false)
  {
    ReachableInvariant(limits, s);
    ActiveAreOwners(limits, s);
    var key := s.calls[id].key;
    if key in s.cache.entries {
      EntryOwns(s.cache.entries, s.calls, s.published, key);
    }
    hide Linked;
    RemoveExpiredExact(s.cache, now);
  }

  /** What a publishing owner leaves in the table. Its row carries its digest and expires one `ttl` after
      the reading of the clock. Only a full table drops it, and only where it would be the least of all
      completed rows by (expiry, key). */
  lemma PublishedRow(limits: Limits, s: State, id: CallId, now: real)
    requires Reachable(limits, s) && Enabled(s, Publish(id, now)) && s.calls[id].phase.outcome.Returned?
    ensures var key, table := s.calls[id].key, s.cache.entries;
      var table' := Next(limits, s, Publish(id, now)).cache.entries;
      && (key in table' ==> table'[key] == Slot(id, s.calls[id].digest, Some(now + limits.ttl)))
      && (key in table' <==>
            || s.cache.completed < limits.maxEntries
            || exists k :: k in table && table[k].expires.Some?
                           && Before(Record(table[k].expires.value, k), Record(now + limits.ttl, key)))
  {
    hide Invariant, Reachable, Consistent, ActiveKeys, EvictCompleted, Complete, Before;
    ReachableInvariant(limits, s);
    OwnerIsActive(limits, s, id);
    CompletingEvictsTheLeast(s.cache, s.calls[id].key, now + limits.ttl, limits.maxEntries);
  }

  lemma OwnerIsActive(limits: Limits, s: State, id: CallId)
    requires Invariant(limits, s) && id in s.calls && Owning(s.calls[id])
    ensures Consistent(s.cache) && s.cache.completed <= limits.maxEntries
    ensures s.calls[id].key in ActiveKeys(s.cache) && s.cache.entries[s.calls[id].key] == Slot(id, s.calls[id].digest, None)
  {
    hide Linked, Consistent;
    OwnerHoldsRow(s.cache.entries, s.calls, s.published, id);
  }

  /** The clock reading of a step, for the steps that read it. */
  predicate ReadsBefore(event: Event, time: real) {
    (event.Enter? || event.Publish?) ==> event.now < time
  }

  lemma PublishForgetsOnlyWhenFull(limits: Limits, s: State, id: CallId, now: real, key: Key)
    requires Invariant(limits, s) && Enabled(s, Publish(id, now)) && s.calls[id].phase.outcome.Returned?
    requires key in s.cache.entries && s.cache.entries[key].expires.Some?
    ensures key !in PublishSection(limits, s, id, now).cache.entries ==> s.cache.completed == limits.maxEntries
    ensures key in PublishSection(limits, s, id, now).cache.entries ==>
      PublishSection(limits, s, id, now).cache.entries[key] == s.cache.entries[key]
  {
    hide Linked, Consistent, PopOldest;
    OwnerHoldsRow(s.cache.entries, s.calls, s.published, id);
    var mine := s.calls[id].key;
    assert mine in ActiveKeys(s.cache);
    var completed := Complete(s.cache, mine, now + limits.ttl);
    CompleteKeepsConsistent(s.cache, mine, now + limits.ttl);
    EvictKeepsYoungest(completed, limits.maxEntries);
    if s.cache.completed < limits.maxEntries {
      assert EvictCompleted(completed, limits.maxEntries) == completed;
    }
  }

  lemma EnterForgetsOnlyExpired(limits: Limits, s: State, id: CallId, now: real, key: Key)
    requires Invariant(limits, s) && Enabled(s, Enter(id, now))
    requires key in s.cache.entries && s.cache.entries[key].expires.Some? && now < s.cache.entries[key].expires.value
    ensures var cache := EnterSection(limits, s, id, now).cache; key in cache.entries && cache.entries[key] == s.cache.entries[key]
  {
    hide Linked;
    RemoveExpiredExact(s.cache, now);
    assert key in RemoveExpired(s.cache, now).entries;
  }

  /** Before its expiry a completed entry leaves the table in one way only: evicted by a publishing
      call that found the table already at its budget. */
  lemma OnlyEvictionForgets(limits: Limits, s: State, event: Event, key: Key)
    requires Invariant(limits, s) && Enabled(s, event)
    requires key in s.cache.entries && s.cache.entries[key].expires.Some?
    requires ReadsBefore(event, s.cache.entries[key].expires.value)
    ensures var s' := Next(limits, s, event);
      || (key in s'.cache.entries && s'.cache.entries[key] == s.cache.entries[key])
      || (key !in s'.cache.entries && event.Publish? && s.cache.completed == limits.maxEntries)
  {
    hide EnterSection, Linked, WithinLimits;
    if event.Enter? {
      EnterForgetsOnlyExpired(limits, s, event.id, event.now, key);
    } else if event.Publish? {
      if s.calls[event.id].phase.outcome.Returned? {
        PublishForgetsOnlyWhenFull(limits, s, event.id, event.now, key);
      } else {
        OwnerHoldsRow(s.cache.entries, s.calls, s.published, event.id);
      }
    }
  }

  /** No operation runs for a key whose entry is completed. */
  lemma CompletedKeyIsIdle(limits: Limits, s: State, key: Key, id: CallId)
    requires Reachable(limits, s) && key in s.cache.entries && s.cache.entries[key].expires.Some?
    requires id in s.calls && s.calls[id].key == key
    ensures !Owning(s.calls[id])
  {
    ReachableInvariant(limits, s);
  }

  /** Over any stretch of a run that stays before the expiry and in which the key is never evicted,
      the completed entry stays as it was: every caller is answered from it. */
  lemma {:induction false} ReplaysUntilExpiry(
      limits: Limits, states: seq<State>, events: seq<Event>, i: nat, j: nat, key: Key)
    requires IsRun(limits, states, events) && states[0] == EMPTY && i <= j < |states|
    requires key in states[i].cache.entries && states[i].cache.entries[key].expires.Some?
    requires forall n :: i <= n < j ==> ReadsBefore(events[n], states[i].cache.entries[key].expires.value)
    requires forall n :: i <= n <= j ==> key in states[n].cache.entries
    ensures states[j].cache.entries[key] == states[i].cache.entries[key]
    decreases j - i
  {
    hide Invariant, Next, Enabled, ReadsBefore;
    if i < j {
      ReplaysUntilExpiry(limits, states, events, i, j - 1, key);
      RunKeepsInvariant(limits, states, events, j - 1);
      OnlyEvictionForgets(limits, states[j - 1], events[j - 1], key);
      assert states[j - 1 + 1] == Next(limits, states[j - 1], events[j - 1]);
    }
  }

  // ---------------------------------------------------------------- replays, end to end

  lemma PrefixIsReachable(limits: Limits, states: seq<State>, events: seq<Event>, i: nat)
    requires IsRun(limits, states, events) && states[0] == EMPTY && i < |states|
    ensures Reachable(limits, states[i])
  {
    hide Enabled, Next;
    var before, steps := states[..i + 1], events[..i];
    forall n | 0 <= n < |steps|
      ensures Enabled(before[n], steps[n]) && before[n + 1] == Next(limits, before[n], steps[n])
    {
      assert Enabled(states[n], events[n]) && states[n + 1] == Next(limits, states[n], events[n]);
    }
    assert IsRun(limits, before, steps);
  }

  lemma StepKeepsDependence(limits: Limits, s: State, event: Event, id: CallId, owner: CallId)
    requires Enabled(s, event) && id in s.calls && DependsOn(s.calls[id], owner)
    ensures var s' := Next(limits, s, event); id in s'.calls && DependsOn(s'.calls[id], owner)
  {
  }

  lemma {:induction false} StillDepends(limits: Limits, states: seq<State>, events: seq<Event>, i: nat, j: nat, id: CallId, owner: CallId)
    requires IsRun(limits, states, events) && i <= j < |states|
    requires id in states[i].calls && DependsOn(states[i].calls[id], owner)
    ensures id in states[j].calls && DependsOn(states[j].calls[id], owner)
    decreases j - i
  {
    hide Next, Enabled, DependsOn;
    if i < j {
      StillDepends(limits, states, events, i, j - 1, id, owner);
      StepKeepsDependence(limits, states[j - 1], events[j - 1], id, owner);
      assert states[j - 1 + 1] == Next(limits, states[j - 1], events[j - 1]);
    }
  }

  lemma StoredValueIsPublished(limits: Limits, s: State, key: Key)
    requires Invariant(limits, s) && key in s.cache.entries && s.cache.entries[key].expires.Some?
    ensures var owner := s.cache.entries[key].entry; owner in s.published && s.published[owner].Returned?
  {
  }

  lemma AnswerIsPublished(limits: Limits, s: State, id: CallId, owner: CallId)
    requires Invariant(limits, s) && id in s.calls && DependsOn(s.calls[id], owner) && s.calls[id].phase.Answered?
    ensures owner in s.published && s.calls[id].phase == Answered(owner, s.published[owner])
  {
  }

  /** The retry of a completed request is answered from the cache. A row completed by state `h` is not
      evicted up to state `i`, where a call with its key and digest enters before the row's expiry. Once
      that call has been answered, whatever became of the row in between, it was answered with exactly
      the value that was stored at `h`. */
  lemma StoredValueIsReplayed(
      limits: Limits, states: seq<State>, events: seq<Event>, h: nat, i: nat, j: nat, id: CallId, now: real)
    requires IsRun(limits, states, events) && states[0] == EMPTY && h <= i < j < |states|
    requires events[i] == Enter(id, now) && id in states[i].calls && id in states[j].calls && states[j].calls[id].phase.Answered?
    requires var key := states[i].calls[id].key;
      && key in states[h].cache.entries && states[h].cache.entries[key].expires.Some?
      && states[h].cache.entries[key].digest == states[i].calls[id].digest
      && now < states[h].cache.entries[key].expires.value
      && (forall n :: h <= n < i ==> ReadsBefore(events[n], states[h].cache.entries[key].expires.value))
      && (forall n :: h <= n <= i ==> key in states[n].cache.entries)
    ensures var owner := states[h].cache.entries[states[i].calls[id].key].entry;
      && owner in states[h].published && states[h].published[owner].Returned?
      && states[j].calls[id].phase == Answered(owner, states[h].published[owner])
  {
    hide Invariant, Next, Enabled, ReadsBefore, Reachable;
    var key := states[i].calls[id].key;
    var owner := states[h].cache.entries[key].entry;
    ReplaysUntilExpiry(limits, states, events, h, i, key);
    PrefixIsReachable(limits, states, events, i);
    CompletedEntryAnswers(limits, states[i], id, now);
    assert Enabled(states[i], events[i]) && states[i + 1] == Next(limits, states[i], events[i]);
    EnteringKeepsTheCall(limits, states[i], id, now);
    StillDepends(limits, states, events, i + 1, j, id, owner);
    RunKeepsInvariant(limits, states, events, h);
    RunKeepsInvariant(limits, states, events, j);
    StoredValueIsPublished(limits, states[h], key);
    AnswerIsPublished(limits, states[j], id, owner);
    PublishedForever(limits, states, events, h, j, owner);
  }

  lemma EnteringKeepsTheCall(limits: Limits, s: State, id: CallId, now: real)
    requires Enabled(s, Enter(id, now))
    ensures id in Next(limits, s, Enter(id, now)).calls
  {
  }

  /** A value stored at the `n`-th event is replayed for its whole time to live, unless it is evicted. */
  lemma RetryWithinTtlIsReplayed(
      limits: Limits, states: seq<State>, events: seq<Event>, n: nat, i: nat, j: nat, owner: CallId, at: real, id: CallId, now: real)
    requires IsRun(limits, states, events) && states[0] == EMPTY && n < i < j < |states|
    requires events[n] == Publish(owner, at) && Enabled(states[n], events[n]) && states[n].calls[owner].phase.outcome.Returned?
    requires events[i] == Enter(id, now) && now < at + limits.ttl
    requires owner in states[i].calls && SameRequest(states[i].calls, owner, id)
    requires id in states[j].calls && states[j].calls[id].phase.Answered?
    requires forall m :: n < m < i ==> ReadsBefore(events[m], at + limits.ttl)
    requires forall m :: n < m <= i ==> states[n].calls[owner].key in states[m].cache.entries
    ensures states[j].calls[id].phase == Answered(owner, states[n].calls[owner].phase.outcome)
  {
    hide Invariant, Next, ReadsBefore, Reachable;
    var key := states[n].calls[owner].key;
    PrefixIsReachable(limits, states, events, n);
    PublishedRow(limits, states[n], owner, at);
    assert states[n + 1] == Next(limits, states[n], events[n]);
    CallKeepsItsRequest(limits, states, events, n, i, owner);
    StoredValueIsReplayed(limits, states, events, n + 1, i, j, id, now);
    PublishingIsDecided(limits, states, events, n, n + 1, owner, states[n].calls[owner].phase.outcome);
    RunKeepsInvariant(limits, states, events, n + 1);
    PublishedIsAnswered(limits, states[n + 1], owner);
  }

  lemma PublishedIsAnswered(limits: Limits, s: State, owner: CallId)
    requires Invariant(limits, s) && owner in s.published
    ensures owner in s.calls && s.calls[owner].phase == Answered(owner, s.published[owner])
  {
  }

  /** What a call asks for never changes. */
  lemma {:induction false} CallKeepsItsRequest(limits: Limits, states: seq<State>, events: seq<Event>, i: nat, j: nat, id: CallId)
    requires IsRun(limits, states, events) && i <= j < |states| && id in states[i].calls
    ensures id in states[j].calls
    ensures states[j].calls[id].key == states[i].calls[id].key && states[j].calls[id].digest == states[i].calls[id].digest
    decreases j - i
  {
    if i < j {
      CallKeepsItsRequest(limits, states, events, i, j - 1, id);
      assert states[j - 1 + 1] == Next(limits, states[j - 1], events[j - 1]);
    }
  }

  // ---------------------------------------------------------------- duplicates in flight, end to end

  /** How the operation of `owner` ended: it had ended by state `i`, or a later event of the run ends it. */
  ghost predicate EndedWith(states: seq<State>, events: seq<Event>, i: nat, j: nat, owner: CallId, outcome: Outcome)
    requires i <= j < |states| && j <= |events| && owner in states[i].calls
  {
    || states[i].calls[owner].phase == Publishing(outcome)
    || (states[i].calls[owner].phase.Running? && exists n :: i <= n < j && events[n] == Finish(owner, outcome))
  }

  lemma OnlyFinishEndsRunning(limits: Limits, s: State, event: Event, owner: CallId)
    requires Enabled(s, event) && owner in s.calls && s.calls[owner].phase.Running?
    ensures owner in Next(limits, s, event).calls
    ensures Next(limits, s, event).calls[owner].phase ==
            if event.Finish? && event.id == owner then Publishing(event.outcome) else Running
  {
  }

  lemma {:induction false} PublishedAsEnded(limits: Limits, states: seq<State>, events: seq<Event>, i: nat, j: nat, owner: CallId)
    requires IsRun(limits, states, events) && states[0] == EMPTY && i <= j < |states|
    requires owner in states[i].calls && Owning(states[i].calls[owner]) && owner in states[j].published
    ensures EndedWith(states, events, i, j, owner, states[j].published[owner])
    decreases j - i
  {
    hide Invariant, Next, Enabled;
    var phase := states[i].calls[owner].phase;
    RunKeepsInvariant(limits, states, events, j);
    PublishedIsAnswered(limits, states[j], owner);
    if phase.Publishing? {
      PublishingIsDecided(limits, states, events, i, j, owner, phase.outcome);
    } else {
      assert i < j;
      OnlyFinishEndsRunning(limits, states[i], events[i], owner);
      assert states[i + 1] == Next(limits, states[i], events[i]);
      PublishedAsEnded(limits, states, events, i + 1, j, owner);
      if states[i + 1].calls[owner].phase.Running? {
        var n :| i + 1 <= n < j && events[n] == Finish(owner, states[j].published[owner]);
      } else {
        assert events[i] == Finish(owner, states[j].published[owner]);
      }
    }
  }

  /** Coalescing, end to end. A call enters while another owns the same request. If it is ever answered,
      it is answered from that owner, with exactly what the owner's one operation returned or raised. */
  lemma DuplicateGetsTheOwnersOutcome(
      limits: Limits, states: seq<State>, events: seq<Event>, i: nat, j: nat, id: CallId, now: real, owner: CallId)
    requires IsRun(limits, states, events) && states[0] == EMPTY && i < j < |states|
    requires events[i] == Enter(id, now) && id in states[i].calls
    requires SameRequest(states[i].calls, owner, id) && Owning(states[i].calls[owner])
    requires id in states[j].calls && states[j].calls[id].phase.Answered?
    ensures states[j].calls[id].phase.owner == owner
    ensures EndedWith(states, events, i, j, owner, states[j].calls[id].phase.outcome)
  {
    hide Invariant, Next, Enabled, Reachable, EndedWith;
    PrefixIsReachable(limits, states, events, i);
    assert Enabled(states[i], events[i]) && states[i + 1] == Next(limits, states[i], events[i]);
    DuplicateInFlightJoins(limits, states[i], id, now, owner);
    EnteringKeepsTheCall(limits, states[i], id, now);
    StillDepends(limits, states, events, i + 1, j, id, owner);
    RunKeepsInvariant(limits, states, events, j);
    AnswerIsPublished(limits, states[j], id, owner);
    PublishedAsEnded(limits, states, events, i, j, owner);
  }

  /** A failed operation as if it had never been: a call that becomes an owner, fails and publishes
      leaves the cache that it found, less what had expired by then. */
  lemma FailedCallRestoresTheCache(limits: Limits, s: State, id: CallId, now: real, error: string, later: real)
    requires Enabled(s, Enter(id, now)) && Next(limits, s, Enter(id, now)).calls[id].phase == Running
    ensures var s1 := Next(limits, s, Enter(id, now));
      Enabled(s1, Finish(id, Raised(error)))
      && var s2 := Next(limits, s1, Finish(id, Raised(error)));
         Enabled(s2, Publish(id, later))
         && Next(limits, s2, Publish(id, later)).cache == RemoveExpired(s.cache, now)
  {
    DiscardUndoesOpen(RemoveExpired(s.cache, now), s.calls[id].key, s.calls[id].digest, id);
  }
}
