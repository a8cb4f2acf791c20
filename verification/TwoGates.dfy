/** The moderation path: a request passes the tenant gate, then its cache task runs, and the share
    is given back when that task is done. Both gates are sized on the same number, so the second
    can only refuse what the first let through beyond it. */
module TwoGates {
  import opened Prelude
  import opened Keys
  import opened Idempotency
  import A = Admission
  import C = Coalescing

  type RequestId = nat

  /** `limits.maxActive` is the capacity of both gates. */
  datatype State = State(admission: A.State, tasks: C.State)

  const EMPTY := State(A.EMPTY, C.EMPTY)

  datatype Event =
    | Request(id: RequestId, tenant: A.Tenant, key: Key, digest: Digest)   // acquire, and the cache task if admitted
    | Task(step: C.Event)                                                  // one step of a cache task
    | Done(id: RequestId)                                                  // the cache task's done callback

  predicate Finished(call: C.Call) { call.phase.Refused? || call.phase.Answered? }

  predicate Enabled(s: State, event: Event) {
    match event
    case Request(id, _, _, _) => id !in s.tasks.calls && id !in s.admission.tasks
    case Task(step) => !step.Create? && C.Enabled(s.tasks, step)
    case Done(id) => id in s.admission.tasks && id in s.tasks.calls && Finished(s.tasks.calls[id])
  }

  ghost predicate Admits(limits: C.Limits, s: State, tenant: A.Tenant) {
    A.Decide(limits.maxActive, s.admission.inFlight, tenant) == A.Admitted
  }

  ghost function Next(limits: C.Limits, s: State, event: Event): State
    requires Enabled(s, event)
  {
    match event
    case Request(id, tenant, key, digest) =>
      if Admits(limits, s, tenant)
      then State(A.State(A.Grant(s.admission.inFlight, tenant), s.admission.tasks[id := tenant]),
                 C.Next(limits, s.tasks, C.Create(id, key, digest)))
      else s
    case Task(step) => s.(tasks := C.Next(limits, s.tasks, step))
    case Done(id) =>
      s.(admission := A.State(A.Drop(s.admission.inFlight, s.admission.tasks[id]), s.admission.tasks - {id}))
  }

  ghost predicate IsRun(limits: C.Limits, states: seq<State>, events: seq<Event>) {
    && |states| == |events| + 1
    && forall i :: 0 <= i < |events| ==> Enabled(states[i], events[i]) && states[i + 1] == Next(limits, states[i], events[i])
  }

  // ---------------------------------------------------------------- invariant

  /** Every unfinished task holds a share. */
  ghost predicate TasksHoldShares(s: State) {
    forall id :: id in s.tasks.calls && !Finished(s.tasks.calls[id]) ==> id in s.admission.tasks
  }

  ghost predicate Invariant(limits: C.Limits, s: State) {
    && A.Invariant(limits.maxActive, s.admission)
    && C.Invariant(limits, s.tasks)
    && TasksHoldShares(s)
  }

  lemma RequestKeepsInvariant(limits: C.Limits, s: State, event: Event)
    requires Invariant(limits, s) && Enabled(s, event) && event.Request? && Admits(limits, s, event.tenant)
    ensures Invariant(limits, Next(limits, s, event))
  {
    hide A.Invariant, C.Invariant;
    var s' := Next(limits, s, event);
    A.StepKeepsInvariant(limits.maxActive, s.admission, A.Acquire(event.id, event.tenant), s'.admission);
    C.NextKeepsInvariant(limits, s.tasks, C.Create(event.id, event.key, event.digest));
    assert TasksHoldShares(s');
  }

  lemma TaskKeepsInvariant(limits: C.Limits, s: State, event: Event)
    requires Invariant(limits, s) && Enabled(s, event) && event.Task?
    ensures Invariant(limits, Next(limits, s, event))
  {
    hide A.Invariant, C.Invariant;
    C.NextKeepsInvariant(limits, s.tasks, event.step);
    assert TasksHoldShares(Next(limits, s, event));
  }

  lemma DoneKeepsInvariant(limits: C.Limits, s: State, event: Event)
    requires Invariant(limits, s) && Enabled(s, event) && event.Done?
    ensures Invariant(limits, Next(limits, s, event))
  {
    hide A.Invariant, C.Invariant;
    var s' := Next(limits, s, event);
    A.StepKeepsInvariant(limits.maxActive, s.admission, A.Release(event.id), s'.admission);
    assert TasksHoldShares(s');
  }

  lemma NextKeepsInvariant(limits: C.Limits, s: State, event: Event)
    requires Invariant(limits, s) && Enabled(s, event)
    ensures Invariant(limits, Next(limits, s, event))
  {
    hide Invariant;
    if event.Done? {
      DoneKeepsInvariant(limits, s, event);
    } else if event.Task? {
      TaskKeepsInvariant(limits, s, event);
    } else if Admits(limits, s, event.tenant) {
      RequestKeepsInvariant(limits, s, event);
    }
  }

  lemma {:induction false} RunKeepsInvariant(limits: C.Limits, states: seq<State>, events: seq<Event>, i: nat)
    requires IsRun(limits, states, events) && i < |states| && states[0] == EMPTY
    ensures Invariant(limits, states[i])
  {
    hide A.Invariant, C.Invariant, Next;
    if i == 0 {
      A.EmptyInvariant(limits.maxActive);
      C.EmptyInvariant(limits);
    } else {
      RunKeepsInvariant(limits, states, events, i - 1);
      NextKeepsInvariant(limits, states[i - 1], events[i - 1]);
      assert states[i - 1 + 1] == Next(limits, states[i - 1], events[i - 1]);
    }
  }

  // ---------------------------------------------------------------- the two gates together

  /** Active entries never exceed the shares held by tasks other than one that has not entered. */
  lemma ActiveEntriesHoldShares(limits: C.Limits, s: State, entering: RequestId)
    requires Invariant(limits, s)
    ensures s.tasks.cache.active <= A.Total(s.admission.inFlight)
    ensures entering in s.tasks.calls && s.tasks.calls[entering].phase == C.Created ==>
              s.tasks.cache.active <= A.Total(s.admission.inFlight) - 1
  {
    var entries := s.tasks.cache.entries;
    var owners := map k | k in entries :: entries[k].entry;
    var holders := s.admission.tasks.Keys;
    InjectiveImage(ActiveKeys(s.tasks.cache), holders, owners);
    if entering in s.tasks.calls && s.tasks.calls[entering].phase == C.Created {
      assert entering in holders;
      InjectiveImage(ActiveKeys(s.tasks.cache), holders - {entering}, owners);
    }
  }

  /** An admitted request meets the cache's capacity refusal only while at least three tenants are
      in flight. With one or two tenants that refusal cannot happen at all. */
  lemma CapacityRefusalNeedsThreeTenants(limits: C.Limits, s: State, id: RequestId, now: real)
    requires limits.maxActive >= 2
    requires Invariant(limits, s) && Enabled(s, Task(C.Enter(id, now)))
    requires Next(limits, s, Task(C.Enter(id, now))).tasks.calls[id].phase == C.Refused(false)
    ensures |s.admission.inFlight| >= 3
  {
    RemoveExpiredExact(s.tasks.cache, now);
    ActiveEntriesHoldShares(limits, s, id);
  }

  /** A newcomer facing one incumbent passes both gates, however much the incumbent holds: it is
      admitted at once, and whenever its task reaches the cache with no third tenant in flight it
      is not refused for capacity. */
  lemma NewcomerPassesBothGates(
      limits: C.Limits, states: seq<State>, events: seq<Event>, i: nat, j: nat,
      id: RequestId, tenant: A.Tenant, key: Key, digest: Digest, now: real)
    requires limits.maxActive >= 2
    requires IsRun(limits, states, events) && states[0] == EMPTY && i < j < |states|
    requires tenant !in states[i].admission.inFlight && events[i] == Request(id, tenant, key, digest)
    requires Enabled(states[j], Task(C.Enter(id, now))) && |states[j].admission.inFlight| <= 2
    ensures tenant in states[i + 1].admission.inFlight
    ensures id in states[i + 1].tasks.calls
    ensures Next(limits, states[j], Task(C.Enter(id, now))).tasks.calls[id].phase != C.Refused(false)
  {
    A.NewcomerIsAdmitted(limits.maxActive, states[i].admission.inFlight, tenant);
    assert Enabled(states[i], events[i]) && states[i + 1] == Next(limits, states[i], events[i]);
    RunKeepsInvariant(limits, states, events, j);
    if Next(limits, states[j], Task(C.Enter(id, now))).tasks.calls[id].phase == C.Refused(false) {
      CapacityRefusalNeedsThreeTenants(limits, states[j], id, now);
    }
  }

  // ---------------------------------------------------------------- the bound is tight

  /** Who sends the `n`-th request: the saturating tenant, then one newcomer, then another. */
  function NthTenant(capacity: nat, n: nat): A.Tenant {
    if n < capacity - 1 then "a" else if n == capacity - 1 then "b" else "c"
  }

  function CrowdTable(capacity: nat, n: nat): A.Table {
    if n <= capacity - 1 then A.LoneTable("a", n)
    else if n == capacity then map["a" := capacity - 1, "b" := 1]
    else map["a" := capacity - 1, "b" := 1, "c" := 1]
  }

  /** The first `n` requests are all running, nothing has completed, no later key is known. */
  ghost predicate Crowd(limits: C.Limits, keys: seq<Key>, s: State, n: nat) {
    && s.tasks.cache.queue == [] && s.tasks.cache.active == n
    && (forall j :: n <= j < |keys| ==> keys[j] !in s.tasks.cache.entries)
    && (forall j: nat :: j >= n ==> j !in s.tasks.calls && j !in s.admission.tasks)
    && s.admission.inFlight == CrowdTable(limits.maxActive, n)
  }

  lemma CrowdIsAdmitted(limits: C.Limits, keys: seq<Key>, s: State, n: nat)
    requires limits.maxActive >= 2 && Crowd(limits, keys, s, n) && n <= limits.maxActive
    ensures Admits(limits, s, NthTenant(limits.maxActive, n))
    ensures A.Grant(s.admission.inFlight, NthTenant(limits.maxActive, n)) == CrowdTable(limits.maxActive, n + 1)
  {
    if 0 < n < limits.maxActive - 1 {
      A.LoneTenantLimit(limits.maxActive, n, "a");
    } else {
      A.NewcomerIsAdmitted(limits.maxActive, s.admission.inFlight, NthTenant(limits.maxActive, n));
    }
  }

  /** The next request arrives, is admitted, and meets the cache. */
  lemma CrowdArrives(limits: C.Limits, keys: seq<Key>, s: State, n: nat) returns (arrived: State, entered: State)
    requires limits.maxActive >= 2 && Crowd(limits, keys, s, n) && n <= limits.maxActive
    requires n < |keys| && forall i, j :: 0 <= i < j < |keys| ==> keys[i] != keys[j]
    ensures var request := Request(n, NthTenant(limits.maxActive, n), keys[n], []);
      Enabled(s, request) && arrived == Next(limits, s, request)
    ensures Enabled(arrived, Task(C.Enter(n, 0.0))) && entered == Next(limits, arrived, Task(C.Enter(n, 0.0)))
    ensures arrived.admission.inFlight == CrowdTable(limits.maxActive, n + 1)
    ensures n < limits.maxActive ==> Crowd(limits, keys, entered, n + 1)
    ensures n == limits.maxActive ==> n in entered.tasks.calls && entered.tasks.calls[n].phase == C.Refused(false)
  {
    CrowdIsAdmitted(limits, keys, s, n);
    arrived := Next(limits, s, Request(n, NthTenant(limits.maxActive, n), keys[n], []));
    entered := Next(limits, arrived, Task(C.Enter(n, 0.0)));
  }

  lemma RunAppend(limits: C.Limits, states: seq<State>, events: seq<Event>, event: Event, s: State)
    requires IsRun(limits, states, events)
    requires Enabled(states[|events|], event) && s == Next(limits, states[|events|], event)
    ensures IsRun(limits, states + [s], events + [event])
  {
    var states', events' := states + [s], events + [event];
    forall i | 0 <= i < |events'|
      ensures Enabled(states'[i], events'[i]) && states'[i + 1] == Next(limits, states'[i], events'[i])
    {
      if i < |events| {
        assert Enabled(states[i], events[i]) && states[i + 1] == Next(limits, states[i], events[i]);
      }
    }
  }

  lemma {:induction false} CrowdIsReachable(limits: C.Limits, keys: seq<Key>, n: nat) returns (states: seq<State>, events: seq<Event>)
    requires limits.maxActive >= 2 && n <= limits.maxActive
    requires n <= |keys| && forall i, j :: 0 <= i < j < |keys| ==> keys[i] != keys[j]
    ensures IsRun(limits, states, events) && states[0] == EMPTY && Crowd(limits, keys, states[|events|], n)
  {
    if n == 0 {
      states, events := [EMPTY], [];
    } else {
      states, events := CrowdIsReachable(limits, keys, n - 1);
      var arrived, entered := CrowdArrives(limits, keys, states[|events|], n - 1);
      var request := Request(n - 1, NthTenant(limits.maxActive, n - 1), keys[n - 1], []);
      RunAppend(limits, states, events, request, arrived);
      states, events := states + [arrived], events + [request];
      RunAppend(limits, states, events, Task(C.Enter(n - 1, 0.0)), entered);
      states, events := states + [entered], events + [Task(C.Enter(n - 1, 0.0))];
    }
  }

  /** For every capacity of at least 2 three tenants are enough: some run from the empty state lets
      the saturating tenant and two newcomers through the first gate, and the cache then refuses an
      admitted request. */
  lemma ThreeTenantsCanMeetTheRefusal(limits: C.Limits, keys: seq<Key>) returns (states: seq<State>, events: seq<Event>)
    requires limits.maxActive >= 2
    requires limits.maxActive < |keys| && forall i, j :: 0 <= i < j < |keys| ==> keys[i] != keys[j]
    ensures IsRun(limits, states, events) && states[0] == EMPTY
    ensures var s, id := states[|events|], limits.maxActive;
      && |s.admission.inFlight| == 3 && Enabled(s, Task(C.Enter(id, 0.0)))
      && Next(limits, s, Task(C.Enter(id, 0.0))).tasks.calls[id].phase == C.Refused(false)
  {
    var n := limits.maxActive;
    states, events := CrowdIsReachable(limits, keys, n);
    var arrived, entered := CrowdArrives(limits, keys, states[|events|], n);
    var request := Request(n, NthTenant(n, n), keys[n], []);
    RunAppend(limits, states, events, request, arrived);
    states, events := states + [arrived], events + [request];
  }
}
