/** The per-tenant admission gate: `_TenantAdmission` in app.py.

    `Decide`, `Grant` and `Drop` are the specification of one call. `Step` puts them
    in a system of outstanding tasks, and the lemmas below speak of every run of it. */
module Admission {
  import opened Prelude

  type Tenant = string
  type TaskId = nat
  type Table = map<Tenant, int>

  const RESERVED_SLOTS := 1

  datatype Decision = Admitted | BusyTenantShare | Busy

  // ---------------------------------------------------------------- one call

  function Held(inFlight: Table, tenant: Tenant): int {
    if tenant in inFlight then inFlight[tenant] else 0
  }

  function Competing(inFlight: Table, tenant: Tenant): nat {
    |inFlight| + if tenant in inFlight then 0 else 1
  }

  /** `ceil(a / b)` for a positive divisor. */
  function CeilDiv(a: int, b: int): int
    requires b > 0
  {
    (a + b - 1) / b
  }

  function Share(capacity: int, inFlight: Table, tenant: Tenant): int
    requires Competing(inFlight, tenant) > 0
  {
    CeilDiv(capacity, Competing(inFlight, tenant))
  }

  /** The sum of a table's counts. */
  ghost function Total(inFlight: Table): int
    decreases |inFlight|
  {
    if inFlight == map[] then 0
    else
      var tenant :| tenant in inFlight;
      inFlight[tenant] + Total(inFlight - {tenant})
  }

  ghost function Decide(capacity: int, inFlight: Table, tenant: Tenant): Decision {
    var held := Held(inFlight, tenant);
    if Competing(inFlight, tenant) > 1 && held >= Share(capacity, inFlight, tenant) then BusyTenantShare
    else if held != 0 && Total(inFlight) >= capacity - RESERVED_SLOTS then Busy
    else Admitted
  }

  function Grant(inFlight: Table, tenant: Tenant): Table {
    inFlight[tenant := Held(inFlight, tenant) + 1]
  }

  function Drop(inFlight: Table, tenant: Tenant): Table {
    var held := Held(inFlight, tenant) - 1;
    if held > 0 then inFlight[tenant := held] else inFlight - {tenant}
  }

  class TenantAdmission {
    const capacity: int
    var inFlight: Table

    constructor (capacity: int)
      ensures this.capacity == capacity && inFlight == map[]
    {
      this.capacity := capacity;
      inFlight := map[];
    }

    method HeldTotal() returns (total: int)
      ensures total == Total(inFlight)
    {
      var rest := inFlight;
      total := 0;
      while rest != map[]
        invariant total + Total(rest) == Total(inFlight)
        decreases |rest|
      {
        var tenant :| tenant in rest;
        TotalRemove(rest, tenant);
        total := total + rest[tenant];
        rest := rest - {tenant};
      }
    }

    method Acquire(tenant: Tenant) returns (decision: Decision)
      modifies this
      ensures decision == Decide(capacity, old(inFlight), tenant)
      ensures inFlight == if decision == Admitted then Grant(old(inFlight), tenant) else old(inFlight)
    {
      var held := if tenant in inFlight then inFlight[tenant] else 0;
      var competing := |inFlight| + if tenant in inFlight then 0 else 1;
      if competing > 1 && held >= Share(capacity, inFlight, tenant) {
        return BusyTenantShare;
      }
      if held != 0 {
        var total := HeldTotal();
        if total >= capacity - RESERVED_SLOTS {
          return Busy;
        }
      }
      inFlight := inFlight[tenant := held + 1];
      return Admitted;
    }

    method Release(tenant: Tenant)
      modifies this
      ensures inFlight == Drop(old(inFlight), tenant)
    {
      var held := (if tenant in inFlight then inFlight[tenant] else 0) - 1;
      if held > 0 {
        inFlight := inFlight[tenant := held];
      } else {
        inFlight := inFlight - {tenant};
      }
    }
  }

  // ---------------------------------------------------------------- sums

  lemma {:induction false} TotalRemove(inFlight: Table, tenant: Tenant)
    requires tenant in inFlight
    ensures Total(inFlight) == inFlight[tenant] + Total(inFlight - {tenant})
    decreases |inFlight|
  {
    var first :| first in inFlight && Total(inFlight) == inFlight[first] + Total(inFlight - {first});
    if first != tenant {
      TotalRemove(inFlight - {first}, tenant);
      TotalRemove(inFlight - {tenant}, first);
      assert inFlight - {first} - {tenant} == inFlight - {tenant} - {first};
    }
  }

  lemma TotalUpdate(inFlight: Table, tenant: Tenant, count: int)
    ensures Total(inFlight[tenant := count]) == Total(inFlight) - Held(inFlight, tenant) + count
  {
    var updated := inFlight[tenant := count];
    TotalRemove(updated, tenant);
    assert updated - {tenant} == inFlight - {tenant};
    if tenant in inFlight {
      TotalRemove(inFlight, tenant);
    } else {
      assert inFlight - {tenant} == inFlight;
    }
  }

  lemma TotalDrop(inFlight: Table, tenant: Tenant)
    requires tenant in inFlight && inFlight[tenant] > 0
    ensures Total(Drop(inFlight, tenant)) == Total(inFlight) - 1
  {
    if inFlight[tenant] > 1 {
      TotalUpdate(inFlight, tenant, inFlight[tenant] - 1);
    } else {
      TotalRemove(inFlight, tenant);
    }
  }

  // ---------------------------------------------------------------- runs

  /** The table together with the admitted tasks that have not ended yet. */
  datatype State = State(inFlight: Table, tasks: map<TaskId, Tenant>)

  const EMPTY := State(map[], map[])

  datatype Event =
    | Acquire(task: TaskId, tenant: Tenant)
    | Release(task: TaskId)

  /** One acquire, admitted or refused, or the release wired to one outstanding task. */
  ghost predicate Step(capacity: int, s: State, event: Event, s': State) {
    match event
    case Acquire(task, tenant) =>
      && task !in s.tasks
      && s' == if Decide(capacity, s.inFlight, tenant) == Admitted
               then State(Grant(s.inFlight, tenant), s.tasks[task := tenant])
               else s
    case Release(task) =>
      && task in s.tasks
      && s' == State(Drop(s.inFlight, s.tasks[task]), s.tasks - {task})
  }

  ghost predicate IsRun(capacity: int, states: seq<State>, events: seq<Event>) {
    && |states| == |events| + 1
    && forall i :: 0 <= i < |events| ==> Step(capacity, states[i], events[i], states[i + 1])
  }

  function Outstanding(tasks: map<TaskId, Tenant>, tenant: Tenant): set<TaskId> {
    set task | task in tasks && tasks[task] == tenant
  }

  /** Every stored count is positive and is exactly its tenant's outstanding tasks, the total is
      the number of outstanding tasks, and the surplus over one each is at most `capacity - 2`. */
  ghost predicate Invariant(capacity: int, s: State) {
    && (forall t :: t in s.inFlight ==> s.inFlight[t] > 0)
    && (forall t :: |Outstanding(s.tasks, t)| == Held(s.inFlight, t))
    && Total(s.inFlight) == |s.tasks|
    && |s.tasks| <= |s.inFlight| + Max(0, capacity - 2)
  }

  lemma OutstandingOf(tasks: map<TaskId, Tenant>, task: TaskId, tenant: Tenant, t: Tenant)
    requires task !in tasks
    ensures Outstanding(tasks[task := tenant], t) == Outstanding(tasks, t) + if t == tenant then {task} else {}
    ensures task !in Outstanding(tasks, t)
  {
  }

  lemma OutstandingAdd(tasks: map<TaskId, Tenant>, task: TaskId, tenant: Tenant)
    requires task !in tasks
    ensures forall t :: |Outstanding(tasks[task := tenant], t)| == |Outstanding(tasks, t)| + if t == tenant then 1 else 0
  {
    hide Outstanding;
    forall t
      ensures |Outstanding(tasks[task := tenant], t)| == |Outstanding(tasks, t)| + if t == tenant then 1 else 0
    {
      OutstandingOf(tasks, task, tenant, t);
    }
  }

  lemma OutstandingRemove(tasks: map<TaskId, Tenant>, task: TaskId)
    requires task in tasks
    ensures forall t :: |Outstanding(tasks - {task}, t)| == |Outstanding(tasks, t)| - if t == tasks[task] then 1 else 0
  {
    forall t
      ensures |Outstanding(tasks - {task}, t)| == |Outstanding(tasks, t)| - if t == tasks[task] then 1 else 0
    {
      assert Outstanding(tasks, t) == Outstanding(tasks - {task}, t) + if t == tasks[task] then {task} else {};
    }
  }

  lemma GrantedCounts(s: State, task: TaskId, tenant: Tenant)
    requires task !in s.tasks && forall t :: |Outstanding(s.tasks, t)| == Held(s.inFlight, t)
    ensures forall t :: |Outstanding(s.tasks[task := tenant], t)| == Held(Grant(s.inFlight, tenant), t)
  {
    hide Outstanding;
    OutstandingAdd(s.tasks, task, tenant);
    forall t
      ensures |Outstanding(s.tasks[task := tenant], t)| == Held(Grant(s.inFlight, tenant), t)
    {
      assert |Outstanding(s.tasks, t)| == Held(s.inFlight, t);
    }
  }

  lemma AcquireKeepsInvariant(capacity: int, s: State, task: TaskId, tenant: Tenant)
    requires Invariant(capacity, s) && task !in s.tasks
    requires |s.tasks| + 1 <= |Grant(s.inFlight, tenant)| + Max(0, capacity - 2)
    ensures Invariant(capacity, State(Grant(s.inFlight, tenant), s.tasks[task := tenant]))
  {
    hide Outstanding, Total;
    GrantedCounts(s, task, tenant);
    TotalUpdate(s.inFlight, tenant, Held(s.inFlight, tenant) + 1);
    assert Held(s.inFlight, tenant) >= 0 by { assert |Outstanding(s.tasks, tenant)| == Held(s.inFlight, tenant); }
  }

  lemma GrantedSurplus(capacity: int, inFlight: Table, tenant: Tenant)
    requires forall t :: t in inFlight ==> inFlight[t] > 0
    requires Decide(capacity, inFlight, tenant) == Admitted
    requires Total(inFlight) <= |inFlight| + Max(0, capacity - 2)
    ensures Total(inFlight) + 1 <= |Grant(inFlight, tenant)| + Max(0, capacity - 2)
  {
    if tenant in inFlight {
      assert inFlight.Keys != {};
      assert Grant(inFlight, tenant).Keys == inFlight.Keys;
    }
  }

  lemma ReleaseKeepsInvariant(capacity: int, s: State, task: TaskId)
    requires Invariant(capacity, s) && task in s.tasks
    ensures Invariant(capacity, State(Drop(s.inFlight, s.tasks[task]), s.tasks - {task}))
  {
    var tenant := s.tasks[task];
    assert task in Outstanding(s.tasks, tenant);
    assert tenant in s.inFlight;
    OutstandingRemove(s.tasks, task);
    TotalDrop(s.inFlight, tenant);
    assert |s.tasks - {task}| == |s.tasks| - 1;
    var dropped := Drop(s.inFlight, tenant);
    if s.inFlight[tenant] > 1 {
      assert dropped.Keys == s.inFlight.Keys;
      assert |dropped| == |s.inFlight|;
    } else {
      assert |dropped| == |s.inFlight| - 1;
    }
  }

  lemma StepKeepsInvariant(capacity: int, s: State, event: Event, s': State)
    requires Invariant(capacity, s) && Step(capacity, s, event, s')
    ensures Invariant(capacity, s')
  {
    match event
    case Acquire(task, tenant) =>
      if Decide(capacity, s.inFlight, tenant) == Admitted {
        GrantedSurplus(capacity, s.inFlight, tenant);
        AcquireKeepsInvariant(capacity, s, task, tenant);
      }
    case Release(task) =>
      ReleaseKeepsInvariant(capacity, s, task);
  }

  lemma EmptyInvariant(capacity: int)
    ensures Invariant(capacity, EMPTY)
  {
    assert forall t :: Outstanding(EMPTY.tasks, t) == {};
  }

  /** The surplus bound and the exact counts, in every state of every run. */
  lemma {:induction false} RunKeepsInvariant(capacity: int, states: seq<State>, events: seq<Event>, i: nat)
    requires IsRun(capacity, states, events) && states[0] == EMPTY
    requires i < |states|
    ensures Invariant(capacity, states[i])
  {
    hide Invariant, Step;
    if i == 0 {
      EmptyInvariant(capacity);
    } else {
      RunKeepsInvariant(capacity, states, events, i - 1);
      assert Step(capacity, states[i - 1], events[i - 1], states[i - 1 + 1]);
      StepKeepsInvariant(capacity, states[i - 1], events[i - 1], states[i]);
    }
  }

  // ---------------------------------------------------------------- what a caller may count on

  lemma CeilDivIsNotNegative(a: int, b: int)
    requires 0 <= a && 0 < b
    ensures CeilDiv(a, b) >= 0
  {
  }

  lemma ProductIsMonotone(a: int, b: int, c: int, d: int)
    requires 0 <= a <= b && 0 <= c <= d
    ensures a * c <= b * d
  {
    assert a * c <= b * c;
    assert b * c <= b * d;
  }

  lemma CeilDivAntitone(a: int, b: int, c: int)
    requires 0 < b <= c && 0 <= a
    ensures CeilDiv(a, c) <= CeilDiv(a, b)
  {
    var x, y := CeilDiv(a, c), CeilDiv(a, b);
    if x > y {
      assert y >= 0 by { if y < 0 { ProductIsMonotone(1, b, 1, -y); } }
      ProductIsMonotone(b, c, y, x - 1);
    }
  }

  /** The tenants that would share the box: everybody with an outstanding task, and this one. */
  function Contenders(tasks: map<TaskId, Tenant>, tenant: Tenant): set<Tenant> {
    tasks.Values + {tenant}
  }

  lemma ScaledUp(a: int, b: int, k: int)
    requires a <= b && k > 0
    ensures a * k <= b * k
  {
    assert (b - a) * k >= 0;
  }

  lemma CeilDivReached(a: int, b: int, held: int)
    requires b > 0
    ensures held >= CeilDiv(a, b) <==> held * b >= a
  {
    var c := CeilDiv(a, b);
    assert c * b - b < a <= c * b;
    if held >= c {
      ScaledUp(c, held, b);
    } else {
      ScaledUp(held, c - 1, b);
      assert (c - 1) * b == c * b - b;
    }
  }

  lemma CompetingAreContenders(capacity: int, s: State, tenant: Tenant)
    requires Invariant(capacity, s)
    ensures Competing(s.inFlight, tenant) == |Contenders(s.tasks, tenant)|
  {
    forall t
      ensures t in s.inFlight <==> t in s.tasks.Values
    {
      assert |Outstanding(s.tasks, t)| == Held(s.inFlight, t);
      if t in s.tasks.Values {
        var task :| task in s.tasks && s.tasks[task] == t;
        assert task in Outstanding(s.tasks, t);
      }
      if t in s.inFlight {
        var task :| task in Outstanding(s.tasks, t);
      }
    }
    assert Contenders(s.tasks, tenant) == s.inFlight.Keys + {tenant};
    assert tenant in s.inFlight ==> s.inFlight.Keys + {tenant} == s.inFlight.Keys;
  }

  /** The answer, from nothing but the tasks outstanding. With `n` tenants in it, this one included, a
      tenant is refused for its share exactly when it already holds an `n`-th of the box; otherwise the box
      is busy for a tenant that holds something exactly when at most one slot is left; otherwise it is
      admitted. */
  lemma AnswerIsExact(capacity: int, states: seq<State>, events: seq<Event>, i: nat, tenant: Tenant)
    requires IsRun(capacity, states, events) && states[0] == EMPTY && i < |states|
    ensures var s := states[i];
      var held, n := |Outstanding(s.tasks, tenant)|, |Contenders(s.tasks, tenant)|;
      Decide(capacity, s.inFlight, tenant) ==
        if n > 1 && held * n >= capacity then BusyTenantShare
        else if held > 0 && |s.tasks| >= capacity - 1 then Busy
        else Admitted
  {
    var s := states[i];
    RunKeepsInvariant(capacity, states, events, i);
    CompetingAreContenders(capacity, s, tenant);
    assert |Outstanding(s.tasks, tenant)| == Held(s.inFlight, tenant);
    hide CeilDiv, Outstanding, Contenders, IsRun;
    CeilDivReached(capacity, Competing(s.inFlight, tenant), Held(s.inFlight, tenant));
  }

  /** A tenant with nothing in flight is never refused, whatever everybody else holds. */
  lemma NewcomerIsAdmitted(capacity: int, inFlight: Table, tenant: Tenant)
    requires capacity >= 1 && tenant !in inFlight
    ensures Decide(capacity, inFlight, tenant) == Admitted
  {
  }

  /** With one tenant in flight the signal about a contended share cannot fire, and the tenant
      is refused exactly when it already holds `capacity - 1`. */
  lemma LoneTenantLimit(capacity: int, held: int, tenant: Tenant)
    requires held > 0
    ensures Decide(capacity, map[tenant := held], tenant) ==
            if held >= capacity - 1 then Busy else Admitted
  {
    TotalUpdate(map[], tenant, held);
    assert map[][tenant := held] == map[tenant := held];
  }

  function LoneTable(tenant: Tenant, held: nat): Table {
    if held == 0 then map[] else map[tenant := held]
  }

  function LoneTasks(tenant: Tenant, n: nat): (tasks: map<TaskId, Tenant>)
    ensures forall task: nat :: task in tasks <==> task < n
  {
    if n == 0 then map[] else LoneTasks(tenant, n - 1)[n - 1 := tenant]
  }

  /** The states of one tenant acquiring `n` times from an empty table. */
  ghost function LoneStates(tenant: Tenant, n: nat): seq<State> {
    seq(n + 1, (i: int) requires i >= 0 => State(LoneTable(tenant, i), LoneTasks(tenant, i)))
  }

  /** A lone tenant can reach `capacity - 1` admissions: every one of those acquires is admitted. */
  lemma LoneTenantReachesLimit(capacity: int, tenant: Tenant)
    requires capacity >= 2
    ensures IsRun(capacity, LoneStates(tenant, capacity - 1), seq(capacity - 1, (i: int) requires i >= 0 => Acquire(i, tenant)))
    ensures LoneStates(tenant, capacity - 1)[capacity - 1].inFlight == map[tenant := capacity - 1]
    ensures Decide(capacity, map[tenant := capacity - 1], tenant) == Busy
  {
    LoneTenantLimit(capacity, capacity - 1, tenant);
    var states := LoneStates(tenant, capacity - 1);
    forall i | 0 <= i < capacity - 1
      ensures Step(capacity, states[i], Acquire(i, tenant), states[i + 1])
    {
      if i == 0 {
        NewcomerIsAdmitted(capacity, map[], tenant);
      } else {
        LoneTenantLimit(capacity, i, tenant);
      }
      assert Grant(LoneTable(tenant, i), tenant) == LoneTable(tenant, i + 1);
    }
  }

  /** A step taken while at least `k >= 2` tenants are in flight raises no count above the share
      of a box divided `k` ways. */
  lemma StepStaysUnderShare(capacity: int, k: nat, s: State, event: Event, s': State, tenant: Tenant)
    requires k >= 2 && capacity >= 0 && |s.inFlight| >= k
    requires Step(capacity, s, event, s')
    ensures Held(s'.inFlight, tenant) <= Max(Held(s.inFlight, tenant), CeilDiv(capacity, k))
  {
    hide CeilDiv, Total;
    CeilDivIsNotNegative(capacity, k);
    match event
    case Acquire(task, other) =>
      CeilDivAntitone(capacity, k, Competing(s.inFlight, other));
    case Release(task) =>
  }

  /** While at least `k >= 2` tenants stay in flight, no count climbs above the larger of where
      it started and the share of a box divided `k` ways, so a saturating tenant can only drain. */
  lemma {:induction false} DrainsToShare(
      capacity: int, k: nat, states: seq<State>, events: seq<Event>, tenant: Tenant, i: nat)
    requires k >= 2 && capacity >= 0
    requires IsRun(capacity, states, events) && i < |states|
    requires forall j :: 0 <= j < i ==> |states[j].inFlight| >= k
    ensures Held(states[i].inFlight, tenant) <= Max(Held(states[0].inFlight, tenant), CeilDiv(capacity, k))
  {
    if i > 0 {
      DrainsToShare(capacity, k, states, events, tenant, i - 1);
      assert Step(capacity, states[i - 1], events[i - 1], states[i - 1 + 1]);
      StepStaysUnderShare(capacity, k, states[i - 1], events[i - 1], states[i], tenant);
    }
  }
}
