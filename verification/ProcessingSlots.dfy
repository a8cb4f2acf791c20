/** `_run_with_processing_slot` in app.py: a semaphore of processing slots, where a caller may give up
    or be cancelled at either await while the worker it started, shielded, runs on. */
module ProcessingSlots {
  type RequestId = nat

  datatype Phase =
    | Queued      // inside wait_for(acquire)
    | Refused     // ProcessorBusyError, or cancelled while queued: never held a slot
    | Awaiting    // holds a slot; the caller awaits the running worker
    | Finished    // the worker is done; the caller has not resumed yet
    | Abandoned   // the caller is gone; the worker runs with the release as its callback
    | Orphaned    // that worker is done; its callback has not run yet
    | Left        // the slot was given back

  datatype State = State(free: int, requests: map<RequestId, Phase>)

  datatype Event =
    | Arrive(id: RequestId)
    | Grant(id: RequestId)      // a permit was free
    | TimeOut(id: RequestId)    // the queue wait ran out
    | Finish(id: RequestId)     // the worker returns or raises
    | Resume(id: RequestId)     // the caller wakes up with the worker's result
    | Cancel(id: RequestId)     // the caller is cancelled, at whichever await it is
    | Callback(id: RequestId)   // the event loop runs the done callback

  function Start(slots: nat): State { State(slots, map[]) }

  predicate WorkerDone(phase: Phase) { phase.Finished? || phase.Orphaned? }

  predicate WorkerRuns(phase: Phase) { phase.Awaiting? || phase.Abandoned? }

  predicate HoldsSlot(phase: Phase) { WorkerRuns(phase) || WorkerDone(phase) }

  predicate IsIn(s: State, id: RequestId, phase: Phase) { id in s.requests && s.requests[id] == phase }

  predicate Enabled(s: State, event: Event) {
    match event
    case Arrive(id) => id !in s.requests
    case Grant(id) => IsIn(s, id, Queued) && s.free > 0
    case TimeOut(id) => IsIn(s, id, Queued)
    case Finish(id) => id in s.requests && WorkerRuns(s.requests[id])
    case Resume(id) => IsIn(s, id, Finished)
    case Cancel(id) => id in s.requests && (s.requests[id].Queued? || s.requests[id].Awaiting? || s.requests[id].Finished?)
    case Callback(id) => IsIn(s, id, Orphaned)
  }

  function Release(s: State, id: RequestId): State {
    State(s.free + 1, s.requests[id := Left])
  }

  /** The `finally` block: release now, or leave the release to the worker's callback. */
  function LeaveSlot(s: State, id: RequestId): State
    requires id in s.requests
  {
    if WorkerDone(s.requests[id]) then Release(s, id) else s.(requests := s.requests[id := Abandoned])
  }

  function Next(s: State, event: Event): State
    requires Enabled(s, event)
  {
    match event
    case Arrive(id) => s.(requests := s.requests[id := Queued])
    case Grant(id) => State(s.free - 1, s.requests[id := Awaiting])
    case TimeOut(id) => s.(requests := s.requests[id := Refused])
    case Finish(id) => s.(requests := s.requests[id := if s.requests[id].Awaiting? then Finished else Orphaned])
    case Resume(id) => LeaveSlot(s, id)
    case Cancel(id) => if s.requests[id].Queued? then s.(requests := s.requests[id := Refused]) else LeaveSlot(s, id)
    case Callback(id) => Release(s, id)
  }

  predicate Possible(s: State, events: seq<Event>)
    decreases |events|
  {
    events == [] || (Enabled(s, events[0]) && Possible(Next(s, events[0]), events[1..]))
  }

  function Run(s: State, events: seq<Event>): State
    requires Possible(s, events)
    decreases |events|
  {
    if events == [] then s else Run(Next(s, events[0]), events[1..])
  }

  // ---------------------------------------------------------------- conservation

  function Holders(requests: map<RequestId, Phase>): set<RequestId> {
    set id | id in requests && HoldsSlot(requests[id])
  }

  function Workers(requests: map<RequestId, Phase>): set<RequestId> {
    set id | id in requests && WorkerRuns(requests[id])
  }

  /** Every slot is free or held by exactly one request. */
  ghost predicate Conserved(slots: nat, s: State) {
    s.free >= 0 && s.free + |Holders(s.requests)| == slots
  }

  lemma SizeWithout(ids: set<RequestId>, id: RequestId)
    ensures |ids| == |ids - {id}| + if id in ids then 1 else 0
  {
    if id !in ids { assert ids - {id} == ids; }
  }

  lemma HoldersElsewhere(requests: map<RequestId, Phase>, id: RequestId, phase: Phase)
    ensures Holders(requests[id := phase]) - {id} == Holders(requests) - {id}
    ensures id in Holders(requests) <==> id in requests && HoldsSlot(requests[id])
    ensures id in Holders(requests[id := phase]) <==> HoldsSlot(phase)
  {
  }

  lemma HoldersAfter(requests: map<RequestId, Phase>, id: RequestId, phase: Phase)
    ensures var before := id in requests && HoldsSlot(requests[id]);
      |Holders(requests[id := phase])| == |Holders(requests)| + (if HoldsSlot(phase) then 1 else 0) - if before then 1 else 0
  {
    hide Holders, HoldsSlot;
    HoldersElsewhere(requests, id, phase);
    SizeWithout(Holders(requests), id);
    SizeWithout(Holders(requests[id := phase]), id);
  }

  lemma NextKeepsConserved(slots: nat, s: State, event: Event)
    requires Conserved(slots, s) && Enabled(s, event)
    ensures Conserved(slots, Next(s, event))
  {
    HoldersAfter(s.requests, event.id, Next(s, event).requests[event.id]);
  }

  /** Over every run, timeouts and cancellations included. */
  lemma {:induction false} RunKeepsConserved(slots: nat, s: State, events: seq<Event>)
    requires Conserved(slots, s) && Possible(s, events)
    ensures Conserved(slots, Run(s, events))
    decreases |events|
  {
    if events != [] {
      NextKeepsConserved(slots, s, events[0]);
      RunKeepsConserved(slots, Next(s, events[0]), events[1..]);
    }
  }

  lemma SubsetIsNoLarger(a: set<RequestId>, b: set<RequestId>)
    requires a <= b
    ensures |a| <= |b|
  {
    assert b == a + (b - a);
  }

  /** Never more workers at once than slots, and with every request over, all slots are free again. */
  lemma WorkersWithinSlots(slots: nat, events: seq<Event>)
    requires Possible(Start(slots), events)
    ensures var s := Run(Start(slots), events);
      && |Workers(s.requests)| <= slots
      && (Holders(s.requests) == {} ==> s.free == slots)
  {
    RunKeepsConserved(slots, Start(slots), events);
    var requests := Run(Start(slots), events).requests;
    SubsetIsNoLarger(Workers(requests), Holders(requests));
  }

  /** A queued request gets a slot whenever fewer than all of them are held, and only then; its worker
      runs from there. */
  lemma GrantedWhileSlotsRemain(slots: nat, events: seq<Event>, id: RequestId)
    requires Possible(Start(slots), events) && IsIn(Run(Start(slots), events), id, Queued)
    ensures var s := Run(Start(slots), events);
      && (Enabled(s, Grant(id)) <==> |Holders(s.requests)| < slots)
      && (Enabled(s, Grant(id)) ==> id in Workers(Next(s, Grant(id)).requests))
  {
    RunKeepsConserved(slots, Start(slots), events);
  }

  /** A slot outlives its caller: over any run in which its worker has not ended, a request keeps its
      slot, whoever is cancelled meanwhile. */
  lemma {:induction false} RunningWorkerKeepsItsSlot(s: State, events: seq<Event>, id: RequestId)
    requires Possible(s, events) && id in s.requests && WorkerRuns(s.requests[id]) && Finish(id) !in events
    ensures id in Run(s, events).requests && WorkerRuns(Run(s, events).requests[id])
    ensures id in Holders(Run(s, events).requests)
    decreases |events|
  {
    if events != [] {
      assert events[0] in events;
      RunningWorkerKeepsItsSlot(Next(s, events[0]), events[1..], id);
    }
  }

  /** And a slot given back is given back once: a request that has left stays so for the rest of the
      run, and no event of it is possible any more. */
  lemma {:induction false} LeavingIsFinal(s: State, events: seq<Event>, id: RequestId)
    requires Possible(s, events) && id in s.requests && (s.requests[id].Left? || s.requests[id].Refused?)
    ensures id in Run(s, events).requests && Run(s, events).requests[id] == s.requests[id]
    ensures forall event :: event in events ==> event.id != id
    decreases |events|
  {
    if events != [] {
      assert events == [events[0]] + events[1..];
      LeavingIsFinal(Next(s, events[0]), events[1..], id);
    }
  }

  /** What gives a request's slot back once its worker ends, caller or no caller. */
  function WayOut(phase: Phase, id: RequestId): seq<Event> {
    match phase
    case Awaiting => [Finish(id), Resume(id)]
    case Finished => [Resume(id)]
    case Abandoned => [Finish(id), Callback(id)]
    case Orphaned => [Callback(id)]
    case _ => []
  }

  /** No slot leaks: the end of the worker and one turn of the event loop return it. */
  lemma SlotComesBack(s: State, id: RequestId)
    requires id in s.requests && HoldsSlot(s.requests[id])
    ensures var events := WayOut(s.requests[id], id);
      Possible(s, events) && Run(s, events) == State(s.free + 1, s.requests[id := Left])
  {
    var events := WayOut(s.requests[id], id);
    var next := Next(s, events[0]);
    if |events| == 2 {
      assert events[1..] == [events[1]] && [events[1]][1..] == [];
      assert Possible(next, [events[1]]);
      assert Run(next, [events[1]]) == Next(next, events[1]);
      assert s.requests[id := next.requests[id]][id := Left] == s.requests[id := Left];
    } else {
      assert events[1..] == [];
    }
  }
}
