/** The worker thread of `MicroBatcher` as the source writes it: nested loops over a queue, with the
    waiting list, the settlements and the statistics updated in place. The other threads reach it
    only through what each poll of the queue returns, so they are a script of poll results here. */
module MicroBatchers {
  import opened Prelude
  import opened Selection
  import BW = BatchWorker

  /** The machine fed one poll after the other. */
  function Feed(cfg: BW.Config, w: BW.Worker, polls: seq<BW.Poll>): BW.Worker
    requires cfg.maxBatch >= 1
    decreases |polls|
  {
    if polls == [] then w else Feed(cfg, BW.Step(cfg, w, polls[0]), polls[1..])
  }

  lemma {:induction false} FeedStopped(cfg: BW.Config, w: BW.Worker, polls: seq<BW.Poll>)
    requires cfg.maxBatch >= 1 && w.phase.Stopped?
    ensures Feed(cfg, w, polls) == w
    decreases |polls|
  {
    if polls != [] { FeedStopped(cfg, w, polls[1..]); }
  }

  /** What the worker's polls return in a run of the system. */
  function Polls(cfg: BW.Config, s: BW.System, events: seq<BW.Event>): seq<BW.Poll>
    requires cfg.maxBatch >= 1
    decreases |events|
  {
    if events == [] then []
    else
      (match events[0]
       case Put(_) => []
       case Deadline => if s.worker.phase.Lingering? then [BW.Empty] else []
       case PollQueue => if s.worker.phase.Stopped? then [] else [BW.Answer(s.queue)])
      + Polls(cfg, BW.Next(cfg, s, events[0]), events[1..])
  }

  /** The worker of any run of the system is the machine fed its polls, and so, by the contract of
      `MicroBatcher.Run`, what the loops below leave behind. */
  lemma {:induction false} RunFeedsTheWorker(cfg: BW.Config, s: BW.System, events: seq<BW.Event>)
    requires cfg.maxBatch >= 1
    ensures BW.Run(cfg, s, events).worker == Feed(cfg, s.worker, Polls(cfg, s, events))
    decreases |events|
  {
    if events != [] {
      RunFeedsTheWorker(cfg, BW.Next(cfg, s, events[0]), events[1..]);
      var rest := Polls(cfg, BW.Next(cfg, s, events[0]), events[1..]);
      var polls := Polls(cfg, s, events);
      assert polls == rest || (polls != [] && polls[1..] == rest);
    }
  }

  /** How a collection ended: a batch is due, the sentinel was seen, or the script ran out. */
  datatype Collected = Ready | Closing | Interrupted

  class MicroBatcher {
    const cfg: BW.Config
    const script: seq<BW.Poll>
    var position: nat
    var taken: nat
    var settled: map<nat, BW.Settlement>
    var settles: multiset<nat>
    var batches: nat
    var utterances: nat
    var largest: nat
    ghost var dispatched: seq<seq<Ticket>>

    ghost predicate Valid() reads this`position { cfg.maxBatch >= 1 && position <= |script| }

    ghost function View(phase: BW.Phase, waiting: seq<Ticket>): BW.Worker
      reads this
    {
      BW.Worker(phase, waiting, taken, settled, settles, batches, utterances, largest, dispatched)
    }

    /** Where the rest of the script takes the machine from here. */
    ghost function Future(w: BW.Worker): BW.Worker
      requires Valid()
      reads this`position
    {
      Feed(cfg, w, script[position..])
    }

    constructor (cfg: BW.Config, script: seq<BW.Poll>)
      requires cfg.maxBatch >= 1
      ensures Valid() && this.cfg == cfg && this.script == script && position == 0
      ensures View(BW.Blocking, []) == BW.FRESH
    {
      this.cfg, this.script := cfg, script;
      position, taken := 0, 0;
      settled, settles := map[], multiset{};
      batches, utterances, largest := 0, 0, 0;
      dispatched := [];
    }

    method Poll(ghost w: BW.Worker) returns (poll: BW.Poll)
      requires Valid() && position < |script|
      modifies this`position
      ensures Valid() && position == old(position) + 1
      ensures old(Future(w)) == Future(BW.Step(cfg, w, poll))
    {
      poll := script[position];
      assert script[position..][1..] == script[position + 1..];
      position := position + 1;
    }

    method Settle(place: nat, value: BW.Settlement)
      modifies this`settled, this`settles
      ensures settled == old(settled)[place := value] && settles == old(settles) + multiset{place}
    {
      settled := settled[place := value];
      settles := settles + multiset{place};
    }

    /** One `settle` per member of a batch. */
    method SettleBatch(batch: seq<Ticket>, values: seq<BW.Settlement>, ghost phase: BW.Phase, ghost waiting: seq<Ticket>)
      requires |batch| == |values|
      modifies this`settled, this`settles
      ensures View(phase, waiting) == BW.SettleAll(old(View(phase, waiting)), batch, values)
    {
      assert batch[0..] == batch && values[0..] == values;
      for i := 0 to |batch|
        invariant BW.SettleAll(View(phase, waiting), batch[i..], values[i..]) == BW.SettleAll(old(View(phase, waiting)), batch, values)
      {
        assert batch[i..][1..] == batch[i + 1..] && values[i..][1..] == values[i + 1..];
        ghost var before := View(phase, waiting);
        Settle(batch[i].place, values[i]);
        assert View(phase, waiting) == BW.Settle(before, batch[i].place, values[i]);
      }
      assert batch[|batch|..] == [] && values[|batch|..] == [];
    }

    /** `_dispatch`: counters, one call of the model, one `settle` per member. */
    method Dispatch(batch: seq<Ticket>, ghost phase: BW.Phase, ghost waiting: seq<Ticket>)
      modifies this`settled, this`settles, this`batches, this`utterances, this`largest, this`dispatched
      ensures View(phase, waiting) == BW.Dispatch(cfg, old(View(phase, waiting)), batch)
    {
      var number := batches;
      batches := batches + 1;
      utterances := utterances + |batch|;
      if largest < |batch| { largest := |batch|; }
      dispatched := dispatched + [batch];
      hide BW.BatchValues, BW.SettleAll;
      var values := BW.BatchValues(cfg, number, batch);
      assert View(phase, waiting) == BW.Count(old(View(phase, waiting)), batch);
      SettleBatch(batch, values, phase, waiting);
    }

    /** The free drain of `_collect`. `Ready` means that it found the queue empty. */
    method Drain(given: seq<Ticket>) returns (waiting: seq<Ticket>, collected: Collected)
      requires Valid() && given != []
      modifies this`position, this`taken
      ensures Valid() && position >= old(position) && waiting != []
      ensures collected.Ready? ==> position > old(position)
      ensures old(Future(View(BW.Collecting, given))) ==
              match collected
              case Ready => Future(BW.Step(cfg, View(BW.Collecting, waiting), BW.Empty))
              case Closing => Future(BW.EndCollect(cfg, View(BW.Collecting, waiting), true))
              case Interrupted => View(BW.Collecting, waiting)
    {
      hide BW.EndCollect, BW.Round, BW.CloseOut;
      waiting := given;
      while position < |script|
        invariant Valid() && position >= old(position) && waiting != []
        invariant old(Future(View(BW.Collecting, given))) == Future(View(BW.Collecting, waiting))
        decreases |script| - position
      {
        ghost var before := View(BW.Collecting, waiting);
        var poll := Poll(before);
        match poll
        case Empty =>
          return waiting, Ready;
        case Sentinel =>
          taken := taken + 1;
          assert View(BW.Collecting, waiting) == before.(taken := before.taken + 1);
          return waiting, Closing;
        case Got(pending) =>
          waiting := waiting + [Ticket(taken, pending)];
          taken := taken + 1;
          assert View(BW.Collecting, waiting) == BW.Take(before, pending);
      }
      assert script[position..] == [];
      return waiting, Interrupted;
    }

    /** The collection window of `_collect`. */
    method Linger(given: seq<Ticket>) returns (waiting: seq<Ticket>, collected: Collected)
      requires Valid() && 1 < |given| < cfg.maxBatch
      modifies this`position, this`taken
      ensures Valid() && position >= old(position) && waiting != []
      ensures old(Future(View(BW.Lingering, given))) ==
              match collected
              case Ready => Future(BW.EndCollect(cfg, View(BW.Lingering, waiting), false))
              case Closing => Future(BW.EndCollect(cfg, View(BW.Lingering, waiting), true))
              case Interrupted => View(BW.Lingering, waiting)
    {
      hide BW.EndCollect, BW.Round, BW.CloseOut;
      waiting := given;
      while position < |script|
        invariant Valid() && position >= old(position) && waiting != [] && |waiting| < cfg.maxBatch
        invariant old(Future(View(BW.Lingering, given))) == Future(View(BW.Lingering, waiting))
        decreases |script| - position
      {
        ghost var before := View(BW.Lingering, waiting);
        var poll := Poll(before);
        match poll
        case Empty =>
          return waiting, Ready;
        case Sentinel =>
          taken := taken + 1;
          assert View(BW.Lingering, waiting) == before.(taken := before.taken + 1);
          return waiting, Closing;
        case Got(pending) =>
          waiting := waiting + [Ticket(taken, pending)];
          taken := taken + 1;
          assert View(BW.Lingering, waiting) == BW.Take(before, pending);
          if |waiting| >= cfg.maxBatch { return waiting, Ready; }
      }
      assert script[position..] == [];
      return waiting, Interrupted;
    }

    /** `_collect`. */
    method Collect(given: seq<Ticket>) returns (waiting: seq<Ticket>, phase: BW.Phase, collected: Collected)
      requires Valid() && given != []
      modifies this`position, this`taken
      ensures Valid() && position >= old(position) && waiting != []
      ensures collected.Ready? ==> position > old(position)
      ensures phase.Collecting? || phase.Lingering?
      ensures old(Future(View(BW.Collecting, given))) ==
              match collected
              case Ready => Future(BW.EndCollect(cfg, View(phase, waiting), false))
              case Closing => Future(BW.EndCollect(cfg, View(phase, waiting), true))
              case Interrupted => View(phase, waiting)
    {
      waiting, collected := Drain(given);
      phase := BW.Collecting;
      if collected.Ready? && 1 < |waiting| < cfg.maxBatch && cfg.window {
        phase := BW.Lingering;
        waiting, collected := Linger(waiting);
      }
    }

    /** One selection and its dispatch. */
    method DispatchSelected(waiting: seq<Ticket>, ghost phase: BW.Phase) returns (rest: seq<Ticket>)
      requires Valid()
      modifies this`settled, this`settles, this`batches, this`utterances, this`largest, this`dispatched
      ensures View(phase, rest) == BW.Round(cfg, old(View(phase, waiting)))
      ensures |rest| <= |waiting| && (waiting != [] ==> |rest| < |waiting|)
    {
      var split := Select(waiting, cfg.maxBatch);
      Dispatch(split.batch, phase, waiting);
      rest := split.rest;
    }

    /** The loop that decodes whatever was drained before the sentinel. */
    method DispatchRemaining(given: seq<Ticket>, ghost phase: BW.Phase)
      requires Valid()
      modifies this`settled, this`settles, this`batches, this`utterances, this`largest, this`dispatched
      ensures View(BW.Failing, []) == BW.CloseOut(cfg, old(View(phase, given)))
    {
      var waiting := given;
      while waiting != []
        invariant BW.CloseOut(cfg, View(phase, waiting)) == BW.CloseOut(cfg, old(View(phase, given)))
        decreases |waiting|
      {
        waiting := DispatchSelected(waiting, phase);
      }
    }

    /** `_drain_on_close`. */
    method DrainOnClose() returns (phase: BW.Phase)
      requires Valid()
      modifies this`position, this`taken, this`settled, this`settles
      ensures Valid()
      ensures old(Future(View(BW.Failing, []))) == View(phase, [])
    {
      hide BW.EndCollect, BW.Round, BW.CloseOut, BW.Take;
      while position < |script|
        invariant Valid()
        invariant old(Future(View(BW.Failing, []))) == Future(View(BW.Failing, []))
        decreases |script| - position
      {
        ghost var before := View(BW.Failing, []);
        var poll := Poll(before);
        match poll
        case Empty =>
          FeedStopped(cfg, BW.Step(cfg, before, poll), script[position..]);
          return BW.Stopped;
        case Sentinel =>
          taken := taken + 1;
          assert View(BW.Failing, []) == BW.Step(cfg, before, poll);
        case Got(_) =>
          Settle(taken, BW.Closed);
          taken := taken + 1;
          assert View(BW.Failing, []) == BW.Step(cfg, before, poll);
      }
      assert script[position..] == [];
      return BW.Failing;
    }

    /** The blocking `get`: it returns only with an item. */
    method Get() returns (poll: BW.Poll)
      requires Valid()
      modifies this`position
      ensures Valid() && position >= old(position)
      ensures poll.Empty? ==> old(Future(View(BW.Blocking, []))) == View(BW.Blocking, [])
      ensures !poll.Empty? ==> old(Future(View(BW.Blocking, []))) == Future(BW.Step(cfg, View(BW.Blocking, []), poll))
                               && position > old(position)
    {
      poll := BW.Empty;
      while position < |script| && poll.Empty?
        invariant Valid() && position >= old(position)
        invariant poll.Empty? ==> old(Future(View(BW.Blocking, []))) == Future(View(BW.Blocking, []))
        invariant !poll.Empty? ==> old(Future(View(BW.Blocking, []))) == Future(BW.Step(cfg, View(BW.Blocking, []), poll))
                                   && position > old(position)
        decreases |script| - position
      {
        poll := Poll(View(BW.Blocking, []));
      }
      if poll.Empty? { assert script[position..] == []; }
    }

    /** `_run`: the state in which the script leaves the worker is the machine's. */
    method Run() returns (phase: BW.Phase, waiting: seq<Ticket>)
      requires Valid() && position == 0 && View(BW.Blocking, []) == BW.FRESH
      modifies this
      ensures View(phase, waiting) == Feed(cfg, BW.FRESH, script)
    {
      hide BW.Round, BW.CloseOut, Select;
      waiting := [];
      assert script[0..] == script;
      while true
        invariant Valid()
        invariant Feed(cfg, BW.FRESH, script) == Future(View(if waiting == [] then BW.Blocking else BW.Collecting, waiting))
        decreases |script| - position
      {
        if waiting == [] {
          var first := Get();
          ghost var before := View(BW.Blocking, []);
          match first {
            case Empty =>
              return BW.Blocking, [];
            case Sentinel =>
              taken := taken + 1;
              phase := DrainOnClose();
              return phase, [];
            case Got(pending) =>
              waiting := [Ticket(taken, pending)];
              taken := taken + 1;
              assert View(BW.Collecting, waiting) == BW.Step(cfg, before, first);
          }
        }
        var collected: Collected;
        waiting, phase, collected := Collect(waiting);
        if collected.Interrupted? {
          return phase, waiting;
        }
        ghost var due := View(phase, waiting);
        waiting := DispatchSelected(waiting, phase);
        assert View(phase, waiting) == BW.Round(cfg, due);
        if collected.Closing? {
          DispatchRemaining(waiting, phase);
          phase := DrainOnClose();
          return phase, [];
        }
      }
    }
  }
}
