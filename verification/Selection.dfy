/** `MicroBatcher._select` in batching.py: which of the waiting requests go into the next batch. */
module Selection {
  import opened Prelude

  datatype Pending = Pending(samples: seq<real>, language: string)

  /** A request together with its place in the order of arrival, which stands for its identity. */
  datatype Ticket = Ticket(place: nat, pending: Pending)

  function Size(t: Ticket): nat { |t.pending.samples| }

  // ---------------------------------------------------------------- sorted(range(n), key=size)

  /** Stable order: by size, and by index between equal sizes. */
  predicate Ahead(waiting: seq<Ticket>, i: nat, j: nat)
    requires i < |waiting| && j < |waiting|
  {
    Size(waiting[i]) < Size(waiting[j]) || (Size(waiting[i]) == Size(waiting[j]) && i < j)
  }

  predicate InRange(order: seq<nat>, n: nat) {
    forall k :: 0 <= k < |order| ==> order[k] < n
  }

  function Insert(waiting: seq<Ticket>, order: seq<nat>, i: nat): (r: seq<nat>)
    requires i < |waiting| && InRange(order, |waiting|)
    ensures |r| == |order| + 1 && InRange(r, |waiting|)
    ensures forall x: nat :: x in r <==> x == i || x in order
  {
    if order == [] || Ahead(waiting, i, order[0]) then [i] + order
    else
      assert order == [order[0]] + order[1..];
      [order[0]] + Insert(waiting, order[1..], i)
  }

  /** The first `n` indexes of `waiting`, sorted. */
  function Order(waiting: seq<Ticket>, n: nat): (r: seq<nat>)
    requires n <= |waiting|
    ensures |r| == n && InRange(r, |waiting|) && forall x: nat :: x in r <==> x < n
  {
    if n == 0 then [] else Insert(waiting, Order(waiting, n - 1), n - 1)
  }

  ghost predicate InOrder(waiting: seq<Ticket>, order: seq<nat>)
    requires InRange(order, |waiting|)
  {
    forall a, b :: 0 <= a < b < |order| ==> Ahead(waiting, order[a], order[b])
  }

  lemma {:induction false} InsertKeepsOrder(waiting: seq<Ticket>, order: seq<nat>, i: nat)
    requires i < |waiting| && InRange(order, |waiting|) && InOrder(waiting, order) && i !in order
    ensures InOrder(waiting, Insert(waiting, order, i))
  {
    if order != [] && !Ahead(waiting, i, order[0]) {
      var rest := order[1..];
      assert order == [order[0]] + rest;
      InsertKeepsOrder(waiting, rest, i);
      var tail := Insert(waiting, rest, i);
      forall b | 0 <= b < |tail|
        ensures Ahead(waiting, order[0], tail[b])
      {
        assert tail[b] in tail;
        if tail[b] != i {
          var c :| 0 <= c < |rest| && rest[c] == tail[b];
          assert order[c + 1] == tail[b];
        } else {
          assert order[0] in order;
        }
      }
    } else if order != [] {
      forall b | 0 <= b < |order|
        ensures Ahead(waiting, i, order[b])
      {
        if b > 0 { assert Ahead(waiting, order[0], order[b]); }
      }
    }
  }

  lemma {:induction false} OrderIsSorted(waiting: seq<Ticket>, n: nat)
    requires n <= |waiting|
    ensures InOrder(waiting, Order(waiting, n))
  {
    if n > 0 {
      OrderIsSorted(waiting, n - 1);
      InsertKeepsOrder(waiting, Order(waiting, n - 1), n - 1);
    }
  }

  // ---------------------------------------------------------------- the window

  function IndexOf(order: seq<nat>, x: nat): (i: nat)
    requires x in order
    ensures i < |order| && order[i] == x
  {
    if order[0] == x then 0
    else
      assert order == [order[0]] + order[1..];
      1 + IndexOf(order[1..], x)
  }

  function Start(n: nat, oldest: nat, maxBatch: nat): int {
    Min(Max(0, oldest - maxBatch / 2), n - maxBatch)
  }

  /** The tickets, from index `from` on, whose index is in `chosen` (or is not), in their order. */
  function Pick(waiting: seq<Ticket>, from: nat, chosen: set<nat>, wanted: bool): seq<Ticket>
    requires from <= |waiting|
    decreases |waiting| - from
  {
    if from == |waiting| then []
    else (if (from in chosen) == wanted then [waiting[from]] else []) + Pick(waiting, from + 1, chosen, wanted)
  }

  function Window(waiting: seq<Ticket>, maxBatch: nat): (r: seq<nat>)
    requires 1 <= maxBatch < |waiting|
    ensures |r| == maxBatch && InRange(r, |waiting|)
  {
    var order := Order(waiting, |waiting|);
    var start := Start(|waiting|, IndexOf(order, 0), maxBatch);
    order[start..start + maxBatch]
  }

  function Members(order: seq<nat>): set<nat> { set x: nat | x in order }

  function Chosen(waiting: seq<Ticket>, maxBatch: nat): set<nat>
    requires 1 <= maxBatch < |waiting|
  {
    Members(Window(waiting, maxBatch))
  }

  datatype Split = Split(batch: seq<Ticket>, rest: seq<Ticket>)

  function Select(waiting: seq<Ticket>, maxBatch: nat): (split: Split)
    requires maxBatch >= 1
    ensures |split.batch| == Min(|waiting|, maxBatch) && |split.rest| == |waiting| - |split.batch|
  {
    if |waiting| <= maxBatch then Split(waiting, [])
    else
      var chosen := Chosen(waiting, maxBatch);
      ChosenHoldsOldest(waiting, maxBatch);
      PickLength(waiting, 0, chosen);
      assert (set i | i in chosen && 0 <= i < |waiting|) == chosen;
      Split(Pick(waiting, 0, chosen, true), Pick(waiting, 0, chosen, false))
  }

  // ---------------------------------------------------------------- what the window promises

  /** The clamped start keeps the oldest request's rank inside the window, for every queue length
      and every batch size. */
  lemma WindowHoldsOldest(n: nat, oldest: nat, maxBatch: nat)
    requires oldest < n && 1 <= maxBatch < n
    ensures 0 <= Start(n, oldest, maxBatch) <= oldest < Start(n, oldest, maxBatch) + maxBatch <= n
  {
  }

  ghost predicate Distinct(order: seq<nat>) {
    forall a, b :: 0 <= a < b < |order| ==> order[a] != order[b]
  }

  lemma {:induction false} DistinctCount(order: seq<nat>)
    requires Distinct(order)
    ensures |Members(order)| == |order|
  {
    if order != [] {
      var rest := order[1..];
      assert order == [order[0]] + rest;
      DistinctCount(rest);
      assert Members(order) == {order[0]} + Members(rest);
    }
  }

  lemma StretchIsDistinct(waiting: seq<Ticket>, order: seq<nat>, start: nat, size: nat)
    requires InRange(order, |waiting|) && InOrder(waiting, order) && start + size <= |order|
    ensures Distinct(order[start..start + size])
  {
    var window := order[start..start + size];
    forall a, b | 0 <= a < b < |window| ensures window[a] != window[b] {
      assert Ahead(waiting, order[start + a], order[start + b]);
    }
  }

  /** The choice: exactly `maxBatch` indexes, the oldest among them. */
  lemma ChosenHoldsOldest(waiting: seq<Ticket>, maxBatch: nat)
    requires 1 <= maxBatch < |waiting|
    ensures 0 in Chosen(waiting, maxBatch) && |Chosen(waiting, maxBatch)| == maxBatch
    ensures forall i :: i in Chosen(waiting, maxBatch) ==> i < |waiting|
  {
    var order := Order(waiting, |waiting|);
    OrderIsSorted(waiting, |waiting|);
    var oldest := IndexOf(order, 0);
    WindowHoldsOldest(|waiting|, oldest, maxBatch);
    var start := Start(|waiting|, oldest, maxBatch);
    var window := Window(waiting, maxBatch);
    assert window[oldest - start] == 0;
    StretchIsDistinct(waiting, order, start, maxBatch);
    DistinctCount(window);
  }

  /** A stretch of a sorted order leaves nothing out that lies strictly between two of its members. */
  lemma StretchGroups(waiting: seq<Ticket>, order: seq<nat>, start: nat, size: nat, i: nat, j: nat, left: nat)
    requires InRange(order, |waiting|) && InOrder(waiting, order) && start + size <= |order|
    requires i in order[start..start + size] && j in order[start..start + size]
    requires left in order && left !in order[start..start + size]
    ensures i < |waiting| && j < |waiting| && left < |waiting|
    ensures !(Size(waiting[i]) < Size(waiting[left]) < Size(waiting[j]))
  {
    var window := order[start..start + size];
    var a, b, c := IndexOf(window, i), IndexOf(window, j), IndexOf(order, left);
    assert window[a] == order[start + a] && window[b] == order[start + b];
    forall d | start <= d < start + size
      ensures order[d] in window
    {
      assert order[d] == window[d - start];
    }
    if c < start {
      assert Ahead(waiting, order[c], order[start + a]);
    } else {
      assert Ahead(waiting, order[start + b], order[c]);
    }
  }

  /** Nothing left behind lies strictly between the shortest and the longest of the batch. */
  lemma ChosenGroupsByLength(waiting: seq<Ticket>, maxBatch: nat, i: nat, j: nat, left: nat)
    requires 1 <= maxBatch < |waiting| && i < |waiting| && j < |waiting| && left < |waiting|
    requires i in Chosen(waiting, maxBatch) && j in Chosen(waiting, maxBatch) && left !in Chosen(waiting, maxBatch)
    ensures !(Size(waiting[i]) < Size(waiting[left]) < Size(waiting[j]))
  {
    hide Order, InOrder, Start, IndexOf;
    var order := Order(waiting, |waiting|);
    OrderIsSorted(waiting, |waiting|);
    WindowHoldsOldest(|waiting|, IndexOf(order, 0), maxBatch);
    StretchGroups(waiting, order, Start(|waiting|, IndexOf(order, 0), maxBatch), maxBatch, i, j, left);
  }

  /** How many requests come before request `i` when they are sorted by length. */
  function Rank(waiting: seq<Ticket>, i: nat): nat
    requires i < |waiting|
  {
    |set j: nat | j < |waiting| && Ahead(waiting, j, i)|
  }

  lemma FrontIsDistinct(waiting: seq<Ticket>, order: seq<nat>, p: nat)
    requires InRange(order, |waiting|) && InOrder(waiting, order) && p <= |order|
    ensures |Members(order[..p])| == p
  {
    StretchIsDistinct(waiting, order, 0, p);
    assert order[0..0 + p] == order[..p];
    DistinctCount(order[..p]);
  }

  /** What stands before the `p`-th in the sorted order is what comes ahead of it. */
  lemma FrontIsAhead(waiting: seq<Ticket>, order: seq<nat>, p: nat, j: nat)
    requires InRange(order, |waiting|) && InOrder(waiting, order) && p < |order| && j in order
    ensures j in order[..p] <==> Ahead(waiting, j, order[p])
  {
    var q := IndexOf(order, j);
    if q < p {
      assert order[..p][q] == j;
    } else {
      if p < q { assert Ahead(waiting, order[p], order[q]); }
      if j in order[..p] {
        var k :| 0 <= k < p && order[..p][k] == j;
        assert Ahead(waiting, order[k], order[p]);
      }
    }
  }

  lemma PlaceIsRank(waiting: seq<Ticket>, p: nat)
    requires p < |waiting|
    ensures Rank(waiting, Order(waiting, |waiting|)[p]) == p
  {
    hide InOrder, Ahead, Order;
    var order := Order(waiting, |waiting|);
    OrderIsSorted(waiting, |waiting|);
    FrontIsDistinct(waiting, order, p);
    forall j: nat
      ensures j in order[..p] <==> j < |waiting| && Ahead(waiting, j, order[p])
    {
      if j < |waiting| {
        FrontIsAhead(waiting, order, p, j);
      } else {
        assert j in order[..p] ==> j in order;
      }
    }
    assert Members(order[..p]) == set j: nat | j < |waiting| && Ahead(waiting, j, order[p]);
  }

  /** How many of the requests shorter than the oldest go with it: half of the batch, rounded down; all of
      them, where there are fewer; or more, where the others cannot fill the batch. */
  function ShorterTaken(n: nat, shorter: nat, maxBatch: nat): int {
    var others := n - shorter;
    if others < maxBatch - maxBatch / 2 then maxBatch - others
    else if shorter < maxBatch / 2 then shorter
    else maxBatch / 2
  }

  lemma StartIsCentred(n: nat, shorter: nat, maxBatch: nat)
    requires shorter < n && 1 <= maxBatch < n
    ensures Start(n, shorter, maxBatch) == shorter - ShorterTaken(n, shorter, maxBatch)
  {
  }

  lemma InStretch(order: seq<nat>, start: nat, size: nat, p: nat)
    requires Distinct(order) && start + size <= |order| && p < |order|
    ensures order[p] in order[start..start + size] <==> start <= p < start + size
  {
    var stretch := order[start..start + size];
    if start <= p < start + size { assert stretch[p - start] == order[p]; }
    if order[p] in stretch {
      var k :| 0 <= k < |stretch| && stretch[k] == order[p];
      assert order[start + k] == order[p];
    }
  }

  /** The choice is those `maxBatch` neighbours in order of length, the oldest among them as above. */
  lemma ChosenExactly(waiting: seq<Ticket>, maxBatch: nat, i: nat)
    requires 1 <= maxBatch < |waiting| && i < |waiting|
    ensures i in Chosen(waiting, maxBatch) <==>
              var shorter := Rank(waiting, 0);
              var first := shorter - ShorterTaken(|waiting|, shorter, maxBatch);
              first <= Rank(waiting, i) < first + maxBatch
  {
    hide Rank, ShorterTaken, Start, Order, InOrder;
    var order := Order(waiting, |waiting|);
    OrderIsSorted(waiting, |waiting|);
    StretchIsDistinct(waiting, order, 0, |order|);
    assert order[0..|order|] == order;
    var oldest, p := IndexOf(order, 0), IndexOf(order, i);
    PlaceIsRank(waiting, oldest);
    PlaceIsRank(waiting, p);
    WindowHoldsOldest(|waiting|, oldest, maxBatch);
    StartIsCentred(|waiting|, oldest, maxBatch);
    InStretch(order, Start(|waiting|, oldest, maxBatch), maxBatch, p);
  }

  // ---------------------------------------------------------------- the two lists

  /** Arrival order: strictly increasing places. */
  ghost predicate Arrived(waiting: seq<Ticket>) {
    forall a, b :: 0 <= a < b < |waiting| ==> waiting[a].place < waiting[b].place
  }

  ghost predicate PickedAt(waiting: seq<Ticket>, from: nat, chosen: set<nat>, wanted: bool, t: Ticket, i: nat) {
    from <= i < |waiting| && waiting[i] == t && (i in chosen) == wanted
  }

  lemma {:induction false} PickMembers(waiting: seq<Ticket>, from: nat, chosen: set<nat>, wanted: bool, t: Ticket)
    requires from <= |waiting|
    ensures t in Pick(waiting, from, chosen, wanted) <==> exists i: nat :: PickedAt(waiting, from, chosen, wanted, t, i)
    decreases |waiting| - from
  {
    if from < |waiting| {
      PickMembers(waiting, from + 1, chosen, wanted, t);
      var rest := Pick(waiting, from + 1, chosen, wanted);
      assert t in [waiting[from]] + rest <==> t == waiting[from] || t in rest;
      if PickedAt(waiting, from, chosen, wanted, t, from) {
        assert t in Pick(waiting, from, chosen, wanted);
      } else if t in rest {
        var i: nat :| PickedAt(waiting, from + 1, chosen, wanted, t, i);
        assert PickedAt(waiting, from, chosen, wanted, t, i);
      } else {
        forall i: nat ensures !PickedAt(waiting, from, chosen, wanted, t, i) {
          assert !PickedAt(waiting, from + 1, chosen, wanted, t, i);
        }
      }
    }
  }

  /** `Pick` keeps the arrival order. */
  lemma {:induction false} PickArrived(waiting: seq<Ticket>, from: nat, chosen: set<nat>, wanted: bool)
    requires from <= |waiting| && Arrived(waiting)
    ensures Arrived(Pick(waiting, from, chosen, wanted))
    decreases |waiting| - from
  {
    if from < |waiting| {
      PickArrived(waiting, from + 1, chosen, wanted);
      var tail := Pick(waiting, from + 1, chosen, wanted);
      forall t | t in tail ensures waiting[from].place < t.place {
        PickMembers(waiting, from + 1, chosen, wanted, t);
      }
    }
  }

  lemma {:induction false} PickLength(waiting: seq<Ticket>, from: nat, chosen: set<nat>)
    requires from <= |waiting|
    ensures |Pick(waiting, from, chosen, true)| == |(set i | i in chosen && from <= i < |waiting|)|
    ensures |Pick(waiting, from, chosen, true)| + |Pick(waiting, from, chosen, false)| == |waiting| - from
    decreases |waiting| - from
  {
    var here := set i | i in chosen && from <= i < |waiting|;
    if from < |waiting| {
      PickLength(waiting, from + 1, chosen);
      var next := set i | i in chosen && from + 1 <= i < |waiting|;
      assert here == next + if from in chosen then {from} else {};
    } else {
      assert here == {};
    }
  }

  /** A selection partitions the waiting list into two lists in arrival order, takes as many as it
      may, and always takes the oldest. */
  lemma SelectPartitions(waiting: seq<Ticket>, maxBatch: nat)
    requires maxBatch >= 1 && Arrived(waiting)
    ensures var split := Select(waiting, maxBatch);
      && Arrived(split.batch) && Arrived(split.rest)
      && (forall t :: t in waiting <==> t in split.batch || t in split.rest)
      && (forall t :: !(t in split.batch && t in split.rest))
      && |split.batch| == Min(|waiting|, maxBatch)
      && (waiting != [] ==> split.batch != [] && split.batch[0] == waiting[0])
  {
    if |waiting| > maxBatch {
      var chosen := Chosen(waiting, maxBatch);
      ChosenHoldsOldest(waiting, maxBatch);
      PickArrived(waiting, 0, chosen, true);
      PickArrived(waiting, 0, chosen, false);
      forall t
        ensures t in waiting <==> t in Pick(waiting, 0, chosen, true) || t in Pick(waiting, 0, chosen, false)
        ensures !(t in Pick(waiting, 0, chosen, true) && t in Pick(waiting, 0, chosen, false))
      {
        PickMembers(waiting, 0, chosen, true, t);
        PickMembers(waiting, 0, chosen, false, t);
        PickedSomewhere(waiting, chosen, t);
        PickedOneWay(waiting, chosen, t);
      }
    }
  }

  lemma PickedSomewhere(waiting: seq<Ticket>, chosen: set<nat>, t: Ticket)
    ensures t in waiting <==>
              (exists i: nat :: PickedAt(waiting, 0, chosen, true, t, i)) || exists i: nat :: PickedAt(waiting, 0, chosen, false, t, i)
  {
    if t in waiting {
      var i: nat :| i < |waiting| && waiting[i] == t;
      assert PickedAt(waiting, 0, chosen, i in chosen, t, i);
    }
  }

  lemma PickedOneWay(waiting: seq<Ticket>, chosen: set<nat>, t: Ticket)
    requires Arrived(waiting)
    ensures !((exists i: nat :: PickedAt(waiting, 0, chosen, true, t, i)) && exists i: nat :: PickedAt(waiting, 0, chosen, false, t, i))
  {
    forall i: nat, j: nat
      ensures !(PickedAt(waiting, 0, chosen, true, t, i) && PickedAt(waiting, 0, chosen, false, t, j))
    {
      if i < j < |waiting| { assert waiting[i].place < waiting[j].place; }
      if j < i < |waiting| { assert waiting[j].place < waiting[i].place; }
    }
  }

  /** Of more requests than fit, the batch is exactly the oldest with its neighbours in length. */
  lemma SelectTakesTheNeighbours(waiting: seq<Ticket>, maxBatch: nat, i: nat)
    requires 1 <= maxBatch < |waiting| && Arrived(waiting) && i < |waiting|
    ensures waiting[i] in Select(waiting, maxBatch).batch <==>
              var shorter := Rank(waiting, 0);
              var first := shorter - ShorterTaken(|waiting|, shorter, maxBatch);
              first <= Rank(waiting, i) < first + maxBatch
  {
    hide Rank, ShorterTaken;
    var chosen := Chosen(waiting, maxBatch);
    ChosenExactly(waiting, maxBatch, i);
    PickMembers(waiting, 0, chosen, true, waiting[i]);
    if i in chosen {
      assert PickedAt(waiting, 0, chosen, true, waiting[i], i);
    } else {
      forall j: nat
        ensures !PickedAt(waiting, 0, chosen, true, waiting[i], j)
      {
        if i < j < |waiting| { assert waiting[i].place < waiting[j].place; }
        if j < i { assert waiting[j].place < waiting[i].place; }
      }
    }
  }

  /** Selection groups by length: no request left waiting is strictly longer than the shortest of
      the batch and strictly shorter than its longest. */
  lemma SelectGroupsByLength(waiting: seq<Ticket>, maxBatch: nat, short: Ticket, long: Ticket, left: Ticket)
    requires maxBatch >= 1 && Arrived(waiting)
    requires var split := Select(waiting, maxBatch); short in split.batch && long in split.batch && left in split.rest
    ensures !(Size(short) < Size(left) < Size(long))
  {
    var chosen := Chosen(waiting, maxBatch);
    PickMembers(waiting, 0, chosen, true, short);
    PickMembers(waiting, 0, chosen, true, long);
    PickMembers(waiting, 0, chosen, false, left);
    var i: nat :| PickedAt(waiting, 0, chosen, true, short, i);
    var j: nat :| PickedAt(waiting, 0, chosen, true, long, j);
    var k: nat :| PickedAt(waiting, 0, chosen, false, left, k);
    ChosenGroupsByLength(waiting, maxBatch, i, j, k);
  }

  /** One round of waiting: a request that is not taken moves at least one place forward. */
  lemma {:induction false} SelectAdvances(waiting: seq<Ticket>, maxBatch: nat, k: nat) returns (k': nat)
    requires maxBatch >= 1 && Arrived(waiting) && k < |waiting| && waiting[k] !in Select(waiting, maxBatch).batch
    ensures k' < k && k' < |Select(waiting, maxBatch).rest| && Select(waiting, maxBatch).rest[k'] == waiting[k]
  {
    SelectPartitions(waiting, maxBatch);
    var rest := Select(waiting, maxBatch).rest;
    assert waiting[k] in waiting;
    k' :| 0 <= k' < |rest| && rest[k'] == waiting[k];
    var chosen := Chosen(waiting, maxBatch);
    ChosenHoldsOldest(waiting, maxBatch);
    PickRank(waiting, 0, chosen, k', k);
  }

  /** The `r`-th ticket left over stood at index `r` or later, and past the oldest later still. */
  lemma {:induction false} PickRank(waiting: seq<Ticket>, from: nat, chosen: set<nat>, r: nat, k: nat)
    requires from <= |waiting| && Arrived(waiting)
    requires r < |Pick(waiting, from, chosen, false)| && k < |waiting| && Pick(waiting, from, chosen, false)[r] == waiting[k]
    ensures k >= from + r && (from in chosen ==> k > from + r)
    decreases |waiting| - from
  {
    PickArrived(waiting, from, chosen, false);
    var tail := Pick(waiting, from + 1, chosen, false);
    if from in chosen {
      PickRank(waiting, from + 1, chosen, r, k);
    } else if r > 0 {
      PickRank(waiting, from + 1, chosen, r - 1, k);
    }
  }
}
