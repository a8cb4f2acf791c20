/** The cache's expiry heap, kept as the strictly increasing sequence of its records: `heapq`
    promises only that a pop takes the least record, which is the front of that sequence. */
module ExpiryQueue {
  import opened Keys

  datatype Record = Record(expires: real, key: Key)

  predicate Before(a: Record, b: Record) {
    a.expires < b.expires || (a.expires == b.expires && KeyLess(a.key, b.key))
  }

  predicate Sorted(queue: seq<Record>) {
    forall i, j :: 0 <= i < j < |queue| ==> Before(queue[i], queue[j])
  }

  /** `heappush`. */
  function Push(queue: seq<Record>, r: Record): seq<Record> {
    if queue == [] || Before(r, queue[0]) then [r] + queue
    else [queue[0]] + Push(queue[1..], r)
  }

  lemma BeforeOrder(a: Record, b: Record)
    ensures Before(a, b) || a == b || Before(b, a)
    ensures !(Before(a, b) && Before(b, a)) && !Before(a, a)
  {
    KeyOrder(a.key, b.key);
  }

  lemma BeforeTransitive(a: Record, b: Record, c: Record)
    requires Before(a, b) && Before(b, c)
    ensures Before(a, c)
  {
    if a.expires == b.expires == c.expires {
      KeyLessTransitive(a.key, b.key, c.key);
    }
  }

  /** A push adds the record once, keeps every other record and keeps the order. */
  lemma {:induction false} PushKeepsSorted(queue: seq<Record>, r: Record)
    requires Sorted(queue) && r !in queue
    ensures Sorted(Push(queue, r)) && |Push(queue, r)| == |queue| + 1
    ensures forall x :: x in Push(queue, r) <==> x == r || x in queue
  {
    if queue != [] {
      var rest := queue[1..];
      assert queue == [queue[0]] + rest;
      PushKeepsSorted(rest, r);
      BeforeOrder(r, queue[0]);
      if Before(r, queue[0]) {
        forall j | 0 <= j < |queue| ensures Before(r, queue[j]) {
          if j > 0 { BeforeTransitive(r, queue[0], queue[j]); }
        }
      } else {
        var tail := Push(rest, r);
        forall j | 0 <= j < |tail| ensures Before(queue[0], tail[j]) {
          assert tail[j] in tail;
        }
      }
    }
  }

  lemma SortedTail(queue: seq<Record>)
    requires Sorted(queue) && queue != []
    ensures Sorted(queue[1..]) && queue[0] !in queue[1..]
    ensures forall x :: x in queue[1..] ==> Before(queue[0], x)
    ensures forall x :: x in queue <==> x == queue[0] || x in queue[1..]
  {
    assert queue == [queue[0]] + queue[1..];
    BeforeOrder(queue[0], queue[0]);
  }
}
