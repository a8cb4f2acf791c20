/** The idempotency cache of idempotency.py: its table, its expiry queue and its two counters,
    with one function for each section that the source runs under the cache lock.

    `E` is whatever identifies an entry object: a caller number in the system model, a reference
    to the object itself in the class. */
module Idempotency {
  import opened Prelude
  import opened Keys
  import opened ExpiryQueue

  type Digest = seq<bv8>

  /** How an operation ended. */
  datatype Outcome = Returned(value: string) | Raised(error: string)

  /** What the table knows of an entry; `expires` is set exactly when the entry is completed. */
  datatype Slot<E> = Slot(entry: E, digest: Digest, expires: Option<real>)

  datatype Cache<E> = Cache(entries: map<Key, Slot<E>>, queue: seq<Record>, active: int, completed: int)

  // ---------------------------------------------------------------- invariant

  function ActiveKeys<E>(c: Cache<E>): set<Key> {
    set k | k in c.entries && c.entries[k].expires == None
  }

  /** Queue and table in bijection: one record per completed entry, carrying that entry's own
      expiry, and none for an active entry; both counters are exact. */
  ghost predicate Consistent<E>(c: Cache<E>) {
    && Sorted(c.queue)
    && (forall r :: r in c.queue <==> r.key in c.entries && c.entries[r.key].expires == Some(r.expires))
    && c.completed == |c.queue|
    && c.active == |ActiveKeys(c)|
  }

  // ---------------------------------------------------------------- the lock sections

  /** One `heappop` together with the deletion it leads to, or the `continue` of a stale record. */
  function PopOldest<E>(c: Cache<E>): Cache<E>
    requires c.queue != []
  {
    var oldest := c.queue[0];
    var popped := c.(queue := c.queue[1..]);
    if oldest.key !in c.entries || c.entries[oldest.key].expires != Some(oldest.expires) then popped
    else popped.(entries := c.entries - {oldest.key}, completed := c.completed - 1)
  }

  function RemoveExpired<E>(c: Cache<E>, now: real): Cache<E>
    decreases |c.queue|
  {
    if c.queue == [] || c.queue[0].expires > now then c
    else RemoveExpired(PopOldest(c), now)
  }

  /** A pop from an empty heap would raise; `EvictKeepsYoungest` shows the loop always ends on the
      budget instead, and the class proves that its pops are in bounds. */
  function EvictCompleted<E>(c: Cache<E>, maxEntries: nat): Cache<E>
    decreases |c.queue|
  {
    if c.completed <= maxEntries || c.queue == [] then c
    else EvictCompleted(PopOldest(c), maxEntries)
  }

  datatype Entrance<E> = Owner | Follower(entry: E) | Reused | Full

  /** The lookup of a purged cache: what a caller with this key and digest becomes. */
  function Lookup<E>(c: Cache<E>, key: Key, digest: Digest, maxActive: nat): Entrance<E> {
    if key in c.entries then
      if c.entries[key].digest != digest then Reused else Follower(c.entries[key].entry)
    else if c.active >= maxActive then Full
    else Owner
  }

  function Open<E>(c: Cache<E>, key: Key, digest: Digest, entry: E): Cache<E> {
    c.(entries := c.entries[key := Slot(entry, digest, None)], active := c.active + 1)
  }

  /** The section that publishes a result, up to the eviction. */
  function Complete<E>(c: Cache<E>, key: Key, expires: real): Cache<E>
    requires key in c.entries
  {
    Cache(c.entries[key := c.entries[key].(expires := Some(expires))],
          Push(c.queue, Record(expires, key)), c.active - 1, c.completed + 1)
  }

  /** The section that publishes an error: only the owner's own entry is removed. */
  function Discard<E(==)>(c: Cache<E>, key: Key, entry: E): Cache<E> {
    if key in c.entries && c.entries[key].entry == entry
    then c.(entries := c.entries - {key}, active := c.active - 1)
    else c
  }

  // ---------------------------------------------------------------- each section keeps the invariant

  /** A pop never meets a stale record: it removes the entry with the least (expiry, key), and
      nothing else. */
  lemma PopKeepsConsistent<E>(c: Cache<E>)
    requires Consistent(c) && c.queue != []
    ensures c.queue[0].key in c.entries && c.entries[c.queue[0].key].expires == Some(c.queue[0].expires)
    ensures PopOldest(c) == Cache(c.entries - {c.queue[0].key}, c.queue[1..], c.active, c.completed - 1)
    ensures forall k :: k in c.entries && c.entries[k].expires.Some? && k != c.queue[0].key ==>
              Before(c.queue[0], Record(c.entries[k].expires.value, k))
    ensures Consistent(PopOldest(c))
  {
    var oldest := c.queue[0];
    var popped := PopOldest(c);
    assert oldest in c.queue;
    SortedTail(c.queue);
    forall k | k in c.entries && c.entries[k].expires.Some? && k != oldest.key
      ensures Before(oldest, Record(c.entries[k].expires.value, k))
    {
      assert Record(c.entries[k].expires.value, k) in c.queue;
    }
    assert ActiveKeys(popped) == ActiveKeys(c);
    forall r
      ensures r in popped.queue <==> r.key in popped.entries && popped.entries[r.key].expires == Some(r.expires)
    {
      assert r in c.queue <==> r == oldest || r in popped.queue;
    }
  }

  /** Purging removes exactly the completed entries whose time has come. */
  lemma {:induction false} RemoveExpiredExact<E>(c: Cache<E>, now: real)
    requires Consistent(c)
    ensures var purged := RemoveExpired(c, now);
      && Consistent(purged)
      && purged.active == c.active && purged.completed <= c.completed
      && purged.entries == map k | k in c.entries && (c.entries[k].expires.Some? ==> c.entries[k].expires.value > now) :: c.entries[k]
    decreases |c.queue|
  {
    if c.queue == [] || c.queue[0].expires > now {
      forall k | k in c.entries && c.entries[k].expires.Some?
        ensures c.entries[k].expires.value > now
      {
        var r := Record(c.entries[k].expires.value, k);
        assert r in c.queue;
        SortedTail(c.queue);
        if r != c.queue[0] { assert Before(c.queue[0], r); }
      }
    } else {
      PopKeepsConsistent(c);
      RemoveExpiredExact(PopOldest(c), now);
    }
  }

  /** Opening an entry: it is active, unrecorded in the queue, and nothing else changes. */
  lemma OpenKeepsConsistent<E>(c: Cache<E>, key: Key, digest: Digest, entry: E)
    requires Consistent(c) && key !in c.entries
    ensures Consistent(Open(c, key, digest, entry))
  {
    var c' := Open(c, key, digest, entry);
    assert ActiveKeys(c') == ActiveKeys(c) + {key};
    forall r
      ensures r in c'.queue <==> r.key in c'.entries && c'.entries[r.key].expires == Some(r.expires)
    {
      assert r in c.queue <==> r.key in c.entries && c.entries[r.key].expires == Some(r.expires);
    }
  }

  lemma CompleteKeepsConsistent<E>(c: Cache<E>, key: Key, expires: real)
    requires Consistent(c) && key in ActiveKeys(c)
    ensures Consistent(Complete(c, key, expires))
  {
    var done := Complete(c, key, expires);
    var r := Record(expires, key);
    assert r !in c.queue;
    PushKeepsSorted(c.queue, r);
    assert ActiveKeys(done) == ActiveKeys(c) - {key};
    forall x
      ensures x in done.queue <==> x.key in done.entries && done.entries[x.key].expires == Some(x.expires)
    {
      assert x in c.queue <==> x.key in c.entries && c.entries[x.key].expires == Some(x.expires);
    }
  }

  lemma DiscardKeepsConsistent<E>(c: Cache<E>, key: Key, entry: E)
    requires Consistent(c) && key in ActiveKeys(c) && c.entries[key].entry == entry
    ensures Consistent(Discard(c, key, entry))
  {
    var dropped := Discard(c, key, entry);
    assert ActiveKeys(dropped) == ActiveKeys(c) - {key};
    forall x
      ensures x in dropped.queue <==> x.key in dropped.entries && dropped.entries[x.key].expires == Some(x.expires)
    {
      assert x in c.queue <==> x.key in c.entries && c.entries[x.key].expires == Some(x.expires);
    }
  }

  /** Eviction leaves active entries alone, ends within the budget, and every completed entry it
      removes is older, by (expiry, key), than every completed entry it keeps. */
  lemma {:induction false} EvictKeepsYoungest<E>(c: Cache<E>, maxEntries: nat)
    requires Consistent(c)
    ensures var kept := EvictCompleted(c, maxEntries);
      && Consistent(kept) && kept.completed == Min(c.completed, maxEntries) && kept.active == c.active
      && (forall k :: k in kept.entries ==> k in c.entries && kept.entries[k] == c.entries[k])
      && (forall k :: k in c.entries && c.entries[k].expires == None ==> k in kept.entries)
      && (forall k, l :: k in c.entries && k !in kept.entries && l in kept.entries && c.entries[l].expires.Some? ==>
            && c.entries[k].expires.Some?
            && Before(Record(c.entries[k].expires.value, k), Record(c.entries[l].expires.value, l)))
    decreases |c.queue|
  {
    if c.completed > maxEntries {
      PopKeepsConsistent(c);
      EvictKeepsYoungest(PopOldest(c), maxEntries);
    }
  }

  /** Completing an entry and evicting, from within the budget. The entry's row stays unless the table
      was full and all other completed rows come after it. */
  lemma CompletingEvictsTheLeast<E>(c: Cache<E>, key: Key, expires: real, maxEntries: nat)
    requires Consistent(c) && key in ActiveKeys(c) && c.completed <= maxEntries
    ensures var kept := EvictCompleted(Complete(c, key, expires), maxEntries).entries;
      && (key in kept ==> kept[key] == c.entries[key].(expires := Some(expires)))
      && (key in kept <==>
            || c.completed < maxEntries
            || exists k :: k in c.entries && c.entries[k].expires.Some?
                           && Before(Record(c.entries[k].expires.value, k), Record(expires, key)))
  {
    var completed := Complete(c, key, expires);
    CompleteKeepsConsistent(c, key, expires);
    assert completed.completed == |completed.queue|;
    hide Consistent, PopOldest, Before, ActiveKeys;
    if c.completed < maxEntries {
      assert EvictCompleted(completed, maxEntries) == completed;
    } else {
      PopKeepsConsistent(completed);
      var least := completed.queue[0];
      assert EvictCompleted(completed, maxEntries) == PopOldest(completed);
      if least.key == key {
        forall k | k in c.entries && c.entries[k].expires.Some?
          ensures !Before(Record(c.entries[k].expires.value, k), Record(expires, key))
        {
          assert completed.entries[k] == c.entries[k];
          BeforeOrder(least, Record(c.entries[k].expires.value, k));
        }
      } else {
        assert c.entries[least.key] == completed.entries[least.key];
        assert Before(least, Record(completed.entries[key].expires.value, key));
      }
    }
  }

  /** A failed operation leaves no trace: a cache that opened an entry and discarded it again is
      the purged cache the caller met. */
  lemma DiscardUndoesOpen<E>(c: Cache<E>, key: Key, digest: Digest, entry: E)
    requires key !in c.entries
    ensures Discard(Open(c, key, digest, entry), key, entry) == c
  {
    assert c.entries[key := Slot(entry, digest, None)] - {key} == c.entries;
  }
}
