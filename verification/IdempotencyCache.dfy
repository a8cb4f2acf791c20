/** `IdempotencyCache` as the source writes it: entries are objects shared between the table and
    the callers that wait on them, and each lock section updates the fields in place. The contracts
    tie every section to its function in `Idempotency`. */
module IdempotencyCaches {
  import opened Prelude
  import opened Keys
  import opened ExpiryQueue
  import opened Idempotency

  class Entry {
    const digest: Digest
    var outcome: Option<Outcome>   // set together with the event
    var expiresAt: Option<real>

    constructor (digest: Digest)
      ensures this.digest == digest && outcome == None && expiresAt == None
    {
      this.digest := digest;
      outcome, expiresAt := None, None;
    }
  }

  class IdempotencyCache {
    const maxEntries: nat
    const maxActiveEntries: nat
    const ttl: real
    var entries: map<Key, Entry>
    var expiryQueue: seq<Record>
    var activeEntries: int
    var completedEntries: int

    ghost function View(): Cache<Entry>
      reads this, entries.Values
    {
      Cache(map k | k in entries :: Slot(entries[k], entries[k].digest, entries[k].expiresAt),
            expiryQueue, activeEntries, completedEntries)
    }

    ghost predicate Valid()
      reads this, entries.Values
    {
      && Consistent(View())
      && forall k, l :: k in entries && l in entries && entries[k] == entries[l] ==> k == l
    }

    constructor (maxEntries: nat, maxActiveEntries: nat, ttl: real)
      ensures Valid() && View() == Cache(map[], [], 0, 0)
      ensures this.maxEntries == maxEntries && this.maxActiveEntries == maxActiveEntries && this.ttl == ttl
    {
      this.maxEntries, this.maxActiveEntries, this.ttl := maxEntries, maxActiveEntries, ttl;
      entries, expiryQueue, activeEntries, completedEntries := map[], [], 0, 0;
      new;
      assert ActiveKeys(View()) == {};
    }

    /** The pop shared by the two loops below; `Valid` is what puts it in bounds. */
    method PopOldestRecord()
      requires Valid() && expiryQueue != []
      modifies this
      ensures Valid() && View() == PopOldest(old(View()))
    {
      hide Consistent, PopOldest;
      ghost var before := View();
      PopKeepsConsistent(before);
      var oldest := expiryQueue[0];
      expiryQueue := expiryQueue[1..];
      if oldest.key !in entries || entries[oldest.key].expiresAt != Some(oldest.expires) {
        return;
      }
      entries := entries - {oldest.key};
      completedEntries := completedEntries - 1;
      assert View().entries == before.entries - {oldest.key};
      assert View() == PopOldest(before);
    }

    method RemoveExpiredEntries(now: real)
      requires Valid()
      modifies this
      ensures Valid() && View() == RemoveExpired(old(View()), now)
    {
      while expiryQueue != [] && expiryQueue[0].expires <= now
        invariant Valid() && RemoveExpired(View(), now) == RemoveExpired(old(View()), now)
        decreases |expiryQueue|
      {
        PopOldestRecord();
      }
    }

    method EvictCompletedEntries()
      requires Valid()
      modifies this
      ensures Valid() && View() == EvictCompleted(old(View()), maxEntries)
    {
      while completedEntries > maxEntries
        invariant Valid() && EvictCompleted(View(), maxEntries) == EvictCompleted(old(View()), maxEntries)
        decreases |expiryQueue|
      {
        PopOldestRecord();
      }
    }

    method OpenEntry(key: Key, digest: Digest) returns (entry: Entry)
      requires Valid() && key !in entries
      modifies this
      ensures Valid() && View() == Open(old(View()), key, digest, entry)
      ensures fresh(entry) && entry.digest == digest && entry.outcome == None
    {
      ghost var before := View();
      entry := new Entry(digest);
      entries := entries[key := entry];
      activeEntries := activeEntries + 1;
      assert View().entries == before.entries[key := Slot(entry, digest, None)];
      OpenKeepsConsistent(before, key, digest, entry);
      assert View() == Open(before, key, digest, entry);
    }

    /** The first lock section of `execute`. An owner gets the entry it must publish. */
    method Enter(key: Key, digest: Digest, now: real) returns (entrance: Entrance<Entry>, entry: Entry?)
      requires Valid()
      modifies this
      ensures Valid()
      ensures entrance == Lookup(RemoveExpired(old(View()), now), key, digest, maxActiveEntries)
      ensures entrance.Owner? ==>
                && entry != null && fresh(entry) && entry.digest == digest && entry.outcome == None
                && View() == Open(RemoveExpired(old(View()), now), key, digest, entry)
      ensures !entrance.Owner? ==> View() == RemoveExpired(old(View()), now)
    {
      RemoveExpiredEntries(now);
      entry := null;
      if key in entries {
        if entries[key].digest != digest {
          return Reused, null;
        }
        return Follower(entries[key]), null;
      }
      if activeEntries >= maxActiveEntries {
        return Full, null;
      }
      entrance := Owner;
      entry := OpenEntry(key, digest);
    }

    method CompleteEntry(key: Key, entry: Entry, now: real)
      requires Valid() && key in entries && entries[key] == entry && entry.expiresAt == None
      modifies this, entry`expiresAt
      ensures Valid() && View() == Complete(old(View()), key, now + ttl) && entry.expiresAt == Some(now + ttl)
    {
      hide Consistent;
      ghost var before := View();
      assert key in ActiveKeys(before);
      CompleteKeepsConsistent(before, key, now + ttl);
      entry.expiresAt := Some(now + ttl);
      activeEntries := activeEntries - 1;
      completedEntries := completedEntries + 1;
      expiryQueue := Push(expiryQueue, Record(now + ttl, key));
      assert View().entries == before.entries[key := before.entries[key].(expires := Some(now + ttl))];
      assert View() == Complete(before, key, now + ttl);
    }

    /** The section that publishes a result. The waiters hold the entry, so eviction cannot touch
        what they will read. */
    method PublishResult(key: Key, entry: Entry, value: string, now: real)
      requires Valid() && key in entries && entries[key] == entry && entry.expiresAt == None
      modifies this, entry
      ensures Valid() && View() == EvictCompleted(Complete(old(View()), key, now + ttl), maxEntries)
      ensures entry.outcome == Some(Returned(value)) && entry.expiresAt == Some(now + ttl)
    {
      entry.outcome := Some(Returned(value));
      assert View().entries == old(View()).entries;
      CompleteEntry(key, entry, now);
      EvictCompletedEntries();
    }

    /** The section that publishes an error; an entry that is no longer its key's is left alone. */
    method PublishError(key: Key, entry: Entry, error: string)
      requires Valid() && entry.expiresAt == None
      modifies this, entry
      ensures Valid() && View() == Discard(old(View()), key, entry)
      ensures entry.outcome == Some(Raised(error)) && entry.expiresAt == None
    {
      hide Consistent;
      ghost var before := View();
      entry.outcome := Some(Raised(error));
      assert View().entries == before.entries;
      if key in entries && entries[key] == entry {
        assert key in ActiveKeys(before);
        DiscardKeepsConsistent(before, key, entry);
        entries := entries - {key};
        activeEntries := activeEntries - 1;
        assert View().entries == before.entries - {key};
      }
      assert View() == Discard(before, key, entry);
    }
  }
}
