/** `CloudCredentialResolver` as the source writes it: two tables and a table of counted lock objects,
    updated in place between suspensions. Each stretch of `resolve` from one suspension to the next is
    a method, and leaves the object where `CredentialResolver.Next` goes with the same event. */
module CloudCredentials {
  import opened Prelude
  import opened CredentialTables
  import R = CredentialResolver

  const MAX_POSITIVE_CACHE_ENTRIES := 4_096
  const MAX_NEGATIVE_CACHE_ENTRIES := 4_096

  /** One lookup's lock object, counted by the callers that still need it. */
  class Inflight {
    var waiters: int

    constructor ()
      ensures waiters == 0
    {
      waiters := 0;
    }
  }

  /** The ghost fields are what the machine of the theorems also knows: who is inside, every lock object
      ever made, the last answers, and the latest clock reading. */
  class CloudCredentialResolver {
    const ttl: real
    const negativeTtl: real
    var positive: Table
    var negative: Table
    var locks: map<Digest, Inflight>
    ghost var objects: set<Inflight>
    ghost var callers: map<R.CallerId, R.Caller<Inflight>>
    ghost var last: History
    ghost var clock: real

    function Budgets(): Limits {
      Limits(MAX_POSITIVE_CACHE_ENTRIES, MAX_NEGATIVE_CACHE_ENTRIES, ttl, negativeTtl)
    }

    ghost function Remembered(): Memory
      reads this
    {
      Memory(Tables(positive, negative), last, clock)
    }

    ghost function View(): R.State<Inflight>
      reads this, objects
    {
      R.State(Remembered(), locks, map o | o in objects :: o.waiters, callers)
    }

    ghost predicate Valid()
      reads this, objects
    {
      && R.Invariant(Budgets(), View())
      && locks.Values <= objects && forall c :: c in callers ==> callers[c].inflight in objects
    }

    /** The caller is inside with this lock object, at this point of `resolve`. */
    ghost predicate At(id: R.CallerId, digest: Digest, inflight: Inflight, phase: R.Phase)
      reads this
    {
      id in callers && callers[id] == R.Caller(digest, inflight, phase)
    }

    constructor (ttl: real, negativeTtl: real, ghost start: real)
      ensures Valid() && View() == R.Fresh(start)
      ensures this.ttl == ttl && this.negativeTtl == negativeTtl
    {
      this.ttl, this.negativeTtl := ttl, negativeTtl;
      positive, negative, locks := [], [], map[];
      objects, callers, last, clock := {}, map[], map[], start;
      new;
      R.FreshInvariant<Inflight>(Budgets(), start);
    }

    /** `_cached`. */
    method CachedRow(digest: Digest, now: real) returns (row: Option<Row>)
      modifies this`positive, this`negative, this`clock
      ensures View() == R.AfterLookup(Budgets(), old(View()), digest, now)
      ensures row == Cached(Tables(old(positive), old(negative)), digest, now).1
    {
      clock := now;
      row := Find(positive, digest);
      if row.Some? {
        if row.value.expires > now {
          return row;
        }
        positive := Remove(positive, digest);
      }
      row := Find(negative, digest);
      if row.Some? {
        if row.value.expires > now {
          return row;
        }
        negative := Remove(negative, digest);
      }
      return None;
    }

    /** Evict from the front until there is room, then insert at the back. */
    method Insert(given: Table, row: Row, budget: nat) returns (table: Table)
      requires budget >= 1
      ensures table == Reinsert(given, row, budget)
    {
      table := Remove(given, row.digest);
      while |table| >= budget
        invariant Trim(table, budget) == Trim(Remove(given, row.digest), budget)
        decreases |table|
      {
        table := table[1..];
      }
      table := table + [row];
    }

    /** `_store`. */
    method StoreAnswer(digest: Digest, credential: Option<Credential>, now: real)
      modifies this`positive, this`negative, this`last, this`clock
      ensures View() == R.AfterAnswer(Budgets(), old(View()), digest, credential, now)
    {
      hide Reinsert, Remove, Trim;
      last, clock := last[digest := Answer(credential, now)], now;
      if credential.Some? {
        negative := Remove(negative, digest);
        positive := Insert(positive, Row(digest, credential, now + ttl), MAX_POSITIVE_CACHE_ENTRIES);
      } else {
        positive := Remove(positive, digest);
        negative := Insert(negative, Row(digest, credential, now + negativeTtl), MAX_NEGATIVE_CACHE_ENTRIES);
      }
    }

    /** The table's object, or a new one. */
    method LockFor(digest: Digest) returns (inflight: Inflight)
      requires locks.Values <= objects
      modifies this`locks, this`objects
      ensures locks == old(locks)[digest := inflight] && objects == old(objects) + {inflight}
      ensures if digest in old(locks) then inflight == old(locks)[digest] && inflight in old(objects)
              else fresh(inflight) && inflight.waiters == 0
      ensures locks.Values <= objects
    {
      if digest in locks {
        inflight := locks[digest];
        assert inflight in locks.Values;
      } else {
        inflight := new Inflight();
        locks := locks[digest := inflight];
        objects := objects + {inflight};
      }
    }

    /** The claim made before the first await. */
    method ClaimLock(ghost id: R.CallerId, digest: Digest) returns (inflight: Inflight)
      requires Valid() && id !in callers
      modifies this`locks, this`objects, this`callers, locks.Values
      ensures Valid() && View() == R.Claim(old(View()), id, digest, inflight)
      ensures if digest in old(locks) then inflight == old(locks)[digest] else fresh(inflight)
    {
      hide R.Invariant;
      ghost var before := View();
      inflight := LockFor(digest);
      inflight.waiters := inflight.waiters + 1;
      callers := callers[id := R.Caller(digest, inflight, R.WaitingForLock)];
      assert View().waiters == before.waiters[inflight := R.Waiters(before, inflight) + 1];
      assert View() == R.Claim(before, id, digest, inflight);
      R.ClaimKeepsInvariant(Budgets(), before, id, digest, inflight);
    }

    /** The `finally` block: the last caller out removes the object, if the table still has it. */
    method LeaveLock(ghost id: R.CallerId, digest: Digest, inflight: Inflight, ghost phase: R.Phase)
      requires Valid() && At(id, digest, inflight, phase)
      modifies this`locks, this`callers, inflight
      ensures Valid() && View() == R.Leave(old(View()), id)
    {
      hide R.Invariant;
      ghost var before := View();
      inflight.waiters := inflight.waiters - 1;
      if inflight.waiters == 0 && digest in locks && locks[digest] == inflight {
        locks := locks - {digest};
      }
      callers := callers - {id};
      assert View() == R.Leave(before, id);
      R.LeaveKeepsInvariant(Budgets(), before, id);
    }

    /** `resolve` up to its first suspension: a live row answers at once, anything else makes a claim. */
    method Arrive(ghost id: R.CallerId, digest: Digest, now: real) returns (row: Option<Row>, inflight: Inflight?)
      requires Valid() && id !in callers && clock <= now
      modifies this, locks.Values
      ensures Valid() && row == Cached(Tables(old(positive), old(negative)), digest, now).1
      ensures row.Some? ==> inflight == null && View() == R.AfterLookup(Budgets(), old(View()), digest, now)
      ensures row == None ==> inflight != null && At(id, digest, inflight, R.WaitingForLock)
      ensures row == None && fresh(inflight) ==> View() == R.Next(Budgets(), old(View()), R.Arrive(id, digest, now, inflight))
      ensures row == None && !fresh(inflight) ==>
                forall unused: Inflight :: unused !in old(objects) ==>
                  View() == R.Next(Budgets(), old(View()), R.Arrive(id, digest, now, unused))
    {
      hide R.Invariant, Cached;
      R.LookupKeepsInvariant(Budgets(), View(), digest, now);
      row := CachedRow(digest, now);
      inflight := null;
      if row == None {
        inflight := ClaimLock(id, digest);
      }
    }

    /** The lock is ours: look again. A row found now ends the call, otherwise the lookup starts. */
    method Acquire(ghost id: R.CallerId, digest: Digest, inflight: Inflight, now: real) returns (row: Option<Row>)
      requires Valid() && At(id, digest, inflight, R.WaitingForLock) && R.Enabled(View(), R.Acquire(id, now))
      modifies this, inflight
      ensures Valid() && View() == R.Next(Budgets(), old(View()), R.Acquire(id, now))
      ensures row == Cached(Tables(old(positive), old(negative)), digest, now).1
      ensures row == None ==> At(id, digest, inflight, R.LookingUp)
    {
      hide R.Invariant, Cached, R.Free;
      ghost var looked := R.AfterLookup(Budgets(), View(), digest, now);
      R.LookupKeepsInvariant(Budgets(), View(), digest, now);
      R.LookKeepsInvariant(Budgets(), R.AfterLookup(Budgets(), View(), digest, now), id);
      row := CachedRow(digest, now);
      if row.Some? {
        LeaveLock(id, digest, inflight, R.WaitingForLock);
      } else {
        callers := callers[id := R.Caller(digest, inflight, R.LookingUp)];
        assert View() == looked.(callers := looked.callers[id := looked.callers[id].(phase := R.LookingUp)]);
      }
    }

    /** The lookup came back: remember the answer, and leave. */
    method Answered(ghost id: R.CallerId, digest: Digest, inflight: Inflight, credential: Option<Credential>, now: real)
      requires Valid() && At(id, digest, inflight, R.LookingUp) && clock <= now
      modifies this, inflight
      ensures Valid() && View() == R.Next(Budgets(), old(View()), R.Answered(id, credential, now))
    {
      hide R.Invariant, Store;
      R.AnswerKeepsInvariant(Budgets(), View(), digest, credential, now);
      StoreAnswer(digest, credential, now);
      LeaveLock(id, digest, inflight, R.LookingUp);
    }

    /** An outage, or a cancellation at either suspension: nothing is remembered. */
    method GiveUp(ghost id: R.CallerId, digest: Digest, inflight: Inflight, ghost phase: R.Phase)
      requires Valid() && At(id, digest, inflight, phase)
      modifies this, inflight
      ensures Valid() && View() == R.Next(Budgets(), old(View()), R.Cancel(id))
      ensures phase == R.LookingUp ==> View() == R.Next(Budgets(), old(View()), R.Outage(id))
    {
      hide R.Invariant;
      LeaveLock(id, digest, inflight, phase);
    }
  }
}
