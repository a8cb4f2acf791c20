/** The two tables of `CloudCredentialResolver`: remembered credentials and remembered refusals, each
    an insertion-ordered table with its own budget, against the map of last answers they stand for. */
module CredentialTables {
  import opened Prelude

  type Digest = seq<bv8>

  datatype Credential = Credential(serverId: string, tenantKey: Option<string>, rateLimitPerMinute: Option<nat>)

  datatype Row = Row(digest: Digest, credential: Option<Credential>, expires: real)

  /** An `OrderedDict`: rows in the order of insertion, at most one per digest. */
  type Table = seq<Row>

  datatype Tables = Tables(positive: Table, negative: Table)

  datatype Limits = Limits(maxPositive: nat, maxNegative: nat, ttl: real, negativeTtl: real)

  // ---------------------------------------------------------------- one table

  function Find(table: Table, digest: Digest): Option<Row> {
    if table == [] then None
    else if table[0].digest == digest then Some(table[0])
    else Find(table[1..], digest)
  }

  function Remove(table: Table, digest: Digest): Table {
    if table == [] then []
    else if table[0].digest == digest then Remove(table[1..], digest)
    else [table[0]] + Remove(table[1..], digest)
  }

  /** `popitem(last=False)` until there is room for one more. */
  function Trim(table: Table, budget: nat): Table
    requires budget >= 1
  {
    if |table| < budget then table else Trim(table[1..], budget)
  }

  /** What is left is the newest rows, one fewer than the budget if there are that many. */
  lemma {:induction false} TrimIsSuffix(table: Table, budget: nat)
    requires budget >= 1
    ensures var kept := |Trim(table, budget)|;
      kept == Min(|table|, budget - 1) && Trim(table, budget) == table[|table| - kept..]
  {
    if |table| >= budget {
      TrimIsSuffix(table[1..], budget);
      var kept := |Trim(table, budget)|;
      assert table[1..][|table| - 1 - kept..] == table[|table| - kept..];
    }
  }

  // ---------------------------------------------------------------- `_cached` and `_store`

  /** A live row of one table, and the table without the row if it was there but expired. */
  function Consult(table: Table, digest: Digest, now: real): (Table, Option<Row>) {
    var row := Find(table, digest);
    if row == None then (table, None)
    else if row.value.expires > now then (table, row)
    else (Remove(table, digest), None)
  }

  function Cached(t: Tables, digest: Digest, now: real): (Tables, Option<Row>) {
    var (positive, row) := Consult(t.positive, digest, now);
    if row.Some? then (t, row)
    else
      var (negative, refusal) := Consult(t.negative, digest, now);
      (Tables(positive, negative), refusal)
  }

  function Ttl(limits: Limits, credential: Option<Credential>): real {
    if credential.Some? then limits.ttl else limits.negativeTtl
  }

  function Reinsert(table: Table, row: Row, budget: nat): Table
    requires budget >= 1
  {
    Trim(Remove(table, row.digest), budget) + [row]
  }

  function Store(limits: Limits, t: Tables, digest: Digest, credential: Option<Credential>, now: real): Tables
    requires limits.maxPositive >= 1 && limits.maxNegative >= 1
  {
    var row := Row(digest, credential, now + Ttl(limits, credential));
    if credential.Some? then Tables(Reinsert(t.positive, row, limits.maxPositive), Remove(t.negative, digest))
    else Tables(Remove(t.positive, digest), Reinsert(t.negative, row, limits.maxNegative))
  }

  // ---------------------------------------------------------------- invariant

  /** An answer of the licensing API and when it was stored. */
  datatype Answer = Answer(credential: Option<Credential>, at: real)

  type History = map<Digest, Answer>

  ghost predicate Keyed(table: Table) {
    forall i, j :: 0 <= i < j < |table| ==> table[i].digest != table[j].digest
  }

  /** Insertion order is expiry order. */
  ghost predicate ByExpiry(table: Table) {
    forall i, j :: 0 <= i < j < |table| ==> table[i].expires <= table[j].expires
  }

  /** Every row is the last answer for its digest, of this table's kind, with its own time to live. */
  ghost predicate Remembers(table: Table, last: History, positive: bool, ttl: real, clock: real) {
    forall i :: 0 <= i < |table| ==>
      && table[i].digest in last && table[i].credential == last[table[i].digest].credential
      && table[i].credential.Some? == positive
      && table[i].expires == last[table[i].digest].at + ttl && last[table[i].digest].at <= clock
  }

  ghost predicate Sound(table: Table, last: History, positive: bool, ttl: real, clock: real) {
    Keyed(table) && ByExpiry(table) && Remembers(table, last, positive, ttl, clock)
  }

  ghost predicate Invariant(limits: Limits, t: Tables, last: History, clock: real) {
    && limits.maxPositive >= 1 && limits.maxNegative >= 1
    && Sound(t.positive, last, true, limits.ttl, clock) && |t.positive| <= limits.maxPositive
    && Sound(t.negative, last, false, limits.negativeTtl, clock) && |t.negative| <= limits.maxNegative
  }

  lemma {:induction false} FindExact(table: Table, digest: Digest)
    ensures Find(table, digest).Some? ==> Find(table, digest).value in table && Find(table, digest).value.digest == digest
    ensures Find(table, digest) == None <==> forall r :: r in table ==> r.digest != digest
  {
    if table != [] {
      assert table == [table[0]] + table[1..];
      FindExact(table[1..], digest);
      assert table[0] in table;
    }
  }

  /** Removal keeps the other rows in their order, each at most as far from the end as before. */
  lemma {:induction false} RemoveKeepsOthers(table: Table, digest: Digest, k: nat) returns (k': nat)
    requires k < |table| && table[k].digest != digest
    ensures k' < |Remove(table, digest)| && Remove(table, digest)[k'] == table[k]
    ensures |Remove(table, digest)| - k' <= |table| - k
  {
    if k == 0 {
      RemoveLength(table[1..], digest);
      k' := 0;
    } else {
      k' := RemoveKeepsOthers(table[1..], digest, k - 1);
      if table[0].digest != digest { k' := k' + 1; }
    }
  }

  lemma {:induction false} RemoveLength(table: Table, digest: Digest)
    ensures |Remove(table, digest)| <= |table|
    ensures forall r :: r in Remove(table, digest) <==> r in table && r.digest != digest
  {
    if table != [] {
      assert table == [table[0]] + table[1..];
      RemoveLength(table[1..], digest);
    }
  }

  /** The row may stand in front of the table. */
  ghost predicate Precedes(first: Row, table: Table) {
    forall r :: r in table ==> r.digest != first.digest && first.expires <= r.expires
  }

  lemma OrderOfTail(table: Table)
    requires Keyed(table) && ByExpiry(table) && table != []
    ensures Keyed(table[1..]) && ByExpiry(table[1..]) && Precedes(table[0], table[1..])
  {
    forall r | r in table[1..]
      ensures r.digest != table[0].digest && table[0].expires <= r.expires
    {
      var j :| 0 <= j < |table| - 1 && table[1..][j] == r;
      assert table[j + 1] == r;
    }
  }

  lemma OrderWithFront(first: Row, table: Table)
    requires Keyed(table) && ByExpiry(table) && Precedes(first, table)
    ensures Keyed([first] + table) && ByExpiry([first] + table)
  {
    forall i | 0 <= i < |table| ensures table[i].digest != first.digest && first.expires <= table[i].expires {
      assert table[i] in table;
    }
  }

  lemma {:induction false} RemoveKeepsOrder(table: Table, digest: Digest)
    requires Keyed(table) && ByExpiry(table)
    ensures Keyed(Remove(table, digest)) && ByExpiry(Remove(table, digest))
  {
    hide Keyed, ByExpiry;
    if table != [] {
      var rest := table[1..];
      OrderOfTail(table);
      RemoveKeepsOrder(rest, digest);
      RemoveLength(rest, digest);
      OrderWithFront(table[0], Remove(rest, digest));
    }
  }

  lemma RemoveKeepsSound(table: Table, digest: Digest, last: History, positive: bool, ttl: real, clock: real)
    requires Sound(table, last, positive, ttl, clock)
    ensures Sound(Remove(table, digest), last, positive, ttl, clock)
  {
    RemoveKeepsOrder(table, digest);
    RemoveLength(table, digest);
    var kept := Remove(table, digest);
    forall i | 0 <= i < |kept|
      ensures kept[i] in table
    {
      assert kept[i] in kept;
    }
  }

  /** Rows of other digests are unaffected by a later answer, at a later time, for this one. */
  lemma SoundLater(table: Table, digest: Digest, last: History, positive: bool, ttl: real, clock: real, answer: Answer)
    requires Sound(table, last, positive, ttl, clock) && answer.at >= clock
    requires forall r :: r in table ==> r.digest != digest
    ensures Sound(table, last[digest := answer], positive, ttl, answer.at)
  {
    forall i | 0 <= i < |table|
      ensures table[i].digest != digest
    {
      assert table[i] in table;
    }
  }

  lemma AppendKeepsSound(table: Table, row: Row, last: History, positive: bool, ttl: real, clock: real)
    requires Sound(table, last, positive, ttl, clock)
    requires forall r :: r in table ==> r.digest != row.digest
    requires row.digest in last && last[row.digest] == Answer(row.credential, clock)
    requires row.credential.Some? == positive && row.expires == clock + ttl
    ensures Sound(table + [row], last, positive, ttl, clock)
  {
    forall i | 0 <= i < |table|
      ensures table[i].digest != row.digest && table[i].expires <= row.expires
    {
      assert table[i] in table;
    }
  }

  lemma ReinsertKeepsSound(table: Table, row: Row, budget: nat, last: History, positive: bool, ttl: real, clock: real, answer: Answer)
    requires Sound(table, last, positive, ttl, clock) && budget >= 1 && answer.at >= clock
    requires row.credential == answer.credential && row.credential.Some? == positive && row.expires == answer.at + ttl
    ensures Sound(Reinsert(table, row, budget), last[row.digest := answer], positive, ttl, answer.at)
    ensures |Reinsert(table, row, budget)| <= budget
  {
    var kept := Remove(table, row.digest);
    RemoveKeepsSound(table, row.digest, last, positive, ttl, clock);
    RemoveLength(table, row.digest);
    SoundLater(kept, row.digest, last, positive, ttl, clock, answer);
    TrimIsSuffix(kept, budget);
    AppendKeepsSound(Trim(kept, budget), row, last[row.digest := answer], positive, ttl, answer.at);
  }

  lemma ConsultExact(table: Table, digest: Digest, now: real, last: History, positive: bool, ttl: real, clock: real)
    requires Sound(table, last, positive, ttl, clock)
    ensures var (kept, row) := Consult(table, digest, now);
      && Sound(kept, last, positive, ttl, clock) && |kept| <= |table|
      && (forall r :: r in kept <==> r in table && (r.digest == digest ==> r.expires > now))
      && (row.Some? ==> row.value in table && row.value.digest == digest && row.value.expires > now)
      && (row == None ==> forall r :: r in kept ==> r.digest != digest)
  {
    FindExact(table, digest);
    RemoveLength(table, digest);
    RemoveKeepsSound(table, digest, last, positive, ttl, clock);
    var row := Find(table, digest);
    assert row.Some? ==> forall r :: r in table && r.digest == digest ==> r == row.value;
  }

  // ---------------------------------------------------------------- sequences of calls

  datatype Op =
    | Lookup(digest: Digest, now: real)
    | Remember(digest: Digest, credential: Option<Credential>, now: real)

  /** The tables, the last answer ever stored for each digest, and the latest clock reading. */
  datatype Memory = Memory(tables: Tables, last: History, clock: real)

  function Apply(limits: Limits, m: Memory, op: Op): Memory
    requires limits.maxPositive >= 1 && limits.maxNegative >= 1
  {
    match op
    case Lookup(digest, now) => Memory(Cached(m.tables, digest, now).0, m.last, now)
    case Remember(digest, credential, now) =>
      Memory(Store(limits, m.tables, digest, credential, now), m.last[digest := Answer(credential, now)], now)
  }

  function ApplyAll(limits: Limits, m: Memory, ops: seq<Op>): Memory
    requires limits.maxPositive >= 1 && limits.maxNegative >= 1
    decreases |ops|
  {
    if ops == [] then m else ApplyAll(limits, Apply(limits, m, ops[0]), ops[1..])
  }

  /** The clock never runs backwards. */
  ghost predicate Monotone(ops: seq<Op>, clock: real)
    decreases |ops|
  {
    ops == [] || (clock <= ops[0].now && Monotone(ops[1..], ops[0].now))
  }

  lemma CachedKeepsInvariant(limits: Limits, m: Memory, digest: Digest, now: real)
    requires Invariant(limits, m.tables, m.last, m.clock) && m.clock <= now
    ensures Invariant(limits, Cached(m.tables, digest, now).0, m.last, now)
  {
    ConsultExact(m.tables.positive, digest, now, m.last, true, limits.ttl, m.clock);
    ConsultExact(m.tables.negative, digest, now, m.last, false, limits.negativeTtl, m.clock);
    var kept := Cached(m.tables, digest, now).0;
  }

  lemma OtherTableKeepsSound(table: Table, digest: Digest, last: History, positive: bool, ttl: real, clock: real, answer: Answer)
    requires Sound(table, last, positive, ttl, clock) && clock <= answer.at
    ensures Sound(Remove(table, digest), last[digest := answer], positive, ttl, answer.at)
    ensures |Remove(table, digest)| <= |table|
  {
    RemoveKeepsSound(table, digest, last, positive, ttl, clock);
    RemoveLength(table, digest);
    SoundLater(Remove(table, digest), digest, last, positive, ttl, clock, answer);
  }

  lemma StoreKeepsInvariant(limits: Limits, m: Memory, digest: Digest, credential: Option<Credential>, now: real)
    requires Invariant(limits, m.tables, m.last, m.clock) && m.clock <= now
    ensures Invariant(limits, Store(limits, m.tables, digest, credential, now), m.last[digest := Answer(credential, now)], now)
  {
    hide Sound, Reinsert, Remove;
    var answer := Answer(credential, now);
    var row := Row(digest, credential, now + Ttl(limits, credential));
    if credential.Some? {
      ReinsertKeepsSound(m.tables.positive, row, limits.maxPositive, m.last, true, limits.ttl, m.clock, answer);
      OtherTableKeepsSound(m.tables.negative, digest, m.last, false, limits.negativeTtl, m.clock, answer);
    } else {
      ReinsertKeepsSound(m.tables.negative, row, limits.maxNegative, m.last, false, limits.negativeTtl, m.clock, answer);
      OtherTableKeepsSound(m.tables.positive, digest, m.last, true, limits.ttl, m.clock, answer);
    }
  }

  lemma CallKeepsInvariant(limits: Limits, m: Memory, op: Op)
    requires Invariant(limits, m.tables, m.last, m.clock) && m.clock <= op.now
    ensures var m' := Apply(limits, m, op); Invariant(limits, m'.tables, m'.last, m'.clock) && m'.clock == op.now
  {
    match op
    case Lookup(digest, now) => CachedKeepsInvariant(limits, m, digest, now);
    case Remember(digest, credential, now) => StoreKeepsInvariant(limits, m, digest, credential, now);
  }

  /** Over any sequence of calls under a monotone clock: no digest is in both tables, each table
      respects its budget and is sorted by expiry, and every row is the last answer stored. */
  lemma {:induction false} CallsKeepInvariant(limits: Limits, m: Memory, ops: seq<Op>)
    requires Invariant(limits, m.tables, m.last, m.clock) && Monotone(ops, m.clock)
    ensures var m' := ApplyAll(limits, m, ops); Invariant(limits, m'.tables, m'.last, m'.clock)
    decreases |ops|
  {
    if ops != [] {
      CallKeepsInvariant(limits, m, ops[0]);
      CallsKeepInvariant(limits, Apply(limits, m, ops[0]), ops[1..]);
    }
  }

  // ---------------------------------------------------------------- what the tables promise

  /** After any sequence of calls, from empty tables. */
  lemma NoDigestInBothTables(limits: Limits, start: real, ops: seq<Op>, a: Row, b: Row)
    requires limits.maxPositive >= 1 && limits.maxNegative >= 1 && Monotone(ops, start)
    requires var t := ApplyAll(limits, Memory(Tables([], []), map[], start), ops).tables; a in t.positive && b in t.negative
    ensures a.digest != b.digest
  {
    CallsKeepInvariant(limits, Memory(Tables([], []), map[], start), ops);
    var t := ApplyAll(limits, Memory(Tables([], []), map[], start), ops).tables;
    var i :| 0 <= i < |t.positive| && t.positive[i] == a;
    var j :| 0 <= j < |t.negative| && t.negative[j] == b;
  }

  /** A hit is the most recent answer stored for the digest, and younger than its time to live; and
      the tables answer whenever they hold an unexpired row for the digest. */
  lemma HitIsTheLastAnswer(limits: Limits, m: Memory, digest: Digest, now: real)
    requires Invariant(limits, m.tables, m.last, m.clock)
    ensures var hit := Cached(m.tables, digest, now).1;
      && (hit.Some? ==>
            && digest in m.last && hit.value.credential == m.last[digest].credential
            && now < m.last[digest].at + Ttl(limits, hit.value.credential))
      && (hit.Some? <==> exists r :: (r in m.tables.positive || r in m.tables.negative) && r.digest == digest && r.expires > now)
  {
    ConsultExact(m.tables.positive, digest, now, m.last, true, limits.ttl, m.clock);
    ConsultExact(m.tables.negative, digest, now, m.last, false, limits.negativeTtl, m.clock);
    var hit := Cached(m.tables, digest, now).1;
    if hit.Some? {
      assert hit.value in m.tables.positive || hit.value in m.tables.negative;
    } else {
      var (positive, row) := Consult(m.tables.positive, digest, now);
      var (negative, refusal) := Consult(m.tables.negative, digest, now);
      forall r | (r in m.tables.positive || r in m.tables.negative) && r.digest == digest
        ensures r.expires <= now
      {
        assert r.expires > now ==> r in positive || r in negative;
      }
    }
  }

  lemma {:induction false} FindAppended(table: Table, row: Row)
    requires forall r :: r in table ==> r.digest != row.digest
    ensures Find(table + [row], row.digest) == Some(row)
  {
    if table != [] {
      assert (table + [row])[1..] == table[1..] + [row];
      assert table[0] in table;
      FindAppended(table[1..], row);
    }
  }

  lemma ReinsertedIsFound(table: Table, row: Row, budget: nat)
    requires budget >= 1
    ensures Find(Reinsert(table, row, budget), row.digest) == Some(row)
  {
    var kept := Remove(table, row.digest);
    RemoveLength(table, row.digest);
    var trimmed := Trim(kept, budget);
    TrimIsSuffix(kept, budget);
    forall r | r in trimmed ensures r.digest != row.digest { assert r in kept; }
    FindAppended(trimmed, row);
  }

  lemma RemovedIsNotFound(table: Table, digest: Digest)
    ensures Find(Remove(table, digest), digest) == None
  {
    RemoveLength(table, digest);
    FindExact(Remove(table, digest), digest);
  }

  lemma FirstTableAnswers(t: Tables, digest: Digest, later: real, row: Row)
    requires Find(t.positive, digest) == Some(row) && later < row.expires
    ensures Cached(t, digest, later).1 == Some(row)
  {
  }

  lemma SecondTableAnswers(t: Tables, digest: Digest, later: real, row: Row)
    requires Find(t.positive, digest) == None && Find(t.negative, digest) == Some(row) && later < row.expires
    ensures Cached(t, digest, later).1 == Some(row)
  {
  }

  /** Storing an answer and looking it up before it expires gives that answer back, refusals too. */
  lemma StoredAnswerIsFound(limits: Limits, t: Tables, digest: Digest, credential: Option<Credential>, now: real, later: real)
    requires limits.maxPositive >= 1 && limits.maxNegative >= 1 && later < now + Ttl(limits, credential)
    ensures Cached(Store(limits, t, digest, credential, now), digest, later).1 ==
            Some(Row(digest, credential, now + Ttl(limits, credential)))
  {
    hide Find, Remove, Reinsert, Cached, Ttl;
    var row := Row(digest, credential, now + Ttl(limits, credential));
    var stored := Store(limits, t, digest, credential, now);
    if credential.Some? {
      ReinsertedIsFound(t.positive, row, limits.maxPositive);
      FirstTableAnswers(stored, digest, later, row);
    } else {
      RemovedIsNotFound(t.positive, digest);
      ReinsertedIsFound(t.negative, row, limits.maxNegative);
      SecondTableAnswers(stored, digest, later, row);
    }
  }

  /** What a full table drops is the rows that expire first. */
  lemma EvictsTheLeastExpiry(table: Table, budget: nat, i: nat, j: nat)
    requires ByExpiry(table) && budget >= 1
    requires i < |table| - |Trim(table, budget)| && j < |Trim(table, budget)|
    ensures table[i].expires <= Trim(table, budget)[j].expires
  {
    TrimIsSuffix(table, budget);
    assert Trim(table, budget)[j] == table[|table| - |Trim(table, budget)| + j];
  }

  /** The row is in the table with at most `room` rows, itself included, from it to the end. */
  ghost predicate Near(table: Table, row: Row, room: nat) {
    exists k: nat :: NearAt(table, row, room, k)
  }

  ghost predicate NearAt(table: Table, row: Row, room: nat, k: nat) {
    k < |table| && table[k] == row && |table| - k <= room
  }

  lemma RemoveKeepsNear(table: Table, digest: Digest, row: Row, room: nat)
    requires Near(table, row, room) && row.digest != digest
    ensures Near(Remove(table, digest), row, room)
  {
    var k: nat :| NearAt(table, row, room, k);
    var k' := RemoveKeepsOthers(table, digest, k);
    assert NearAt(Remove(table, digest), row, room, k');
  }

  lemma TrimKeepsNear(table: Table, budget: nat, row: Row, room: nat)
    requires Near(table, row, room) && 1 <= budget && room < budget
    ensures Near(Trim(table, budget), row, room)
  {
    hide Trim;
    var k: nat :| NearAt(table, row, room, k);
    var trimmed := Trim(table, budget);
    TrimIsSuffix(table, budget);
    var cut := |table| - |trimmed|;
    assert cut <= k;
    assert NearAt(trimmed, row, room, k - cut);
  }

  lemma AppendKeepsNear(table: Table, other: Row, row: Row, room: nat)
    requires Near(table, row, room)
    ensures Near(table + [other], row, room + 1)
  {
    var k: nat :| NearAt(table, row, room, k);
    assert NearAt(table + [other], row, room + 1, k);
  }

  lemma ReinsertKeepsNear(table: Table, other: Row, budget: nat, row: Row, room: nat)
    requires Near(table, row, room) && row.digest != other.digest && room < budget
    ensures Near(Reinsert(table, other, budget), row, room + 1)
  {
    hide Near, Remove, Trim;
    var kept := Remove(table, other.digest);
    RemoveKeepsNear(table, other.digest, row, room);
    TrimKeepsNear(kept, budget, row, room);
    AppendKeepsNear(Trim(kept, budget), other, row, room);
  }

  /** The table that holds answers of this kind: credentials, or refusals. */
  function TableFor(t: Tables, positive: bool): Table {
    if positive then t.positive else t.negative
  }

  function BudgetFor(limits: Limits, positive: bool): nat {
    if positive then limits.maxPositive else limits.maxNegative
  }

  function Stores(op: Op, positive: bool): nat {
    if op.Remember? && op.credential.Some? == positive then 1 else 0
  }

  /** How many answers of this kind are stored. */
  function AllStores(ops: seq<Op>, positive: bool): nat
    decreases |ops|
  {
    if ops == [] then 0 else Stores(ops[0], positive) + AllStores(ops[1..], positive)
  }

  /** A lookup takes out expired rows, and no others. */
  lemma ConsultKeepsNear(table: Table, digest: Digest, now: real, row: Row, room: nat)
    requires Keyed(table) && now < row.expires && Near(table, row, room)
    ensures Near(Consult(table, digest, now).0, row, room)
  {
    hide Find, Remove;
    FindExact(table, digest);
    var found := Find(table, digest);
    if found.Some? && found.value.expires <= now {
      RemoveKeepsNear(table, digest, row, room);
    }
  }

  lemma LookupKeepsNear(limits: Limits, m: Memory, digest: Digest, now: real, row: Row, room: nat, positive: bool)
    requires Invariant(limits, m.tables, m.last, m.clock) && now < row.expires && Near(TableFor(m.tables, positive), row, room)
    ensures Near(TableFor(Cached(m.tables, digest, now).0, positive), row, room)
  {
    hide Consult, Near;
    ConsultKeepsNear(TableFor(m.tables, positive), digest, now, row, room);
  }

  lemma CallKeepsNear(limits: Limits, m: Memory, op: Op, row: Row, room: nat, positive: bool)
    requires Invariant(limits, m.tables, m.last, m.clock) && m.clock <= op.now < row.expires
    requires Near(TableFor(m.tables, positive), row, room) && (op.Remember? ==> op.digest != row.digest)
    requires limits.maxPositive >= 1 && limits.maxNegative >= 1 && room + Stores(op, positive) <= BudgetFor(limits, positive)
    ensures Near(TableFor(Apply(limits, m, op).tables, positive), row, room + Stores(op, positive))
  {
    hide Near, Find, Remove, Reinsert, Invariant, Cached;
    match op
    case Lookup(digest, now) =>
      LookupKeepsNear(limits, m, digest, now, row, room, positive);
    case Remember(digest, credential, now) =>
      if credential.Some? == positive {
        var other := Row(digest, credential, now + Ttl(limits, credential));
        ReinsertKeepsNear(TableFor(m.tables, positive), other, BudgetFor(limits, positive), row, room);
      } else {
        RemoveKeepsNear(TableFor(m.tables, positive), digest, row, room);
      }
  }

  /** Calls that all come before the deadline and store nothing for the digest. */
  ghost predicate Elsewhere(ops: seq<Op>, digest: Digest, deadline: real) {
    forall i :: 0 <= i < |ops| ==> ops[i].now < deadline && (ops[i].Remember? ==> ops[i].digest != digest)
  }

  lemma ElsewhereTail(ops: seq<Op>, digest: Digest, deadline: real)
    requires Elsewhere(ops, digest, deadline) && ops != []
    ensures ops[0].now < deadline && (ops[0].Remember? ==> ops[0].digest != digest)
    ensures Elsewhere(ops[1..], digest, deadline)
  {
  }

  lemma {:induction false} CallsKeepNear(limits: Limits, m: Memory, ops: seq<Op>, row: Row, room: nat, positive: bool)
    requires limits.maxPositive >= 1 && limits.maxNegative >= 1
    requires Invariant(limits, m.tables, m.last, m.clock) && Monotone(ops, m.clock)
    requires Elsewhere(ops, row.digest, row.expires)
    requires Near(TableFor(m.tables, positive), row, room) && room + AllStores(ops, positive) <= BudgetFor(limits, positive)
    ensures Near(TableFor(ApplyAll(limits, m, ops).tables, positive), row, room + AllStores(ops, positive))
    decreases |ops|
  {
    hide Near, Invariant, Apply, Elsewhere, TableFor, BudgetFor;
    if ops != [] {
      var first, rest, m' := ops[0], ops[1..], Apply(limits, m, ops[0]);
      ElsewhereTail(ops, row.digest, row.expires);
      CallKeepsNear(limits, m, first, row, room, positive);
      CallKeepsInvariant(limits, m, first);
      CallsKeepNear(limits, m', rest, row, room + Stores(first, positive), positive);
    }
  }

  lemma StoredIsNear(limits: Limits, m: Memory, row: Row, now: real)
    requires limits.maxPositive >= 1 && limits.maxNegative >= 1 && row.expires == now + Ttl(limits, row.credential)
    ensures Near(TableFor(Apply(limits, m, Remember(row.digest, row.credential, now)).tables, row.credential.Some?), row, 1)
  {
    hide Remove, Trim, Find;
    var table := TableFor(Apply(limits, m, Remember(row.digest, row.credential, now)).tables, row.credential.Some?);
    assert NearAt(table, row, 1, |table| - 1);
  }

  lemma NearIsIn(table: Table, row: Row, room: nat)
    requires Near(table, row, room)
    ensures row in table
  {
  }

  lemma RowIsFound(table: Table, row: Row)
    requires Keyed(table) && row in table
    ensures Find(table, row.digest) == Some(row)
  {
    FindExact(table, row.digest);
  }

  /** No digest has rows of both kinds. */
  lemma RefusalHasNoCredential(limits: Limits, m: Memory, row: Row)
    requires Invariant(limits, m.tables, m.last, m.clock) && row in m.tables.negative
    ensures Find(m.tables.positive, row.digest) == None
  {
    FindExact(m.tables.positive, row.digest);
  }

  lemma NearRowAnswers(limits: Limits, m: Memory, row: Row, room: nat, positive: bool, later: real)
    requires Invariant(limits, m.tables, m.last, m.clock) && Near(TableFor(m.tables, positive), row, room) && later < row.expires
    ensures Cached(m.tables, row.digest, later).1 == Some(row)
  {
    hide Find, Near, Remove;
    NearIsIn(TableFor(m.tables, positive), row, room);
    RowIsFound(TableFor(m.tables, positive), row);
    if !positive { RefusalHasNoCredential(limits, m, row); }
  }

  /** An answer is not pushed out by answers of the other kind, and not by fewer of its own kind than the
      budget. After it is stored, any sequence of lookups and answers for other digests leaves it in place
      until it expires: a credential whatever the number of refusals, a refusal whatever the number of
      credentials. */
  lemma AnswerSurvives(limits: Limits, m: Memory, digest: Digest, credential: Option<Credential>, now: real, ops: seq<Op>, later: real)
    requires Invariant(limits, m.tables, m.last, m.clock) && m.clock <= now && Monotone(ops, now)
    requires Elsewhere(ops, digest, now + Ttl(limits, credential)) && later < now + Ttl(limits, credential)
    requires AllStores(ops, credential.Some?) < BudgetFor(limits, credential.Some?)
    ensures var stored := Apply(limits, m, Remember(digest, credential, now));
      Cached(ApplyAll(limits, stored, ops).tables, digest, later).1 == Some(Row(digest, credential, now + Ttl(limits, credential)))
  {
    hide Near, Elsewhere, Cached, Store, Ttl, TableFor;
    var row, positive := Row(digest, credential, now + Ttl(limits, credential)), credential.Some?;
    var stored := Apply(limits, m, Remember(digest, credential, now));
    CallKeepsInvariant(limits, m, Remember(digest, credential, now));
    StoredIsNear(limits, m, row, now);
    CallsKeepNear(limits, stored, ops, row, 1, positive);
    CallsKeepInvariant(limits, stored, ops);
    NearRowAnswers(limits, ApplyAll(limits, stored, ops), row, 1 + AllStores(ops, positive), positive, later);
  }
}
