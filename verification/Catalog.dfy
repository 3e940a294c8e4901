/**
 The catalog's six tables as one value, each public operation as a step on that value, and the
 invariants every run keeps. `CatalogStore` holds the same tables in a mutable object.
*/
module Catalog {
  import opened Options
  import opened Sorting
  import opened StringOrder
  import opened Machine

  // ----- tables -----

  datatype TimeKey = TimeKey(createdAt: string, seqNo: nat)
  datatype IndexKey = IndexKey(prefix: string, createdAt: string, seqNo: nat)
  datatype HistVal = HistVal(location: string, id: string, prev: string)
  datatype LocVal = LocVal(id: string, prev: string)
  datatype IdVal = IdVal(prev: string, location: string)
  datatype Head = Head(createdAt: string, seqNo: nat, id: string)
  datatype Event = Event(event: string, id: string, location: string)

  datatype Tables = Tables(
    records: map<TimeKey, HistVal>,
    locHead: map<string, Head>,
    byLocation: map<IndexKey, LocVal>,
    byId: map<IndexKey, IdVal>,
    eventLog: map<TimeKey, Event>,
    nextSeq: nat)

  const EMPTY := Tables(map[], map[], map[], map[], map[], 0)

  /** A null `previous_id` is stored as the empty string. */
  const NULL_PREV := ""

  function Opt(s: string): Option<string> {
    if s == "" then None else Some(s)
  }

  /** One history row; its fields are spread over key and value in each of three tables. */
  datatype Row = Row(createdAt: string, seqNo: nat, location: string, id: string, prev: string)

  function TimeOf(r: Row): TimeKey { TimeKey(r.createdAt, r.seqNo) }

  predicate InRecords(t: Tables, r: Row) {
    TimeOf(r) in t.records && t.records[TimeOf(r)] == HistVal(r.location, r.id, r.prev)
  }

  predicate InByLocation(t: Tables, r: Row) {
    var k := IndexKey(r.location, r.createdAt, r.seqNo);
    k in t.byLocation && t.byLocation[k] == LocVal(r.id, r.prev)
  }

  predicate InById(t: Tables, r: Row) {
    var k := IndexKey(r.id, r.createdAt, r.seqNo);
    k in t.byId && t.byId[k] == IdVal(r.prev, r.location)
  }

  // ----- key order and range scans -----

  predicate TimeLess(a: TimeKey, b: TimeKey) {
    StrLess(a.createdAt, b.createdAt) || (a.createdAt == b.createdAt && a.seqNo < b.seqNo)
  }

  predicate TimeLeq(a: TimeKey, b: TimeKey) { a == b || TimeLess(a, b) }

  predicate IndexLeq(a: IndexKey, b: IndexKey) {
    StrLess(a.prefix, b.prefix)
    || (a.prefix == b.prefix && TimeLeq(TimeKey(a.createdAt, a.seqNo), TimeKey(b.createdAt, b.seqNo)))
  }

  predicate RowBefore(a: Row, b: Row) { TimeLess(TimeOf(a), TimeOf(b)) }

  lemma TimeLessIsStrict()
    ensures forall a, b :: TimeLess(a, b) ==> !TimeLess(b, a) && a != b
    ensures forall a, b :: a != b ==> TimeLess(a, b) || TimeLess(b, a)
    ensures forall a, b, c :: TimeLess(a, b) && TimeLess(b, c) ==> TimeLess(a, c)
  {
    forall a, b | TimeLess(a, b) ensures !TimeLess(b, a) && a != b { Trichotomy(a.createdAt, b.createdAt); }
    forall a: TimeKey, b: TimeKey | a != b ensures TimeLess(a, b) || TimeLess(b, a) { Trichotomy(a.createdAt, b.createdAt); }
    forall a, b, c | TimeLess(a, b) && TimeLess(b, c) ensures TimeLess(a, c) {
      if StrLess(a.createdAt, b.createdAt) && StrLess(b.createdAt, c.createdAt) {
        Transitive(a.createdAt, b.createdAt, c.createdAt);
      }
    }
  }

  lemma TimeLeqIsTotalOrder()
    ensures TotalOrder(TimeLeq)
  {
    TimeLessIsStrict();
  }

  lemma RowBeforeIsStrict()
    ensures StrictOrder(RowBefore)
  {
    TimeLessIsStrict();
  }

  lemma IndexLeqIsTotalOrder()
    ensures TotalOrder(IndexLeq)
  {
    TimeLeqIsTotalOrder();
    forall a: IndexKey, b: IndexKey ensures IndexLeq(a, b) || IndexLeq(b, a) { Trichotomy(a.prefix, b.prefix); }
    forall a, b | IndexLeq(a, b) && IndexLeq(b, a) ensures a == b { Trichotomy(a.prefix, b.prefix); }
    forall a, b, c | IndexLeq(a, b) && IndexLeq(b, c) ensures IndexLeq(a, c) {
      if StrLess(a.prefix, b.prefix) && StrLess(b.prefix, c.prefix) {
        Transitive(a.prefix, b.prefix, c.prefix);
      }
    }
  }

  /** The upper end of a prefix scan is the greatest one-character string with the greatest number. */
  const TOP := "\U{10FFFF}"

  predicate InRange(prefix: string, k: IndexKey) {
    IndexLeq(IndexKey(prefix, "", 0), k) && IndexLeq(k, IndexKey(prefix, TOP, U64_MAX))
  }

  /** The keys `(prefix, "", 0) ..= (prefix, TOP, MAX)` of an index, ascending. */
  function Scan(keys: set<IndexKey>, prefix: string): (r: seq<IndexKey>)
    ensures forall k :: k in r <==> k in keys && InRange(prefix, k)
    ensures Sorted(r, IndexLeq) && Distinct(r)
  {
    IndexLeqIsTotalOrder();
    Ascending((set k | k in keys && InRange(prefix, k)), IndexLeq)
  }

  /** A timestamp and number a prefix scan can reach. */
  predicate Reachable(createdAt: string, seqNo: nat) {
    StrLess(createdAt, TOP) || (createdAt == TOP && seqNo <= U64_MAX)
  }

  /** A prefix scan sees exactly the keys of its prefix whose time is reachable. */
  lemma ScanReach(prefix: string, k: IndexKey)
    ensures InRange(prefix, k) <==> k.prefix == prefix && Reachable(k.createdAt, k.seqNo)
  {
    Trichotomy(prefix, k.prefix);
    assert k.createdAt == "" || StrLess("", k.createdAt);
  }

  // ----- operations -----

  function HeadId(t: Tables, location: string): Option<string> {
    if location in t.locHead then Opt(t.locHead[location].id) else None
  }

  function OrNull(previous: Option<string>): string {
    if previous.Some? then previous.value else NULL_PREV
  }

  function InsertRow(t: Tables, r: Row): Tables {
    t.(records := t.records[TimeOf(r) := HistVal(r.location, r.id, r.prev)],
       locHead := t.locHead[r.location := Head(r.createdAt, r.seqNo, r.id)],
       byLocation := t.byLocation[IndexKey(r.location, r.createdAt, r.seqNo) := LocVal(r.id, r.prev)],
       byId := t.byId[IndexKey(r.id, r.createdAt, r.seqNo) := IdVal(r.prev, r.location)])
  }

  function InsertHistory(t: Tables, location: string, id: string, previous: Option<string>, createdAt: string): Tables {
    InsertRow(t, Row(createdAt, t.nextSeq, location, id, OrNull(previous))).(nextSeq := t.nextSeq + 1)
  }

  function Save(t: Tables, location: string, id: string, createdAt: string): Tables {
    if HeadId(t, location) == Some(id) then t
    else InsertHistory(t, location, id, HeadId(t, location), createdAt)
  }

  function AppendEvent(t: Tables, event: string, id: string, location: string, createdAt: string): Tables {
    t.(eventLog := t.eventLog[TimeKey(createdAt, t.nextSeq) := Event(event, id, location)], nextSeq := t.nextSeq + 1)
  }

  function Log(t: Tables, event: string, id: string, location: string, createdAt: string): Tables {
    Save(AppendEvent(t, event, id, location, createdAt), location, id, createdAt)
  }

  /** What a store preserves of a revision. */
  datatype Entry = Entry(id: string, createdAt: string)

  predicate EntryLeq(a: Entry, b: Entry) {
    StrLess(a.createdAt, b.createdAt) || (a.createdAt == b.createdAt && StrLeq(a.id, b.id))
  }

  lemma EntryLeqIsTotalOrder()
    ensures TotalOrder(EntryLeq)
  {
    StrLeqIsTotalOrder();
    forall a: Entry, b: Entry ensures EntryLeq(a, b) || EntryLeq(b, a) { Trichotomy(a.createdAt, b.createdAt); }
    forall a, b | EntryLeq(a, b) && EntryLeq(b, a) ensures a == b { Trichotomy(a.createdAt, b.createdAt); }
    forall a, b, c | EntryLeq(a, b) && EntryLeq(b, c) ensures EntryLeq(a, c) {
      if StrLess(a.createdAt, b.createdAt) && StrLess(b.createdAt, c.createdAt) {
        Transitive(a.createdAt, b.createdAt, c.createdAt);
      }
    }
  }

  /** The keys under which a location's rows are found when they are cleared. */
  function Victims(t: Tables, location: string): set<IndexKey> {
    set k | k in t.byLocation && InRange(location, k)
  }

  function TimeKeys(keys: set<IndexKey>): set<TimeKey> {
    set k | k in keys :: TimeKey(k.createdAt, k.seqNo)
  }

  function IdKeys(index: map<IndexKey, LocVal>, keys: set<IndexKey>): set<IndexKey>
    requires keys <= index.Keys
  {
    set k | k in keys :: IndexKey(index[k].id, k.createdAt, k.seqNo)
  }

  /** The tables without the rows found under some location keys; heads stay. */
  function Without(t: Tables, keys: set<IndexKey>): Tables
    requires keys <= t.byLocation.Keys
  {
    t.(records := t.records - TimeKeys(keys),
       byLocation := t.byLocation - keys,
       byId := t.byId - IdKeys(t.byLocation, keys))
  }

  function ClearLocation(t: Tables, location: string): Tables {
    var victims := Victims(t, location);
    if victims == {} then t
    else Without(t, victims).(locHead := t.locHead - {location})
  }

  function Replay(t: Tables, location: string, head: Option<string>, entries: seq<Entry>): Tables
    decreases |entries|
  {
    if entries == [] then t
    else if head == Some(entries[0].id) then Replay(t, location, head, entries[1..])
    else Replay(InsertHistory(t, location, entries[0].id, head, entries[0].createdAt),
                location, Some(entries[0].id), entries[1..])
  }

  function Rebuild(t: Tables, location: string, entries: seq<Entry>): Tables {
    Replay(ClearLocation(t, location), location, None, Sort(entries, EntryLeq))
  }

  datatype Op =
    | SaveOp(location: string, id: string, createdAt: string)
    | LogOp(event: string, id: string, location: string, createdAt: string)
    | RebuildOp(location: string, entries: seq<Entry>)

  function Apply(t: Tables, op: Op): Tables {
    match op
    case SaveOp(location, id, createdAt) => Save(t, location, id, createdAt)
    case LogOp(event, id, location, createdAt) => Log(t, event, id, location, createdAt)
    case RebuildOp(location, entries) => Rebuild(t, location, entries)
  }

  /** The catalog after a run of operations, starting empty. */
  function Run(ops: seq<Op>): Tables {
    if ops == [] then EMPTY else Apply(Run(ops[..|ops| - 1]), ops[|ops| - 1])
  }

  // ----- table agreement -----

  /** The three history tables hold the same rows, and every sequence number is used once, below the counter. */
  ghost predicate Agree(t: Tables) {
    && (forall r :: InRecords(t, r) <==> InByLocation(t, r))
    && (forall r :: InRecords(t, r) <==> InById(t, r))
    && (forall r :: InRecords(t, r) ==> r.seqNo < t.nextSeq)
    && (forall r, q :: InRecords(t, r) && InRecords(t, q) && r.seqNo == q.seqNo ==> r == q)
    && (forall k :: k in t.eventLog ==> k.seqNo < t.nextSeq)
    && (forall k, l :: k in t.eventLog && l in t.eventLog && k.seqNo == l.seqNo ==> k == l)
    && (forall k, r :: k in t.eventLog && InRecords(t, r) ==> k.seqNo != r.seqNo)
  }

  /** Each table gains exactly the inserted row. */
  lemma InsertedRow(t: Tables, r: Row, q: Row)
    requires Agree(t) && r.seqNo == t.nextSeq
    ensures var t' := InsertRow(t, r).(nextSeq := t.nextSeq + 1);
            && (InRecords(t', q) <==> InRecords(t, q) || q == r)
            && (InByLocation(t', q) <==> InByLocation(t, q) || q == r)
            && (InById(t', q) <==> InById(t, q) || q == r)
  {
    assert InByLocation(t, q) ==> InRecords(t, q);
    assert InById(t, q) ==> InRecords(t, q);
  }

  /** `insert_history` adds one new row, under every key, and keeps the tables in agreement. */
  lemma InsertedRows(t: Tables, location: string, id: string, previous: Option<string>, createdAt: string)
    requires Agree(t)
    ensures var r := Row(createdAt, t.nextSeq, location, id, OrNull(previous));
            !InRecords(t, r)
            && forall q :: InRecords(InsertHistory(t, location, id, previous, createdAt), q) <==> InRecords(t, q) || q == r
    ensures Agree(InsertHistory(t, location, id, previous, createdAt))
  {
    var r := Row(createdAt, t.nextSeq, location, id, OrNull(previous));
    var t' := InsertHistory(t, location, id, previous, createdAt);
    forall q ensures InRecords(t', q) <==> InRecords(t, q) || q == r { InsertedRow(t, r, q); }
    forall q ensures InRecords(t', q) <==> InByLocation(t', q) { InsertedRow(t, r, q); }
    forall q ensures InRecords(t', q) <==> InById(t', q) { InsertedRow(t, r, q); }
  }

  lemma ClearedRows(t: Tables, location: string)
    requires Agree(t)
    ensures var t' := ClearLocation(t, location);
            && (forall r :: InRecords(t', r) <==> InRecords(t, r) && !(r.location == location && Reachable(r.createdAt, r.seqNo)))
            && Agree(t')
  {
    var victims := Victims(t, location);
    var t' := ClearLocation(t, location);
    forall k ensures k in victims <==> k in t.byLocation && k.prefix == location && Reachable(k.createdAt, k.seqNo) {
      ScanReach(location, k);
    }
    forall r ensures InRecords(t', r) <==> InRecords(t, r) && !(r.location == location && Reachable(r.createdAt, r.seqNo)) {
      VictimRow(t, location, r);
    }
    forall r ensures InRecords(t', r) <==> InByLocation(t', r) { VictimRow(t, location, r); }
    forall r ensures InRecords(t', r) <==> InById(t', r) { VictimRow(t, location, r); }
  }

  /** Each table drops exactly the victims' rows. */
  lemma VictimRow(t: Tables, location: string, r: Row)
    requires Agree(t)
    ensures var t' := ClearLocation(t, location);
            var gone := r.location == location && Reachable(r.createdAt, r.seqNo);
            && (InRecords(t', r) <==> InRecords(t, r) && !gone)
            && (InByLocation(t', r) <==> InByLocation(t, r) && !gone)
            && (InById(t', r) <==> InById(t, r) && !gone)
  {
    var victims := Victims(t, location);
    var key := IndexKey(r.location, r.createdAt, r.seqNo);
    ScanReach(location, key);
    if InRecords(t, r) {
      assert InByLocation(t, r) && InById(t, r);
      forall k | k in victims && k.createdAt == r.createdAt && k.seqNo == r.seqNo ensures k == key {
        ScanReach(location, k);
        var q := Row(k.createdAt, k.seqNo, k.prefix, t.byLocation[k].id, t.byLocation[k].prev);
        assert InByLocation(t, q) && InRecords(t, q);
      }
    }
  }

  lemma {:induction false} ReplayAgrees(t: Tables, location: string, head: Option<string>, entries: seq<Entry>)
    requires Agree(t)
    ensures Agree(Replay(t, location, head, entries))
    decreases |entries|
  {
    if entries != [] {
      if head == Some(entries[0].id) {
        ReplayAgrees(t, location, head, entries[1..]);
      } else {
        InsertedRows(t, location, entries[0].id, head, entries[0].createdAt);
        ReplayAgrees(InsertHistory(t, location, entries[0].id, head, entries[0].createdAt),
                     location, Some(entries[0].id), entries[1..]);
      }
    }
  }

  lemma SaveAgrees(t: Tables, location: string, id: string, createdAt: string)
    requires Agree(t)
    ensures Agree(Save(t, location, id, createdAt))
  {
    InsertedRows(t, location, id, HeadId(t, location), createdAt);
  }

  /** A save that changes the head adds exactly one row, linked to the head before it, and makes it the head; any other changes nothing. */
  lemma SaveMeaning(t: Tables, location: string, id: string, createdAt: string)
    requires Agree(t)
    ensures var t', r := Save(t, location, id, createdAt), Row(createdAt, t.nextSeq, location, id, OrNull(HeadId(t, location)));
            if HeadId(t, location) == Some(id) then t' == t
            else (forall q :: InRecords(t', q) <==> InRecords(t, q) || q == r)
                 && t'.locHead == t.locHead[location := Head(createdAt, t.nextSeq, id)] && t'.eventLog == t.eventLog
    ensures id != "" ==> HeadId(Save(t, location, id, createdAt), location) == Some(id)
  {
    InsertedRows(t, location, id, HeadId(t, location), createdAt);
  }

  /**
   A log records its event and, at the next number and the same timestamp, the history a save records: afterwards a
   non-empty id is the location's head.
  */
  lemma LogMeaning(t: Tables, event: string, id: string, location: string, createdAt: string)
    requires Agree(t)
    ensures var t' := Apply(t, LogOp(event, id, location, createdAt));
            var r := Row(createdAt, t.nextSeq + 1, location, id, OrNull(HeadId(t, location)));
            && (forall q :: InRecords(t', q) <==> InRecords(t, q) || (HeadId(t, location) != Some(id) && q == r))
            && t'.locHead == (if HeadId(t, location) == Some(id) then t.locHead
                              else t.locHead[location := Head(createdAt, t.nextSeq + 1, id)])
            && t'.eventLog == t.eventLog[TimeKey(createdAt, t.nextSeq) := Event(event, id, location)]
    ensures id != "" ==> HeadId(Apply(t, LogOp(event, id, location, createdAt)), location) == Some(id)
  {
    var t1 := AppendEvent(t, event, id, location, createdAt);
    EventAgrees(t, event, id, location, createdAt);
    SaveMeaning(t1, location, id, createdAt);
    assert forall q :: InRecords(t1, q) <==> InRecords(t, q);
  }

  lemma EventAgrees(t: Tables, event: string, id: string, location: string, createdAt: string)
    requires Agree(t)
    ensures Agree(AppendEvent(t, event, id, location, createdAt))
  {
    var t1 := AppendEvent(t, event, id, location, createdAt);
    assert forall r :: InRecords(t1, r) <==> InRecords(t, r);
    assert forall r :: InByLocation(t1, r) <==> InByLocation(t, r);
    assert forall r :: InById(t1, r) <==> InById(t, r);
  }

  lemma ApplyAgrees(t: Tables, op: Op)
    requires Agree(t)
    ensures Agree(Apply(t, op))
  {
    match op
    case SaveOp(location, id, createdAt) => SaveAgrees(t, location, id, createdAt);
    case LogOp(event, id, location, createdAt) =>
      EventAgrees(t, event, id, location, createdAt);
      SaveAgrees(AppendEvent(t, event, id, location, createdAt), location, id, createdAt);
    case RebuildOp(location, entries) =>
      ClearedRows(t, location);
      ReplayAgrees(ClearLocation(t, location), location, None, Sort(entries, EntryLeq));
  }

  /** After any run at all, with any strings, the tables agree. */
  lemma {:induction false} RunsAgree(ops: seq<Op>)
    ensures Agree(Run(ops))
  {
    if ops != [] {
      RunsAgree(ops[..|ops| - 1]);
      ApplyAgrees(Run(ops[..|ops| - 1]), ops[|ops| - 1]);
    }
  }
}
