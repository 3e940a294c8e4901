/** A location's history in time order: the chain of `previous_id` links and the head, over whole runs. */
module CatalogHistory {
  import opened Options
  import opened Sorting
  import opened StringOrder
  import opened Catalog

  function RowAt(t: Tables, k: TimeKey): Row
    requires k in t.records
  {
    Row(k.createdAt, k.seqNo, t.records[k].location, t.records[k].id, t.records[k].prev)
  }

  /** The whole history in `(created_at, seq)` order, as the primary table is iterated. */
  function AllRows(t: Tables): seq<Row> {
    TimeLeqIsTotalOrder();
    var keys := Ascending(t.records.Keys, TimeLeq);
    seq(|keys|, i requires 0 <= i < |keys| => assert keys[i] in keys; RowAt(t, keys[i]))
  }

  lemma AllRowsFacts(t: Tables)
    ensures forall r :: r in AllRows(t) <==> InRecords(t, r)
    ensures Strictly(AllRows(t), RowBefore)
  {
    TimeLeqIsTotalOrder();
    var keys, rows := Ascending(t.records.Keys, TimeLeq), AllRows(t);
    forall r | InRecords(t, r) ensures r in rows {
      assert TimeOf(r) in keys;
      var i :| 0 <= i < |keys| && keys[i] == TimeOf(r);
      assert rows[i] == r;
    }
    forall r | r in rows ensures InRecords(t, r) {
      var i :| 0 <= i < |rows| && rows[i] == r;
      assert keys[i] in keys;
    }
    forall i, j | 0 <= i < j < |rows| ensures RowBefore(rows[i], rows[j]) {
      assert TimeLeq(keys[i], keys[j]) && keys[i] != keys[j];
      assert TimeOf(rows[i]) == keys[i] && TimeOf(rows[j]) == keys[j];
    }
  }

  function AtLocation(location: string): Row -> bool {
    (r: Row) => r.location == location
  }

  /** A location's rows in `(created_at, seq)` order. */
  function LocRows(t: Tables, location: string): seq<Row> {
    Filter(AllRows(t), AtLocation(location))
  }

  /** `rows` are the location's rows in time order; there is only one such sequence. */
  ghost predicate IsHistory(t: Tables, location: string, rows: seq<Row>) {
    Strictly(rows, RowBefore) && forall r :: r in rows <==> InRecords(t, r) && r.location == location
  }

  lemma LocRowsIsHistory(t: Tables, location: string)
    ensures IsHistory(t, location, LocRows(t, location))
  {
    AllRowsFacts(t);
    InFilter(AllRows(t), AtLocation(location));
    FilterStrictly(AllRows(t), AtLocation(location), RowBefore);
  }

  lemma HistoryUnique(t: Tables, location: string, rows: seq<Row>, other: seq<Row>)
    requires IsHistory(t, location, rows) && IsHistory(t, location, other)
    ensures rows == other
  {
    RowBeforeIsStrict();
    StrictUnique(rows, other, RowBefore);
  }

  lemma LocRowsAre(t: Tables, location: string, rows: seq<Row>)
    requires IsHistory(t, location, rows)
    ensures LocRows(t, location) == rows
  {
    LocRowsIsHistory(t, location);
    HistoryUnique(t, location, LocRows(t, location), rows);
  }

  // ----- chain and head -----

  /** Every row points at the one before it, the first at nothing; neighbours differ unless both ids are empty. */
  ghost predicate Chain(rows: seq<Row>) {
    && (rows != [] ==> rows[0].prev == NULL_PREV)
    && (forall i :: 0 < i < |rows| ==> rows[i].prev == rows[i - 1].id && (rows[i].id != rows[i - 1].id || rows[i].id == ""))
  }

  /** The location has a head exactly when it has rows, and the head is the last of them. */
  ghost predicate HeadIsLast(heads: map<string, Head>, location: string, rows: seq<Row>) {
    && (location in heads <==> rows != [])
    && (rows != [] ==> var last := rows[|rows| - 1]; heads[location] == Head(last.createdAt, last.seqNo, last.id))
  }

  ghost predicate GoodHistory(t: Tables, location: string, rows: seq<Row>) {
    IsHistory(t, location, rows) && Chain(rows) && HeadIsLast(t.locHead, location, rows)
  }

  ghost predicate GoodAt(t: Tables, location: string) {
    Chain(LocRows(t, location)) && HeadIsLast(t.locHead, location, LocRows(t, location))
  }

  lemma GoodAtIs(t: Tables, location: string, rows: seq<Row>)
    requires IsHistory(t, location, rows)
    ensures GoodAt(t, location) <==> GoodHistory(t, location, rows)
  {
    LocRowsAre(t, location, rows);
  }

  ghost predicate Numbered(t: Tables) {
    forall r :: InRecords(t, r) ==> r.seqNo < t.nextSeq
  }

  lemma InsertGrows(t: Tables, r: Row)
    requires Numbered(t) && r.seqNo == t.nextSeq
    ensures var t' := InsertRow(t, r).(nextSeq := t.nextSeq + 1);
            Numbered(t') && forall q :: InRecords(t', q) <==> InRecords(t, q) || q == r
  {
    assert forall q: Row :: TimeOf(q) == TimeOf(r) ==> !InRecords(t, q);
  }

  /** A row no earlier than a location's last extends its history at the end. */
  lemma InsertAtEnd(t: Tables, r: Row, rows: seq<Row>)
    requires Numbered(t) && r.seqNo == t.nextSeq && IsHistory(t, r.location, rows)
    requires rows != [] ==> StrLeq(rows[|rows| - 1].createdAt, r.createdAt)
    ensures IsHistory(InsertRow(t, r).(nextSeq := t.nextSeq + 1), r.location, rows + [r])
  {
    InsertGrows(t, r);
    TimeLessIsStrict();
    forall i | 0 <= i < |rows| ensures RowBefore(rows[i], r) {
      var last := rows[|rows| - 1];
      assert last in rows && rows[i] in rows;
      assert RowBefore(last, r);
      assert i < |rows| - 1 ==> RowBefore(rows[i], last);
    }
  }

  lemma InsertElsewhere(t: Tables, r: Row, location: string, rows: seq<Row>)
    requires Numbered(t) && r.seqNo == t.nextSeq && location != r.location && IsHistory(t, location, rows)
    ensures IsHistory(InsertRow(t, r).(nextSeq := t.nextSeq + 1), location, rows)
  {
    InsertGrows(t, r);
  }

  /** A row earlier than a location's last cannot be the last one, though the head then names it. */
  lemma InsertOutOfOrder(t: Tables, r: Row, rows: seq<Row>, rows': seq<Row>)
    requires Numbered(t) && r.seqNo == t.nextSeq && IsHistory(t, r.location, rows)
    requires IsHistory(InsertRow(t, r).(nextSeq := t.nextSeq + 1), r.location, rows')
    requires rows != [] && StrLess(r.createdAt, rows[|rows| - 1].createdAt)
    ensures rows' != [] && rows'[|rows'| - 1].seqNo != r.seqNo
    ensures InsertRow(t, r).locHead[r.location] == Head(r.createdAt, r.seqNo, r.id)
    ensures !HeadIsLast(InsertRow(t, r).locHead, r.location, rows')
  {
    InsertGrows(t, r);
    TimeLessIsStrict();
    var last := rows[|rows| - 1];
    assert last in rows && last in rows';
    var i :| 0 <= i < |rows'| && rows'[i] == last;
    assert RowBefore(r, last);
    var last' := rows'[|rows'| - 1];
    assert last' in rows';
    assert i < |rows'| - 1 ==> RowBefore(last, last');
    assert last' != r;
    assert InRecords(t, last');
  }

  /** The timestamp does not run behind the recorded head. */
  predicate NotBehind(t: Tables, location: string, createdAt: string) {
    location in t.locHead ==> StrLeq(t.locHead[location].createdAt, createdAt)
  }

  /** The history a save leaves behind when its timestamp is in order. */
  function Saved(t: Tables, location: string, id: string, createdAt: string, rows: seq<Row>): seq<Row> {
    if HeadId(t, location) == Some(id) then rows
    else rows + [Row(createdAt, t.nextSeq, location, id, OrNull(HeadId(t, location)))]
  }

  lemma SaveExtendsChain(t: Tables, location: string, id: string, createdAt: string, rows: seq<Row>)
    requires Numbered(t) && GoodHistory(t, location, rows) && NotBehind(t, location, createdAt)
    ensures GoodHistory(Save(t, location, id, createdAt), location, Saved(t, location, id, createdAt, rows))
  {
    if HeadId(t, location) != Some(id) {
      var r := Row(createdAt, t.nextSeq, location, id, OrNull(HeadId(t, location)));
      InsertAtEnd(t, r, rows);
      ChainGrows(rows, r);
    }
  }

  lemma ChainGrows(rows: seq<Row>, r: Row)
    requires Chain(rows) && r.prev == (if rows == [] then NULL_PREV else rows[|rows| - 1].id)
    requires rows != [] && rows[|rows| - 1].id == r.id ==> r.id == ""
    ensures Chain(rows + [r])
  {
    var longer := rows + [r];
    forall i | 0 < i < |longer|
      ensures longer[i].prev == longer[i - 1].id && (longer[i].id != longer[i - 1].id || longer[i].id == "") {
      assert longer[i - 1] == rows[i - 1];
      if i < |rows| { assert longer[i] == rows[i]; }
    }
  }

  /** A save keeps a good location good exactly when it changes nothing or its timestamp is not behind the head. */
  lemma SaveKeepsChainIff(t: Tables, location: string, id: string, createdAt: string)
    requires Numbered(t) && GoodAt(t, location)
    ensures GoodAt(Save(t, location, id, createdAt), location)
            <==> HeadId(t, location) == Some(id) || NotBehind(t, location, createdAt)
  {
    if NotBehind(t, location, createdAt) {
      SaveInOrder(t, location, id, createdAt);
    } else if HeadId(t, location) != Some(id) {
      SaveBehind(t, location, id, createdAt);
    }
  }

  lemma SaveInOrder(t: Tables, location: string, id: string, createdAt: string)
    requires Numbered(t) && GoodAt(t, location) && NotBehind(t, location, createdAt)
    ensures GoodAt(Save(t, location, id, createdAt), location)
  {
    var rows := LocRows(t, location);
    LocRowsIsHistory(t, location);
    SaveExtendsChain(t, location, id, createdAt, rows);
    GoodAtIs(Save(t, location, id, createdAt), location, Saved(t, location, id, createdAt, rows));
  }

  lemma SaveBehind(t: Tables, location: string, id: string, createdAt: string)
    requires Numbered(t) && GoodAt(t, location) && HeadId(t, location) != Some(id) && !NotBehind(t, location, createdAt)
    ensures !GoodAt(Save(t, location, id, createdAt), location)
  {
    var t', r := Save(t, location, id, createdAt), Row(createdAt, t.nextSeq, location, id, OrNull(HeadId(t, location)));
    LocRowsIsHistory(t, location);
    LocRowsIsHistory(t', location);
    InsertBehind(t, t', r, LocRows(t, location), LocRows(t', location));
    HeadIsWrong(t', location);
  }

  lemma InsertBehind(t: Tables, t': Tables, r: Row, rows: seq<Row>, rows': seq<Row>)
    requires Numbered(t) && r.seqNo == t.nextSeq && t' == InsertRow(t, r).(nextSeq := t.nextSeq + 1)
    requires IsHistory(t, r.location, rows) && HeadIsLast(t.locHead, r.location, rows) && IsHistory(t', r.location, rows')
    requires !NotBehind(t, r.location, r.createdAt)
    ensures !HeadIsLast(t'.locHead, r.location, rows')
  {
    Trichotomy(t.locHead[r.location].createdAt, r.createdAt);
    InsertOutOfOrder(t, r, rows, rows');
  }

  lemma HeadIsWrong(t: Tables, location: string)
    requires !HeadIsLast(t.locHead, location, LocRows(t, location))
    ensures !GoodAt(t, location)
  {
  }

  lemma SaveElsewhere(t: Tables, location: string, id: string, createdAt: string, other: string, rows: seq<Row>)
    requires Numbered(t) && other != location && GoodHistory(t, other, rows)
    ensures GoodHistory(Save(t, location, id, createdAt), other, rows)
  {
    if HeadId(t, location) != Some(id) {
      InsertElsewhere(t, Row(createdAt, t.nextSeq, location, id, OrNull(HeadId(t, location))), other, rows);
    }
  }

  lemma EventsLeaveHistory(t: Tables, event: string, id: string, location: string, createdAt: string, other: string, rows: seq<Row>)
    requires GoodHistory(t, other, rows)
    ensures GoodHistory(AppendEvent(t, event, id, location, createdAt), other, rows)
  {
    assert forall r :: InRecords(AppendEvent(t, event, id, location, createdAt), r) <==> InRecords(t, r);
  }

  // ----- replay -----

  /** Entries in replay order: none before the last row already there. */
  ghost predicate Continues(rows: seq<Row>, entries: seq<Entry>) {
    && Sorted(entries, EntryLeq)
    && (rows != [] && entries != [] ==> StrLeq(rows[|rows| - 1].createdAt, entries[0].createdAt))
  }

  /** The rows a replay adds, numbered from `seqNo`. */
  function ReplayRows(location: string, seqNo: nat, head: Option<string>, entries: seq<Entry>): seq<Row>
    decreases |entries|
  {
    if entries == [] then []
    else if head == Some(entries[0].id) then ReplayRows(location, seqNo, head, entries[1..])
    else [Row(entries[0].createdAt, seqNo, location, entries[0].id, OrNull(head))]
         + ReplayRows(location, seqNo + 1, Some(entries[0].id), entries[1..])
  }

  function LastId(rows: seq<Row>): Option<string> {
    if rows == [] then None else Some(rows[|rows| - 1].id)
  }

  lemma ReplayInsert(t: Tables, location: string, rows: seq<Row>, e: Entry)
    requires Numbered(t) && GoodHistory(t, location, rows) && LastId(rows) != Some(e.id)
    requires rows != [] ==> StrLeq(rows[|rows| - 1].createdAt, e.createdAt)
    ensures var r := Row(e.createdAt, t.nextSeq, location, e.id, OrNull(LastId(rows)));
            var t1 := InsertHistory(t, location, e.id, LastId(rows), e.createdAt);
            Numbered(t1) && GoodHistory(t1, location, rows + [r])
  {
    var r := Row(e.createdAt, t.nextSeq, location, e.id, OrNull(LastId(rows)));
    InsertGrows(t, r);
    InsertAtEnd(t, r, rows);
    ChainGrows(rows, r);
  }

  /** Replay continues a location's chain from its head and appends exactly its own rows. */
  lemma {:induction false} ReplayExtends(t: Tables, location: string, entries: seq<Entry>, rows: seq<Row>)
    requires Numbered(t) && GoodHistory(t, location, rows) && Continues(rows, entries)
    ensures GoodHistory(Replay(t, location, LastId(rows), entries), location,
                        rows + ReplayRows(location, t.nextSeq, LastId(rows), entries))
    decreases |entries|
  {
    if entries == [] {
      assert rows + [] == rows;
    } else {
      var e, head := entries[0], LastId(rows);
      TailContinues(rows, entries);
      if head == Some(e.id) {
        ReplayExtends(t, location, entries[1..], rows);
      } else {
        var r := Row(e.createdAt, t.nextSeq, location, e.id, OrNull(head));
        ReplayInsert(t, location, rows, e);
        TailContinuesAfter(rows + [r], entries);
        ReplayExtends(InsertHistory(t, location, e.id, head, e.createdAt), location, entries[1..], rows + [r]);
        ReplayUnfolds(t, location, rows, entries, r);
      }
    }
  }

  /** A replay that inserts its first entry's row goes on from there. */
  lemma ReplayUnfolds(t: Tables, location: string, rows: seq<Row>, entries: seq<Entry>, r: Row)
    requires entries != [] && LastId(rows) != Some(entries[0].id)
    requires r == Row(entries[0].createdAt, t.nextSeq, location, entries[0].id, OrNull(LastId(rows)))
    ensures var t1 := InsertHistory(t, location, entries[0].id, LastId(rows), entries[0].createdAt);
            && Replay(t, location, LastId(rows), entries) == Replay(t1, location, LastId(rows + [r]), entries[1..])
            && rows + ReplayRows(location, t.nextSeq, LastId(rows), entries)
               == rows + [r] + ReplayRows(location, t1.nextSeq, LastId(rows + [r]), entries[1..])
  {
    assert LastId(rows + [r]) == Some(entries[0].id);
    AppendAssociates(rows, r, ReplayRows(location, t.nextSeq + 1, Some(entries[0].id), entries[1..]));
  }

  lemma AppendAssociates(rows: seq<Row>, r: Row, rest: seq<Row>)
    ensures rows + [r] + rest == rows + ([r] + rest)
  {
  }

  lemma TailContinues(rows: seq<Row>, entries: seq<Entry>)
    requires entries != [] && Continues(rows, entries)
    ensures Continues(rows, entries[1..])
  {
    if rows != [] && |entries| > 1 {
      assert EntryLeq(entries[0], entries[1]);
      StrLeqIsTotalOrder();
    }
  }

  lemma TailContinuesAfter(rows: seq<Row>, entries: seq<Entry>)
    requires entries != [] && rows != [] && Sorted(entries, EntryLeq)
    requires rows[|rows| - 1].createdAt == entries[0].createdAt
    ensures Continues(rows, entries[1..])
  {
    if |entries| > 1 { assert EntryLeq(entries[0], entries[1]); }
  }

  predicate Scannable(createdAt: string) { StrLess(createdAt, TOP) }

  ghost predicate AllScannable(t: Tables) {
    forall r :: InRecords(t, r) ==> Scannable(r.createdAt)
  }

  ghost predicate ScannableAt(t: Tables, location: string) {
    forall r :: InRecords(t, r) && r.location == location ==> Scannable(r.createdAt)
  }

  /** Every one of a location's rows is within reach of a prefix scan. */
  ghost predicate AllReachable(t: Tables, location: string) {
    forall r :: InRecords(t, r) && r.location == location ==> Reachable(r.createdAt, r.seqNo)
  }

  ghost predicate NoneReachable(t: Tables, location: string) {
    forall r :: InRecords(t, r) && r.location == location ==> !Reachable(r.createdAt, r.seqNo)
  }

  ghost predicate HasRow(t: Tables, location: string) {
    exists r :: InRecords(t, r) && r.location == location
  }

  lemma VictimsAreReachable(t: Tables, location: string)
    requires Agree(t)
    ensures Victims(t, location) == {} <==> NoneReachable(t, location)
  {
    if r :| InRecords(t, r) && r.location == location && Reachable(r.createdAt, r.seqNo) {
      var k := IndexKey(r.location, r.createdAt, r.seqNo);
      assert InByLocation(t, r);
      ScanReach(location, k);
      assert k in Victims(t, location);
    }
    if k :| k in Victims(t, location) {
      ScanReach(location, k);
      var r := Row(k.createdAt, k.seqNo, k.prefix, t.byLocation[k].id, t.byLocation[k].prev);
      assert InByLocation(t, r);
      assert InRecords(t, r) && r.location == location && Reachable(r.createdAt, r.seqNo);
    }
  }

  /** All rows are within reach, and a head is there only with rows: not that they are chained, or that the head is the last. */
  ghost predicate Clearable(t: Tables, location: string) {
    AllReachable(t, location) && (location in t.locHead ==> HasRow(t, location))
  }

  /** Clearing leaves nothing of a location exactly when it can be cleared. */
  lemma ClearedLocation(t: Tables, location: string)
    requires Agree(t)
    ensures GoodHistory(ClearLocation(t, location), location, []) <==> Clearable(t, location)
  {
    ClearedRows(t, location);
    VictimsAreReachable(t, location);
    assert location in ClearLocation(t, location).locHead <==> location in t.locHead && Victims(t, location) == {};
  }

  /** A chained location with rows within reach can be cleared. */
  lemma ChainedIsClearable(t: Tables, location: string, rows: seq<Row>)
    requires GoodHistory(t, location, rows) && AllReachable(t, location)
    ensures Clearable(t, location)
  {
    if rows != [] { assert rows[0] in rows; }
  }

  /** After a rebuild, a location holds exactly the replay of the sorted entries, chained, with its head last, however it was before. */
  lemma RebuiltLocation(t: Tables, location: string, entries: seq<Entry>)
    requires Agree(t) && Clearable(t, location)
    ensures GoodHistory(Rebuild(t, location, entries), location,
                        ReplayRows(location, t.nextSeq, None, Sort(entries, EntryLeq)))
  {
    ClearedRows(t, location);
    ClearedLocation(t, location);
    EntryLeqIsTotalOrder();
    SortSorts(entries, EntryLeq);
    ReplayExtends(ClearLocation(t, location), location, Sort(entries, EntryLeq), []);
    var replayed := ReplayRows(location, t.nextSeq, None, Sort(entries, EntryLeq));
    assert [] + replayed == replayed;
  }

  lemma {:induction false} ReplayElsewhere(t: Tables, location: string, head: Option<string>, entries: seq<Entry>)
    requires Numbered(t)
    ensures var t' := Replay(t, location, head, entries);
            && (forall r: Row :: r.location != location ==> (InRecords(t', r) <==> InRecords(t, r)))
            && t'.locHead - {location} == t.locHead - {location}
            && t'.eventLog == t.eventLog
    decreases |entries|
  {
    if entries != [] {
      var e := entries[0];
      if head == Some(e.id) {
        ReplayElsewhere(t, location, head, entries[1..]);
      } else {
        var t1 := InsertHistory(t, location, e.id, head, e.createdAt);
        InsertGrows(t, Row(e.createdAt, t.nextSeq, location, e.id, OrNull(head)));
        assert t1.locHead - {location} == t.locHead - {location};
        ReplayElsewhere(t1, location, Some(e.id), entries[1..]);
      }
    }
  }

  /** A rebuild leaves every other location's rows and head, and the event log, unchanged. */
  lemma RebuildTouchesOneLocation(t: Tables, location: string, entries: seq<Entry>, other: string)
    requires Agree(t) && other != location
    ensures var t' := Rebuild(t, location, entries);
            && (forall r: Row :: r.location == other ==> (InRecords(t', r) <==> InRecords(t, r)))
            && LocRows(t', other) == LocRows(t, other)
            && (other in t'.locHead <==> other in t.locHead)
            && (other in t.locHead ==> t'.locHead[other] == t.locHead[other])
            && t'.eventLog == t.eventLog
  {
    ClearedRows(t, location);
    var t1, t' := ClearLocation(t, location), Rebuild(t, location, entries);
    ReplayElsewhere(t1, location, None, Sort(entries, EntryLeq));
    assert other in t'.locHead <==> other in t'.locHead - {location};
    assert other in t1.locHead <==> other in t1.locHead - {location};
    LocRowsIsHistory(t, other);
    LocRowsAre(t', other, LocRows(t, other));
  }

  // ----- whole runs -----

  ghost predicate OpScannable(op: Op) {
    match op
    case SaveOp(_, _, createdAt) => Scannable(createdAt)
    case LogOp(_, _, _, createdAt) => Scannable(createdAt)
    case RebuildOp(_, entries) => forall e :: e in entries ==> Scannable(e.createdAt)
  }

  /** A save or log that inserts is not stamped before its location's head. */
  predicate OpInOrder(t: Tables, op: Op) {
    match op
    case SaveOp(location, id, createdAt) => HeadId(t, location) == Some(id) || NotBehind(t, location, createdAt)
    case LogOp(_, id, location, createdAt) => HeadId(t, location) == Some(id) || NotBehind(t, location, createdAt)
    case RebuildOp(_, _) => true
  }

  ghost predicate Good(t: Tables) {
    Agree(t) && AllScannable(t) && forall location :: GoodAt(t, location)
  }

  lemma InsertScannable(t: Tables, r: Row)
    requires AllScannable(t) && Scannable(r.createdAt)
    ensures AllScannable(InsertRow(t, r)) && AllScannable(InsertRow(t, r).(nextSeq := t.nextSeq + 1))
  {
    forall q | InRecords(InsertRow(t, r), q) ensures Scannable(q.createdAt) {
      assert TimeOf(q) == TimeOf(r) || InRecords(t, q);
    }
    assert forall q :: InRecords(InsertRow(t, r), q) <==> InRecords(InsertRow(t, r).(nextSeq := t.nextSeq + 1), q);
  }

  lemma {:induction false} ReplayScannable(t: Tables, location: string, head: Option<string>, entries: seq<Entry>)
    requires AllScannable(t) && forall e :: e in entries ==> Scannable(e.createdAt)
    ensures AllScannable(Replay(t, location, head, entries))
    decreases |entries|
  {
    if entries != [] {
      var e := entries[0];
      if head == Some(e.id) {
        ReplayScannable(t, location, head, entries[1..]);
      } else {
        InsertScannable(t, Row(e.createdAt, t.nextSeq, location, e.id, OrNull(head)));
        ReplayScannable(InsertHistory(t, location, e.id, head, e.createdAt), location, Some(e.id), entries[1..]);
      }
    }
  }

  lemma StepScannable(t: Tables, op: Op)
    requires Agree(t) && AllScannable(t) && OpScannable(op)
    ensures AllScannable(Apply(t, op))
  {
    match op
    case SaveOp(location, id, createdAt) =>
      InsertScannable(t, Row(createdAt, t.nextSeq, location, id, OrNull(HeadId(t, location))));
    case LogOp(event, id, location, createdAt) =>
      var t1 := AppendEvent(t, event, id, location, createdAt);
      assert forall r :: InRecords(t1, r) <==> InRecords(t, r);
      InsertScannable(t1, Row(createdAt, t1.nextSeq, location, id, OrNull(HeadId(t1, location))));
    case RebuildOp(location, entries) =>
      ClearedRows(t, location);
      SortPermutes(entries, EntryLeq);
      forall e | e in Sort(entries, EntryLeq) ensures e in entries { assert e in Elements(Sort(entries, EntryLeq)); }
      ReplayScannable(ClearLocation(t, location), location, None, Sort(entries, EntryLeq));
  }

  /** One operation, seen at one location. */
  lemma StepAt(t: Tables, op: Op, location: string, rows: seq<Row>) returns (rows': seq<Row>)
    requires Agree(t) && GoodHistory(t, location, rows)
    requires op.location == location ==> OpInOrder(t, op) && (op.RebuildOp? ==> AllReachable(t, location))
    ensures GoodHistory(Apply(t, op), location, rows')
  {
    rows' := rows;
    match op
    case SaveOp(l, id, createdAt) =>
      if l != location {
        SaveElsewhere(t, l, id, createdAt, location, rows);
      } else if HeadId(t, l) != Some(id) {
        rows' := Saved(t, l, id, createdAt, rows);
        SaveExtendsChain(t, l, id, createdAt, rows);
      }
    case LogOp(event, id, l, createdAt) =>
      var t1 := AppendEvent(t, event, id, l, createdAt);
      EventsLeaveHistory(t, event, id, l, createdAt, location, rows);
      assert Numbered(t1) by { assert forall r :: InRecords(t1, r) <==> InRecords(t, r); }
      if l != location {
        SaveElsewhere(t1, l, id, createdAt, location, rows);
      } else if HeadId(t, l) != Some(id) {
        rows' := Saved(t1, l, id, createdAt, rows);
        SaveExtendsChain(t1, l, id, createdAt, rows);
      }
    case RebuildOp(l, entries) =>
      if l == location {
        rows' := ReplayRows(location, t.nextSeq, None, Sort(entries, EntryLeq));
        ChainedIsClearable(t, location, rows);
        RebuiltLocation(t, l, entries);
      } else {
        RebuildTouchesOneLocation(t, l, entries, location);
      }
  }

  lemma StepGoodAt(t: Tables, op: Op, location: string)
    requires Agree(t) && GoodAt(t, location)
    requires op.location == location ==> OpInOrder(t, op) && (op.RebuildOp? ==> AllReachable(t, location))
    ensures GoodAt(Apply(t, op), location)
  {
    LocRowsIsHistory(t, location);
    var rows' := StepAt(t, op, location, LocRows(t, location));
    GoodAtIs(Apply(t, op), location, rows');
  }

  lemma StepGood(t: Tables, op: Op)
    requires Good(t) && OpScannable(op) && OpInOrder(t, op)
    ensures Good(Apply(t, op))
  {
    ApplyAgrees(t, op);
    StepScannable(t, op);
    forall location ensures GoodAt(Apply(t, op), location) {
      StepGoodAt(t, op, location);
    }
  }

  /** Every operation of the run was in order when it was applied. */
  ghost predicate RunInOrder(ops: seq<Op>) {
    ops != [] ==>
      RunInOrder(ops[..|ops| - 1]) && OpScannable(ops[|ops| - 1]) && OpInOrder(Run(ops[..|ops| - 1]), ops[|ops| - 1])
  }

  /** After any in-order run every location's rows form a chain whose last row is the recorded head. */
  lemma {:induction false} RunsAreChained(ops: seq<Op>)
    requires RunInOrder(ops)
    ensures Good(Run(ops))
  {
    if ops == [] {
      forall location ensures GoodAt(EMPTY, location) { LocRowsAre(EMPTY, location, []); }
    } else {
      RunsAreChained(ops[..|ops| - 1]);
      StepGood(Run(ops[..|ops| - 1]), ops[|ops| - 1]);
    }
  }
}
