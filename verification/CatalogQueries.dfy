/** The three catalog queries over the indexes, against plain filters of the whole history. */
module CatalogQueries {
  import opened Options
  import opened Sorting
  import opened StringOrder
  import opened Catalog
  import opened CatalogHistory

  datatype Record = Record(createdAt: string, id: string, location: string, previousId: Option<string>)

  // ----- what the index scans read -----

  function LocationRow(index: map<IndexKey, LocVal>, k: IndexKey): Row
    requires k in index
  {
    Row(k.createdAt, k.seqNo, k.prefix, index[k].id, index[k].prev)
  }

  function IdRow(index: map<IndexKey, IdVal>, k: IndexKey): Row
    requires k in index
  {
    Row(k.createdAt, k.seqNo, index[k].location, k.prefix, index[k].prev)
  }

  /** The rows of a location prefix scan, ascending. */
  function RowsByLocation(index: map<IndexKey, LocVal>, location: string): seq<Row> {
    var keys := Scan(index.Keys, location);
    seq(|keys|, i requires 0 <= i < |keys| => assert keys[i] in keys; LocationRow(index, keys[i]))
  }

  /** The rows of an id prefix scan, ascending. */
  function RowsById(index: map<IndexKey, IdVal>, id: string): seq<Row> {
    var keys := Scan(index.Keys, id);
    seq(|keys|, i requires 0 <= i < |keys| => assert keys[i] in keys; IdRow(index, keys[i]))
  }

  function RevisionRecord(r: Row): Record {
    Record(r.createdAt, r.id, r.location, Opt(r.prev))
  }

  function AncestorRecord(r: Row): Record {
    Record(r.createdAt, r.prev, r.location, None)
  }

  /** Rows that have a previous id, at the wanted location if one is given. */
  function Linked(location: Option<string>): Row -> bool {
    (r: Row) => r.prev != NULL_PREV && (location.Some? ==> r.location == location.value)
  }

  function Revisions(t: Tables, location: string): seq<Record> {
    Map(Reverse(RowsByLocation(t.byLocation, location)), RevisionRecord)
  }

  /** What `ancestors` reports of rows in the order it meets them. */
  function Reported(rows: seq<Row>, location: Option<string>): seq<Record> {
    Map(Filter(rows, Linked(location)), AncestorRecord)
  }

  function Ancestors(t: Tables, id: string, location: Option<string>): seq<Record> {
    Reported(Reverse(RowsById(t.byId, id)), location)
  }

  function HeadRecord(location: string, head: Head): Record {
    Record(head.createdAt, head.id, location, None)
  }

  /** The locations with a head, in order. */
  function HeadKeys(heads: map<string, Head>): (keys: seq<string>)
    ensures forall k :: k in keys <==> k in heads
    ensures Sorted(keys, StrLeq) && Distinct(keys)
  {
    StrLeqIsTotalOrder();
    Ascending(heads.Keys, StrLeq)
  }

  function Locations(t: Tables): seq<Record> {
    var keys := HeadKeys(t.locHead);
    seq(|keys|, i requires 0 <= i < |keys| => assert keys[i] in keys; HeadRecord(keys[i], t.locHead[keys[i]]))
  }

  // ----- scans are filters -----

  function ReachableAt(location: string): Row -> bool {
    (r: Row) => r.location == location && Reachable(r.createdAt, r.seqNo)
  }

  function ReachableId(id: string): Row -> bool {
    (r: Row) => r.id == id && Reachable(r.createdAt, r.seqNo)
  }

  lemma LocationScanRow(t: Tables, location: string, r: Row)
    requires Agree(t)
    ensures r in RowsByLocation(t.byLocation, location) <==> InRecords(t, r) && ReachableAt(location)(r)
  {
    var keys, rows, k := Scan(t.byLocation.Keys, location), RowsByLocation(t.byLocation, location), IndexKey(r.location, r.createdAt, r.seqNo);
    assert InRecords(t, r) <==> InByLocation(t, r);
    if r in rows {
      var i :| 0 <= i < |rows| && rows[i] == r;
      assert keys[i] in keys;
      ScanReach(location, keys[i]);
    }
    if InRecords(t, r) && ReachableAt(location)(r) {
      ScanReach(location, k);
      assert k in keys;
      var i :| 0 <= i < |keys| && keys[i] == k;
      assert rows[i] == r;
    }
  }

  lemma LocationScan(t: Tables, location: string)
    requires Agree(t)
    ensures RowsByLocation(t.byLocation, location) == Filter(AllRows(t), ReachableAt(location))
  {
    var rows := RowsByLocation(t.byLocation, location);
    forall r ensures r in rows <==> InRecords(t, r) && ReachableAt(location)(r) { LocationScanRow(t, location, r); }
    ScanIsStrict(t.byLocation.Keys, location, rows);
    FilteredHistory(t, rows, ReachableAt(location));
  }

  lemma IdScanRow(t: Tables, id: string, r: Row)
    requires Agree(t)
    ensures r in RowsById(t.byId, id) <==> InRecords(t, r) && ReachableId(id)(r)
  {
    var keys, rows, k := Scan(t.byId.Keys, id), RowsById(t.byId, id), IndexKey(r.id, r.createdAt, r.seqNo);
    assert InRecords(t, r) <==> InById(t, r);
    if r in rows {
      var i :| 0 <= i < |rows| && rows[i] == r;
      assert keys[i] in keys;
      ScanReach(id, keys[i]);
    }
    if InRecords(t, r) && ReachableId(id)(r) {
      ScanReach(id, k);
      assert k in keys;
      var i :| 0 <= i < |keys| && keys[i] == k;
      assert rows[i] == r;
    }
  }

  lemma IdScan(t: Tables, id: string)
    requires Agree(t)
    ensures RowsById(t.byId, id) == Filter(AllRows(t), ReachableId(id))
  {
    var rows := RowsById(t.byId, id);
    forall r ensures r in rows <==> InRecords(t, r) && ReachableId(id)(r) { IdScanRow(t, id, r); }
    ScanIsStrict(t.byId.Keys, id, rows);
    FilteredHistory(t, rows, ReachableId(id));
  }

  /** Along one prefix, index order is time order. */
  lemma ScanIsStrict(keys: set<IndexKey>, prefix: string, rows: seq<Row>)
    requires var scan := Scan(keys, prefix);
             |rows| == |scan| &&
             forall i :: 0 <= i < |rows| ==> rows[i].createdAt == scan[i].createdAt && rows[i].seqNo == scan[i].seqNo
    ensures Strictly(rows, RowBefore)
  {
    var scan := Scan(keys, prefix);
    forall i, j | 0 <= i < j < |rows| ensures RowBefore(rows[i], rows[j]) {
      assert scan[i] in scan && scan[j] in scan;
      ScanReach(prefix, scan[i]);
      ScanReach(prefix, scan[j]);
      assert IndexLeq(scan[i], scan[j]) && scan[i] != scan[j];
      Trichotomy(prefix, prefix);
    }
  }

  lemma FilteredHistory(t: Tables, rows: seq<Row>, p: Row -> bool)
    requires Strictly(rows, RowBefore)
    requires forall r :: r in rows <==> InRecords(t, r) && p(r)
    ensures rows == Filter(AllRows(t), p)
  {
    AllRowsFacts(t);
    InFilter(AllRows(t), p);
    FilterStrictly(AllRows(t), p, RowBefore);
    RowBeforeIsStrict();
    StrictUnique(rows, Filter(AllRows(t), p), RowBefore);
  }

  /** The plain `revisions` query: filter the history by location, newest first. */
  function PlainRevisions(t: Tables, location: string): seq<Record> {
    Map(Reverse(LocRows(t, location)), RevisionRecord)
  }

  function IsAncestorRow(id: string, location: Option<string>): Row -> bool {
    (r: Row) => r.id == id && r.prev != NULL_PREV && (location.Some? ==> r.location == location.value)
  }

  /** The plain `ancestors` query: filter the history, newest first. */
  function PlainAncestors(t: Tables, id: string, location: Option<string>): seq<Record> {
    Map(Reverse(Filter(AllRows(t), IsAncestorRow(id, location))), AncestorRecord)
  }

  function IsReachable(r: Row): bool { Reachable(r.createdAt, r.seqNo) }

  /** The reverse range scan behind `revisions` is the plain query exactly when the location's timestamps are reachable. */
  lemma RevisionsRefinePlainQuery(t: Tables, location: string)
    requires Agree(t)
    ensures Revisions(t, location) == PlainRevisions(t, location)
            <==> forall r :: InRecords(t, r) && r.location == location ==> Reachable(r.createdAt, r.seqNo)
  {
    LocationScan(t, location);
    LocRowsIsHistory(t, location);
    var all, scanned := LocRows(t, location), RowsByLocation(t.byLocation, location);
    FilterFilter(AllRows(t), AtLocation(location), IsReachable, ReachableAt(location));
    FilterLength(all, IsReachable);
    if forall r :: r in all ==> IsReachable(r) {
      FilterAll(all, IsReachable);
    } else {
      assert |Revisions(t, location)| == |scanned| < |all| == |PlainRevisions(t, location)|;
    }
  }

  /** Likewise `ancestors`, for the rows it should report. */
  lemma AncestorsRefinePlainQuery(t: Tables, id: string, location: Option<string>)
    requires Agree(t)
    ensures Ancestors(t, id, location) == PlainAncestors(t, id, location)
            <==> forall r :: InRecords(t, r) && IsAncestorRow(id, location)(r) ==> Reachable(r.createdAt, r.seqNo)
  {
    IdScan(t, id);
    AllRowsFacts(t);
    var all, scanned := Filter(AllRows(t), IsAncestorRow(id, location)), Filter(RowsById(t.byId, id), Linked(location));
    FilterReverse(RowsById(t.byId, id), Linked(location));
    var wanted := (r: Row) => IsAncestorRow(id, location)(r) && IsReachable(r);
    FilterFilter(AllRows(t), ReachableId(id), Linked(location), wanted);
    FilterFilter(AllRows(t), IsAncestorRow(id, location), IsReachable, wanted);
    assert scanned == Filter(all, IsReachable);
    InFilter(AllRows(t), IsAncestorRow(id, location));
    FilterLength(all, IsReachable);
    if forall r :: r in all ==> IsReachable(r) {
      FilterAll(all, IsReachable);
    } else {
      assert |Ancestors(t, id, location)| == |scanned| < |all| == |PlainAncestors(t, id, location)|;
    }
  }

  function LocationOf(r: Record): string { r.location }

  /** The `locations` record of a history's last row. */
  function LastRecord(rows: seq<Row>): Option<Record> {
    if rows == [] then None
    else Some(Record(rows[|rows| - 1].createdAt, rows[|rows| - 1].id, rows[|rows| - 1].location, None))
  }

  lemma HeadShowsLastRow(t: Tables, location: string)
    requires GoodAt(t, location)
    ensures LastRecord(LocRows(t, location))
            == if location in t.locHead then Some(HeadRecord(location, t.locHead[location])) else None
  {
    LocRowsIsHistory(t, location);
    var rows := LocRows(t, location);
    if rows != [] { assert rows[|rows| - 1] in rows; }
  }

  predicate ShowsHead(t: Tables, rec: Record) {
    rec.location in t.locHead && rec == HeadRecord(rec.location, t.locHead[rec.location])
  }

  lemma LocationsIsHeads(t: Tables)
    ensures Strictly(Map(Locations(t), LocationOf), StrLess)
    ensures forall rec :: rec in Locations(t) <==> ShowsHead(t, rec)
  {
    StrLeqIsTotalOrder();
    var keys, out := HeadKeys(t.locHead), Locations(t);
    forall rec | rec in out ensures ShowsHead(t, rec) {
      var i :| 0 <= i < |out| && out[i] == rec;
      assert keys[i] in keys;
    }
    forall rec | ShowsHead(t, rec) ensures rec in out {
      assert rec.location in keys;
      var i :| 0 <= i < |keys| && keys[i] == rec.location;
      assert out[i] == rec;
    }
  }

  /** `locations` lists, in order, exactly the last row of each location that has rows. */
  lemma LocationsListLastRows(t: Tables)
    requires forall location :: GoodAt(t, location)
    ensures Strictly(Map(Locations(t), LocationOf), StrLess)
    ensures forall rec :: rec in Locations(t) <==> LastRecord(LocRows(t, rec.location)) == Some(rec)
  {
    LocationsIsHeads(t);
    forall rec ensures rec in Locations(t) <==> LastRecord(LocRows(t, rec.location)) == Some(rec) {
      HeadShowsLastRow(t, rec.location);
    }
  }

  // ----- what the answers say of the rows -----

  /** `revisions` lists, newest first, each row's own time, id and location, with no previous id where none is recorded. */
  lemma RevisionsShowRows(t: Tables, location: string, k: nat)
    requires k < |LocRows(t, location)|
    ensures var rows, out := LocRows(t, location), PlainRevisions(t, location);
            var r := rows[|rows| - 1 - k];
            |out| == |rows| && out[k] == Record(r.createdAt, r.id, location, if r.prev == "" then None else Some(r.prev))
  {
    LocRowsIsHistory(t, location);
    assert LocRows(t, location)[|LocRows(t, location)| - 1 - k] in LocRows(t, location);
  }

  // ----- what the answers say of the chain -----

  /**
   A linked list, newest first: each entry's previous id is the id of the next entry, the last entry has
   none, and timestamps never increase.
  */
  ghost predicate LinkedList(out: seq<Record>) {
    && (forall k :: 0 <= k < |out| - 1 ==> out[k].previousId == Opt(out[k + 1].id))
    && (out != [] ==> out[|out| - 1].previousId == None)
    && (forall j, k :: 0 <= j < k < |out| ==> StrLeq(out[k].createdAt, out[j].createdAt))
  }

  lemma ChainIsLinkedList(rows: seq<Row>)
    requires Chain(rows) && Strictly(rows, RowBefore)
    ensures LinkedList(Map(Reverse(rows), RevisionRecord))
  {
    var back := Reverse(rows);
    forall k | 0 <= k < |back| - 1 ensures back[k].prev == back[k + 1].id {
      var i := |rows| - 1 - k;
      assert rows[i].prev == rows[i - 1].id;
    }
    forall j, k | 0 <= j < k < |back| ensures StrLeq(back[k].createdAt, back[j].createdAt) {
      assert RowBefore(rows[|rows| - 1 - k], rows[|rows| - 1 - j]);
    }
  }

  /** In a chained location `revisions` reads as a linked list of that location's rows. */
  lemma RevisionsLinkUp(t: Tables, location: string)
    requires GoodAt(t, location)
    ensures LinkedList(PlainRevisions(t, location))
    ensures forall rec :: rec in PlainRevisions(t, location) ==> rec.location == location
    ensures Agree(t) && AllReachable(t, location) ==> Revisions(t, location) == PlainRevisions(t, location)
  {
    if Agree(t) && AllReachable(t, location) { RevisionsRefinePlainQuery(t, location); }
    LocRowsIsHistory(t, location);
    var rows := LocRows(t, location);
    ChainIsLinkedList(rows);
    assert forall i :: 0 <= i < |rows| ==> rows[i] in rows;
  }

  /** The `ancestors` record of a row that directly follows another. */
  ghost predicate FollowsAt(rows: seq<Row>, i: nat, id: string, rec: Record) {
    0 < i < |rows| && rows[i].id == id && rows[i - 1].id != ""
    && rec == Record(rows[i].createdAt, rows[i - 1].id, rows[i].location, None)
  }

  lemma ReportedMembers(rows: seq<Row>, rec: Record)
    ensures rec in Map(Reverse(rows), AncestorRecord) <==> exists r :: r in rows && rec == AncestorRecord(r)
  {
    var out := Map(Reverse(rows), AncestorRecord);
    if rec in out {
      var k :| 0 <= k < |out| && out[k] == rec;
      assert rows[|rows| - 1 - k] in rows;
    }
    if r :| r in rows && rec == AncestorRecord(r) {
      var j :| 0 <= j < |rows| && rows[j] == r;
      assert out[|rows| - 1 - j] == rec;
    }
  }

  lemma PredecessorRecord(rows: seq<Row>, id: string, location: string, rec: Record)
    requires Chain(rows) && forall r :: r in rows ==> r.location == location
    ensures (exists r :: r in rows && IsAncestorRow(id, Some(location))(r) && rec == AncestorRecord(r))
            <==> exists i: nat :: FollowsAt(rows, i, id, rec)
  {
    if r :| r in rows && IsAncestorRow(id, Some(location))(r) && rec == AncestorRecord(r) {
      var i: nat :| i < |rows| && rows[i] == r;
      assert FollowsAt(rows, i, id, rec);
    }
    if i: nat :| FollowsAt(rows, i, id, rec) {
      assert rows[i] in rows && IsAncestorRow(id, Some(location))(rows[i]) && rec == AncestorRecord(rows[i]);
    }
  }

  /** In a chained location the ancestors of an id are the ids directly before its rows, each stamped with the row's own time. */
  lemma AncestorsArePredecessors(t: Tables, id: string, location: string, rec: Record)
    requires GoodAt(t, location)
    ensures rec in PlainAncestors(t, id, Some(location)) <==> exists i: nat :: FollowsAt(LocRows(t, location), i, id, rec)
    ensures Agree(t) && AllReachable(t, location) ==> Ancestors(t, id, Some(location)) == PlainAncestors(t, id, Some(location))
  {
    if Agree(t) && AllReachable(t, location) { AncestorsRefinePlainQuery(t, id, Some(location)); }
    PlainAncestorsFollow(t, id, location, rec);
  }

  lemma PlainAncestorsFollow(t: Tables, id: string, location: string, rec: Record)
    requires GoodAt(t, location)
    ensures rec in PlainAncestors(t, id, Some(location)) <==> exists i: nat :: FollowsAt(LocRows(t, location), i, id, rec)
  {
    var rows, p := LocRows(t, location), IsAncestorRow(id, Some(location));
    LocRowsIsHistory(t, location);
    AllRowsFacts(t);
    InFilter(AllRows(t), p);
    ReportedMembers(Filter(AllRows(t), p), rec);
    PredecessorRecord(rows, id, location, rec);
    assert forall r :: r in Filter(AllRows(t), p) <==> r in rows && p(r);
  }
}
