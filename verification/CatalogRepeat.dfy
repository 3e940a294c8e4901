/** Rebuilding twice from one store view, whatever the catalog held and whatever the view's timestamps. */
module CatalogRepeat {
  import opened Options
  import opened Sorting
  import opened StringOrder
  import opened Machine
  import opened Catalog
  import opened CatalogHistory
  import opened CatalogTraces
  import opened CatalogQueries
  import opened CatalogReplay

  // ----- what the scans see after a rebuild -----

  /** Rows a replay adds are at its location, not before its first entry, and numbered from `seqNo` on. */
  lemma {:induction false} ReplayRowsAre(location: string, seqNo: nat, head: Option<string>, entries: seq<Entry>)
    requires Sorted(entries, EntryLeq)
    ensures Strictly(ReplayRows(location, seqNo, head, entries), RowBefore)
    ensures forall r :: r in ReplayRows(location, seqNo, head, entries) ==>
              r.location == location && seqNo <= r.seqNo < seqNo + |entries|
              && StrLeq(entries[0].createdAt, r.createdAt) && exists e :: e in entries && e.createdAt == r.createdAt
    decreases |entries|
  {
    if entries != [] {
      var e, n := entries[0], if head == Some(entries[0].id) then seqNo else seqNo + 1;
      var rest := ReplayRows(location, n, Some(e.id), entries[1..]);
      ReplayRowsAre(location, n, Some(e.id), entries[1..]);
      StrLeqIsTotalOrder();
      forall r | r in rest ensures StrLeq(e.createdAt, r.createdAt) && exists f :: f in entries && f.createdAt == r.createdAt {
        assert EntryLeq(e, entries[1]) && entries[1..][0] == entries[1];
        var f :| f in entries[1..] && f.createdAt == r.createdAt;
        assert f in entries;
      }
      assert e in entries;
    }
  }

  /** The rows a prefix scan of a rebuilt location sees are the replay's rows within reach, and no others. */
  lemma RebuiltScan(t: Tables, location: string, entries: seq<Entry>)
    requires Agree(t)
    ensures RowsByLocation(Rebuild(t, location, entries).byLocation, location)
            == Filter(ReplayRows(location, t.nextSeq, None, Sort(entries, EntryLeq)), IsReachable)
  {
    var sorted, cleared, rebuilt := Sort(entries, EntryLeq), ClearLocation(t, location), Rebuild(t, location, entries);
    var added := ReplayRows(location, t.nextSeq, None, sorted);
    EntryLeqIsTotalOrder();
    SortSorts(entries, EntryLeq);
    ClearedRows(t, location);
    RebuildAgrees(t, location, entries);
    ReplayAdds(cleared, location, None, sorted);
    ReplayRowsAre(location, t.nextSeq, None, sorted);
    LocationScan(rebuilt, location);
    FilterStrictly(added, IsReachable, RowBefore);
    InFilter(added, IsReachable);
    assert forall r :: r in Filter(added, IsReachable) <==> InRecords(rebuilt, r) && ReachableAt(location)(r);
    FilteredHistory(rebuilt, Filter(added, IsReachable), ReachableAt(location));
  }

  /** What `locations` shows of a location. */
  function ShownHead(t: Tables, location: string): Option<Record> {
    if location in t.locHead then Some(HeadRecord(location, t.locHead[location])) else None
  }

  lemma {:induction false} ReplayedHead(t: Tables, location: string, head: Option<string>, entries: seq<Entry>)
    ensures var rows := ReplayRows(location, t.nextSeq, head, entries);
            ShownHead(Replay(t, location, head, entries), location) == if rows == [] then ShownHead(t, location) else LastRecord(rows)
    decreases |entries|
  {
    if entries != [] {
      if head == Some(entries[0].id) {
        ReplayedHead(t, location, head, entries[1..]);
      } else {
        ReplayedHead(InsertHistory(t, location, entries[0].id, head, entries[0].createdAt), location, Some(entries[0].id), entries[1..]);
      }
    }
  }

  // ----- answers from scans -----

  lemma AncestorsFromScan(t: Tables, location: string, id: string)
    requires Agree(t)
    ensures Ancestors(t, id, Some(location))
            == Map(Reverse(Filter(RowsByLocation(t.byLocation, location), IsAncestorRow(id, Some(location)))), AncestorRecord)
  {
    IdScan(t, id);
    LocationScan(t, location);
    FilterReverse(RowsById(t.byId, id), Linked(Some(location)));
    ByIdThenLocation(AllRows(t), location, id);
    ByLocationThenId(AllRows(t), location, id);
  }

  function AnswersRow(location: string, id: string): Row -> bool {
    (r: Row) => r.id == id && r.prev != NULL_PREV && r.location == location && Reachable(r.createdAt, r.seqNo)
  }

  lemma ByIdThenLocation(rows: seq<Row>, location: string, id: string)
    ensures Filter(Filter(rows, ReachableId(id)), Linked(Some(location))) == Filter(rows, AnswersRow(location, id))
  {
    FilterFilter(rows, ReachableId(id), Linked(Some(location)), AnswersRow(location, id));
  }

  lemma ByLocationThenId(rows: seq<Row>, location: string, id: string)
    ensures Filter(Filter(rows, ReachableAt(location)), IsAncestorRow(id, Some(location))) == Filter(rows, AnswersRow(location, id))
  {
    FilterFilter(rows, ReachableAt(location), IsAncestorRow(id, Some(location)), AnswersRow(location, id));
  }

  /** Scans with the same links and the same shown head answer every query alike. */
  lemma ScansAnswerAlike(t: Tables, u: Tables, location: string, id: string)
    requires Agree(t) && Agree(u) && ShownHead(t, location) == ShownHead(u, location)
    requires Map(RowsByLocation(t.byLocation, location), LinkOf) == Map(RowsByLocation(u.byLocation, location), LinkOf)
    ensures SameAnswers(t, u, location, id)
  {
    ScannedAt(t, location);
    ScannedAt(u, location);
    SameLinks(RowsByLocation(t.byLocation, location), RowsByLocation(u.byLocation, location), location);
    SameAncestors(RowsByLocation(t.byLocation, location), RowsByLocation(u.byLocation, location), id, location);
    AncestorsFromScan(t, location, id);
    AncestorsFromScan(u, location, id);
    LocationsIsHeads(t);
    LocationsIsHeads(u);
  }

  lemma ScannedAt(t: Tables, location: string)
    requires Agree(t)
    ensures forall r :: r in RowsByLocation(t.byLocation, location) ==> r.location == location
  {
    forall r | r in RowsByLocation(t.byLocation, location) ensures r.location == location { LocationScanRow(t, location, r); }
  }

  // ----- twice is once -----

  /** Numbering replayed rows from elsewhere keeps which of them are within reach. */
  lemma {:induction false} ReachableLinks(rows: seq<Row>, other: seq<Row>)
    requires Map(rows, LinkOf) == Map(other, LinkOf)
    requires forall r :: r in rows || r in other ==> (r.createdAt == TOP ==> r.seqNo <= U64_MAX)
    ensures Map(Filter(rows, IsReachable), LinkOf) == Map(Filter(other, IsReachable), LinkOf)
  {
    FirstLinks(rows, other);
    if rows != [] {
      assert rows[0] in rows && other[0] in other;
      ReachableLinks(rows[1..], other[1..]);
      assert IsReachable(rows[0]) == IsReachable(other[0]);
    }
  }

  /** Only an entry stamped exactly with the scans' upper end needs the counter to stay within 64 bits. */
  ghost predicate CounterFits(entries: seq<Entry>, seqNo: nat) {
    forall e :: e in entries && e.createdAt == TOP ==> seqNo + |entries| <= U64_MAX
  }

  lemma RowsFit(location: string, seqNo: nat, entries: seq<Entry>)
    requires CounterFits(entries, seqNo)
    ensures forall r :: r in ReplayRows(location, seqNo, None, Sort(entries, EntryLeq)) && r.createdAt == TOP ==> r.seqNo <= U64_MAX
  {
    var sorted := Sort(entries, EntryLeq);
    EntryLeqIsTotalOrder();
    SortSorts(entries, EntryLeq);
    SortPermutes(entries, EntryLeq);
    ReplayRowsAre(location, seqNo, None, sorted);
    forall r | r in ReplayRows(location, seqNo, None, sorted) && r.createdAt == TOP ensures r.seqNo <= U64_MAX {
      var e :| e in sorted && e.createdAt == r.createdAt;
      assert e in Elements(sorted);
    }
  }

  /** Rebuilding a location that shows nothing from an empty view changes nothing. */
  lemma NothingToClear(t: Tables, location: string)
    requires Agree(t) && RowsByLocation(t.byLocation, location) == []
    ensures ClearLocation(t, location) == t
  {
    var keys := Scan(t.byLocation.Keys, location);
    assert |keys| == 0;
    assert forall k :: k in Victims(t, location) ==> k in keys;
  }

  /**
   Rebuilding again from the same store view, in any order, answers every query alike: for any catalog whose
   tables agree and any timestamps, even ones the scans cannot reach.
  */
  lemma RebuildIsIdempotent(t: Tables, location: string, entries: seq<Entry>, shuffled: seq<Entry>, id: string)
    requires Agree(t) && multiset(entries) == multiset(shuffled)
    requires CounterFits(entries, t.nextSeq) && CounterFits(entries, Rebuild(t, location, entries).nextSeq)
    ensures SameAnswers(Rebuild(Rebuild(t, location, entries), location, shuffled), Rebuild(t, location, entries), location, id)
  {
    RebuildIgnoresOrder(Rebuild(t, location, entries), location, entries, shuffled);
    RebuildAgrees(t, location, entries);
    RebuiltScan(t, location, entries);
    RebuiltShownHead(t, location, entries);
    RowsFit(location, t.nextSeq, entries);
    RepeatAlike(Rebuild(t, location, entries), location, t.nextSeq, entries, id);
  }

  lemma RebuiltShownHead(t: Tables, location: string, entries: seq<Entry>)
    ensures var rows := ReplayRows(location, t.nextSeq, None, Sort(entries, EntryLeq));
            rows != [] ==> ShownHead(Rebuild(t, location, entries), location) == LastRecord(rows)
  {
    ReplayedHead(ClearLocation(t, location), location, None, Sort(entries, EntryLeq));
  }

  lemma RepeatAlike(once: Tables, location: string, seqNo: nat, entries: seq<Entry>, id: string)
    requires Agree(once) && CounterFits(entries, once.nextSeq)
    requires var rows := ReplayRows(location, seqNo, None, Sort(entries, EntryLeq));
             && RowsByLocation(once.byLocation, location) == Filter(rows, IsReachable)
             && (rows != [] ==> ShownHead(once, location) == LastRecord(rows))
             && (forall r :: r in rows && r.createdAt == TOP ==> r.seqNo <= U64_MAX)
    ensures SameAnswers(Rebuild(once, location, entries), once, location, id)
  {
    var sorted := Sort(entries, EntryLeq);
    var rows, again := ReplayRows(location, seqNo, None, sorted), ReplayRows(location, once.nextSeq, None, sorted);
    ReplayedLinks(location, seqNo, None, sorted);
    ReplayedLinks(location, once.nextSeq, None, sorted);
    assert |rows| == |Map(rows, LinkOf)| == |again|;
    RebuildAgrees(once, location, entries);
    RebuiltScan(once, location, entries);
    RowsFit(location, once.nextSeq, entries);
    ReachableLinks(again, rows);
    if rows == [] {
      NoRowsNoEntries(location, seqNo, sorted);
      NothingToClear(once, location);
    } else {
      RebuiltShownHead(once, location, entries);
      LastLinks(again, rows, location, sorted, once.nextSeq, seqNo);
    }
    ScansAnswerAlike(Rebuild(once, location, entries), once, location, id);
  }

  lemma NoRowsNoEntries(location: string, seqNo: nat, entries: seq<Entry>)
    requires ReplayRows(location, seqNo, None, entries) == []
    ensures entries == []
  {
  }

  lemma LastLinks(rows: seq<Row>, other: seq<Row>, location: string, entries: seq<Entry>, n: nat, m: nat)
    requires rows == ReplayRows(location, n, None, entries) && other == ReplayRows(location, m, None, entries)
    requires rows != [] && Map(rows, LinkOf) == Map(other, LinkOf)
    ensures LastRecord(rows) == LastRecord(other)
  {
    forall r | r in rows ensures r.location == location { ReplayedStamps(location, n, None, entries, r); }
    forall r | r in other ensures r.location == location { ReplayedStamps(location, m, None, entries, r); }
    SameLinks(rows, other, location);
  }
}
