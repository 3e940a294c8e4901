/** The catalog as an object: the same operations as loops and table updates on mutable state. */
module CatalogStore {
  import opened Options
  import opened Sorting
  import opened Catalog
  import opened CatalogQueries

  class Store {
    var records: map<TimeKey, HistVal>
    var locHead: map<string, Head>
    var byLocation: map<IndexKey, LocVal>
    var byId: map<IndexKey, IdVal>
    var eventLog: map<TimeKey, Event>
    var nextSeq: nat

    function View(): Tables
      reads this
    {
      Tables(records, locHead, byLocation, byId, eventLog, nextSeq)
    }

    constructor Open()
      ensures View() == EMPTY
    {
      records, locHead, byLocation, byId, eventLog, nextSeq := map[], map[], map[], map[], map[], 0;
    }

    method HeadOf(location: string) returns (id: Option<string>)
      ensures id == HeadId(View(), location)
    {
      if location !in locHead {
        return None;
      }
      id := if locHead[location].id == "" then None else Some(locHead[location].id);
    }

    method TakeSeq() returns (next: nat)
      modifies this`nextSeq
      ensures next == old(nextSeq) && nextSeq == next + 1
    {
      next := nextSeq;
      nextSeq := nextSeq + 1;
    }

    method Insert(location: string, id: string, previous: Option<string>, createdAt: string)
      modifies this
      ensures View() == InsertHistory(old(View()), location, id, previous, createdAt)
    {
      var seqNo := TakeSeq();
      var prev := match previous case Some(p) => p case None => NULL_PREV;
      records := records[TimeKey(createdAt, seqNo) := HistVal(location, id, prev)];
      locHead := locHead[location := Head(createdAt, seqNo, id)];
      byLocation := byLocation[IndexKey(location, createdAt, seqNo) := LocVal(id, prev)];
      byId := byId[IndexKey(id, createdAt, seqNo) := IdVal(prev, location)];
    }

    method SaveAt(location: string, id: string, createdAt: string)
      modifies this
      ensures View() == Save(old(View()), location, id, createdAt)
    {
      var previous := HeadOf(location);
      if previous == Some(id) {
        return;
      }
      Insert(location, id, previous, createdAt);
    }

    method LogAt(event: string, id: string, location: string, createdAt: string)
      modifies this
      ensures View() == Log(old(View()), event, id, location, createdAt)
    {
      var seqNo := TakeSeq();
      eventLog := eventLog[TimeKey(createdAt, seqNo) := Event(event, id, location)];
      assert View() == AppendEvent(old(View()), event, id, location, createdAt);
      var previous := HeadOf(location);
      if previous == Some(id) {
        return;
      }
      Insert(location, id, previous, createdAt);
    }

    /** Removes one victim's row from the three tables. */
    method Drop(k: IndexKey, id: string)
      modifies this
      ensures View() == WithoutKey(old(View()), k, id)
    {
      records := records - {TimeKey(k.createdAt, k.seqNo)};
      byLocation := byLocation - {k};
      byId := byId - {IndexKey(id, k.createdAt, k.seqNo)};
    }

    method Clear(location: string)
      modifies this
      ensures View() == ClearLocation(old(View()), location)
    {
      var victims := Scan(byLocation.Keys, location);
      ghost var t := View();
      VictimsScanned(t, location, victims);
      if victims == [] {
        return;
      }
      var snapshot := byLocation;
      var i := 0;
      while i < |victims|
        invariant 0 <= i <= |victims|
        invariant View() == Without(t, Elements(victims[..i]))
      {
        var k := victims[i];
        assert k in victims;
        var id := snapshot[k].id;
        WithoutOneMore(t, victims, i);
        Drop(k, id);
        i := i + 1;
      }
      assert victims[..i] == victims;
      locHead := locHead - {location};
    }

    method RebuildFrom(location: string, entries: seq<Entry>)
      modifies this
      ensures View() == Rebuild(old(View()), location, entries)
    {
      var sorted := Sort(entries, EntryLeq);
      Clear(location);
      var head: Option<string> := None;
      ghost var goal := Replay(View(), location, None, sorted);
      var i := 0;
      while i < |sorted|
        invariant 0 <= i <= |sorted|
        invariant Replay(View(), location, head, sorted[i..]) == goal
      {
        var entry := sorted[i];
        assert sorted[i..][1..] == sorted[i + 1..];
        if head != Some(entry.id) {
          Insert(location, entry.id, head, entry.createdAt);
          head := Some(entry.id);
        }
        i := i + 1;
      }
    }

    method ListLocations() returns (out: seq<Record>)
      ensures out == Locations(View())
    {
      var table := locHead;
      var keys := HeadKeys(table);
      out := [];
      for i := 0 to |keys|
        invariant |out| == i
        invariant forall j :: 0 <= j < i ==> keys[j] in table && out[j] == HeadRecord(keys[j], table[keys[j]])
      {
        assert keys[i] in keys;
        var head := table[keys[i]];
        out := out + [Record(head.createdAt, head.id, keys[i], None)];
      }
      LocationsPointwise(View(), out);
    }

    method ListRevisions(location: string) returns (out: seq<Record>)
      ensures out == Revisions(View(), location)
    {
      var table := byLocation;
      var keys := Scan(table.Keys, location);
      ScannedKeys(table.Keys, location);
      var i := |keys|;
      out := [];
      while i > 0
        invariant 0 <= i <= |keys| && |out| == |keys| - i
        invariant forall j :: 0 <= j < |out| ==>
                    keys[|keys| - 1 - j] in table && out[j] == RevisionRecord(LocationRow(table, keys[|keys| - 1 - j]))
      {
        i := i - 1;
        var k := keys[i];
        var v := table[k];
        out := out + [Record(k.createdAt, v.id, location, Opt(v.prev))];
      }
      RevisionsPointwise(View(), location, out);
    }

    method ListAncestors(id: string, location: Option<string>) returns (out: seq<Record>)
      ensures out == Ancestors(View(), id, location)
    {
      var table := byId;
      var keys := Scan(table.Keys, id);
      ScannedKeys(table.Keys, id);
      var i := |keys|;
      out := [];
      while i > 0
        invariant 0 <= i <= |keys|
        invariant out == Collected(table, keys, i, location)
      {
        i := i - 1;
        CollectedOneMore(table, keys, i, location);
        var k := keys[i];
        var v := table[k];
        if v.prev == NULL_PREV {
          continue;
        }
        if location.Some? && v.location != location.value {
          continue;
        }
        out := out + [Record(k.createdAt, v.prev, v.location, None)];
      }
      CollectedIsAncestors(View(), id, location);
    }
  }

  lemma ScannedKeys(keys: set<IndexKey>, prefix: string)
    ensures forall j :: 0 <= j < |Scan(keys, prefix)| ==> Scan(keys, prefix)[j] in keys && Scan(keys, prefix)[j].prefix == prefix
  {
    var scan := Scan(keys, prefix);
    forall j | 0 <= j < |scan| ensures scan[j] in keys && scan[j].prefix == prefix {
      assert scan[j] in scan;
      ScanReach(prefix, scan[j]);
    }
  }

  /** What the scan has reported when it has come down to key `i`. */
  function Collected(index: map<IndexKey, IdVal>, keys: seq<IndexKey>, i: nat, location: Option<string>): seq<Record>
    requires i <= |keys| && forall j :: 0 <= j < |keys| ==> keys[j] in index
    decreases |keys| - i
  {
    if i == |keys| then []
    else
      var r := IdRow(index, keys[i]);
      Collected(index, keys, i + 1, location)
      + (if r.prev != NULL_PREV && (location.Some? ==> r.location == location.value) then [AncestorRecord(r)] else [])
  }

  lemma LocationsPointwise(t: Tables, out: seq<Record>)
    requires var keys := HeadKeys(t.locHead);
             && |out| == |keys|
             && (forall j :: 0 <= j < |keys| ==> keys[j] in t.locHead && out[j] == HeadRecord(keys[j], t.locHead[keys[j]]))
    ensures out == Locations(t)
  {
  }

  lemma CollectedOneMore(index: map<IndexKey, IdVal>, keys: seq<IndexKey>, i: nat, location: Option<string>)
    requires i < |keys| && forall j :: 0 <= j < |keys| ==> keys[j] in index
    ensures var v := index[keys[i]];
            Collected(index, keys, i, location)
            == if v.prev == NULL_PREV || (location.Some? && v.location != location.value) then Collected(index, keys, i + 1, location)
               else Collected(index, keys, i + 1, location) + [Record(keys[i].createdAt, v.prev, v.location, None)]
  {
  }

  lemma CollectedIsAncestors(t: Tables, id: string, location: Option<string>)
    requires forall j :: 0 <= j < |Scan(t.byId.Keys, id)| ==> Scan(t.byId.Keys, id)[j] in t.byId
    ensures Collected(t.byId, Scan(t.byId.Keys, id), 0, location) == Ancestors(t, id, location)
  {
    var keys, rows := Scan(t.byId.Keys, id), RowsById(t.byId, id);
    CollectedRows(t.byId, keys, rows, 0, location);
    assert rows[0..] == rows;
  }

  lemma {:induction false} CollectedRows(index: map<IndexKey, IdVal>, keys: seq<IndexKey>, rows: seq<Row>, i: nat, location: Option<string>)
    requires i <= |keys| == |rows| && forall j :: 0 <= j < |keys| ==> keys[j] in index
    requires forall j :: 0 <= j < |keys| ==> rows[j] == IdRow(index, keys[j])
    ensures Collected(index, keys, i, location) == Reported(Reverse(rows[i..]), location)
    decreases |keys| - i
  {
    if i < |keys| {
      CollectedRows(index, keys, rows, i + 1, location);
      assert Reverse(rows[i..]) == Reverse(rows[i + 1..]) + [rows[i]];
      ReportedOneMore(Reverse(rows[i + 1..]), rows[i], location);
    }
  }

  lemma VictimsScanned(t: Tables, location: string, victims: seq<IndexKey>)
    requires victims == Scan(t.byLocation.Keys, location)
    ensures Elements(victims) == Victims(t, location)
    ensures victims == [] <==> Victims(t, location) == {}
    ensures forall k :: k in victims ==> k in t.byLocation
    ensures forall n :: 0 <= n <= |victims| ==> Elements(victims[..n]) <= t.byLocation.Keys
  {
    if victims == [] {
      assert forall k :: k in Victims(t, location) ==> k in victims;
    } else {
      assert victims[0] in victims;
    }
  }

  function WithoutKey(t: Tables, k: IndexKey, id: string): Tables {
    t.(records := t.records - {TimeKey(k.createdAt, k.seqNo)},
       byLocation := t.byLocation - {k},
       byId := t.byId - {IndexKey(id, k.createdAt, k.seqNo)})
  }

  lemma WithoutOneMore(t: Tables, victims: seq<IndexKey>, i: nat)
    requires i < |victims| && Elements(victims[..i]) <= t.byLocation.Keys && Elements(victims[..i + 1]) <= t.byLocation.Keys
    requires victims[i] in t.byLocation
    ensures Without(t, Elements(victims[..i + 1]))
            == WithoutKey(Without(t, Elements(victims[..i])), victims[i], t.byLocation[victims[i]].id)
  {
    var done, more, k := Elements(victims[..i]), Elements(victims[..i + 1]), victims[i];
    assert victims[..i + 1] == victims[..i] + [k];
    assert more == done + {k};
    assert TimeKeys(more) == TimeKeys(done) + {TimeKey(k.createdAt, k.seqNo)};
    assert IdKeys(t.byLocation, more) == IdKeys(t.byLocation, done) + {IndexKey(t.byLocation[k].id, k.createdAt, k.seqNo)};
  }

  lemma RevisionsPointwise(t: Tables, location: string, out: seq<Record>)
    requires var keys := Scan(t.byLocation.Keys, location);
             && |out| == |keys|
             && (forall j :: 0 <= j < |keys| ==>
                   keys[|keys| - 1 - j] in t.byLocation
                   && out[j] == RevisionRecord(LocationRow(t.byLocation, keys[|keys| - 1 - j])))
    ensures out == Revisions(t, location)
  {
    assert |Revisions(t, location)| == |RowsByLocation(t.byLocation, location)| == |out|;
    forall i | 0 <= i < |out| ensures out[i] == Revisions(t, location)[i] { RevisionAt(t, location, i); }
  }

  lemma RevisionAt(t: Tables, location: string, i: nat)
    requires i < |Scan(t.byLocation.Keys, location)|
    ensures var keys := Scan(t.byLocation.Keys, location);
            && keys[|keys| - 1 - i] in t.byLocation && i < |Revisions(t, location)|
            && Revisions(t, location)[i] == RevisionRecord(LocationRow(t.byLocation, keys[|keys| - 1 - i]))
  {
    var keys := Scan(t.byLocation.Keys, location);
    assert keys[|keys| - 1 - i] in keys;
  }

  lemma ReportedOneMore(rows: seq<Row>, r: Row, location: Option<string>)
    ensures Reported(rows + [r], location)
            == Reported(rows, location) + if Linked(location)(r) then [AncestorRecord(r)] else []
  {
    var p := Linked(location);
    FilterConcat(rows, [r], p);
    assert Filter([r], p) == if p(r) then [r] else [];
  }
}
