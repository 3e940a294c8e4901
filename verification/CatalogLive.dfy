/** Histories that live saves built at one location, and their rebuild from any shuffled view. */
module CatalogLive {
  import opened StringOrder
  import opened Catalog
  import opened CatalogHistory
  import opened CatalogHeads
  import opened CatalogTraces
  import opened CatalogReplay

  /** A save or log of a non-empty id. */
  predicate SavesAnId(op: Op) { !op.RebuildOp? && op.id != "" }

  /**
   One location built by saves and logs of non-empty ids at rising timestamps; at other locations anything may
   happen, in any order and at any time.
  */
  ghost predicate LiveAt(ops: seq<Op>, location: string) {
    && (forall i :: 0 <= i < |ops| && ops[i].location == location ==> SavesAnId(ops[i]) && Scannable(ops[i].createdAt))
    && (forall i, j :: 0 <= i < j < |ops| && ops[i].location == location == ops[j].location ==>
          StrLess(ops[i].createdAt, ops[j].createdAt))
  }

  /** One row a timestamp, and no empty id. */
  ghost predicate RowsDiffer(t: Tables, location: string) {
    && (forall r :: InRecords(t, r) && r.location == location ==> r.id != "")
    && (forall r, q :: InRecords(t, r) && InRecords(t, q) && r.location == location == q.location && r.createdAt == q.createdAt ==> r == q)
  }

  lemma OtherLocationStep(t: Tables, op: Op, location: string)
    requires Agree(t) && op.location != location && RowsDiffer(t, location)
    ensures RowsDiffer(Apply(t, op), location)
  {
    forall r | InRecords(Apply(t, op), r) && r.location == location ensures InRecords(t, r) { RowsFromStep(t, op, r); }
  }

  lemma OwnStep(t: Tables, op: Op)
    requires Agree(t) && SavesAnId(op) && RowsDiffer(t, op.location)
    requires forall r :: InRecords(t, r) && r.location == op.location ==> StrLess(r.createdAt, op.createdAt)
    ensures RowsDiffer(Apply(t, op), op.location)
  {
    match op
    case SaveOp(location, id, createdAt) => OwnSave(t, location, id, createdAt);
    case LogOp(event, id, location, createdAt) =>
      var t1 := AppendEvent(t, event, id, location, createdAt);
      assert forall r :: InRecords(t1, r) <==> InRecords(t, r);
      OwnSave(t1, location, id, createdAt);
  }

  lemma OwnSave(t: Tables, location: string, id: string, createdAt: string)
    requires Numbered(t) && id != "" && RowsDiffer(t, location)
    requires forall r :: InRecords(t, r) && r.location == location ==> StrLess(r.createdAt, createdAt)
    ensures RowsDiffer(Save(t, location, id, createdAt), location)
  {
    Trichotomy(createdAt, createdAt);
    InsertGrows(t, Row(createdAt, t.nextSeq, location, id, OrNull(HeadId(t, location))));
  }

  /** Rows at a live location are older than its next operation. */
  lemma RowsAreOlder(ops: seq<Op>, n: nat)
    requires n < |ops| && LiveAt(ops, ops[n].location)
    ensures forall r :: InRecords(Run(ops[..n]), r) && r.location == ops[n].location ==> StrLess(r.createdAt, ops[n].createdAt)
  {
    forall r | InRecords(Run(ops[..n]), r) && r.location == ops[n].location ensures StrLess(r.createdAt, ops[n].createdAt) {
      RowsFromOps(ops[..n], r);
      var i :| 0 <= i < n && Stamps(ops[..n][i], r);
      assert ops[..n][i] == ops[i];
    }
  }

  lemma LiveOpInOrder(t: Tables, op: Op)
    requires GoodAt(t, op.location) && SavesAnId(op)
    requires forall r :: InRecords(t, r) && r.location == op.location ==> StrLess(r.createdAt, op.createdAt)
    ensures OpInOrder(t, op)
  {
    LocRowsIsHistory(t, op.location);
    var rows := LocRows(t, op.location);
    if rows != [] { assert rows[|rows| - 1] in rows; }
  }

  lemma {:induction false} LiveFacts(ops: seq<Op>, location: string)
    requires LiveAt(ops, location)
    ensures Usable(Run(ops), location) && RowsDiffer(Run(ops), location)
  {
    if ops == [] {
      RunsAreChained([]);
    } else {
      var n := |ops| - 1;
      var before := Run(ops[..n]);
      LiveFacts(ops[..n], location);
      if ops[n].location == location {
        RowsAreOlder(ops, n);
        LiveOpInOrder(before, ops[n]);
        OwnStep(before, ops[n]);
      } else {
        OtherLocationStep(before, ops[n], location);
      }
      StepStaysUsable(before, ops[n], location);
    }
  }

  lemma StepStaysUsable(t: Tables, op: Op, location: string)
    requires Usable(t, location)
    requires op.location == location ==> !op.RebuildOp? && Scannable(op.createdAt) && OpInOrder(t, op)
    ensures Usable(Apply(t, op), location)
  {
    ApplyAgrees(t, op);
    StepGoodAt(t, op, location);
    StepStaysScannable(t, op, location);
  }

  lemma StepStaysScannable(t: Tables, op: Op, location: string)
    requires Agree(t) && ScannableAt(t, location)
    requires op.location == location ==> !op.RebuildOp? && Scannable(op.createdAt)
    ensures ScannableAt(Apply(t, op), location)
  {
    forall r | InRecords(Apply(t, op), r) && r.location == location ensures Scannable(r.createdAt) { RowsFromStep(t, op, r); }
  }

  lemma LivePairs(t: Tables, location: string)
    requires GoodAt(t, location) && RowsDiffer(t, location)
    ensures InReplayOrder(Pairs(t, location))
  {
    LocRowsIsHistory(t, location);
    var rows := LocRows(t, location);
    forall i, j | 0 <= i < j < |rows| ensures EntryLeq(EntryOf(rows[i]), EntryOf(rows[j])) {
      assert RowBefore(rows[i], rows[j]) && rows[i] in rows && rows[j] in rows;
      assert InRecords(t, rows[i]) && InRecords(t, rows[j]);
    }
    forall i | 0 < i < |rows| ensures rows[i].id != rows[i - 1].id { assert rows[i] in rows; }
  }

  /**
   Any run that is live at a location, any shuffle of that location's pairs, any catalog in which the location can
   be cleared: the rebuilt location answers `revisions`, `locations` and location-filtered `ancestors` as the live one.
  */
  lemma RebuildReproducesLiveRun(ops: seq<Op>, u: Tables, location: string, entries: seq<Entry>, id: string)
    requires LiveAt(ops, location) && Agree(u) && Clearable(u, location)
    requires multiset(entries) == multiset(Pairs(Run(ops), location))
    ensures SameAnswers(Rebuild(u, location, entries), Run(ops), location, id)
  {
    LiveFacts(ops, location);
    LivePairs(Run(ops), location);
    RebuildReproducesHistory(Run(ops), u, location, entries, id);
  }

  /** In particular after any prior run with scannable timestamps, in any order: a rebuild repairs what it left. */
  lemma RebuildRepairs(ops: seq<Op>, prior: seq<Op>, location: string, entries: seq<Entry>, id: string)
    requires LiveAt(ops, location) && forall i :: 0 <= i < |prior| ==> OpScannable(prior[i])
    requires multiset(entries) == multiset(Pairs(Run(ops), location))
    ensures SameAnswers(Rebuild(Run(prior), location, entries), Run(ops), location, id)
  {
    RunsAreClearable(prior, location);
    RebuildReproducesLiveRun(ops, Run(prior), location, entries, id);
  }
}
