/** Where rows come from over a run, and a condition on the run's text alone that keeps it in order. */
module CatalogTraces {
  import opened Options
  import opened Sorting
  import opened StringOrder
  import opened Catalog
  import opened CatalogHistory

  /** The timestamps an operation may give a row. */
  function StampsOf(op: Op): set<string> {
    match op
    case SaveOp(_, _, createdAt) => {createdAt}
    case LogOp(_, _, _, createdAt) => {createdAt}
    case RebuildOp(_, entries) => set e | e in entries :: e.createdAt
  }

  predicate Stamps(op: Op, r: Row) { op.location == r.location && r.createdAt in StampsOf(op) }

  /** A replay adds exactly its own rows. */
  lemma {:induction false} ReplayAdds(t: Tables, location: string, head: Option<string>, entries: seq<Entry>)
    requires Numbered(t)
    ensures Numbered(Replay(t, location, head, entries))
    ensures forall r :: InRecords(Replay(t, location, head, entries), r)
                        <==> InRecords(t, r) || r in ReplayRows(location, t.nextSeq, head, entries)
    decreases |entries|
  {
    if entries != [] {
      var e := entries[0];
      if head == Some(e.id) {
        ReplayAdds(t, location, head, entries[1..]);
      } else {
        InsertGrows(t, Row(e.createdAt, t.nextSeq, location, e.id, OrNull(head)));
        ReplayAdds(InsertHistory(t, location, e.id, head, e.createdAt), location, Some(e.id), entries[1..]);
      }
    }
  }

  lemma {:induction false} ReplayedStamps(location: string, seqNo: nat, head: Option<string>, entries: seq<Entry>, r: Row)
    requires r in ReplayRows(location, seqNo, head, entries)
    ensures r.location == location && exists e :: e in entries && e.createdAt == r.createdAt
    decreases |entries|
  {
    var e, next := entries[0], if head == Some(entries[0].id) then seqNo else seqNo + 1;
    if !(head != Some(e.id) && r == Row(e.createdAt, seqNo, location, e.id, OrNull(head))) {
      ReplayedStamps(location, next, Some(e.id), entries[1..], r);
      var f :| f in entries[1..] && f.createdAt == r.createdAt;
      assert f in entries;
    }
  }

  /** A row that an operation adds is at its location and carries one of its timestamps. */
  lemma RowsFromStep(t: Tables, op: Op, r: Row)
    requires Agree(t) && InRecords(Apply(t, op), r)
    ensures InRecords(t, r) || Stamps(op, r)
  {
    match op
    case SaveOp(location, id, createdAt) =>
      InsertGrows(t, Row(createdAt, t.nextSeq, location, id, OrNull(HeadId(t, location))));
    case LogOp(event, id, location, createdAt) =>
      var t1 := AppendEvent(t, event, id, location, createdAt);
      assert forall q :: InRecords(t1, q) <==> InRecords(t, q);
      InsertGrows(t1, Row(createdAt, t1.nextSeq, location, id, OrNull(HeadId(t1, location))));
    case RebuildOp(location, entries) =>
      var sorted := Sort(entries, EntryLeq);
      ClearedRows(t, location);
      ReplayAdds(ClearLocation(t, location), location, None, sorted);
      if !InRecords(t, r) {
        ReplayedStamps(location, t.nextSeq, None, sorted, r);
        SortPermutes(entries, EntryLeq);
        var e :| e in sorted && e.createdAt == r.createdAt;
        assert e in Elements(sorted);
      }
  }

  /** Every row of a run was stamped by one of its operations, on the row's own location. */
  ghost predicate FromOps(ops: seq<Op>, r: Row) {
    exists i :: 0 <= i < |ops| && Stamps(ops[i], r)
  }

  lemma {:induction false} RowsFromOps(ops: seq<Op>, r: Row)
    requires InRecords(Run(ops), r)
    ensures FromOps(ops, r)
  {
    if ops != [] {
      var before, last := ops[..|ops| - 1], ops[|ops| - 1];
      RunsAgree(before);
      RowsFromStep(Run(before), last, r);
      if InRecords(Run(before), r) {
        RowsFromOps(before, r);
        var i :| 0 <= i < |before| && Stamps(before[i], r);
        assert ops[i] == before[i];
      }
    }
  }

  /** No timestamp of `a` is after the save or log `b`. */
  ghost predicate NotAfter(a: Op, b: Op) {
    b.RebuildOp? || forall s :: s in StampsOf(a) ==> StrLeq(s, b.createdAt)
  }

  /** At each location, no save or log is stamped before anything that came before it. */
  ghost predicate TraceInOrder(ops: seq<Op>) {
    && (forall i :: 0 <= i < |ops| ==> OpScannable(ops[i]))
    && (forall i, j :: 0 <= i < j < |ops| && ops[i].location == ops[j].location ==> NotAfter(ops[i], ops[j]))
  }

  /** With non-decreasing timestamps at each location, rebuilds anywhere in between, every operation is in order when applied. */
  lemma {:induction false} TracesAreInOrder(ops: seq<Op>)
    requires TraceInOrder(ops)
    ensures RunInOrder(ops)
  {
    if ops != [] {
      var n := |ops| - 1;
      TracesAreInOrder(ops[..n]);
      RunsAreChained(ops[..n]);
      if !ops[n].RebuildOp? && ops[n].location in Run(ops[..n]).locHead { LastIsInOrder(ops, n); }
    }
  }

  lemma LastIsInOrder(ops: seq<Op>, n: nat)
    requires n < |ops| && !ops[n].RebuildOp? && GoodAt(Run(ops[..n]), ops[n].location)
    requires forall i :: 0 <= i < n && ops[i].location == ops[n].location ==> NotAfter(ops[i], ops[n])
    ensures NotBehind(Run(ops[..n]), ops[n].location, ops[n].createdAt)
  {
    var t, location := Run(ops[..n]), ops[n].location;
    var rows := LocRows(t, location);
    LocRowsIsHistory(t, location);
    if rows != [] {
      var last := rows[|rows| - 1];
      assert last in rows;
      RowsFromOps(ops[..n], last);
      var i :| 0 <= i < n && Stamps(ops[..n][i], last);
      assert NotAfter(ops[i], ops[n]);
    }
  }

  /** So its locations are chained, with their heads last. */
  lemma TracesAreChained(ops: seq<Op>)
    requires TraceInOrder(ops)
    ensures Good(Run(ops))
  {
    TracesAreInOrder(ops);
    RunsAreChained(ops);
  }
}
