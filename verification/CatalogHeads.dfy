/** The head table over whole runs, whatever the order of the timestamps. */
module CatalogHeads {
  import opened Options
  import opened Sorting
  import opened Catalog
  import opened CatalogHistory

  /** Every head names a row of its location, and every location with rows has a head. */
  ghost predicate HeadsAgree(t: Tables) {
    && (forall location :: location in t.locHead ==> exists r :: NamedBy(t, location, r))
    && (forall r: Row :: InRecords(t, r) ==> r.location in t.locHead)
  }

  ghost predicate NamedBy(t: Tables, location: string, r: Row) {
    InRecords(t, r) && r.location == location && t.locHead.Keys >= {location}
    && t.locHead[location] == Head(r.createdAt, r.seqNo, r.id)
  }

  lemma InsertKeepsHeads(t: Tables, r: Row)
    requires Numbered(t) && r.seqNo == t.nextSeq && HeadsAgree(t)
    ensures HeadsAgree(InsertRow(t, r).(nextSeq := t.nextSeq + 1))
  {
    InsertGrows(t, r);
    var t' := InsertRow(t, r).(nextSeq := t.nextSeq + 1);
    forall location | location in t'.locHead ensures exists q :: NamedBy(t', location, q) {
      if location == r.location {
        assert NamedBy(t', location, r);
      } else {
        var q :| NamedBy(t, location, q);
        assert NamedBy(t', location, q);
      }
    }
  }

  /** Clearing a location keeps heads and rows in step exactly when it finds none of the location's rows or all of them. */
  lemma ClearKeepsHeadsIff(t: Tables, location: string)
    requires Agree(t) && HeadsAgree(t)
    ensures HeadsAgree(ClearLocation(t, location)) <==> NoneReachable(t, location) || AllReachable(t, location)
  {
    ClearedRows(t, location);
    VictimsAreReachable(t, location);
    if Victims(t, location) != {} {
      HeadsAfterClear(t, ClearLocation(t, location), location);
    }
  }

  lemma HeadsAfterClear(t: Tables, t': Tables, location: string)
    requires HeadsAgree(t) && t'.locHead == t.locHead - {location}
    requires forall r :: InRecords(t', r) <==> InRecords(t, r) && !(r.location == location && Reachable(r.createdAt, r.seqNo))
    ensures HeadsAgree(t') <==> AllReachable(t, location)
  {
    forall other | other in t'.locHead ensures exists r :: NamedBy(t', other, r) {
      var r :| NamedBy(t, other, r);
      assert NamedBy(t', other, r);
    }
    if r :| InRecords(t, r) && r.location == location && !Reachable(r.createdAt, r.seqNo) {
      assert InRecords(t', r) && r.location !in t'.locHead;
    }
  }

  lemma {:induction false} ReplayKeepsHeads(t: Tables, location: string, head: Option<string>, entries: seq<Entry>)
    requires Numbered(t) && HeadsAgree(t)
    ensures HeadsAgree(Replay(t, location, head, entries))
    decreases |entries|
  {
    if entries != [] {
      var e := entries[0];
      if head == Some(e.id) {
        ReplayKeepsHeads(t, location, head, entries[1..]);
      } else {
        var r := Row(e.createdAt, t.nextSeq, location, e.id, OrNull(head));
        InsertGrows(t, r);
        InsertKeepsHeads(t, r);
        ReplayKeepsHeads(InsertHistory(t, location, e.id, head, e.createdAt), location, Some(e.id), entries[1..]);
      }
    }
  }

  lemma SaveKeepsHeads(t: Tables, location: string, id: string, createdAt: string)
    requires Numbered(t) && HeadsAgree(t)
    ensures HeadsAgree(Save(t, location, id, createdAt))
  {
    InsertKeepsHeads(t, Row(createdAt, t.nextSeq, location, id, OrNull(HeadId(t, location))));
  }

  lemma EventKeepsHeads(t: Tables, event: string, id: string, location: string, createdAt: string)
    requires Numbered(t) && HeadsAgree(t)
    ensures Numbered(AppendEvent(t, event, id, location, createdAt)) && HeadsAgree(AppendEvent(t, event, id, location, createdAt))
  {
    var t1 := AppendEvent(t, event, id, location, createdAt);
    assert forall r :: InRecords(t1, r) <==> InRecords(t, r);
    forall l | l in t1.locHead ensures exists r :: NamedBy(t1, l, r) {
      var r :| NamedBy(t, l, r);
      assert NamedBy(t1, l, r);
    }
  }

  lemma StepKeepsHeads(t: Tables, op: Op)
    requires Agree(t) && AllScannable(t) && HeadsAgree(t)
    ensures HeadsAgree(Apply(t, op))
  {
    match op
    case SaveOp(location, id, createdAt) => SaveKeepsHeads(t, location, id, createdAt);
    case LogOp(event, id, location, createdAt) =>
      EventKeepsHeads(t, event, id, location, createdAt);
      SaveKeepsHeads(AppendEvent(t, event, id, location, createdAt), location, id, createdAt);
    case RebuildOp(location, entries) =>
      ClearKeepsHeadsIff(t, location);
      ClearedRows(t, location);
      ReplayKeepsHeads(ClearLocation(t, location), location, None, Sort(entries, EntryLeq));
  }

  /** Heads and rows in step, and rows within reach, let a location be cleared. */
  lemma HeadsMakeClearable(t: Tables, location: string)
    requires HeadsAgree(t) && AllReachable(t, location)
    ensures Clearable(t, location)
  {
    if location in t.locHead { var r :| NamedBy(t, location, r); }
  }

  /** After any run with scannable timestamps, in any order, every location can be cleared. */
  lemma RunsAreClearable(ops: seq<Op>, location: string)
    requires forall i :: 0 <= i < |ops| ==> OpScannable(ops[i])
    ensures Agree(Run(ops)) && Clearable(Run(ops), location)
  {
    RunsAgree(ops);
    RunsKeepHeads(ops);
    HeadsMakeClearable(Run(ops), location);
  }

  /** After any run with scannable timestamps, in any order, a location has a head exactly when it has rows, and the head is one of them. */
  lemma {:induction false} RunsKeepHeads(ops: seq<Op>)
    requires forall i :: 0 <= i < |ops| ==> OpScannable(ops[i])
    ensures HeadsAgree(Run(ops)) && AllScannable(Run(ops))
  {
    if ops != [] {
      var before := ops[..|ops| - 1];
      RunsKeepHeads(before);
      RunsAgree(before);
      StepKeepsHeads(Run(before), ops[|ops| - 1]);
      StepScannable(Run(before), ops[|ops| - 1]);
    }
  }

  /** The event log only grows, one event per `log`, numbered by the counter. */
  lemma {:induction false} EventLogIsAppendOnly(t: Tables, op: Op)
    requires Agree(t)
    ensures Apply(t, op).eventLog
            == if op.LogOp? then t.eventLog[TimeKey(op.createdAt, t.nextSeq) := Event(op.event, op.id, op.location)] else t.eventLog
    ensures op.LogOp? ==> TimeKey(op.createdAt, t.nextSeq) !in t.eventLog
  {
    if op.RebuildOp? {
      ClearedRows(t, op.location);
      ReplayElsewhere(ClearLocation(t, op.location), op.location, None, Sort(op.entries, EntryLeq));
    }
  }
}
