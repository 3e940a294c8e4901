/** Runs of two saves that reach the failing side of the catalog's conditions, for all ids and timestamps that fit. */
module CatalogWitnesses {
  import opened Options
  import opened StringOrder
  import opened Catalog
  import opened CatalogHistory
  import opened CatalogHeads
  import opened CatalogTraces
  import opened CatalogQueries
  import opened CatalogReplay

  /** Two saves to one location, of different ids or of the empty id twice. */
  datatype Saves = Saves(location: string, id1: string, at1: string, id2: string, at2: string) {
    predicate Insert() { id1 == "" || id1 != id2 }

    function First(): Row { Row(at1, 0, location, id1, NULL_PREV) }

    function Second(): Row { Row(at2, 1, location, id2, id1) }

    function Ops(): seq<Op> { [SaveOp(location, id1, at1), SaveOp(location, id2, at2)] }
  }

  lemma RunOfOne(a: Op)
    ensures Run([a]) == Apply(EMPTY, a)
  {
    assert [a][..0] == [];
  }

  lemma RunSnoc(ops: seq<Op>, op: Op)
    ensures Run(ops + [op]) == Apply(Run(ops), op)
  {
    assert (ops + [op])[..|ops|] == ops;
  }

  /** Tables that hold exactly some rows, with one head. */
  ghost predicate Holds(t: Tables, location: string, rows: set<Row>, head: Head) {
    t.locHead == map[location := head] && forall r :: InRecords(t, r) <==> r in rows
  }

  lemma InsertHolds(t: Tables, rows: set<Row>, r: Row, previous: Option<string>)
    requires t.locHead.Keys <= {r.location} && (forall q :: InRecords(t, q) <==> q in rows) && (forall q :: q in rows ==> q.seqNo < t.nextSeq)
    requires r.seqNo == t.nextSeq && r.prev == OrNull(previous)
    ensures Holds(InsertHistory(t, r.location, r.id, previous, r.createdAt), r.location, rows + {r}, Head(r.createdAt, r.seqNo, r.id))
  {
    InsertGrows(t, r);
    assert InsertHistory(t, r.location, r.id, previous, r.createdAt) == InsertRow(t, r).(nextSeq := t.nextSeq + 1);
  }

  lemma AfterFirst(s: Saves)
    ensures var t := Run([SaveOp(s.location, s.id1, s.at1)]);
            t.nextSeq == 1 && Holds(t, s.location, {s.First()}, Head(s.at1, 0, s.id1))
  {
    RunOfOne(SaveOp(s.location, s.id1, s.at1));
    InsertHolds(EMPTY, {}, s.First(), None);
    assert {} + {s.First()} == {s.First()};
  }

  /** What the two saves leave behind. */
  lemma AfterBoth(s: Saves)
    requires s.Insert()
    ensures Holds(Run(s.Ops()), s.location, {s.First(), s.Second()}, Head(s.at2, 1, s.id2))
  {
    AfterFirst(s);
    RunSnoc([SaveOp(s.location, s.id1, s.at1)], SaveOp(s.location, s.id2, s.at2));
    SecondSave(Run([SaveOp(s.location, s.id1, s.at1)]), s);
  }

  lemma SecondSave(t: Tables, s: Saves)
    requires s.Insert() && t.nextSeq == 1 && Holds(t, s.location, {s.First()}, Head(s.at1, 0, s.id1))
    ensures Holds(Save(t, s.location, s.id2, s.at2), s.location, {s.First(), s.Second()}, Head(s.at2, 1, s.id2))
  {
    InsertHolds(t, {s.First()}, s.Second(), Opt(s.id1));
    assert {s.First()} + {s.Second()} == {s.First(), s.Second()};
  }

  lemma RowsAre(t: Tables, location: string, a: Row, b: Row, head: Head)
    requires Holds(t, location, {a, b}, head) && RowBefore(a, b) && a.location == b.location == location
    ensures LocRows(t, location) == [a, b]
  {
    RowBeforeIsStrict();
    assert forall r :: r in [a, b] <==> r in {a, b};
    LocRowsAre(t, location, [a, b]);
  }

  /** A second save stamped before the first leaves a location whose head is not its last row. */
  lemma OutOfOrderSaveIsReached(s: Saves)
    requires s.Insert() && StrLess(s.at2, s.at1)
    ensures LocRows(Run(s.Ops()), s.location) == [s.Second(), s.First()]
    ensures Run(s.Ops()).locHead == map[s.location := Head(s.at2, 1, s.id2)]
    ensures !GoodAt(Run(s.Ops()), s.location)
  {
    AfterBoth(s);
    Trichotomy(s.at1, s.at2);
    RowsAre(Run(s.Ops()), s.location, s.Second(), s.First(), Head(s.at2, 1, s.id2));
    assert !HeadIsLast(Run(s.Ops()).locHead, s.location, [s.Second(), s.First()]);
  }

  /** A row stamped above the scans' upper end is in the history, but `revisions` does not show it. */
  lemma UnreachableRowIsHidden(s: Saves)
    requires s.Insert() && StrLess(TOP, s.at2)
    ensures InRecords(Run(s.Ops()), s.Second()) && Revisions(Run(s.Ops()), s.location) != PlainRevisions(Run(s.Ops()), s.location)
  {
    AfterBoth(s);
    RunsAgree(s.Ops());
    Trichotomy(TOP, s.at2);
    RevisionsRefinePlainQuery(Run(s.Ops()), s.location);
  }

  lemma HeadsAreNamed(t: Tables, location: string, rows: set<Row>, last: Row)
    requires Holds(t, location, rows, Head(last.createdAt, last.seqNo, last.id))
    requires last in rows && forall r :: r in rows ==> r.location == location
    ensures HeadsAgree(t)
  {
    assert NamedBy(t, location, last);
  }

  /** Rebuilding such a location from an empty view removes its head and leaves the row. */
  lemma ClearStrandsARow(s: Saves)
    requires s.Insert() && StrLess(s.at1, TOP) && StrLess(TOP, s.at2)
    ensures HeadsAgree(Run(s.Ops())) && !HeadsAgree(Run(s.Ops() + [RebuildOp(s.location, [])]))
  {
    AfterBoth(s);
    RunsAgree(s.Ops());
    HeadsAreNamed(Run(s.Ops()), s.location, {s.First(), s.Second()}, s.Second());
    RunThenRebuild(s.Ops(), s.location, []);
    StrandedBySeparation(Run(s.Ops()), s.location, s.First(), s.Second());
  }

  lemma RunThenRebuild(ops: seq<Op>, location: string, entries: seq<Entry>)
    ensures Run(ops + [RebuildOp(location, entries)]) == Rebuild(Run(ops), location, entries)
  {
    RunSnoc(ops, RebuildOp(location, entries));
  }

  lemma StrandedBySeparation(t: Tables, location: string, a: Row, b: Row)
    requires Agree(t) && HeadsAgree(t) && InRecords(t, a) && InRecords(t, b) && a.location == b.location == location
    requires StrLess(a.createdAt, TOP) && StrLess(TOP, b.createdAt)
    ensures !HeadsAgree(Rebuild(t, location, []))
  {
    Trichotomy(TOP, b.createdAt);
    ClearKeepsHeadsIff(t, location);
    assert Rebuild(t, location, []) == ClearLocation(t, location);
  }

  lemma SavesInOrder(s: Saves)
    requires StrLeq(s.at1, s.at2) && Scannable(s.at1) && Scannable(s.at2)
    ensures TraceInOrder(s.Ops())
  {
  }

  lemma TwoPairs(s: Saves)
    requires s.Insert() && StrLeq(s.at1, s.at2) && Scannable(s.at1) && Scannable(s.at2)
    ensures Usable(Run(s.Ops()), s.location)
    ensures Pairs(Run(s.Ops()), s.location) == [Entry(s.id1, s.at1), Entry(s.id2, s.at2)]
  {
    AfterBoth(s);
    SavesInOrder(s);
    TracesAreChained(s.Ops());
    RowsAre(Run(s.Ops()), s.location, s.First(), s.Second(), Head(s.at2, 1, s.id2));
  }

  /** Rebuilding a location from its own pairs changes what it shows. */
  ghost predicate RebuildChanges(t: Tables, location: string) {
    Revisions(Rebuild(t, location, Pairs(t, location)), location) != Revisions(t, location)
  }

  lemma ReordersOrDrops(t: Tables, location: string, a: Entry, b: Entry)
    requires Usable(t, location) && Pairs(t, location) == [a, b] && (!EntryLeq(a, b) || a.id == b.id)
    ensures RebuildChanges(t, location)
  {
    RebuildFromOwnRevisions(t, location, "");
    assert Pairs(t, location)[0] == a && Pairs(t, location)[1] == b;
  }

  /** Two saves at one timestamp, the second id smaller: the history is chained, but rebuilding it from its own pairs changes it. */
  lemma EqualTimestampsAreReordered(s: Saves)
    requires s.id1 != "" && StrLess(s.id2, s.id1) && s.at1 == s.at2 && Scannable(s.at1)
    ensures GoodAt(Run(s.Ops()), s.location) && RebuildChanges(Run(s.Ops()), s.location)
  {
    Trichotomy(s.id1, s.id2);
    Trichotomy(s.at1, s.at2);
    TwoPairs(s);
    ReordersOrDrops(Run(s.Ops()), s.location, Entry(s.id1, s.at1), Entry(s.id2, s.at2));
  }

  /** The empty id saved twice makes two rows; rebuilding them makes one. */
  lemma EmptyIdsCollapse(s: Saves)
    requires s.id1 == s.id2 == "" && StrLeq(s.at1, s.at2) && Scannable(s.at1) && Scannable(s.at2)
    ensures GoodAt(Run(s.Ops()), s.location) && RebuildChanges(Run(s.Ops()), s.location)
  {
    TwoPairs(s);
    ReordersOrDrops(Run(s.Ops()), s.location, Entry(s.id1, s.at1), Entry(s.id2, s.at2));
  }
}
