/** Rebuilding a location from what a store preserves, against the history that live saves built. */
module CatalogReplay {
  import opened Options
  import opened Sorting
  import opened Catalog
  import opened CatalogHistory
  import opened CatalogTraces
  import opened CatalogQueries

  /** A row without its sequence number and location: what the queries show of it. */
  datatype Link = Link(createdAt: string, id: string, prev: string)

  function LinkOf(r: Row): Link { Link(r.createdAt, r.id, r.prev) }

  function EntryOf(r: Row): Entry { Entry(r.id, r.createdAt) }

  function Links(t: Tables, location: string): seq<Link> { Map(LocRows(t, location), LinkOf) }

  /** A location's `(id, created_at)` pairs, oldest first. */
  function Pairs(t: Tables, location: string): seq<Entry> { Map(LocRows(t, location), EntryOf) }

  /** The chain that replaying entries on a head builds. */
  function Chained(head: Option<string>, entries: seq<Entry>): seq<Link>
    decreases |entries|
  {
    if entries == [] then []
    else if head == Some(entries[0].id) then Chained(head, entries[1..])
    else [Link(entries[0].createdAt, entries[0].id, OrNull(head))] + Chained(Some(entries[0].id), entries[1..])
  }

  lemma {:induction false} ReplayedLinks(location: string, seqNo: nat, head: Option<string>, entries: seq<Entry>)
    ensures Map(ReplayRows(location, seqNo, head, entries), LinkOf) == Chained(head, entries)
    decreases |entries|
  {
    if entries != [] {
      if head == Some(entries[0].id) {
        ReplayedLinks(location, seqNo, head, entries[1..]);
      } else {
        ReplayedLinks(location, seqNo + 1, Some(entries[0].id), entries[1..]);
      }
    }
  }

  /** Agreeing tables with one location chained, its head last and its timestamps scannable. */
  ghost predicate Usable(t: Tables, location: string) {
    Agree(t) && ScannableAt(t, location) && GoodAt(t, location)
  }

  lemma UsableIsClearable(t: Tables, location: string)
    requires Usable(t, location)
    ensures Clearable(t, location)
  {
    LocRowsIsHistory(t, location);
    ChainedIsClearable(t, location, LocRows(t, location));
  }

  /** What a rebuild leaves is chained and depends on the sorted entries alone, however the location was before. */
  lemma RebuildLeaves(t: Tables, location: string, entries: seq<Entry>)
    requires Agree(t) && Clearable(t, location)
    ensures GoodAt(Rebuild(t, location, entries), location)
    ensures Agree(Rebuild(t, location, entries))
    ensures Links(Rebuild(t, location, entries), location) == Chained(None, Sort(entries, EntryLeq))
  {
    RebuiltRows(t, location, entries);
    ReplayedLinks(location, t.nextSeq, None, Sort(entries, EntryLeq));
    RebuildAgrees(t, location, entries);
  }

  lemma RebuiltRows(t: Tables, location: string, entries: seq<Entry>)
    requires Agree(t) && Clearable(t, location)
    ensures GoodAt(Rebuild(t, location, entries), location)
    ensures LocRows(Rebuild(t, location, entries), location) == ReplayRows(location, t.nextSeq, None, Sort(entries, EntryLeq))
  {
    RebuiltLocation(t, location, entries);
    var rows := ReplayRows(location, t.nextSeq, None, Sort(entries, EntryLeq));
    GoodAtIs(Rebuild(t, location, entries), location, rows);
    LocRowsAre(Rebuild(t, location, entries), location, rows);
  }

  lemma RebuildAgrees(t: Tables, location: string, entries: seq<Entry>)
    requires Agree(t)
    ensures Agree(Rebuild(t, location, entries))
  {
    ApplyAgrees(t, RebuildOp(location, entries));
  }

  /** Queries restricted to a location show its links and nothing else. */
  lemma SameLinksSameAnswers(t: Tables, u: Tables, location: string, id: string)
    requires Agree(t) && GoodAt(t, location) && Agree(u) && GoodAt(u, location)
    requires Links(t, location) == Links(u, location)
    ensures PlainRevisions(t, location) == PlainRevisions(u, location)
    ensures LastRecord(LocRows(t, location)) == LastRecord(LocRows(u, location))
    ensures PlainAncestors(t, id, Some(location)) == PlainAncestors(u, id, Some(location))
  {
    LocRowsIsHistory(t, location);
    LocRowsIsHistory(u, location);
    SameLinks(LocRows(t, location), LocRows(u, location), location);
    AncestorsAt(t, id, location);
    AncestorsAt(u, id, location);
    SameAncestors(LocRows(t, location), LocRows(u, location), id, location);
  }

  /** The index scans behind the three queries say the same of a location. */
  ghost predicate SameAnswers(t: Tables, u: Tables, location: string, id: string) {
    && Revisions(t, location) == Revisions(u, location)
    && Ancestors(t, id, Some(location)) == Ancestors(u, id, Some(location))
    && (forall rec :: rec in Locations(t) && rec.location == location ==> rec in Locations(u))
    && (forall rec :: rec in Locations(u) && rec.location == location ==> rec in Locations(t))
  }

  lemma LinksAnswerAlike(t: Tables, u: Tables, location: string, id: string)
    requires Usable(t, location) && Usable(u, location)
    requires Links(t, location) == Links(u, location)
    ensures SameAnswers(t, u, location, id)
  {
    SameLinksSameAnswers(t, u, location, id);
    ScannedAnswers(t, location, id);
    ScannedAnswers(u, location, id);
    HeadShowsLastRow(t, location);
    HeadShowsLastRow(u, location);
    LocationsIsHeads(t);
    LocationsIsHeads(u);
  }

  /** With scannable timestamps the index scans are the plain queries. */
  lemma ScannedAnswers(t: Tables, location: string, id: string)
    requires Agree(t) && ScannableAt(t, location)
    ensures Revisions(t, location) == PlainRevisions(t, location)
    ensures Ancestors(t, id, Some(location)) == PlainAncestors(t, id, Some(location))
  {
    RevisionsRefinePlainQuery(t, location);
    AncestorsRefinePlainQuery(t, id, Some(location));
  }

  lemma SameLinks(rows: seq<Row>, other: seq<Row>, location: string)
    requires Map(rows, LinkOf) == Map(other, LinkOf)
    requires forall r :: r in rows || r in other ==> r.location == location
    ensures Map(Reverse(rows), RevisionRecord) == Map(Reverse(other), RevisionRecord)
    ensures LastRecord(rows) == LastRecord(other)
  {
    assert |rows| == |Map(rows, LinkOf)| == |other|;
    forall i | 0 <= i < |rows| ensures LinkOf(rows[i]) == LinkOf(other[i]) && rows[i].location == other[i].location {
      assert Map(rows, LinkOf)[i] == Map(other, LinkOf)[i];
      assert rows[i] in rows && other[i] in other;
    }
  }

  lemma AncestorsAt(t: Tables, id: string, location: string)
    ensures Filter(AllRows(t), IsAncestorRow(id, Some(location))) == Filter(LocRows(t, location), IsAncestorRow(id, Some(location)))
  {
    FilterFilter(AllRows(t), AtLocation(location), IsAncestorRow(id, Some(location)), IsAncestorRow(id, Some(location)));
  }

  lemma SameAncestors(rows: seq<Row>, other: seq<Row>, id: string, location: string)
    requires Map(rows, LinkOf) == Map(other, LinkOf)
    requires forall r :: r in rows || r in other ==> r.location == location
    ensures var p := IsAncestorRow(id, Some(location));
            Map(Reverse(Filter(rows, p)), AncestorRecord) == Map(Reverse(Filter(other, p)), AncestorRecord)
  {
    var p := IsAncestorRow(id, Some(location));
    SameAncestorRows(rows, other, id, location);
    ReversedAlike(Filter(rows, p), Filter(other, p));
  }

  lemma {:induction false} SameAncestorRows(rows: seq<Row>, other: seq<Row>, id: string, location: string)
    requires Map(rows, LinkOf) == Map(other, LinkOf)
    requires forall r :: r in rows || r in other ==> r.location == location
    ensures var p := IsAncestorRow(id, Some(location));
            Map(Filter(rows, p), AncestorRecord) == Map(Filter(other, p), AncestorRecord)
  {
    FirstLinks(rows, other);
    if rows != [] {
      assert rows[0] in rows && other[0] in other;
      SameAncestorRows(rows[1..], other[1..], id, location);
    }
  }

  lemma FirstLinks(rows: seq<Row>, other: seq<Row>)
    requires Map(rows, LinkOf) == Map(other, LinkOf)
    ensures |rows| == |other|
    ensures rows != [] ==> LinkOf(rows[0]) == LinkOf(other[0]) && Map(rows[1..], LinkOf) == Map(other[1..], LinkOf)
  {
    assert |rows| == |Map(rows, LinkOf)| == |other|;
    if rows != [] {
      assert LinkOf(rows[0]) == Map(rows, LinkOf)[0] == Map(other, LinkOf)[0] == LinkOf(other[0]);
      assert Map(rows[1..], LinkOf) == Map(rows, LinkOf)[1..] && Map(other[1..], LinkOf) == Map(other, LinkOf)[1..];
    }
  }

  lemma ReversedAlike(rows: seq<Row>, other: seq<Row>)
    requires Map(rows, AncestorRecord) == Map(other, AncestorRecord)
    ensures Map(Reverse(rows), AncestorRecord) == Map(Reverse(other), AncestorRecord)
  {
    assert |rows| == |Map(rows, AncestorRecord)| == |other|;
    forall i | 0 <= i < |rows| ensures AncestorRecord(rows[i]) == AncestorRecord(other[i]) {
      assert Map(rows, AncestorRecord)[i] == Map(other, AncestorRecord)[i];
    }
  }

  /** Different links show in `revisions`. */
  lemma RevisionsShowLinks(t: Tables, u: Tables, location: string)
    requires PlainRevisions(t, location) == PlainRevisions(u, location)
    ensures Links(t, location) == Links(u, location)
  {
    RecordsShowLinks(LocRows(t, location), LocRows(u, location));
  }

  lemma RecordsShowLinks(rows: seq<Row>, other: seq<Row>)
    requires Map(Reverse(rows), RevisionRecord) == Map(Reverse(other), RevisionRecord)
    ensures Map(rows, LinkOf) == Map(other, LinkOf)
  {
    var shown, shownOther := Map(Reverse(rows), RevisionRecord), Map(Reverse(other), RevisionRecord);
    assert |rows| == |shown| == |shownOther| == |other|;
    forall i | 0 <= i < |rows| ensures LinkOf(rows[i]) == LinkOf(other[i]) {
      assert shown[|rows| - 1 - i] == RevisionRecord(rows[i]);
      assert shownOther[|rows| - 1 - i] == RevisionRecord(other[i]);
    }
  }

  // ----- replaying a chain -----

  ghost predicate NeighboursDiffer(entries: seq<Entry>) {
    forall i :: 0 < i < |entries| ==> entries[i].id != entries[i - 1].id
  }

  /** Replaying the pairs of a chain whose neighbours differ gives back its links. */
  lemma {:induction false} ChainedPairs(head: Option<string>, rows: seq<Row>)
    requires rows != [] ==> rows[0].prev == OrNull(head) && head != Some(rows[0].id)
    requires forall i :: 0 < i < |rows| ==> rows[i].prev == rows[i - 1].id
    requires NeighboursDiffer(Map(rows, EntryOf))
    ensures Chained(head, Map(rows, EntryOf)) == Map(rows, LinkOf)
    decreases |rows|
  {
    if rows != [] {
      var pairs := Map(rows, EntryOf);
      assert pairs[1..] == Map(rows[1..], EntryOf);
      if |rows| > 1 {
        assert pairs[1].id != pairs[0].id;
        assert rows[1].prev == rows[0].id;
      }
      forall i | 0 < i < |rows[1..]| ensures pairs[1..][i].id != pairs[1..][i - 1].id { assert pairs[i + 1].id != pairs[i].id; }
      ChainedPairs(Some(rows[0].id), rows[1..]);
    }
  }

  function PairOf(l: Link): Entry { Entry(l.id, l.createdAt) }

  lemma NeighboursCons(e: Entry, rest: seq<Entry>)
    requires NeighboursDiffer(rest) && (rest != [] ==> rest[0].id != e.id)
    ensures NeighboursDiffer([e] + rest)
  {
    forall i | 0 < i < |[e] + rest| ensures ([e] + rest)[i].id != ([e] + rest)[i - 1].id {
      if i > 1 { assert rest[i - 1].id != rest[i - 2].id; }
    }
  }

  /** A replay that drops nothing shows its entries in order, with differing neighbours. */
  lemma {:induction false} ChainedAll(head: Option<string>, entries: seq<Entry>)
    ensures |Chained(head, entries)| <= |entries|
    ensures |Chained(head, entries)| == |entries| ==>
              Map(Chained(head, entries), PairOf) == entries && NeighboursDiffer(entries) &&
              (entries != [] ==> head != Some(entries[0].id))
    decreases |entries|
  {
    if entries != [] {
      if head == Some(entries[0].id) {
        ChainedAll(head, entries[1..]);
      } else {
        ChainedAll(Some(entries[0].id), entries[1..]);
        if |Chained(head, entries)| == |entries| {
          assert entries == [entries[0]] + entries[1..];
          NeighboursCons(entries[0], entries[1..]);
        }
      }
    }
  }

  // ----- main results -----

  /** Oldest first, equal timestamps by increasing id, and no id twice in a row. */
  ghost predicate InReplayOrder(entries: seq<Entry>) {
    Sorted(entries, EntryLeq) && NeighboursDiffer(entries)
  }

  /**
   Rebuilding from any arrangement of a location's own pairs, into any catalog where the location can be cleared,
   reproduces its history exactly when the pairs are in replay order. The queries' index scans then give the same answers, and `revisions` a different one otherwise.
  */
  lemma RebuildReproducesHistory(t: Tables, u: Tables, location: string, entries: seq<Entry>, id: string)
    requires GoodAt(t, location) && Agree(u) && Clearable(u, location)
    requires multiset(entries) == multiset(Pairs(t, location))
    ensures PlainRevisions(Rebuild(u, location, entries), location) == PlainRevisions(t, location)
            <==> InReplayOrder(Pairs(t, location))
    ensures Usable(t, location) ==>
              if InReplayOrder(Pairs(t, location)) then SameAnswers(Rebuild(u, location, entries), t, location, id)
              else Revisions(Rebuild(u, location, entries), location) != Revisions(t, location)
  {
    PlainHistoryReproduced(t, u, location, entries);
    if Usable(t, location) {
      PairsAreScannable(t, location, entries);
      RebuildStaysUsable(u, location, entries);
      AnswersFollow(Rebuild(u, location, entries), t, location, id);
    }
  }

  lemma AnswersFollow(t: Tables, u: Tables, location: string, id: string)
    requires Usable(t, location) && Usable(u, location)
    ensures Revisions(t, location) == Revisions(u, location) <==> PlainRevisions(t, location) == PlainRevisions(u, location)
    ensures Revisions(t, location) == Revisions(u, location) ==> SameAnswers(t, u, location, id)
  {
    ScannedAnswers(t, location, id);
    ScannedAnswers(u, location, id);
    if PlainRevisions(t, location) == PlainRevisions(u, location) {
      RevisionsShowLinks(t, u, location);
      LinksAnswerAlike(t, u, location, id);
    }
  }

  lemma PlainHistoryReproduced(t: Tables, u: Tables, location: string, entries: seq<Entry>)
    requires GoodAt(t, location) && Agree(u) && Clearable(u, location)
    requires multiset(entries) == multiset(Pairs(t, location))
    ensures PlainRevisions(Rebuild(u, location, entries), location) == PlainRevisions(t, location)
            <==> InReplayOrder(Pairs(t, location))
  {
    var pairs, rows, u' := Pairs(t, location), LocRows(t, location), Rebuild(u, location, entries);
    RebuildLeaves(u, location, entries);
    EntryLeqIsTotalOrder();
    SortOfPermutation(entries, pairs, EntryLeq);
    if InReplayOrder(pairs) {
      SortOfSorted(pairs, EntryLeq);
      ChainedPairs(None, rows);
      LocRowsIsHistory(t, location);
      LocRowsIsHistory(u', location);
      SameLinks(LocRows(u', location), rows, location);
    }
    if PlainRevisions(u', location) == PlainRevisions(t, location) {
      RevisionsShowLinks(u', t, location);
      ReplayDroppedNothing(pairs, rows);
    }
  }

  lemma ReplayDroppedNothing(pairs: seq<Entry>, rows: seq<Row>)
    requires pairs == Map(rows, EntryOf) && Chained(None, Sort(pairs, EntryLeq)) == Map(rows, LinkOf)
    ensures Sorted(pairs, EntryLeq) && NeighboursDiffer(pairs)
  {
    EntryLeqIsTotalOrder();
    SortSorts(pairs, EntryLeq);
    SortPermutes(pairs, EntryLeq);
    var sorted := Sort(pairs, EntryLeq);
    ChainedAll(None, sorted);
    assert |Chained(None, sorted)| == |rows| == |sorted|;
    forall i | 0 <= i < |pairs| ensures sorted[i] == pairs[i] {
      assert Map(rows, LinkOf)[i] == LinkOf(rows[i]);
      assert Map(Chained(None, sorted), PairOf)[i] == PairOf(LinkOf(rows[i]));
    }
    assert sorted == pairs;
  }

  /** Fed its own revisions, a rebuild is the identity on what the location shows, under the same condition. */
  lemma RebuildFromOwnRevisions(t: Tables, location: string, id: string)
    requires Usable(t, location)
    ensures var same := Rebuild(t, location, Pairs(t, location));
            if InReplayOrder(Pairs(t, location)) then SameAnswers(same, t, location, id)
            else Revisions(same, location) != Revisions(t, location)
  {
    UsableIsClearable(t, location);
    RebuildReproducesHistory(t, t, location, Pairs(t, location), id);
  }

  /** Rebuilding from the same entries in any order gives the same tables. */
  lemma RebuildIgnoresOrder(t: Tables, location: string, entries: seq<Entry>, shuffled: seq<Entry>)
    requires multiset(entries) == multiset(shuffled)
    ensures Rebuild(t, location, entries) == Rebuild(t, location, shuffled)
  {
    EntryLeqIsTotalOrder();
    SortOfPermutation(entries, shuffled, EntryLeq);
  }

  lemma RebuildStaysUsable(t: Tables, location: string, entries: seq<Entry>)
    requires Agree(t) && Clearable(t, location) && forall e :: e in entries ==> Scannable(e.createdAt)
    ensures Usable(Rebuild(t, location, entries), location)
    ensures Links(Rebuild(t, location, entries), location) == Chained(None, Sort(entries, EntryLeq))
  {
    RebuildLeaves(t, location, entries);
    RebuiltRows(t, location, entries);
    LocRowsIsHistory(Rebuild(t, location, entries), location);
    SortPermutes(entries, EntryLeq);
    forall r | r in LocRows(Rebuild(t, location, entries), location) ensures Scannable(r.createdAt) {
      ReplayedStamps(location, t.nextSeq, None, Sort(entries, EntryLeq), r);
      var e :| e in Sort(entries, EntryLeq) && e.createdAt == r.createdAt;
      assert e in Elements(Sort(entries, EntryLeq));
    }
  }

  lemma PairsAreScannable(t: Tables, location: string, entries: seq<Entry>)
    requires ScannableAt(t, location) && multiset(entries) == multiset(Pairs(t, location))
    ensures forall e :: e in entries ==> Scannable(e.createdAt)
  {
    LocRowsIsHistory(t, location);
    var rows, pairs := LocRows(t, location), Pairs(t, location);
    SameMultiset(entries, pairs);
    forall e | e in entries ensures Scannable(e.createdAt) {
      assert e in Elements(pairs);
      var i :| 0 <= i < |pairs| && pairs[i] == e;
      assert rows[i] in rows;
    }
  }
}
