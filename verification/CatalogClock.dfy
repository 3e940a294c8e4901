/** The system clock's stamps are what the catalog's key design needs. */
module CatalogClock {
  import opened StringOrder
  import opened Decimal
  import CivilDate
  import opened Timestamps
  import opened Catalog
  import opened CatalogHistory
  import opened CatalogReplay
  import opened CatalogLive

  /** Every stamp is within reach of the prefix scans, in any year. */
  lemma StampsAreScannable(secs: nat, millis: nat)
    ensures Scannable(FormatMillis(secs, millis))
  {
    StartsWithYear(secs, millis);
    FirstIsDigit(CivilDate.CivilFromDays(secs / 86_400).year, 4);
  }

  lemma FirstIsDigit(n: int, width: nat)
    requires n >= 0
    ensures |Pad(n, width)| > 0 && Pad(n, width)[0] <= '9'
  {
    assert Show(n)[0] in Show(n);
  }

  datatype Instant = Instant(secs: nat, millis: nat)

  function Stamp(at: Instant): string { FormatMillis(at.secs, at.millis) }

  /**
   At one location, saves and logs of non-empty ids stamped by a clock that moves forward between them, before the
   year 10000.
  */
  ghost predicate ClockedAt(ops: seq<Op>, at: seq<Instant>, location: string) {
    && |ops| == |at|
    && (forall i :: 0 <= i < |ops| && ops[i].location == location ==>
          SavesAnId(ops[i]) && ops[i].createdAt == Stamp(at[i]) && at[i].millis < 1000 && at[i].secs < YEAR_10000)
    && (forall i, j :: 0 <= i < j < |ops| && ops[i].location == location == ops[j].location ==>
          Earlier(at[i].secs, at[i].millis, at[j].secs, at[j].millis))
  }

  lemma ClockedRunsAreLive(ops: seq<Op>, at: seq<Instant>, location: string)
    requires ClockedAt(ops, at, location)
    ensures LiveAt(ops, location)
  {
    forall i | 0 <= i < |ops| && ops[i].location == location ensures Scannable(ops[i].createdAt) {
      StampsAreScannable(at[i].secs, at[i].millis);
    }
    forall i, j | 0 <= i < j < |ops| && ops[i].location == location == ops[j].location
      ensures StrLess(ops[i].createdAt, ops[j].createdAt)
    {
      StringOrderIsTimeOrder(at[i].secs, at[i].millis, at[j].secs, at[j].millis);
    }
  }

  /** End to end: what a clock moving forward stamped at a location, a rebuild from the store reproduces. */
  lemma RebuildReproducesClockedRun(ops: seq<Op>, at: seq<Instant>, u: Tables, location: string, entries: seq<Entry>, id: string)
    requires ClockedAt(ops, at, location) && Agree(u) && Clearable(u, location)
    requires multiset(entries) == multiset(Pairs(Run(ops), location))
    ensures SameAnswers(Rebuild(u, location, entries), Run(ops), location, id)
  {
    ClockedRunsAreLive(ops, at, location);
    RebuildReproducesLiveRun(ops, u, location, entries, id);
  }
}
