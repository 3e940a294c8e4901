/** The manifest diff: union of a side's manifests, classification of paths, and the library's second implementation of both. */
module Diff {
  import opened Options
  import opened Sorting
  import opened StringOrder
  import opened ManifestText

  datatype Status = Added | Deleted | Modified | Unchanged {
    /** The JSON status token. */
    function Token(): char {
      match this
      case Added => 'A'
      case Deleted => 'D'
      case Modified => 'M'
      case Unchanged => '='
    }
  }

  datatype DiffEntry = DiffEntry(status: Status, path: string)

  datatype OnConflict = RaiseError | LastWins

  /** What makes two entries of a path the same content; a directory's checksum and size do not count. */
  datatype Fingerprint = Fingerprint(pathType: PathType, permissions: string, checksum: Option<string>, size: Option<nat>)

  function FingerprintOf(e: ManifestEntry): Fingerprint {
    match e.pathType
    case File => Fingerprint(File, e.permissions, Some(e.checksum), Some(e.size))
    case Directory => Fingerprint(Directory, e.permissions, None, None)
  }

  predicate SameContent(a: ManifestEntry, b: ManifestEntry) { FingerprintOf(a) == FingerprintOf(b) }

  /** Entries of one path are the same content when type and permissions agree and, for files, checksum and size. */
  lemma SameContentMeaning(a: ManifestEntry, b: ManifestEntry)
    ensures SameContent(a, b) <==>
              a.pathType == b.pathType && a.permissions == b.permissions
              && (a.pathType == File ==> a.checksum == b.checksum && a.size == b.size)
  {
  }

  type Side = map<string, ManifestEntry>

  // ----- union -----

  function AddEntry(side: Side, e: ManifestEntry, policy: OnConflict): Result<Side, string> {
    if e.path in side && SameContent(side[e.path], e) then Ok(side)
    else if e.path in side && policy == RaiseError then Err(e.path)
    else Ok(side[e.path := e])
  }

  /** The union of entries in order; an error names the first path in conflict. */
  function Union(entries: seq<ManifestEntry>, policy: OnConflict): Result<Side, string> {
    if entries == [] then Ok(map[])
    else
      match Union(entries[..|entries| - 1], policy)
      case Err(path) => Err(path)
      case Ok(side) => AddEntry(side, entries[|entries| - 1], policy)
  }

  function Flatten(manifests: seq<seq<ManifestEntry>>): seq<ManifestEntry> {
    if manifests == [] then [] else Flatten(manifests[..|manifests| - 1]) + manifests[|manifests| - 1]
  }

  /** All entries of a path carry one fingerprint. */
  ghost predicate Agreeing(entries: seq<ManifestEntry>) {
    forall a, b :: a in entries && b in entries && a.path == b.path ==> SameContent(a, b)
  }

  /** A side holds exactly the paths of some entries, each with an entry of theirs. */
  ghost predicate Represents(side: Side, entries: seq<ManifestEntry>) {
    && (forall e :: e in entries ==> e.path in side)
    && (forall p :: p in side ==> side[p] in entries && side[p].path == p)
  }

  lemma Snoc(entries: seq<ManifestEntry>)
    requires entries != []
    ensures forall e :: e in entries <==> e in entries[..|entries| - 1] || e == entries[|entries| - 1]
  {
    assert entries == entries[..|entries| - 1] + [entries[|entries| - 1]];
  }

  /** Under the error policy a union succeeds exactly when every path's entries agree. */
  lemma {:induction false} UnionSucceedsIffAgreeing(entries: seq<ManifestEntry>)
    ensures Union(entries, RaiseError).Ok? <==> Agreeing(entries)
    ensures Union(entries, RaiseError).Ok? ==> Represents(Union(entries, RaiseError).value, entries)
  {
    if entries != [] {
      var before, last := entries[..|entries| - 1], entries[|entries| - 1];
      Snoc(entries);
      UnionSucceedsIffAgreeing(before);
      if Agreeing(before) {
        var side := Union(before, RaiseError).value;
        if last.path in side {
          assert side[last.path] in before && side[last.path].path == last.path;
          assert SameContent(side[last.path], last) ==> forall e :: e in before && e.path == last.path ==> SameContent(e, last);
        } else {
          assert forall e :: e in before ==> e.path != last.path;
        }
      } else {
        var a, b :| a in before && b in before && a.path == b.path && !SameContent(a, b);
        assert a in entries && b in entries;
      }
    }
  }

  /** The error names the first entry that disagrees with an earlier one. */
  lemma {:induction false} UnionErrorIsFirstConflict(entries: seq<ManifestEntry>) returns (k: nat)
    requires !Agreeing(entries)
    ensures k < |entries| && Union(entries, RaiseError) == Err(entries[k].path)
    ensures Agreeing(entries[..k]) && !Agreeing(entries[..k + 1])
  {
    var n := |entries| - 1;
    assert entries != [];
    if Agreeing(entries[..n]) {
      k := n;
      assert entries[..n + 1] == entries;
      UnionSucceedsIffAgreeing(entries[..n]);
      UnionSucceedsIffAgreeing(entries);
    } else {
      k := UnionErrorIsFirstConflict(entries[..n]);
      assert entries[..n][..k] == entries[..k] && entries[..n][..k + 1] == entries[..k + 1];
    }
  }

  function LastOf(entries: seq<ManifestEntry>, path: string): Option<ManifestEntry> {
    if entries == [] then None
    else if entries[|entries| - 1].path == path then Some(entries[|entries| - 1])
    else LastOf(entries[..|entries| - 1], path)
  }

  /** With last-wins a union always succeeds and every path shows the fingerprint of its last entry. */
  lemma {:induction false} UnionLastWins(entries: seq<ManifestEntry>)
    ensures Union(entries, LastWins).Ok? && Represents(Union(entries, LastWins).value, entries)
    ensures forall p :: p in Union(entries, LastWins).value <==> LastOf(entries, p).Some?
    ensures forall p :: p in Union(entries, LastWins).value ==>
              SameContent(Union(entries, LastWins).value[p], LastOf(entries, p).value)
  {
    if entries != [] {
      Snoc(entries);
      UnionLastWins(entries[..|entries| - 1]);
    }
  }

  // ----- classification -----

  function IsDir(e: ManifestEntry): bool { e.pathType == Directory }

  /** A directory on every side it appears on. */
  predicate DirOnly(from: Side, to: Side, p: string) {
    (p in from ==> IsDir(from[p])) && (p in to ==> IsDir(to[p]))
  }

  function StatusAt(from: Side, to: Side, p: string): Status
    requires p in from || p in to
  {
    if p !in from then Added
    else if p !in to then Deleted
    else if SameContent(from[p], to[p]) then Unchanged
    else Modified
  }

  /** The row a path gets, if any. */
  function RowFor(from: Side, to: Side, all: bool, p: string): seq<DiffEntry>
    requires p in from || p in to
  {
    if DirOnly(from, to, p) then []
    else if StatusAt(from, to, p) == Unchanged && !all then []
    else [DiffEntry(StatusAt(from, to, p), p)]
  }

  function RowsFor(from: Side, to: Side, all: bool, paths: seq<string>): seq<DiffEntry>
    requires forall p :: p in paths ==> p in from || p in to
  {
    if paths == [] then []
    else RowsFor(from, to, all, paths[..|paths| - 1]) + RowFor(from, to, all, paths[|paths| - 1])
  }

  /** All paths of both sides in byte order. */
  function AllPaths(from: set<string>, to: set<string>): (paths: seq<string>)
    ensures forall p :: p in paths <==> p in from || p in to
    ensures Sorted(paths, StrLeq) && Distinct(paths)
  {
    StrLeqIsTotalOrder();
    Ascending(from + to, StrLeq)
  }

  function Classify(from: Side, to: Side, all: bool): seq<DiffEntry> {
    RowsFor(from, to, all, AllPaths(from.Keys, to.Keys))
  }

  function PathOfRow(r: DiffEntry): string { r.path }

  ghost predicate RowBelongs(from: Side, to: Side, all: bool, r: DiffEntry) {
    (r.path in from || r.path in to) && r in RowFor(from, to, all, r.path)
  }

  lemma {:induction false} RowsForFacts(from: Side, to: Side, all: bool, paths: seq<string>)
    requires forall p :: p in paths ==> p in from || p in to
    requires Sorted(paths, StrLeq) && Distinct(paths)
    ensures forall r :: r in RowsFor(from, to, all, paths) <==> r.path in paths && RowBelongs(from, to, all, r)
    ensures Strictly(Map(RowsFor(from, to, all, paths), PathOfRow), StrLess)
  {
    if paths != [] {
      var n := |paths| - 1;
      var before, more := RowsFor(from, to, all, paths[..n]), RowFor(from, to, all, paths[n]);
      RowsForFacts(from, to, all, paths[..n]);
      assert paths == paths[..n] + [paths[n]];
      AppendAfter(before, more, paths);
      assert forall r :: r in before + more <==> r in before || r in more;
    }
  }

  /** Rows of the last path come after the rows of the others. */
  lemma AppendAfter(rows: seq<DiffEntry>, more: seq<DiffEntry>, paths: seq<string>)
    requires paths != [] && Sorted(paths, StrLeq) && Distinct(paths)
    requires Strictly(Map(rows, PathOfRow), StrLess) && |more| <= 1
    requires forall r :: r in rows ==> r.path in paths[..|paths| - 1]
    requires forall r :: r in more ==> r.path == paths[|paths| - 1]
    ensures Strictly(Map(rows + more, PathOfRow), StrLess)
  {
    forall i, j | 0 <= i < j < |rows + more| ensures StrLess((rows + more)[i].path, (rows + more)[j].path) {
      if j < |rows| {
        assert StrLess(Map(rows, PathOfRow)[i], Map(rows, PathOfRow)[j]);
      } else {
        assert rows[i] in rows && more[j - |rows|] in more;
        BeforeLast(paths, rows[i].path);
      }
    }
  }

  lemma BeforeLast(paths: seq<string>, p: string)
    requires paths != [] && Sorted(paths, StrLeq) && Distinct(paths) && p in paths[..|paths| - 1]
    ensures StrLess(p, paths[|paths| - 1])
  {
    var n := |paths| - 1;
    var k :| 0 <= k < n && paths[..n][k] == p;
    assert StrLeq(paths[k], paths[n]) && paths[k] != paths[n];
  }

  /** A diff lists, by path, exactly the paths that changed and are not directories only, each with its change. */
  lemma ClassifyMeaning(from: Side, to: Side, all: bool)
    ensures Strictly(Map(Classify(from, to, all), PathOfRow), StrLess)
    ensures forall r :: r in Classify(from, to, all) <==> RowBelongs(from, to, all, r)
  {
    RowsForFacts(from, to, all, AllPaths(from.Keys, to.Keys));
  }

  /** When a path is to have a row of this status, by presence, type and content on the two sides. */
  predicate RowExpected(from: Side, to: Side, all: bool, p: string, status: Status) {
    match status
    case Added => p !in from && p in to && to[p].pathType == File
    case Deleted => p in from && p !in to && from[p].pathType == File
    case Modified =>
      p in from && p in to && (from[p].pathType == File || to[p].pathType == File) && !SameContent(from[p], to[p])
    case Unchanged =>
      all && p in from && p in to && from[p].pathType == File && to[p].pathType == File && SameContent(from[p], to[p])
  }

  /** A diff has exactly the expected rows. */
  lemma RowMeaning(from: Side, to: Side, all: bool, p: string, status: Status)
    ensures DiffEntry(status, p) in Classify(from, to, all) <==> RowExpected(from, to, all, p, status)
  {
    ClassifyMeaning(from, to, all);
    if p in from || p in to {
      ExpectedRow(from, to, all, p, status);
    }
  }

  lemma ExpectedRow(from: Side, to: Side, all: bool, p: string, status: Status)
    requires p in from || p in to
    ensures DiffEntry(status, p) in RowFor(from, to, all, p) <==> RowExpected(from, to, all, p, status)
  {
  }

  // ----- a diff is a patch -----

  /** Performing one row on a side, taking new entries from `source`. */
  function Patch(side: Side, row: DiffEntry, source: Side): Side {
    match row.status
    case Deleted => side - {row.path}
    case Unchanged => side
    case _ => if row.path in source then side[row.path := source[row.path]] else side
  }

  function PatchAll(side: Side, rows: seq<DiffEntry>, source: Side): Side
    decreases |rows|
  {
    if rows == [] then side else PatchAll(Patch(side, rows[0], source), rows[1..], source)
  }

  /** Same presence and same content at a path. */
  predicate SameAt(a: Side, b: Side, p: string) {
    (p in a <==> p in b) && (p in a ==> SameContent(a[p], b[p]))
  }

  predicate IdenticalAt(a: Side, b: Side, p: string) {
    (p in a <==> p in b) && (p in a ==> a[p] == b[p])
  }

  lemma {:induction false} PatchElsewhere(side: Side, rows: seq<DiffEntry>, source: Side, p: string)
    requires forall r :: r in rows ==> r.path != p
    ensures IdenticalAt(PatchAll(side, rows, source), side, p)
    decreases |rows|
  {
    if rows != [] {
      assert rows[0] in rows;
      PatchElsewhere(Patch(side, rows[0], source), rows[1..], source, p);
    }
  }

  /** Among rows of different paths, a path's own row decides it. */
  lemma {:induction false} PatchItsRow(side: Side, rows: seq<DiffEntry>, source: Side, k: nat)
    requires forall i, j :: 0 <= i < j < |rows| ==> rows[i].path != rows[j].path
    requires k < |rows|
    ensures IdenticalAt(PatchAll(side, rows, source), Patch(side, rows[k], source), rows[k].path)
    decreases |rows|
  {
    var next := Patch(side, rows[0], source);
    if k == 0 {
      PatchElsewhere(next, rows[1..], source, rows[0].path);
    } else {
      PatchItsRow(next, rows[1..], source, k - 1);
    }
  }

  lemma PatchMeaning(from: Side, to: Side, all: bool, rows: seq<DiffEntry>, p: string)
    requires forall i, j :: 0 <= i < j < |rows| ==> rows[i].path != rows[j].path
    requires forall r :: r in rows <==> RowBelongs(from, to, all, r)
    ensures if DirOnly(from, to, p) then SameAt(PatchAll(from, rows, to), from, p) else SameAt(PatchAll(from, rows, to), to, p)
  {
    if (p in from || p in to) && RowFor(from, to, all, p) != [] {
      var r := RowFor(from, to, all, p)[0];
      assert RowBelongs(from, to, all, r);
      var k :| 0 <= k < |rows| && rows[k] == r;
      PatchItsRow(from, rows, to, k);
    } else {
      PatchElsewhere(from, rows, to, p);
    }
  }

  /**
   Patching the from side with its own diff gives the to side on every path that is not directories only,
   and leaves directory-only paths as they were.
  */
  lemma DiffIsAPatch(from: Side, to: Side, all: bool, p: string)
    ensures var patched := PatchAll(from, Classify(from, to, all), to);
            if DirOnly(from, to, p) then SameAt(patched, from, p) else SameAt(patched, to, p)
  {
    ClassifyMeaning(from, to, all);
    DistinctPaths(Classify(from, to, all));
    PatchMeaning(from, to, all, Classify(from, to, all), p);
  }

  lemma DistinctPaths(rows: seq<DiffEntry>)
    requires Strictly(Map(rows, PathOfRow), StrLess)
    ensures forall i, j :: 0 <= i < j < |rows| ==> rows[i].path != rows[j].path
  {
    forall i, j | 0 <= i < j < |rows| ensures rows[i].path != rows[j].path {
      assert StrLess(Map(rows, PathOfRow)[i], Map(rows, PathOfRow)[j]);
      Trichotomy(rows[i].path, rows[j].path);
    }
  }

  /** A diff without unchanged rows is empty exactly when the sides agree on every path that is not directories only. */
  lemma EmptyDiffMeansSame(from: Side, to: Side)
    ensures Classify(from, to, false) == [] <==> forall p :: DirOnly(from, to, p) || SameAt(from, to, p)
  {
    ClassifyMeaning(from, to, false);
    var rows := Classify(from, to, false);
    if rows != [] {
      assert rows[0] in rows;
      RowShowsChange(from, to, rows[0]);
    }
    forall p | !DirOnly(from, to, p) && !SameAt(from, to, p) ensures rows != [] {
      RowShowsChange(from, to, DiffEntry(StatusAt(from, to, p), p));
    }
  }

  lemma RowShowsChange(from: Side, to: Side, r: DiffEntry)
    ensures RowBelongs(from, to, false, r)
            <==> !DirOnly(from, to, r.path) && !SameAt(from, to, r.path) && r.status == StatusAt(from, to, r.path)
  {
  }

  function IsChange(r: DiffEntry): bool { r.status != Unchanged }

  lemma {:induction false} ChangesOnly(from: Side, to: Side, paths: seq<string>)
    requires forall p :: p in paths ==> p in from || p in to
    ensures RowsFor(from, to, false, paths) == Filter(RowsFor(from, to, true, paths), IsChange)
  {
    if paths != [] {
      var n := |paths| - 1;
      ChangesOnly(from, to, paths[..n]);
      var row := RowFor(from, to, true, paths[n]);
      FilterConcat(RowsFor(from, to, true, paths[..n]), row, IsChange);
      if row != [] { assert row == [row[0]] + []; FilterCons(row[0], [], IsChange); }
    }
  }

  /** With unchanged rows included, every path that is not directories only has a row; without, only the changes remain. */
  lemma AllShowsEveryPath(from: Side, to: Side, p: string)
    ensures (exists r :: r in Classify(from, to, true) && r.path == p) <==> (p in from || p in to) && !DirOnly(from, to, p)
    ensures Classify(from, to, false) == Filter(Classify(from, to, true), IsChange)
  {
    ClassifyMeaning(from, to, true);
    ChangesOnly(from, to, AllPaths(from.Keys, to.Keys));
    if (p in from || p in to) && !DirOnly(from, to, p) {
      assert RowBelongs(from, to, true, DiffEntry(StatusAt(from, to, p), p));
    }
  }

  function Swapped(r: DiffEntry): DiffEntry {
    r.(status := match r.status case Added => Deleted case Deleted => Added case s => s)
  }

  lemma {:induction false} SwapRows(from: Side, to: Side, all: bool, paths: seq<string>)
    requires forall p :: p in paths ==> p in from || p in to
    ensures RowsFor(to, from, all, paths) == Map(RowsFor(from, to, all, paths), Swapped)
  {
    if paths != [] {
      var n := |paths| - 1;
      SwapRows(from, to, all, paths[..n]);
      SwapRow(from, to, all, paths[n]);
      MapConcat(RowsFor(from, to, all, paths[..n]), RowFor(from, to, all, paths[n]), Swapped);
    }
  }

  lemma SwapRow(from: Side, to: Side, all: bool, p: string)
    requires p in from || p in to
    ensures RowFor(to, from, all, p) == Map(RowFor(from, to, all, p), Swapped)
  {
    assert p in from && p in to ==> (SameContent(from[p], to[p]) <==> SameContent(to[p], from[p]));
  }

  /** Diffing the other way round swaps added and deleted and keeps everything else. */
  lemma SwappedSides(from: Side, to: Side, all: bool)
    ensures Classify(to, from, all) == Map(Classify(from, to, all), Swapped)
  {
    assert from.Keys + to.Keys == to.Keys + from.Keys;
    SwapRows(from, to, all, AllPaths(from.Keys, to.Keys));
  }

  // ----- the library's implementation, on fingerprints -----

  type Prints = map<string, Fingerprint>

  function AddPrint(side: Prints, e: ManifestEntry, policy: OnConflict): Result<Prints, string> {
    var fp := FingerprintOf(e);
    if e.path in side then
      if side[e.path] != fp then
        match policy
        case RaiseError => Err(e.path)
        case LastWins => Ok(side[e.path := fp])
      else Ok(side)
    else Ok(side[e.path := fp])
  }

  function UnionPrints(entries: seq<ManifestEntry>, policy: OnConflict): Result<Prints, string> {
    if entries == [] then Ok(map[])
    else
      match UnionPrints(entries[..|entries| - 1], policy)
      case Err(path) => Err(path)
      case Ok(side) => AddPrint(side, entries[|entries| - 1], policy)
  }

  predicate PrintIsDir(fp: Fingerprint) { fp.pathType == Directory }

  function PrintRowFor(from: Prints, to: Prints, all: bool, p: string): seq<DiffEntry>
    requires p in from || p in to
  {
    var presentOnlyDirs :=
      if p in from && p in to then PrintIsDir(from[p]) && PrintIsDir(to[p])
      else if p in from then PrintIsDir(from[p])
      else PrintIsDir(to[p]);
    if presentOnlyDirs then []
    else
      var status :=
        if p !in from then Added
        else if p !in to then Deleted
        else if from[p] == to[p] then Unchanged
        else Modified;
      if status == Unchanged && !all then [] else [DiffEntry(status, p)]
  }

  function PrintRowsFor(from: Prints, to: Prints, all: bool, paths: seq<string>): seq<DiffEntry>
    requires forall p :: p in paths ==> p in from || p in to
  {
    if paths == [] then []
    else PrintRowsFor(from, to, all, paths[..|paths| - 1]) + PrintRowFor(from, to, all, paths[|paths| - 1])
  }

  /** A fingerprint map shows what an entry map holds. */
  ghost predicate Shows(prints: Prints, side: Side) {
    prints.Keys == side.Keys && forall p :: p in side ==> prints[p] == FingerprintOf(side[p])
  }

  lemma {:induction false} UnionsAgree(entries: seq<ManifestEntry>, policy: OnConflict)
    ensures match Union(entries, policy)
            case Err(path) => UnionPrints(entries, policy) == Err(path)
            case Ok(side) => UnionPrints(entries, policy).Ok? && Shows(UnionPrints(entries, policy).value, side)
  {
    if entries != [] {
      UnionsAgree(entries[..|entries| - 1], policy);
    }
  }

  lemma {:induction false} RowsAgree(from: Prints, to: Prints, fromSide: Side, toSide: Side, all: bool, paths: seq<string>)
    requires Shows(from, fromSide) && Shows(to, toSide)
    requires forall p :: p in paths ==> p in fromSide || p in toSide
    ensures PrintRowsFor(from, to, all, paths) == RowsFor(fromSide, toSide, all, paths)
  {
    if paths != [] {
      RowsAgree(from, to, fromSide, toSide, all, paths[..|paths| - 1]);
    }
  }

  /** The command line's diff of two lists of manifests. */
  function CliDiff(from: seq<seq<ManifestEntry>>, to: seq<seq<ManifestEntry>>, all: bool, policy: OnConflict): Result<seq<DiffEntry>, string> {
    match Union(Flatten(from), policy)
    case Err(path) => Err(path)
    case Ok(fromSide) =>
      match Union(Flatten(to), policy)
      case Err(path) => Err(path)
      case Ok(toSide) => Ok(Classify(fromSide, toSide, all))
  }

  /** The library's diff of the same lists. */
  function ApiDiff(from: seq<seq<ManifestEntry>>, to: seq<seq<ManifestEntry>>, all: bool, policy: OnConflict): Result<seq<DiffEntry>, string> {
    match UnionPrints(Flatten(from), policy)
    case Err(path) => Err(path)
    case Ok(fromSide) =>
      match UnionPrints(Flatten(to), policy)
      case Err(path) => Err(path)
      case Ok(toSide) => Ok(PrintRowsFor(fromSide, toSide, all, AllPaths(fromSide.Keys, toSide.Keys)))
  }

  /** The two implementations give the same rows, or fail on the same path. */
  lemma ImplementationsAgree(from: seq<seq<ManifestEntry>>, to: seq<seq<ManifestEntry>>, all: bool, policy: OnConflict)
    ensures ApiDiff(from, to, all, policy) == CliDiff(from, to, all, policy)
  {
    UnionsAgree(Flatten(from), policy);
    UnionsAgree(Flatten(to), policy);
    if Union(Flatten(from), policy).Ok? && Union(Flatten(to), policy).Ok? {
      var fromSide, toSide := Union(Flatten(from), policy).value, Union(Flatten(to), policy).value;
      RowsAgree(UnionPrints(Flatten(from), policy).value, UnionPrints(Flatten(to), policy).value, fromSide, toSide, all,
                AllPaths(fromSide.Keys, toSide.Keys));
    }
  }
}
