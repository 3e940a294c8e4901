/** The content-addressed cache: the whole-cache scan with purge, and the integrity check of one manifest. */
module CacheScan {
  import opened Options
  import opened Sorting
  import opened StringOrder
  import opened Text
  import opened Layout
  import opened ManifestText

  /** A file under `.objects`, by its path components there. */
  type StorePath = seq<string>

  type Bytes = string

  type Objects = map<StorePath, Bytes>

  type Hash = Bytes -> string

  // ----- addresses -----

  /** The checksum an object's path promises. */
  function Expected(p: StorePath): string { Concatenated(p) }

  lemma FourPieces(a: string, b: string, c: string, d: string)
    ensures Concatenated([a, b, c, d]) == a + b + c + d
  {
    assert [a, b, c, d][1..] == [b, c, d] && [b, c, d][1..] == [c, d] && [c, d][1..] == [d] && [d][1..] == [];
    assert Concatenated([d]) == d;
    assert Concatenated([c, d]) == c + d;
    assert Concatenated([b, c, d]) == b + c + d;
  }

  /** The layout loses nothing: a filed object's path promises its checksum. */
  lemma FiledPromisesChecksum(checksum: string)
    ensures |Sharded(checksum)| == 4 && Expected(Sharded(checksum)) == checksum
  {
    var p := Sharded(checksum);
    FourPieces(p[0], p[1], p[2], p[3]);
    assert p == [p[0], p[1], p[2], p[3]];
  }

  // ----- scanning -----

  predicate PathLess(a: StorePath, b: StorePath) {
    if b == [] then false
    else if a == [] then true
    else StrLess(a[0], b[0]) || (a[0] == b[0] && PathLess(a[1..], b[1..]))
  }

  predicate PathLeqObj(a: StorePath, b: StorePath) { a == b || PathLess(a, b) }

  lemma {:induction false} PathTrichotomy(a: StorePath, b: StorePath)
    ensures PathLess(a, b) ==> !PathLess(b, a) && a != b
    ensures a != b ==> PathLess(a, b) || PathLess(b, a)
  {
    if a != [] && b != [] {
      Trichotomy(a[0], b[0]);
      PathTrichotomy(a[1..], b[1..]);
      assert a == [a[0]] + a[1..] && b == [b[0]] + b[1..];
    }
  }

  lemma {:induction false} PathTransitive(a: StorePath, b: StorePath, c: StorePath)
    requires PathLess(a, b) && PathLess(b, c)
    ensures PathLess(a, c)
  {
    if a != [] {
      Trichotomy(a[0], b[0]);
      Trichotomy(b[0], c[0]);
      if a[0] == b[0] == c[0] {
        PathTransitive(a[1..], b[1..], c[1..]);
      } else if StrLess(a[0], b[0]) && StrLess(b[0], c[0]) {
        Transitive(a[0], b[0], c[0]);
      }
    }
  }

  lemma PathLeqObjIsTotalOrder()
    ensures TotalOrder(PathLeqObj)
  {
    forall a, b ensures PathLeqObj(a, b) || PathLeqObj(b, a) { PathTrichotomy(a, b); }
    forall a, b | PathLeqObj(a, b) && PathLeqObj(b, a) ensures a == b { PathTrichotomy(a, b); }
    forall a, b, c | PathLeqObj(a, b) && PathLeqObj(b, c) ensures PathLeqObj(a, c) {
      if a != b && b != c { PathTransitive(a, b, c); }
    }
  }

  /** Every file exactly three directories deep, in path order. */
  function Collected(objects: Objects): (paths: seq<StorePath>)
    ensures forall p :: p in paths <==> p in objects && |p| == 4
    ensures Distinct(paths)
  {
    PathLeqObjIsTotalOrder();
    Ascending((set p | p in objects && |p| == 4), PathLeqObj)
  }

  /** The bytes do not hash to what the path promises. */
  predicate Corrupt(objects: Objects, hash: Hash, p: StorePath) {
    p in objects && |p| == 4 && hash(objects[p]) != Expected(p)
  }

  function IsCorrupt(objects: Objects, hash: Hash): StorePath -> bool {
    (p: StorePath) => Corrupt(objects, hash, p)
  }

  function CorruptPaths(objects: Objects, hash: Hash): seq<StorePath> {
    Filter(Collected(objects), IsCorrupt(objects, hash))
  }

  datatype Report = Report(checked: nat, corrupt: seq<string>, purged: seq<string>) {
    predicate IsClean() { corrupt == [] }
  }

  function SortStrings(s: seq<string>): seq<string> { Sort(s, StrLeq) }

  function ScanReport(objects: Objects, hash: Hash, purge: bool): Report {
    var corrupt := SortStrings(Map(CorruptPaths(objects, hash), Expected));
    Report(|Collected(objects)|, corrupt, if purge then corrupt else [])
  }

  function Scanned(objects: Objects, hash: Hash, purge: bool): Objects {
    if purge then objects - Elements(CorruptPaths(objects, hash)) else objects
  }

  /** A scan is clean exactly when no object is corrupt. */
  lemma CleanMeansNoneCorrupt(objects: Objects, hash: Hash, purge: bool)
    ensures ScanReport(objects, hash, purge).IsClean() <==> forall p :: !Corrupt(objects, hash, p)
  {
    var paths := CorruptPaths(objects, hash);
    InFilter(Collected(objects), IsCorrupt(objects, hash));
    SortPermutes(Map(paths, Expected), StrLeq);
    if paths != [] { assert paths[0] in paths; }
    assert forall p :: Corrupt(objects, hash, p) ==> p in paths;
  }

  /** A purge removes the corrupt objects and nothing else, and a second scan is clean. */
  lemma PurgeLeavesTheSound(objects: Objects, hash: Hash)
    ensures var left := Scanned(objects, hash, true);
            && (forall p :: p in left <==> p in objects && !Corrupt(objects, hash, p))
            && (forall p :: p in left ==> left[p] == objects[p])
            && ScanReport(left, hash, false).IsClean()
  {
    var left := Scanned(objects, hash, true);
    InFilter(Collected(objects), IsCorrupt(objects, hash));
    forall p ensures p in left <==> p in objects && !Corrupt(objects, hash, p) {
      assert p in Elements(CorruptPaths(objects, hash)) <==> p in CorruptPaths(objects, hash);
    }
    CleanMeansNoneCorrupt(left, hash, false);
  }

  // ----- one manifest -----

  datatype CacheError = ObjectNotFound(checksum: string) | Integrity(expected: string, actual: string)

  /** What reading one file entry's object gives. */
  function CheckEntry(objects: Objects, e: ManifestEntry, hash: Hash): Option<CacheError> {
    if e.pathType == Directory then None
    else if Sharded(e.checksum) !in objects then Some(ObjectNotFound(e.checksum))
    else
      var actual := hash(objects[Sharded(e.checksum)]);
      if actual != e.checksum then Some(Integrity(e.checksum, actual)) else None
  }

  /** The first entry's error, if any entry has one. */
  function CheckEntries(objects: Objects, entries: seq<ManifestEntry>, hash: Hash): Option<CacheError> {
    if entries == [] then None
    else if CheckEntry(objects, entries[0], hash).Some? then CheckEntry(objects, entries[0], hash)
    else CheckEntries(objects, entries[1..], hash)
  }

  lemma {:induction false} CheckMeaning(objects: Objects, entries: seq<ManifestEntry>, hash: Hash)
    ensures CheckEntries(objects, entries, hash) == None <==> forall e :: e in entries ==> CheckEntry(objects, e, hash) == None
    ensures CheckEntries(objects, entries, hash).Some? ==>
              exists e :: e in entries && CheckEntry(objects, e, hash) == CheckEntries(objects, entries, hash)
  {
    if entries != [] {
      CheckMeaning(objects, entries[1..], hash);
      assert entries == [entries[0]] + entries[1..];
    }
  }

  /** An entry whose object is filed and sound passes. */
  lemma SoundEntryPasses(objects: Objects, e: ManifestEntry, hash: Hash)
    requires e.pathType == File
    ensures CheckEntry(objects, e, hash) == None <==> Sharded(e.checksum) in objects && !Corrupt(objects, hash, Sharded(e.checksum))
    ensures CheckEntry(objects, e, hash).Some? && CheckEntry(objects, e, hash).value.Integrity? ==> Corrupt(objects, hash, Sharded(e.checksum))
  {
    FiledPromisesChecksum(e.checksum);
  }

  /** After a purge no manifest check can report an integrity error; what fails is only missing. */
  lemma NoIntegrityErrorAfterPurge(objects: Objects, entries: seq<ManifestEntry>, hash: Hash)
    ensures var r := CheckEntries(Scanned(objects, hash, true), entries, hash); r.Some? ==> r.value.ObjectNotFound?
  {
    var left := Scanned(objects, hash, true);
    CheckMeaning(left, entries, hash);
    if CheckEntries(left, entries, hash).Some? {
      var e :| e in entries && CheckEntry(left, e, hash) == CheckEntries(left, entries, hash);
      SoundEntryPasses(left, e, hash);
      PurgeLeavesTheSound(objects, hash);
      CleanMeansNoneCorrupt(left, hash, false);
    }
  }

  // ----- the whole cache -----

  datatype Missing = Missing(checksum: string, path: string)

  function IsMissing(objects: Objects): ManifestEntry -> bool {
    (e: ManifestEntry) => e.pathType == File && Sharded(e.checksum) !in objects
  }

  function MissingOf(e: ManifestEntry): Missing { Missing(e.checksum, e.path) }

  /** A manifest's absent objects, in manifest order. */
  function MissingObjects(objects: Objects, entries: seq<ManifestEntry>): seq<Missing> {
    Map(Filter(entries, IsMissing(objects)), MissingOf)
  }

  /** The first path of each absent object over several lists. */
  function FirstPaths(seen: map<string, string>, missing: seq<Missing>): map<string, string>
    decreases |missing|
  {
    if missing == [] then seen
    else FirstPaths(if missing[0].checksum in seen then seen else seen[missing[0].checksum := missing[0].path], missing[1..])
  }

  function MissingEverywhere(objects: Objects, manifests: seq<seq<ManifestEntry>>, seen: map<string, string>): map<string, string>
    decreases |manifests|
  {
    if manifests == [] then seen
    else MissingEverywhere(objects, manifests[1..], FirstPaths(seen, MissingObjects(objects, manifests[0])))
  }

  lemma {:induction false} FirstPathsKeys(seen: map<string, string>, missing: seq<Missing>)
    ensures FirstPaths(seen, missing).Keys == seen.Keys + set m | m in missing :: m.checksum
    decreases |missing|
  {
    if missing != [] {
      var seen' := if missing[0].checksum in seen then seen else seen[missing[0].checksum := missing[0].path];
      FirstPathsKeys(seen', missing[1..]);
      assert missing == [missing[0]] + missing[1..];
    }
  }

  lemma MissingObjectsAre(objects: Objects, entries: seq<ManifestEntry>)
    ensures forall m :: m in MissingObjects(objects, entries) <==> exists e :: e in entries && IsMissing(objects)(e) && m == MissingOf(e)
  {
    InFilter(entries, IsMissing(objects));
    var absent, missing := Filter(entries, IsMissing(objects)), MissingObjects(objects, entries);
    forall m | m in missing ensures exists e :: e in entries && IsMissing(objects)(e) && m == MissingOf(e) {
      var i :| 0 <= i < |missing| && missing[i] == m;
      assert absent[i] in absent;
    }
    forall e | e in entries && IsMissing(objects)(e) ensures MissingOf(e) in missing {
      assert e in absent;
      var i :| 0 <= i < |absent| && absent[i] == e;
      assert missing[i] == MissingOf(e);
    }
  }

  /** The addresses reported missing are exactly those some manifest needs and the cache lacks. */
  lemma {:induction false} MissingEverywhereMeaning(objects: Objects, manifests: seq<seq<ManifestEntry>>, seen: map<string, string>)
    ensures forall c :: c in MissingEverywhere(objects, manifests, seen) <==>
              c in seen || exists m, e :: m in manifests && e in m && IsMissing(objects)(e) && e.checksum == c
    decreases |manifests|
  {
    if manifests != [] {
      var seen' := FirstPaths(seen, MissingObjects(objects, manifests[0]));
      FirstPathsKeys(seen, MissingObjects(objects, manifests[0]));
      MissingObjectsAre(objects, manifests[0]);
      MissingEverywhereMeaning(objects, manifests[1..], seen');
      assert manifests == [manifests[0]] + manifests[1..];
      forall c ensures c in seen' <==> c in seen || exists e :: e in manifests[0] && IsMissing(objects)(e) && e.checksum == c {
        if e :| e in manifests[0] && IsMissing(objects)(e) && e.checksum == c {
          assert MissingOf(e) in MissingObjects(objects, manifests[0]);
        }
      }
    }
  }

  /** `verify-cache` without purging, over every cached manifest: nothing corrupt and nothing missing. */
  function VerifyCachePasses(objects: Objects, manifests: seq<seq<ManifestEntry>>, hash: Hash): bool {
    ScanReport(objects, hash, false).IsClean() && MissingEverywhere(objects, manifests, map[]) == map[]
  }

  /** Some cached manifest needs the object filed there. */
  ghost predicate Referenced(manifests: seq<seq<ManifestEntry>>, p: StorePath) {
    exists m, e :: m in manifests && e in m && e.pathType == File && Sharded(e.checksum) == p
  }

  lemma NothingMissing(objects: Objects, manifests: seq<seq<ManifestEntry>>)
    ensures MissingEverywhere(objects, manifests, map[]) == map[]
            <==> forall m, e :: m in manifests && e in m && e.pathType == File ==> Sharded(e.checksum) in objects
  {
    MissingEverywhereMeaning(objects, manifests, map[]);
    var missing := MissingEverywhere(objects, manifests, map[]);
    if m, e :| m in manifests && e in m && e.pathType == File && Sharded(e.checksum) !in objects {
      assert IsMissing(objects)(e) && e.checksum in missing;
    }
    if c :| c in missing {
      var m, e :| m in manifests && e in m && IsMissing(objects)(e) && e.checksum == c;
    } else {
      assert missing == map[];
    }
  }

  /**
   `verify-cache` passes exactly when every cached manifest passes its integrity check and every object no
   manifest needs is sound.
  */
  lemma VerifyCacheMeaning(objects: Objects, manifests: seq<seq<ManifestEntry>>, hash: Hash)
    ensures VerifyCachePasses(objects, manifests, hash)
            <==> ((forall m :: m in manifests ==> CheckEntries(objects, m, hash) == None)
                  && (forall p :: Corrupt(objects, hash, p) ==> Referenced(manifests, p)))
  {
    CleanMeansNoneCorrupt(objects, hash, false);
    NothingMissing(objects, manifests);
    forall m | m in manifests
      ensures CheckEntries(objects, m, hash) == None
              <==> forall e :: e in m && e.pathType == File ==> Sharded(e.checksum) in objects && !Corrupt(objects, hash, Sharded(e.checksum))
    {
      SoundManifestPasses(objects, m, hash);
    }
  }

  lemma SoundManifestPasses(objects: Objects, m: seq<ManifestEntry>, hash: Hash)
    ensures CheckEntries(objects, m, hash) == None
            <==> forall e :: e in m && e.pathType == File ==> Sharded(e.checksum) in objects && !Corrupt(objects, hash, Sharded(e.checksum))
  {
    CheckMeaning(objects, m, hash);
    forall e | e in m && e.pathType == File
      ensures CheckEntry(objects, e, hash) == None <==> Sharded(e.checksum) in objects && !Corrupt(objects, hash, Sharded(e.checksum))
    {
      SoundEntryPasses(objects, e, hash);
    }
  }

  // ----- the program -----

  class Cache {
    var objects: Objects

    constructor (objects: Objects)
      ensures this.objects == objects
    {
      this.objects := objects;
    }

    /** Scans every object; with `purge`, deletes the corrupt ones on the way. */
    method VerifyCache(purge: bool, hash: Hash) returns (report: Report)
      modifies this
      ensures report == ScanReport(old(objects), hash, purge)
      ensures objects == Scanned(old(objects), hash, purge)
    {
      var paths := Collected(objects);
      ghost var start := objects;
      var checked, corrupt, purged := 0, [], [];
      for i := 0 to |paths|
        invariant checked == i && ScannedTo(start, hash, paths, i, purge, corrupt, purged, objects)
      {
        var path := paths[i];
        checked := checked + 1;
        ScanStep(start, hash, paths, i, purge, corrupt, purged, objects);
        var expected := Expected(path);
        var actual := hash(objects[path]);
        if actual != expected {
          corrupt := corrupt + [expected];
          if purge {
            objects := objects - {path};
            purged := purged + [expected];
          }
        }
      }
      ScanEnd(start, hash, paths, purge, corrupt, purged, objects);
      report := Report(checked, SortStrings(corrupt), SortStrings(purged));
    }

    /** The first absent or corrupt object of a manifest's files ends the check. */
    method CheckManifestIntegrity(entries: seq<ManifestEntry>, hash: Hash) returns (error: Option<CacheError>)
      ensures error == CheckEntries(objects, entries, hash)
    {
      assert entries[0..] == entries;
      for i := 0 to |entries|
        invariant CheckEntries(objects, entries, hash) == CheckEntries(objects, entries[i..], hash)
      {
        assert entries[i..][1..] == entries[i + 1..];
        if entries[i].pathType == Directory {
          continue;
        }
        var checksum := entries[i].checksum;
        if Sharded(checksum) !in objects {
          return Some(ObjectNotFound(checksum));
        }
        var actual := hash(objects[Sharded(checksum)]);
        if actual != checksum {
          return Some(Integrity(checksum, actual));
        }
      }
      error := None;
    }

    method ListMissing(entries: seq<ManifestEntry>) returns (missing: seq<Missing>)
      ensures missing == MissingObjects(objects, entries)
    {
      missing := [];
      for i := 0 to |entries|
        invariant missing == MissingObjects(objects, entries[..i])
      {
        MissingStep(objects, entries, i);
        if entries[i].pathType != File {
          continue;
        }
        if Sharded(entries[i].checksum) !in objects {
          missing := missing + [Missing(entries[i].checksum, entries[i].path)];
        }
      }
      assert entries[..|entries|] == entries;
    }

    /** Adds missing objects, keeping the first path of each address. */
    method MergeMissing(seen: map<string, string>, absent: seq<Missing>) returns (missing: map<string, string>)
      ensures missing == FirstPaths(seen, absent)
    {
      missing := seen;
      assert absent[0..] == absent;
      for j := 0 to |absent|
        invariant FirstPaths(missing, absent[j..]) == FirstPaths(seen, absent)
      {
        assert absent[j..][1..] == absent[j + 1..];
        if absent[j].checksum !in missing {
          missing := missing[absent[j].checksum := absent[j].path];
        }
      }
    }

    method AllMissing(manifests: seq<seq<ManifestEntry>>) returns (missing: map<string, string>)
      ensures missing == MissingEverywhere(objects, manifests, map[])
    {
      missing := map[];
      assert manifests[0..] == manifests;
      for i := 0 to |manifests|
        invariant MissingEverywhere(objects, manifests[i..], missing) == MissingEverywhere(objects, manifests, map[])
      {
        assert manifests[i..][1..] == manifests[i + 1..];
        var absent := ListMissing(manifests[i]);
        missing := MergeMissing(missing, absent);
      }
    }

    /** The whole `verify-cache` command over every cached manifest; passes when nothing is corrupt or missing. */
    method RunVerifyCache(manifests: seq<seq<ManifestEntry>>, wantPurge: bool, dryrun: bool, hash: Hash)
      returns (passed: bool, report: Report, missing: map<string, string>)
      modifies this
      ensures report == ScanReport(old(objects), hash, wantPurge && !dryrun)
      ensures objects == Scanned(old(objects), hash, wantPurge && !dryrun)
      ensures missing == MissingEverywhere(objects, manifests, map[])
      ensures passed <==> VerifyCachePasses(old(objects), manifests, hash)
    {
      var purge := wantPurge && !dryrun;
      SameVerdict(objects, hash, purge);
      if ScanReport(objects, hash, purge).IsClean() { CleanPurgesNothing(objects, hash, purge); }
      report := VerifyCache(purge, hash);
      missing := AllMissing(manifests);
      passed := report.IsClean() && missing == map[];
    }
  }

  lemma NotYetRemoved(start: Objects, hash: Hash, paths: seq<StorePath>, i: nat)
    requires i < |paths| && paths == Collected(start)
    ensures paths[i] in start && |paths[i]| == 4 && paths[i] !in Elements(Filter(paths[..i], IsCorrupt(start, hash)))
  {
    assert paths[i] in paths;
    InFilter(paths[..i], IsCorrupt(start, hash));
    assert forall k :: 0 <= k < i ==> paths[..i][k] != paths[i];
  }

  lemma OneMoreBad(start: Objects, bad: seq<StorePath>, path: StorePath)
    ensures Map(bad + [path], Expected) == Map(bad, Expected) + [Expected(path)]
    ensures start - Elements(bad + [path]) == start - Elements(bad) - {path}
  {
    assert Elements(bad + [path]) == Elements(bad) + {path};
  }

  /** The objects left when some of them were found corrupt. */
  function Swept(start: Objects, bad: seq<StorePath>, purge: bool): Objects {
    if purge then start - Elements(bad) else start
  }

  /** The scan's state when the first `i` objects have been looked at. */
  ghost predicate ScannedTo(start: Objects, hash: Hash, paths: seq<StorePath>, i: nat, purge: bool,
                            corrupt: seq<string>, purged: seq<string>, left: Objects)
  {
    && i <= |paths| && corrupt == Map(Filter(paths[..i], IsCorrupt(start, hash)), Expected)
    && purged == (if purge then corrupt else []) && left == Swept(start, Filter(paths[..i], IsCorrupt(start, hash)), purge)
  }

  /** One more object: a sound one changes nothing, a corrupt one is reported and, when purging, taken away. */
  lemma ScanStep(start: Objects, hash: Hash, paths: seq<StorePath>, i: nat, purge: bool,
                 corrupt: seq<string>, purged: seq<string>, left: Objects)
    requires i < |paths| && paths == Collected(start) && ScannedTo(start, hash, paths, i, purge, corrupt, purged, left)
    ensures paths[i] in left
    ensures var p := paths[i];
            if hash(left[p]) == Expected(p) then ScannedTo(start, hash, paths, i + 1, purge, corrupt, purged, left)
            else ScannedTo(start, hash, paths, i + 1, purge, corrupt + [Expected(p)],
                           if purge then purged + [Expected(p)] else purged, if purge then left - {p} else left)
  {
    NotYetRemoved(start, hash, paths, i);
    CorruptStep(start, hash, paths, i);
    OneMoreBad(start, Filter(paths[..i], IsCorrupt(start, hash)), paths[i]);
  }

  lemma ScanEnd(start: Objects, hash: Hash, paths: seq<StorePath>, purge: bool, corrupt: seq<string>, purged: seq<string>, left: Objects)
    requires paths == Collected(start) && ScannedTo(start, hash, paths, |paths|, purge, corrupt, purged, left)
    ensures left == Scanned(start, hash, purge)
    ensures Report(|paths|, SortStrings(corrupt), SortStrings(purged)) == ScanReport(start, hash, purge)
  {
    assert paths[..|paths|] == paths;
  }

  lemma CleanPurgesNothing(objects: Objects, hash: Hash, purge: bool)
    requires ScanReport(objects, hash, purge).IsClean()
    ensures Scanned(objects, hash, purge) == objects
  {
    CleanMeansNoneCorrupt(objects, hash, purge);
    InFilter(Collected(objects), IsCorrupt(objects, hash));
    HasMember(CorruptPaths(objects, hash));
  }

  /** Purging does not change whether the scan is clean. */
  lemma SameVerdict(objects: Objects, hash: Hash, purge: bool)
    ensures ScanReport(objects, hash, purge).IsClean() <==> ScanReport(objects, hash, false).IsClean()
  {
    CleanMeansNoneCorrupt(objects, hash, purge);
    CleanMeansNoneCorrupt(objects, hash, false);
  }

  lemma CorruptStep(start: Objects, hash: Hash, paths: seq<StorePath>, i: nat)
    requires i < |paths|
    ensures var p := IsCorrupt(start, hash);
            Filter(paths[..i + 1], p) == if Corrupt(start, hash, paths[i]) then Filter(paths[..i], p) + [paths[i]] else Filter(paths[..i], p)
  {
    var p := IsCorrupt(start, hash);
    assert paths[..i + 1] == paths[..i] + [paths[i]];
    FilterConcat(paths[..i], [paths[i]], p);
    assert Filter([paths[i]], p) == if p(paths[i]) then [paths[i]] else [];
  }

  lemma MissingStep(objects: Objects, entries: seq<ManifestEntry>, i: nat)
    requires i < |entries|
    ensures MissingObjects(objects, entries[..i + 1])
            == MissingObjects(objects, entries[..i]) + if IsMissing(objects)(entries[i]) then [MissingOf(entries[i])] else []
  {
    var p := IsMissing(objects);
    assert entries[..i + 1] == entries[..i] + [entries[i]];
    FilterConcat(entries[..i], [entries[i]], p);
    assert Filter([entries[i]], p) == if p(entries[i]) then [entries[i]] else [];
  }
}
