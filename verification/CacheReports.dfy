/** What a cache scan's report, a failed manifest check and the list of missing objects name. */
module CacheReports {
  import opened Options
  import opened Sorting
  import opened StringOrder
  import opened Layout
  import opened ManifestText
  import opened CacheScan

  // ----- the scan's report -----

  ghost function CorruptSet(objects: Objects, hash: Hash): set<StorePath> {
    set p | p in objects && |p| == 4 && hash(objects[p]) != Expected(p)
  }

  lemma CorruptPathsAre(objects: Objects, hash: Hash)
    ensures Elements(CorruptPaths(objects, hash)) == CorruptSet(objects, hash)
    ensures |CorruptPaths(objects, hash)| == |CorruptSet(objects, hash)|
  {
    InFilter(Collected(objects), IsCorrupt(objects, hash));
    FilterDistinct(Collected(objects), IsCorrupt(objects, hash));
    DistinctSize(CorruptPaths(objects, hash));
    assert forall p :: p in CorruptPaths(objects, hash) <==> p in CorruptSet(objects, hash);
  }

  /**
   The report counts every object three directories deep and lists, sorted, the promised checksum of each one whose
   bytes do not hash to it, once for each; a purge names the same.
  */
  lemma ReportMeaning(objects: Objects, hash: Hash, purge: bool)
    ensures var r := ScanReport(objects, hash, purge);
            && r.checked == |set p | p in objects && |p| == 4|
            && |r.corrupt| == |CorruptSet(objects, hash)| && Sorted(r.corrupt, StrLeq)
            && (forall c :: c in r.corrupt <==> exists p :: p in CorruptSet(objects, hash) && Expected(p) == c)
            && r.purged == if purge then r.corrupt else []
  {
    var paths := CorruptPaths(objects, hash);
    var named := Map(paths, Expected);
    StrLeqIsTotalOrder();
    SortSorts(named, StrLeq);
    SortPermutes(named, StrLeq);
    CorruptPathsAre(objects, hash);
    CountedAre(objects);
    forall c ensures c in SortStrings(named) <==> exists p :: p in CorruptSet(objects, hash) && Expected(p) == c {
      assert c in SortStrings(named) <==> c in Elements(SortStrings(named));
      NamedIn(paths, c);
      assert forall p :: p in paths <==> p in Elements(paths);
    }
  }

  lemma CountedAre(objects: Objects)
    ensures |Collected(objects)| == |set p | p in objects && |p| == 4|
  {
    DistinctSize(Collected(objects));
    assert Elements(Collected(objects)) == set p | p in objects && |p| == 4;
  }

  lemma NamedIn(paths: seq<StorePath>, c: string)
    ensures c in Elements(Map(paths, Expected)) <==> exists p :: p in paths && Expected(p) == c
  {
    var named := Map(paths, Expected);
    if c in Elements(named) {
      var i :| 0 <= i < |named| && named[i] == c;
      assert paths[i] in paths;
    }
    if p :| p in paths && Expected(p) == c {
      var i :| 0 <= i < |paths| && paths[i] == p;
      assert named[i] == c;
    }
  }

  // ----- a manifest's first error -----

  predicate Passes(objects: Objects, e: ManifestEntry, hash: Hash) {
    e.pathType == Directory || (Sharded(e.checksum) in objects && hash(objects[Sharded(e.checksum)]) == e.checksum)
  }

  /** What an error says of the entry it is about. */
  predicate Describes(objects: Objects, e: ManifestEntry, hash: Hash, error: CacheError) {
    match error
    case ObjectNotFound(checksum) => checksum == e.checksum && Sharded(checksum) !in objects
    case Integrity(expected, actual) =>
      expected == e.checksum && Sharded(expected) in objects && actual == hash(objects[Sharded(expected)])
  }

  /** A manifest check fails on its first entry that does not pass, and names the promised checksum and the bytes' own. */
  lemma {:induction false} FirstErrorMeaning(objects: Objects, entries: seq<ManifestEntry>, hash: Hash, error: CacheError)
    ensures CheckEntries(objects, entries, hash) == Some(error)
            <==> exists k :: 0 <= k < |entries| && !Passes(objects, entries[k], hash) && Describes(objects, entries[k], hash, error)
                             && forall j :: 0 <= j < k ==> Passes(objects, entries[j], hash)
  {
    if entries != [] {
      if Passes(objects, entries[0], hash) {
        var tail := entries[1..];
        FirstErrorMeaning(objects, tail, hash, error);
        if k :| 0 <= k < |tail| && !Passes(objects, tail[k], hash) && Describes(objects, tail[k], hash, error)
                && forall j :: 0 <= j < k ==> Passes(objects, tail[j], hash) {
          assert entries[k + 1] == tail[k];
          forall j | 0 <= j < k + 1 ensures Passes(objects, entries[j], hash) { if j > 0 { assert entries[j] == tail[j - 1]; } }
        }
        if k :| 0 <= k < |entries| && !Passes(objects, entries[k], hash) && Describes(objects, entries[k], hash, error)
                && forall j :: 0 <= j < k ==> Passes(objects, entries[j], hash) {
          assert k > 0 && tail[k - 1] == entries[k];
          forall j | 0 <= j < k - 1 ensures Passes(objects, tail[j], hash) { assert tail[j] == entries[j + 1]; }
        }
      } else if CheckEntries(objects, entries, hash) == Some(error) {
        assert Describes(objects, entries[0], hash, error);
      }
    }
  }

  // ----- missing objects -----

  /** Entry `k` of manifest `i` is the first, over all manifests in order, whose file needs this absent object. */
  ghost predicate FirstLacking(objects: Objects, manifests: seq<seq<ManifestEntry>>, checksum: string, i: nat, k: nat) {
    && i < |manifests| && k < |manifests[i]| && Lacks(objects, manifests[i][k], checksum)
    && (forall l :: 0 <= l < k ==> !Lacks(objects, manifests[i][l], checksum))
    && (forall j, e :: 0 <= j < i && e in manifests[j] ==> !Lacks(objects, e, checksum))
  }

  predicate Lacks(objects: Objects, e: ManifestEntry, checksum: string) {
    e.pathType == File && e.checksum == checksum && Sharded(checksum) !in objects
  }

  lemma {:induction false} FirstPathKept(seen: map<string, string>, missing: seq<Missing>, c: string)
    requires c in seen
    ensures c in FirstPaths(seen, missing) && FirstPaths(seen, missing)[c] == seen[c]
    decreases |missing|
  {
    if missing != [] {
      FirstPathKept(if missing[0].checksum in seen then seen else seen[missing[0].checksum := missing[0].path], missing[1..], c);
    }
  }

  lemma {:induction false} FirstPathTaken(seen: map<string, string>, missing: seq<Missing>, c: string, n: nat)
    requires c !in seen && n < |missing| && missing[n].checksum == c && forall j :: 0 <= j < n ==> missing[j].checksum != c
    ensures c in FirstPaths(seen, missing) && FirstPaths(seen, missing)[c] == missing[n].path
    decreases |missing|
  {
    var seen' := if missing[0].checksum in seen then seen else seen[missing[0].checksum := missing[0].path];
    if n == 0 { FirstPathKept(seen', missing[1..], c); } else { FirstPathTaken(seen', missing[1..], c, n - 1); }
  }

  /** The first lacking entry is the first of its checksum among a manifest's missing objects. */
  lemma {:induction false} FirstMissing(objects: Objects, entries: seq<ManifestEntry>, c: string, k: nat) returns (n: nat)
    requires k < |entries| && Lacks(objects, entries[k], c) && forall l :: 0 <= l < k ==> !Lacks(objects, entries[l], c)
    ensures n < |MissingObjects(objects, entries)| && MissingObjects(objects, entries)[n] == Missing(c, entries[k].path)
    ensures forall j :: 0 <= j < n ==> MissingObjects(objects, entries)[j].checksum != c
  {
    var tail := entries[1..];
    MissingCons(objects, entries);
    if k == 0 {
      n := 0;
    } else {
      n := FirstMissing(objects, tail, c, k - 1);
      assert !Lacks(objects, entries[0], c);
      if IsMissing(objects)(entries[0]) { n := n + 1; }
    }
  }

  lemma MissingCons(objects: Objects, entries: seq<ManifestEntry>)
    requires entries != []
    ensures MissingObjects(objects, entries)
            == (if IsMissing(objects)(entries[0]) then [MissingOf(entries[0])] else []) + MissingObjects(objects, entries[1..])
  {
    MapConcat([entries[0]], Filter(entries[1..], IsMissing(objects)), MissingOf);
  }

  lemma {:induction false} SeenStays(objects: Objects, manifests: seq<seq<ManifestEntry>>, seen: map<string, string>, c: string)
    requires c in seen
    ensures c in MissingEverywhere(objects, manifests, seen) && MissingEverywhere(objects, manifests, seen)[c] == seen[c]
    decreases |manifests|
  {
    if manifests != [] {
      FirstPathKept(seen, MissingObjects(objects, manifests[0]), c);
      SeenStays(objects, manifests[1..], FirstPaths(seen, MissingObjects(objects, manifests[0])), c);
    }
  }

  /** Each missing object is reported with the path of the first entry that lacks it. */
  lemma {:induction false} MissingPathIsFirst(objects: Objects, manifests: seq<seq<ManifestEntry>>, seen: map<string, string>, c: string, i: nat, k: nat)
    requires c !in seen && FirstLacking(objects, manifests, c, i, k)
    ensures c in MissingEverywhere(objects, manifests, seen)
    ensures MissingEverywhere(objects, manifests, seen)[c] == manifests[i][k].path
    decreases |manifests|
  {
    var found := MissingObjects(objects, manifests[0]);
    if i == 0 {
      var n := FirstMissing(objects, manifests[0], c, k);
      FirstPathTaken(seen, found, c, n);
      SeenStays(objects, manifests[1..], FirstPaths(seen, found), c);
    } else {
      NotYetSeen(objects, manifests[0], seen, c);
      MissingPathIsFirst(objects, manifests[1..], FirstPaths(seen, found), c, i - 1, k);
    }
  }

  lemma NotYetSeen(objects: Objects, entries: seq<ManifestEntry>, seen: map<string, string>, c: string)
    requires c !in seen && forall e :: e in entries ==> !Lacks(objects, e, c)
    ensures c !in FirstPaths(seen, MissingObjects(objects, entries))
  {
    FirstPathsKeys(seen, MissingObjects(objects, entries));
    MissingObjectsAre(objects, entries);
  }
}
