/** Exact mirroring: which destination entries to prune, in which order, and what the destructive loop leaves. */
module Mirror {
  import opened Options
  import opened Sorting
  import opened StringOrder
  import opened FileTree

  // ----- the prune set -----

  /** Deepest first; ties in byte order. */
  predicate DeeperFirst(a: string, b: string) {
    Depth(a) > Depth(b) || (Depth(a) == Depth(b) && StrLeq(a, b))
  }

  lemma DeeperFirstIsTotalOrder()
    ensures TotalOrder(DeeperFirst)
  {
    StrLeqIsTotalOrder();
  }

  function Extraneous(manifest: set<string>, protected: string -> bool): string -> bool {
    (key: string) => key != "./" && key !in manifest && !protected(key)
  }

  /** The destination keys to delete, in deletion order. `protected` stands for a match of any exclude pattern. */
  function PruneSet(manifest: set<string>, dest: seq<string>, protected: string -> bool): seq<string> {
    Sort(Filter(dest, Extraneous(manifest, protected)), DeeperFirst)
  }

  // ----- the deletion loop -----

  /** The tree the loop leaves, and the entry it failed on, if any. */
  datatype Outcome = Outcome(nodes: Nodes, failed: Option<Path>)

  function RemoveOne(nodes: Nodes, p: Path): Outcome {
    if p !in nodes then Outcome(nodes, None)
    else if nodes[p] == Dir && HasChild(nodes, p) then Outcome(nodes, Some(p))
    else Outcome(nodes - {p}, None)
  }

  function RemoveAll(nodes: Nodes, paths: seq<Path>): Outcome {
    if paths == [] then Outcome(nodes, None)
    else
      var before := RemoveAll(nodes, paths[..|paths| - 1]);
      if before.failed.Some? then before else RemoveOne(before.nodes, paths[|paths| - 1])
  }

  ghost predicate DeepestFirst(paths: seq<Path>) {
    forall i, j :: 0 <= i < j < |paths| ==> |paths[i]| >= |paths[j]|
  }

  /** Whatever is in a doomed directory is doomed. */
  ghost predicate TakesChildren(nodes: Nodes, doomed: set<Path>) {
    forall q :: q in nodes && q != [] && Parent(q) in doomed ==> q in doomed
  }

  /** Deepest first, the loop succeeds exactly when no doomed directory holds a survivor, and then removes exactly the doomed. */
  lemma {:induction false} RemoveAllMeaning(nodes: Nodes, paths: seq<Path>)
    requires WellFormed(nodes) && DeepestFirst(paths)
    ensures RemoveAll(nodes, paths).failed == None <==> TakesChildren(nodes, Elements(paths))
    ensures RemoveAll(nodes, paths).failed == None ==> RemoveAll(nodes, paths).nodes == nodes - Elements(paths)
  {
    if paths == [] {
      assert nodes - Elements(paths) == nodes;
    } else {
      var n := |paths| - 1;
      var before, last := paths[..n], paths[n];
      SplitLast(paths);
      RemoveAllMeaning(nodes, before);
      RemoveNext(nodes, before, last, RemoveAll(nodes, before));
    }
  }

  lemma SplitLast(paths: seq<Path>)
    requires paths != []
    ensures var before, last := paths[..|paths| - 1], paths[|paths| - 1];
            && paths == before + [last] && Elements(paths) == Elements(before) + {last}
            && (DeepestFirst(paths) ==> DeepestFirst(before))
  {
    assert paths == paths[..|paths| - 1] + [paths[|paths| - 1]];
  }

  lemma RemoveNext(nodes: Nodes, before: seq<Path>, last: Path, r: Outcome)
    requires WellFormed(nodes) && DeepestFirst(before + [last])
    requires r.failed == None <==> TakesChildren(nodes, Elements(before))
    requires r.failed == None ==> r.nodes == nodes - Elements(before)
    ensures var next := if r.failed.Some? then r else RemoveOne(r.nodes, last);
            && (next.failed == None <==> TakesChildren(nodes, Elements(before) + {last}))
            && (next.failed == None ==> next.nodes == nodes - (Elements(before) + {last}))
  {
    FailureStays(nodes, before, last);
    if TakesChildren(nodes, Elements(before)) { RemoveOneMore(nodes, before, last); }
  }

  lemma RemoveOneMore(nodes: Nodes, before: seq<Path>, last: Path)
    requires WellFormed(nodes) && DeepestFirst(before + [last]) && TakesChildren(nodes, Elements(before))
    ensures var r := RemoveOne(nodes - Elements(before), last);
            && (r.failed == None <==> TakesChildren(nodes, Elements(before) + {last}))
            && (r.failed == None ==> r.nodes == nodes - (Elements(before) + {last}))
  {
    LastTakesNone(nodes, before, last);
    RemoveLast(nodes, Elements(before), last);
  }

  /** A deeper directory's survivor stays a survivor. */
  lemma FailureStays(nodes: Nodes, before: seq<Path>, last: Path)
    requires WellFormed(nodes) && DeepestFirst(before + [last])
    ensures TakesChildren(nodes, Elements(before) + {last}) ==> TakesChildren(nodes, Elements(before))
  {
    LastTakesNone(nodes, before, last);
  }

  /** A tree that has lost some of its nodes and changed none of the others. */
  ghost predicate Remains(left: Nodes, nodes: Nodes) {
    forall p :: p in left ==> p in nodes && left[p] == nodes[p]
  }

  /**
   In any order, whether it succeeds or fails, the loop leaves a well-formed tree that has lost only doomed nodes;
   what it fails on is a doomed directory that still holds something.
  */
  lemma {:induction false} RemoveAllKeeps(nodes: Nodes, paths: seq<Path>)
    requires WellFormed(nodes) && [] !in paths
    ensures var r := RemoveAll(nodes, paths);
            && WellFormed(r.nodes) && Remains(r.nodes, nodes) && nodes.Keys - Elements(paths) <= r.nodes.Keys
            && (r.failed.Some? ==> r.failed.value in paths && r.failed.value in r.nodes
                                   && nodes[r.failed.value] == Dir && HasChild(r.nodes, r.failed.value))
  {
    if paths != [] {
      var before, last := paths[..|paths| - 1], paths[|paths| - 1];
      assert paths == before + [last];
      RemoveAllKeeps(nodes, before);
      RemoveOneKeeps(RemoveAll(nodes, before).nodes, last);
    }
  }

  lemma RemoveOneKeeps(nodes: Nodes, p: Path)
    requires WellFormed(nodes) && p != []
    ensures var r := RemoveOne(nodes, p);
            && WellFormed(r.nodes) && Remains(r.nodes, nodes) && nodes.Keys - {p} <= r.nodes.Keys
            && (r.failed.Some? ==> r == Outcome(nodes, Some(p)) && p in nodes && nodes[p] == Dir && HasChild(nodes, p))
  {
    var left := RemoveOne(nodes, p).nodes;
    forall q | q in left && q != [] ensures Parent(q) in left && left[Parent(q)] == Dir {
      assert Parent(q) == p ==> HasChild(nodes, p);
    }
  }

  lemma RemoveLast(nodes: Nodes, doomed: set<Path>, last: Path)
    requires WellFormed(nodes)
    ensures var r := RemoveOne(nodes - doomed, last);
            && (r.failed == None ==> r.nodes == nodes - (doomed + {last}))
            && (last !in doomed ==>
                  (r.failed == None <==> forall q :: q in nodes && q != [] && Parent(q) == last ==> q in doomed))
            && (last in doomed ==> r.failed == None)
  {
    var left := nodes - doomed;
    assert left - {last} == nodes - (doomed + {last});
    if last !in left { assert left == nodes - (doomed + {last}); }
    if last !in doomed {
      if q :| q in nodes && q != [] && Parent(q) == last && q !in doomed {
        assert q in left && last in left && HasChild(left, last);
      }
    }
  }

  /** The last path is in none of the directories before it, so it adds only its own children's condition. */
  lemma LastTakesNone(nodes: Nodes, before: seq<Path>, last: Path)
    requires WellFormed(nodes) && DeepestFirst(before + [last])
    ensures TakesChildren(nodes, Elements(before) + {last})
            <==> TakesChildren(nodes, Elements(before)) && forall q :: q in nodes && q != [] && Parent(q) == last ==> q in Elements(before)
    ensures last in before && TakesChildren(nodes, Elements(before)) ==>
              forall q :: q in nodes && q != [] && Parent(q) == last ==> q in Elements(before)
  {
    forall p | p in before ensures |p| >= |last| {
      var i :| 0 <= i < |before| && before[i] == p;
      assert (before + [last])[i] == p && (before + [last])[|before|] == last;
    }
    assert forall q :: q in nodes && q != [] && Parent(q) in Elements(before) ==> |q| > |last|;
    assert forall q: Path :: q != [] && Parent(q) == last ==> q != last;
  }

  // ----- listing the destination -----

  datatype DestEntry = DestEntry(path: string, kind: Kind)

  function PathOfEntry(e: DestEntry): string { e.path }

  /** Strictly below a directory. */
  predicate Below(p: Path, dir: Path) { |p| > |dir| && p[..|dir|] == dir }

  function EntryAt(nodes: Nodes, p: Path): DestEntry
    requires p in nodes
  {
    DestEntry(Key(p, nodes[p]), nodes[p])
  }

  function EntriesOf(nodes: Nodes, paths: seq<Path>): seq<DestEntry>
    requires forall p :: p in paths ==> p in nodes
  {
    seq(|paths|, i requires 0 <= i < |paths| => assert paths[i] in paths; EntryAt(nodes, paths[i]))
  }

  function Descendants(nodes: Nodes, dir: Path): set<Path> {
    set p | p in nodes && Below(p, dir)
  }

  function Children(nodes: Nodes, dir: Path): set<Path> {
    set p | p in nodes && p != [] && Parent(p) == dir
  }

  /** Some children of a directory and everything below them. */
  ghost function Under(nodes: Nodes, dir: Path, done: set<Path>): set<Path> {
    set p | p in nodes && Below(p, dir) && p[..|dir| + 1] in done
  }

  /** Every descendant is a child or below one, and nothing is below a file. */
  lemma {:induction false} ChildOf(nodes: Nodes, dir: Path, p: Path)
    requires WellFormed(nodes) && p in nodes && Below(p, dir)
    ensures p[..|dir| + 1] in Children(nodes, dir)
    ensures p != p[..|dir| + 1] ==> nodes[p[..|dir| + 1]] == Dir && Below(p, p[..|dir| + 1])
    decreases |p|
  {
    if |p| == |dir| + 1 {
      assert p[..|dir| + 1] == p && Parent(p) == dir;
    } else {
      ChildOf(nodes, dir, Parent(p));
      assert Parent(p)[..|dir| + 1] == p[..|dir| + 1];
      if |p| == |dir| + 2 { assert Parent(p) == p[..|dir| + 1]; }
    }
  }

  lemma UnderAll(nodes: Nodes, dir: Path)
    requires WellFormed(nodes)
    ensures Under(nodes, dir, Children(nodes, dir)) == Descendants(nodes, dir)
  {
    forall p | p in Descendants(nodes, dir) ensures p in Under(nodes, dir, Children(nodes, dir)) { ChildOf(nodes, dir, p); }
  }

  lemma UnderOneMore(nodes: Nodes, dir: Path, done: set<Path>, child: Path)
    requires WellFormed(nodes) && child in Children(nodes, dir)
    ensures Under(nodes, dir, done + {child})
            == Under(nodes, dir, done) + {child} + if nodes[child] == Dir then Descendants(nodes, child) else {}
    ensures child !in done ==> Under(nodes, dir, done) !! {child} + Descendants(nodes, child)
  {
    assert |child| == |dir| + 1 && child[..|dir|] == dir && child[..|dir| + 1] == child;
    forall p | p in nodes && Below(p, dir) && p[..|dir| + 1] == child
      ensures p == child || (nodes[child] == Dir && Below(p, child))
    {
      ChildOf(nodes, dir, p);
    }
    forall p | p in Descendants(nodes, child) ensures Below(p, dir) && p[..|dir| + 1] == child {
      assert p[..|dir|] == p[..|child|][..|dir|];
    }
  }

  lemma ChildShrinks(nodes: Nodes, dir: Path, child: Path)
    requires child in Children(nodes, dir)
    ensures Descendants(nodes, child) < Descendants(nodes, dir)
  {
    forall p | p in Descendants(nodes, child) ensures p in Descendants(nodes, dir) {
      assert p[..|dir|] == p[..|child|][..|dir|] == dir;
    }
    assert Below(child, dir) && child in Descendants(nodes, dir) && child !in Descendants(nodes, child);
  }

  lemma AppendEntries(nodes: Nodes, out: seq<DestEntry>, a: seq<Path>, b: seq<Path>)
    requires forall p :: p in a + b ==> p in nodes
    ensures forall p :: p in a || p in b ==> p in nodes
    ensures out + EntriesOf(nodes, a + b) == out + EntriesOf(nodes, a) + EntriesOf(nodes, b)
    ensures Elements(a + b) == Elements(a) + Elements(b)
  {
    forall p | p in a || p in b ensures p in a + b { }
  }

  /** The entries of everything below a directory. */
  ghost function EntriesBelow(nodes: Nodes, dir: Path): set<DestEntry> {
    set p | p in Descendants(nodes, dir) :: EntryAt(nodes, p)
  }

  lemma ListingOf(nodes: Nodes, dir: Path, out: seq<DestEntry>, paths: seq<Path>)
    requires Distinct(paths) && Elements(paths) == Descendants(nodes, dir)
    ensures forall p :: p in paths ==> p in nodes
    ensures |out + EntriesOf(nodes, paths)| == |out| + |Descendants(nodes, dir)|
    ensures Elements(out + EntriesOf(nodes, paths)) == Elements(out) + EntriesBelow(nodes, dir)
  {
    assert forall p :: p in paths ==> p in Elements(paths);
    DistinctSize(paths);
    var listed := EntriesOf(nodes, paths);
    forall e ensures e in listed <==> e in EntriesBelow(nodes, dir) {
      if e in listed {
        var i :| 0 <= i < |listed| && listed[i] == e;
        assert paths[i] in paths && e == EntryAt(nodes, paths[i]);
      }
      if e in EntriesBelow(nodes, dir) {
        var p :| p in Descendants(nodes, dir) && e == EntryAt(nodes, p);
        assert p in Elements(paths);
        var i :| 0 <= i < |paths| && paths[i] == p;
        assert listed[i] == e;
      }
    }
  }

  /** Walks a directory in whatever order it is read, appending an entry for everything below it. */
  method CollectDestEntries(tree: Tree, dir: Path, out: seq<DestEntry>) returns (all: seq<DestEntry>, ghost paths: seq<Path>)
    requires WellFormed(tree.nodes)
    ensures Elements(paths) == Descendants(tree.nodes, dir)
    ensures Distinct(paths) && forall p :: p in paths ==> p in tree.nodes
    ensures all == out + EntriesOf(tree.nodes, paths)
    ensures |all| == |out| + |Descendants(tree.nodes, dir)|
    ensures Elements(all) == Elements(out) + EntriesBelow(tree.nodes, dir)
    decreases Descendants(tree.nodes, dir), 1
  {
    var todo := Children(tree.nodes, dir);
    all, paths := out, [];
    ghost var done: set<Path> := {};
    while todo != {}
      invariant todo + done == Children(tree.nodes, dir) && todo !! done
      invariant Elements(paths) == Under(tree.nodes, dir, done)
      invariant Distinct(paths) && forall p :: p in paths ==> p in tree.nodes
      invariant all == out + EntriesOf(tree.nodes, paths)
      decreases todo
    {
      var child :| child in todo;
      UnderOneMore(tree.nodes, dir, done, child);
      all, paths := CollectChild(tree, dir, child, out, all, paths);
      done := done + {child};
      todo := todo - {child};
    }
    UnderAll(tree.nodes, dir);
    ListingOf(tree.nodes, dir, out, paths);
  }

  lemma JoinListings(nodes: Nodes, out: seq<DestEntry>, a: seq<Path>, listed: seq<DestEntry>, b: seq<Path>, all: seq<DestEntry>)
    requires (forall p :: p in a ==> p in nodes) && forall p :: p in b ==> p in nodes
    requires Distinct(a) && Distinct(b) && Elements(a) !! Elements(b)
    requires listed == out + EntriesOf(nodes, a) && all == listed + EntriesOf(nodes, b)
    ensures Distinct(a + b) && Elements(a + b) == Elements(a) + Elements(b) && forall p :: p in a + b ==> p in nodes
    ensures all == out + EntriesOf(nodes, a + b)
  {
    AppendEntries(nodes, out, a, b);
    DistinctAppend(a, b);
  }

  lemma OneListing(nodes: Nodes, p: Path)
    requires p in nodes
    ensures EntriesOf(nodes, [p]) == [EntryAt(nodes, p)] && Elements([p]) == {p}
  {
  }

  /** One directory entry: itself, then what is below it if it is a real directory. */
  method CollectChild(tree: Tree, dir: Path, child: Path, ghost out: seq<DestEntry>, soFar: seq<DestEntry>, ghost before: seq<Path>)
    returns (all: seq<DestEntry>, ghost paths: seq<Path>)
    requires WellFormed(tree.nodes) && child in Children(tree.nodes, dir)
    requires Distinct(before) && forall p :: p in before ==> p in tree.nodes
    requires Elements(before) !! {child} + Descendants(tree.nodes, child)
    requires soFar == out + EntriesOf(tree.nodes, before)
    ensures Elements(paths) == Elements(before) + {child} + if tree.nodes[child] == Dir then Descendants(tree.nodes, child) else {}
    ensures Distinct(paths) && forall p :: p in paths ==> p in tree.nodes
    ensures all == out + EntriesOf(tree.nodes, paths)
    ensures |all| == |soFar| + 1 + if tree.nodes[child] == Dir then |Descendants(tree.nodes, child)| else 0
    ensures all[..|soFar| + 1] == soFar + [EntryAt(tree.nodes, child)]
    decreases Descendants(tree.nodes, dir), 0
  {
    var kind := tree.SymlinkMetadata(child);
    all := soFar + [DestEntry(Key(child, kind.value), kind.value)];
    paths := before + [child];
    OneListing(tree.nodes, child);
    JoinListings(tree.nodes, out, before, soFar, [child], all);
    if kind.value == Dir {
      ghost var below: seq<Path>;
      ChildShrinks(tree.nodes, dir, child);
      ghost var listed := all;
      all, below := CollectDestEntries(tree, child, all);
      JoinListings(tree.nodes, out, paths, listed, below, all);
      paths := paths + below;
    }
  }

  // ----- what a prune keeps -----

  ghost predicate Keeps(nodes: Nodes, manifest: set<string>, protected: string -> bool, p: Path)
    requires p in nodes
  {
    p == [] || Key(p, nodes[p]) in manifest || protected(Key(p, nodes[p]))
  }

  ghost function Doomed(nodes: Nodes, manifest: set<string>, protected: string -> bool): set<Path> {
    set p | p in nodes && !Keeps(nodes, manifest, protected, p)
  }

  ghost function KeysOf(nodes: Nodes, paths: set<Path>): set<string>
    requires paths <= nodes.Keys
  {
    set p | p in paths :: Key(p, nodes[p])
  }

  /** The deletions a tree calls for, in order; it depends on the tree alone, not on how it was listed. */
  ghost function PruneOrder(nodes: Nodes, manifest: set<string>, protected: string -> bool): seq<string> {
    DeeperFirstIsTotalOrder();
    Ascending(KeysOf(nodes, Doomed(nodes, manifest, protected)), DeeperFirst)
  }

  /** The whole prune. */
  ghost function Prune(nodes: Nodes, manifest: set<string>, protected: string -> bool): Outcome {
    RemoveAll(nodes, Map(PruneOrder(nodes, manifest, protected), Target))
  }

  lemma KeysDistinct(nodes: Nodes, paths: seq<Path>)
    requires WellFormed(nodes) && Distinct(paths) && forall p :: p in paths ==> p in nodes && p != []
    ensures Distinct(Map(EntriesOf(nodes, paths), PathOfEntry))
  {
    var keys := Map(EntriesOf(nodes, paths), PathOfEntry);
    forall i, j | 0 <= i < j < |keys| ensures keys[i] != keys[j] {
      assert paths[i] in paths && paths[j] in paths;
      if keys[i] == keys[j] { KeyInjective(paths[i], nodes[paths[i]], paths[j], nodes[paths[j]]); }
    }
  }

  /** However the destination was listed, the prune set is the tree's own deletion order. */
  lemma PruneSetOfListing(nodes: Nodes, paths: seq<Path>, manifest: set<string>, protected: string -> bool)
    requires WellFormed(nodes) && Distinct(paths) && Elements(paths) == Descendants(nodes, [])
    ensures forall p :: p in paths ==> p in nodes
    ensures PruneSet(manifest, Map(EntriesOf(nodes, paths), PathOfEntry), protected) == PruneOrder(nodes, manifest, protected)
  {
    forall p ensures p in paths <==> p in nodes && p != [] { assert p in paths <==> p in Elements(paths); assert p[..0] == []; }
    var keys, extraneous := Map(EntriesOf(nodes, paths), PathOfEntry), Extraneous(manifest, protected);
    var filtered := Filter(keys, extraneous);
    var order := Sort(filtered, DeeperFirst);
    KeysDistinct(nodes, paths);
    FilterDistinct(keys, extraneous);
    DeeperFirstIsTotalOrder();
    SortSorts(filtered, DeeperFirst);
    SortPermutes(filtered, DeeperFirst);
    DistinctMultiset(filtered, order);
    InFilter(keys, extraneous);
    ExtraneousKeys(nodes, paths, manifest, protected);
    assert Elements(order) == KeysOf(nodes, Doomed(nodes, manifest, protected));
    SortedDistinctIsAscending(order, DeeperFirst);
  }

  lemma ExtraneousKeys(nodes: Nodes, paths: seq<Path>, manifest: set<string>, protected: string -> bool)
    requires WellFormed(nodes) && forall p :: p in paths <==> p in nodes && p != []
    ensures var keys := Map(EntriesOf(nodes, paths), PathOfEntry);
            forall key :: key in keys && Extraneous(manifest, protected)(key) <==> key in KeysOf(nodes, Doomed(nodes, manifest, protected))
  {
    var keys := Map(EntriesOf(nodes, paths), PathOfEntry);
    forall key | key in keys && Extraneous(manifest, protected)(key) ensures key in KeysOf(nodes, Doomed(nodes, manifest, protected)) {
      var i :| 0 <= i < |keys| && keys[i] == key;
      assert paths[i] in paths && key == Key(paths[i], nodes[paths[i]]);
      assert paths[i] in Doomed(nodes, manifest, protected);
    }
    forall key | key in KeysOf(nodes, Doomed(nodes, manifest, protected)) ensures key in keys && Extraneous(manifest, protected)(key) {
      var p :| p in Doomed(nodes, manifest, protected) && key == Key(p, nodes[p]);
      assert p in paths;
      var i :| 0 <= i < |paths| && paths[i] == p;
      assert keys[i] == key;
      KeyFacts(p, nodes[p]);
    }
  }

  /** The deletion list: each doomed entry's key once, more separators first, keys of one depth in byte order. */
  lemma PruneOrderMeaning(nodes: Nodes, manifest: set<string>, protected: string -> bool)
    ensures var order := PruneOrder(nodes, manifest, protected);
            && (forall i, j :: 0 <= i < j < |order| ==>
                  Depth(order[i]) > Depth(order[j]) || (Depth(order[i]) == Depth(order[j]) && StrLess(order[i], order[j])))
            && (forall key :: key in order <==> exists p :: p in nodes && p != [] && key == Key(p, nodes[p])
                                                            && key !in manifest && !protected(key))
  {
    DeeperFirstIsTotalOrder();
    var order := PruneOrder(nodes, manifest, protected);
    forall i, j | 0 <= i < j < |order|
      ensures Depth(order[i]) > Depth(order[j]) || (Depth(order[i]) == Depth(order[j]) && StrLess(order[i], order[j]))
    {
      assert DeeperFirst(order[i], order[j]) && order[i] != order[j];
    }
  }

  lemma OrderedTargets(nodes: Nodes, manifest: set<string>, protected: string -> bool)
    requires WellFormed(nodes)
    ensures var targets := Map(PruneOrder(nodes, manifest, protected), Target);
            DeepestFirst(targets) && Elements(targets) == Doomed(nodes, manifest, protected)
  {
    DeeperFirstIsTotalOrder();
    TargetsOfKeys(nodes, Doomed(nodes, manifest, protected), PruneOrder(nodes, manifest, protected));
  }

  lemma TargetsOfKeys(nodes: Nodes, doomed: set<Path>, order: seq<string>)
    requires WellFormed(nodes) && doomed <= nodes.Keys && [] !in doomed
    requires Sorted(order, DeeperFirst) && forall key :: key in order <==> key in KeysOf(nodes, doomed)
    ensures DeepestFirst(Map(order, Target)) && Elements(Map(order, Target)) == doomed
  {
    var targets := Map(order, Target);
    forall i | 0 <= i < |order| ensures targets[i] in doomed && Depth(order[i]) == |targets[i]| {
      assert order[i] in order;
      var p :| p in doomed && order[i] == Key(p, nodes[p]);
      KeyFacts(p, nodes[p]);
    }
    forall p | p in doomed ensures p in targets {
      TargetListed(nodes, order, p);
    }
    forall i, j | 0 <= i < j < |targets| ensures |targets[i]| >= |targets[j]| {
      assert DeeperFirst(order[i], order[j]);
    }
  }

  lemma TargetListed(nodes: Nodes, order: seq<string>, p: Path)
    requires WellFormed(nodes) && p in nodes && p != [] && Key(p, nodes[p]) in order
    ensures p in Map(order, Target)
  {
    KeyFacts(p, nodes[p]);
    var i :| 0 <= i < |order| && order[i] == Key(p, nodes[p]);
    assert Map(order, Target)[i] == p;
  }

  /** Whatever the prune keeps, it keeps the directory it sits in. */
  ghost predicate KeepsAreClosed(nodes: Nodes, manifest: set<string>, protected: string -> bool)
    requires WellFormed(nodes)
  {
    forall p :: p in nodes && p != [] && Keeps(nodes, manifest, protected, p) ==> Keeps(nodes, manifest, protected, Parent(p))
  }

  /**
   The prune meets no non-empty directory exactly when everything kept sits in kept directories, and then
   leaves exactly what it keeps, as a well-formed tree.
  */
  lemma PruneMeaning(nodes: Nodes, manifest: set<string>, protected: string -> bool)
    requires WellFormed(nodes)
    ensures Prune(nodes, manifest, protected).failed == None <==> KeepsAreClosed(nodes, manifest, protected)
    ensures Prune(nodes, manifest, protected).failed == None ==>
              Prune(nodes, manifest, protected).nodes == nodes - Doomed(nodes, manifest, protected)
              && WellFormed(Prune(nodes, manifest, protected).nodes)
  {
    var doomed := Doomed(nodes, manifest, protected);
    OrderedTargets(nodes, manifest, protected);
    RemoveAllMeaning(nodes, Map(PruneOrder(nodes, manifest, protected), Target));
    if KeepsAreClosed(nodes, manifest, protected) {
      forall q | q in nodes && q != [] && Parent(q) in doomed ensures q in doomed {
        assert !Keeps(nodes, manifest, protected, Parent(q));
      }
    }
    if TakesChildren(nodes, doomed) {
      forall p | p in nodes && p != [] && Keeps(nodes, manifest, protected, p) ensures Keeps(nodes, manifest, protected, Parent(p)) {
        assert p !in doomed;
      }
    }
  }

  /**
   Whether it succeeds or fails, a prune leaves a well-formed tree in which everything it keeps is still there,
   as what it was; it fails only on a doomed directory that still holds something.
  */
  lemma PruneKeeps(nodes: Nodes, manifest: set<string>, protected: string -> bool)
    requires WellFormed(nodes)
    ensures var r := Prune(nodes, manifest, protected);
            && WellFormed(r.nodes) && Remains(r.nodes, nodes)
            && (forall p :: p in nodes && Keeps(nodes, manifest, protected, p) ==> p in r.nodes)
            && (r.failed.Some? ==> r.failed.value in r.nodes && HasChild(r.nodes, r.failed.value)
                                   && !Keeps(nodes, manifest, protected, r.failed.value))
  {
    var targets := Map(PruneOrder(nodes, manifest, protected), Target);
    OrderedTargets(nodes, manifest, protected);
    assert forall p :: p in targets <==> p in Elements(targets);
    RemoveAllKeeps(nodes, targets);
  }

  // ----- exact mirror -----

  ghost function TreeKeys(nodes: Nodes): set<string> {
    set p | p in nodes && p != [] :: Key(p, nodes[p])
  }

  /** A manifest names the directory of everything it names. */
  ghost predicate ParentClosed(manifest: set<string>) {
    forall p: Path, kind {:trigger Key(p, kind)} :: |p| > 1 && ValidPath(p) && Key(p, kind) in manifest ==> Key(Parent(p), Dir) in manifest
  }

  function Nothing(key: string): bool { false }

  /**
   Without excludes, pruning a destination that holds all of a parent-closed manifest succeeds and leaves
   exactly the manifest's entries; pruning again deletes nothing.
  */
  lemma ExactMirror(nodes: Nodes, manifest: set<string>)
    requires WellFormed(nodes) && ParentClosed(manifest) && manifest - {"./"} <= TreeKeys(nodes)
    ensures var r := Prune(nodes, manifest, Nothing);
            && r.failed == None
            && TreeKeys(r.nodes) == manifest - {"./"}
            && PruneOrder(r.nodes, manifest, Nothing) == []
  {
    forall p | p in nodes && p != [] && Keeps(nodes, manifest, Nothing, p) ensures Keeps(nodes, manifest, Nothing, Parent(p)) {
      if |p| > 1 { assert Key(Parent(p), Dir) in manifest; }
    }
    PruneMeaning(nodes, manifest, Nothing);
    var left := Prune(nodes, manifest, Nothing).nodes;
    forall key ensures key in TreeKeys(left) <==> key in manifest - {"./"} {
      if key in TreeKeys(left) {
        var p :| p in left && p != [] && key == Key(p, left[p]);
        KeyFacts(p, left[p]);
      }
      if key in manifest - {"./"} {
        var p :| p in nodes && p != [] && key == Key(p, nodes[p]);
        assert p in left;
      }
    }
    NothingMoreToPrune(left, manifest, Nothing);
  }

  lemma NothingMoreToPrune(left: Nodes, manifest: set<string>, protected: string -> bool)
    requires forall p :: p in left ==> Keeps(left, manifest, protected, p)
    ensures PruneOrder(left, manifest, protected) == []
  {
    DeeperFirstIsTotalOrder();
    assert Doomed(left, manifest, protected) == {};
    assert KeysOf(left, Doomed(left, manifest, protected)) == {};
  }

  /** With excludes, a successful prune leaves the manifest's entries and the protected ones, and a second run deletes nothing. */
  lemma MirrorWithExcludes(nodes: Nodes, manifest: set<string>, protected: string -> bool)
    requires WellFormed(nodes) && KeepsAreClosed(nodes, manifest, protected)
    ensures var r := Prune(nodes, manifest, protected);
            && r.failed == None
            && (forall key :: key in TreeKeys(r.nodes) <==> key in TreeKeys(nodes) && (key in manifest || protected(key)))
            && PruneOrder(r.nodes, manifest, protected) == []
  {
    PruneMeaning(nodes, manifest, protected);
    var left := Prune(nodes, manifest, protected).nodes;
    forall key ensures key in TreeKeys(left) <==> key in TreeKeys(nodes) && (key in manifest || protected(key)) {
      if key in TreeKeys(left) {
        var p :| p in left && p != [] && key == Key(p, left[p]);
        assert p in nodes;
      }
      if key in TreeKeys(nodes) && (key in manifest || protected(key)) {
        var p :| p in nodes && p != [] && key == Key(p, nodes[p]);
        assert p in left;
      }
    }
    NothingMoreToPrune(left, manifest, protected);
  }

  function OnlyTheFile(key: string): bool { key == Key(["a", "k"], NonDir) }

  const SMALL_TREE: Nodes := map[[] := Dir, ["a"] := Dir, ["a", "k"] := NonDir]

  lemma SmallTree()
    ensures WellFormed(SMALL_TREE) && Parent(["a", "k"]) == ["a"]
  {
    assert Parent(["a", "k"]) == ["a"] && Parent(["a"]) == [];
  }

  /** A protected file in an unprotected directory: the prune reaches the directory while it is not empty. */
  lemma ProtectedFileBlocksPrune()
    ensures WellFormed(SMALL_TREE) && Prune(SMALL_TREE, {}, OnlyTheFile).failed != None
  {
    SmallTree();
    KeyFacts(["a"], Dir);
    KeyFacts(["a", "k"], NonDir);
    assert Keeps(SMALL_TREE, {}, OnlyTheFile, ["a", "k"]) && !Keeps(SMALL_TREE, {}, OnlyTheFile, ["a"]);
    PruneMeaning(SMALL_TREE, {}, OnlyTheFile);
  }

  // ----- the program -----

  lemma RemoveAllStep(nodes: Nodes, paths: seq<Path>, i: nat)
    requires i < |paths|
    ensures RemoveAll(nodes, paths[..i + 1]) ==
            if RemoveAll(nodes, paths[..i]).failed.Some? then RemoveAll(nodes, paths[..i])
            else RemoveOne(RemoveAll(nodes, paths[..i]).nodes, paths[i])
  {
    assert paths[..i + 1][..i] == paths[..i];
  }

  lemma {:induction false} FailureIsFinal(nodes: Nodes, paths: seq<Path>, i: nat)
    requires i <= |paths| && RemoveAll(nodes, paths[..i]).failed.Some?
    ensures RemoveAll(nodes, paths) == RemoveAll(nodes, paths[..i])
    decreases |paths| - i
  {
    if i == |paths| {
      assert paths[..i] == paths;
    } else {
      RemoveAllStep(nodes, paths, i);
      FailureIsFinal(nodes, paths, i + 1);
    }
  }

  /** Deletes the listed entries in order, stopping at the first that cannot be deleted. */
  method DeleteAll(dest: Tree, prune: seq<string>) returns (failed: Option<Path>)
    modifies dest
    ensures RemoveAll(old(dest.nodes), Map(prune, Target)) == Outcome(dest.nodes, failed)
  {
    ghost var nodes, targets := dest.nodes, Map(prune, Target);
    for i := 0 to |prune|
      invariant RemoveAll(nodes, targets[..i]) == Outcome(dest.nodes, None)
    {
      RemoveAllStep(nodes, targets, i);
      var target := Target(prune[i]);
      var kind := dest.SymlinkMetadata(target);
      if kind == None {
        continue;
      }
      var ok: bool;
      if kind.value == Dir {
        ok := dest.RemoveDir(target);
      } else {
        ok := dest.RemoveFile(target);
      }
      if !ok {
        FailureIsFinal(nodes, targets, i + 1);
        return Some(target);
      }
    }
    assert targets[..|prune|] == targets;
    failed := None;
  }

  /** Prunes a destination; a missing one is left alone, a dry run only lists what it would delete. */
  method PruneDest(dest: Tree?, manifest: set<string>, protected: string -> bool, dryrun: bool)
    returns (failed: Option<Path>, listed: seq<string>)
    requires dest != null ==> WellFormed(dest.nodes)
    modifies if dest == null then {} else {dest}
    ensures dest == null ==> failed == None && listed == []
    ensures dest != null && dryrun ==>
              failed == None && listed == PruneOrder(old(dest.nodes), manifest, protected) && dest.nodes == old(dest.nodes)
    ensures dest != null && !dryrun ==>
              Prune(old(dest.nodes), manifest, protected) == Outcome(dest.nodes, failed)
  {
    failed, listed := None, [];
    if dest == null {
      return;
    }
    ghost var nodes := dest.nodes;
    var entries, paths := CollectDestEntries(dest, [], []);
    PruneSetOfListing(nodes, paths, manifest, protected);
    assert entries == EntriesOf(nodes, paths);
    var prune := PruneSet(manifest, Map(entries, PathOfEntry), protected);
    if dryrun {
      listed := prune;
      return;
    }
    failed := DeleteAll(dest, prune);
  }
}
