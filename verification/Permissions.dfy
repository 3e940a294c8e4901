/** Restoring modes onto a materialized tree: files first, then directories longest path first. */
module Permissions {
  import opened Options
  import opened Sorting
  import opened Text
  import opened FileTree
  import opened ManifestText

  const U32_MAX: nat := 0xFFFF_FFFF

  predicate IsOctal(c: char) { '0' <= c <= '7' }

  function OctalDigit(c: char): (d: nat)
    requires IsOctal(c)
    ensures d < 8
  {
    c as int - '0' as int
  }

  function OctalValue(s: string): nat
    requires forall c :: c in s ==> IsOctal(c)
  {
    if s == "" then 0 else 8 * OctalValue(s[..|s| - 1]) + OctalDigit(s[|s| - 1])
  }

  /** `u32::from_str_radix(_, 8)`. */
  function ParseMode(s: string): Option<nat> {
    var digits := if s != "" && s[0] == '+' then s[1..] else s;
    if digits == "" || exists c :: c in digits && !IsOctal(c) then None
    else if OctalValue(digits) > U32_MAX then None
    else Some(OctalValue(digits))
  }

  function Pow8(n: nat): nat { if n == 0 then 1 else 8 * Pow8(n - 1) }

  /** Each digit times its power of eight, from the left. */
  function Positional(s: string): nat {
    if s == "" then 0 else
      (if '0' <= s[0] <= '7' then s[0] as int - '0' as int else 0) * Pow8(|s| - 1) + Positional(s[1..])
  }

  lemma {:induction false} PositionalSnoc(s: string, c: char)
    requires '0' <= c <= '7'
    ensures Positional(s + [c]) == 8 * Positional(s) + (c as int - '0' as int)
  {
    if s == "" {
      assert [c][1..] == "";
    } else {
      PositionalSnoc(s[1..], c);
      assert (s + [c])[1..] == s[1..] + [c];
      TimesEight(if '0' <= s[0] <= '7' then s[0] as int - '0' as int else 0, Pow8(|s| - 1));
    }
  }

  lemma TimesEight(d: int, p: int)
    ensures d * (8 * p) == 8 * (d * p)
  {
  }

  lemma {:induction false} OctalIsPositional(s: string)
    requires forall c :: c in s ==> IsOctal(c)
    ensures OctalValue(s) == Positional(s)
  {
    if s != "" {
      var n := |s| - 1;
      assert s[n] in s && forall c :: c in s[..n] ==> c in s;
      OctalIsPositional(s[..n]);
      PositionalSnoc(s[..n], s[n]);
      assert s == s[..n] + [s[n]];
    }
  }

  /**
   A permission string is a mode exactly when, less one leading plus, it is a non-empty string of the digits 0 to 7
   whose value fits 32 bits; each digit then counts by its place.
  */
  lemma ModeMeaning(s: string)
    ensures var digits := if s != "" && s[0] == '+' then s[1..] else s;
            ParseMode(s) == if digits != "" && (forall c :: c in digits ==> c in "01234567") && Positional(digits) < 0x1_0000_0000
                            then Some(Positional(digits)) else None
  {
    var digits := if s != "" && s[0] == '+' then s[1..] else s;
    forall c: char ensures IsOctal(c) <==> c in "01234567" { OctalDigits(c); }
    if forall c :: c in digits ==> IsOctal(c) { OctalIsPositional(digits); }
  }

  lemma OctalDigits(c: char)
    ensures '0' <= c <= '7' <==> c in "01234567"
  {
    var digits := "01234567";
    if '0' <= c <= '7' { assert digits[c as int - '0' as int] == c; }
  }

  /** A three-digit permission string is its octal number; its first digit decides whether the owner may pass. */
  lemma ThreeDigitMode(u: char, g: char, o: char)
    requires IsOctal(u) && IsOctal(g) && IsOctal(o)
    ensures ParseMode([u, g, o]) == Some(64 * OctalDigit(u) + 8 * OctalDigit(g) + OctalDigit(o))
    ensures Traversable(ParseMode([u, g, o]).value) <==> OctalDigit(u) % 2 == 1
  {
    ThreeDigits(u, g, o);
    assert forall c :: c in [u, g, o] ==> c == u || c == g || c == o;
    OwnerPasses(OctalDigit(u), OctalDigit(g), OctalDigit(o));
  }

  lemma ThreeDigits(u: char, g: char, o: char)
    requires IsOctal(u) && IsOctal(g) && IsOctal(o)
    ensures OctalValue([u, g, o]) == 64 * OctalDigit(u) + 8 * OctalDigit(g) + OctalDigit(o)
  {
    assert [u, g, o][..2] == [u, g] && [u, g][..1] == [u] && [u][..0] == [];
    assert OctalValue([u]) == OctalDigit(u);
    assert OctalValue([u, g]) == 8 * OctalDigit(u) + OctalDigit(g);
  }

  lemma OwnerPasses(u: nat, g: nat, o: nat)
    requires u < 8 && g < 8 && o < 8
    ensures Traversable(64 * u + 8 * g + o) <==> u % 2 == 1
  {
  }

  // ----- order -----

  /** Length in UTF-8 bytes. */
  function ByteLength(s: string): nat {
    if s == "" then 0 else
      (if s[0] as int < 0x80 then 1 else if s[0] as int < 0x800 then 2 else if s[0] as int < 0x1_0000 then 3 else 4)
      + ByteLength(s[1..])
  }

  lemma {:induction false} ByteLengthConcat(a: string, b: string)
    ensures ByteLength(a + b) == ByteLength(a) + ByteLength(b)
    ensures ByteLength(b) >= |b|
  {
    if a == "" {
      assert a + b == b;
      if b != "" { ByteLengthConcat("", b[1..]); assert "" + b[1..] == b[1..]; }
    } else {
      assert (a + b)[1..] == a[1..] + b;
      ByteLengthConcat(a[1..], b);
    }
  }

  predicate LongerFirst(a: ManifestEntry, b: ManifestEntry) { ByteLength(a.path) >= ByteLength(b.path) }

  function IsFile(e: ManifestEntry): bool { e.pathType == File }

  function IsDirectory(e: ManifestEntry): bool { e.pathType == Directory }

  function RestoreOrder(entries: seq<ManifestEntry>): seq<ManifestEntry> {
    Filter(entries, IsFile) + Sort(Filter(entries, IsDirectory), LongerFirst)
  }

  // ----- changing modes -----

  type Modes = map<Path, nat>

  /** The owner may pass through. */
  predicate Traversable(mode: nat) { mode / 64 % 2 == 1 }

  /** A mode can be changed only where every directory above can be passed through. */
  ghost predicate CanReach(modes: Modes, p: Path) {
    p in modes && forall k :: 0 <= k < |p| ==> p[..k] in modes && Traversable(modes[p[..k]])
  }

  /** Modes so far, and the entry that could not be applied, if any. */
  datatype Outcome = Outcome(modes: Modes, failed: Option<ManifestEntry>)

  ghost function ApplyMode(modes: Modes, e: ManifestEntry): Outcome {
    match ParseMode(e.permissions)
    case None => Outcome(modes, Some(e))
    case Some(mode) =>
      if CanReach(modes, Target(e.path)) then Outcome(modes[Target(e.path) := mode], None) else Outcome(modes, Some(e))
  }

  ghost function ApplyAll(modes: Modes, entries: seq<ManifestEntry>): Outcome {
    if entries == [] then Outcome(modes, None)
    else
      var before := ApplyAll(modes, entries[..|entries| - 1]);
      if before.failed.Some? then before else ApplyMode(before.modes, entries[|entries| - 1])
  }

  ghost function Restore(modes: Modes, entries: seq<ManifestEntry>): Outcome {
    ApplyAll(modes, RestoreOrder(entries))
  }

  // ----- no lock-out -----

  function ManifestKey(p: Path, kind: Kind): string {
    if p == [] then "./" else Key(p, kind)
  }

  function KindOf(t: PathType): Kind {
    match t
    case File => NonDir
    case Directory => Dir
  }

  /** The entry describes something in the tree, as the kind of thing it is. */
  ghost predicate Describes(e: ManifestEntry, nodes: Nodes) {
    exists p :: p in nodes && nodes[p] == KindOf(e.pathType) && e.path == ManifestKey(p, nodes[p])
  }

  lemma DescribedTarget(e: ManifestEntry, nodes: Nodes)
    requires WellFormed(nodes) && Describes(e, nodes)
    ensures Target(e.path) in nodes && nodes[Target(e.path)] == KindOf(e.pathType)
    ensures e.path == ManifestKey(Target(e.path), KindOf(e.pathType))
  {
    var p :| p in nodes && nodes[p] == KindOf(e.pathType) && e.path == ManifestKey(p, nodes[p]);
    if p != [] { KeyFacts(p, nodes[p]); }
  }

  /** An ancestor's key is shorter. */
  lemma AncestorKeyShorter(p: Path, k: nat)
    requires ValidPath(p) && k < |p|
    ensures ByteLength(ManifestKey(p[..k], Dir)) < ByteLength(ManifestKey(p, Dir))
  {
    ByteLengthConcat("./", Join(p, '/') + "/");
    assert Key(p, Dir) == "./" + (Join(p, '/') + "/");
    ByteLengthConcat(Join(p, '/'), "/");
    if k == 0 {
      ByteLengthConcat("", Join(p, '/'));
      ByteLengthConcat("", "./");
      assert ByteLength("./") == 2 by { assert "./"[1..] == "/" && "/"[1..] == ""; }
      assert ByteLength("/") == 1 by { assert "/"[1..] == ""; }
      JoinedEnd(p);
      assert "" + Join(p, '/') == Join(p, '/');
    } else {
      JoinPrefix(p, k);
      assert Key(p[..k], Dir) == "./" + (Join(p[..k], '/') + "/");
      ByteLengthConcat("./", Join(p[..k], '/') + "/");
      ByteLengthConcat(Join(p[..k], '/'), "/");
    }
  }

  lemma {:induction false} JoinPrefix(p: Path, k: nat)
    requires 0 < k < |p| && ValidPath(p)
    ensures ByteLength(Join(p[..k], '/')) < ByteLength(Join(p, '/'))
  {
    var rest := Join(p[1..], '/');
    ByteLengthConcat(p[0], ['/'] + rest);
    ByteLengthConcat(['/'], rest);
    assert Join(p, '/') == p[0] + (['/'] + rest);
    assert ByteLength(['/']) == 1 by { assert ['/'][1..] == ""; }
    if k == 1 {
      assert p[..1] == [p[0]];
    } else {
      assert p[..k][1..] == p[1..][..k - 1];
      assert ValidPath(p[1..]) by { forall i | 0 <= i < |p[1..]| ensures ValidName(p[1..][i]) { assert p[1..][i] == p[i + 1]; } }
      JoinPrefix(p[1..], k - 1);
      var short := Join(p[1..][..k - 1], '/');
      ByteLengthConcat(p[0], ['/'] + short);
      ByteLengthConcat(['/'], short);
      assert Join(p[..k], '/') == p[0] + (['/'] + short);
    }
  }

  /** No entry comes after one for a directory above it. */
  ghost predicate AncestorsLast(order: seq<ManifestEntry>) {
    forall i, j, k :: 0 <= j < i < |order| && 0 <= k < |Target(order[i].path)| ==> Target(order[j].path) != Target(order[i].path)[..k]
  }

  lemma RestoreOrderElements(entries: seq<ManifestEntry>)
    ensures forall e :: e in RestoreOrder(entries) <==> e in entries
  {
    InFilter(entries, IsFile);
    InFilter(entries, IsDirectory);
    var dirs := Filter(entries, IsDirectory);
    SortPermutes(dirs, LongerFirst);
    forall e ensures e in RestoreOrder(entries) <==> e in entries {
      assert e in Sort(dirs, LongerFirst) <==> e in Elements(Sort(dirs, LongerFirst));
      assert e in dirs <==> e in Elements(dirs);
    }
  }

  lemma RestoreOrderSafe(entries: seq<ManifestEntry>, nodes: Nodes)
    requires WellFormed(nodes) && forall e :: e in entries ==> Describes(e, nodes)
    ensures AncestorsLast(RestoreOrder(entries))
  {
    var order := RestoreOrder(entries);
    RestoreOrderElements(entries);
    forall i, j, k | 0 <= j < i < |order| && 0 <= k < |Target(order[i].path)|
      ensures Target(order[j].path) != Target(order[i].path)[..k]
    {
      assert order[i] in order && order[j] in order;
      DescribedTarget(order[i], nodes);
      if Target(order[j].path) == Target(order[i].path)[..k] {
        DirsSorted(entries, i, j);
        AncestorComesLater(nodes, order[j], order[i], k);
      }
    }
  }

  /** Once a directory has come, only directories with no longer paths follow. */
  lemma DirsSorted(entries: seq<ManifestEntry>, i: nat, j: nat)
    requires j < i < |RestoreOrder(entries)|
    ensures var order := RestoreOrder(entries);
            order[j].pathType == Directory ==> order[i].pathType == Directory && LongerFirst(order[j], order[i])
  {
    var order, files, dirs := RestoreOrder(entries), Filter(entries, IsFile), Sort(Filter(entries, IsDirectory), LongerFirst);
    if j < |files| {
      InFilter(entries, IsFile);
      assert order[j] == files[j] && files[j] in files;
    } else {
      SortSorts(Filter(entries, IsDirectory), LongerFirst);
      DirsAreDirectories(entries, i - |files|);
      assert order[j] == dirs[j - |files|] && order[i] == dirs[i - |files|];
    }
  }

  lemma AncestorComesLater(nodes: Nodes, above: ManifestEntry, e: ManifestEntry, k: nat)
    requires WellFormed(nodes) && Describes(above, nodes) && Describes(e, nodes) && k < |Target(e.path)|
    requires Target(above.path) == Target(e.path)[..k]
    ensures above.pathType == Directory && (e.pathType == Directory ==> !LongerFirst(above, e))
  {
    DescribedTarget(above, nodes);
    DescribedTarget(e, nodes);
    PrefixIsDir(nodes, Target(e.path), k);
    AncestorKeyShorter(Target(e.path), k);
  }

  lemma DirsAreDirectories(entries: seq<ManifestEntry>, i: nat)
    requires i < |Sort(Filter(entries, IsDirectory), LongerFirst)|
    ensures Sort(Filter(entries, IsDirectory), LongerFirst)[i].pathType == Directory
  {
    var dirs := Filter(entries, IsDirectory);
    InFilter(entries, IsDirectory);
    SortPermutes(dirs, LongerFirst);
    assert Sort(dirs, LongerFirst)[i] in Elements(Sort(dirs, LongerFirst));
    assert Sort(dirs, LongerFirst)[i] in dirs;
  }

  lemma {:induction false} PrefixIsDir(nodes: Nodes, p: Path, k: nat)
    requires WellFormed(nodes) && p in nodes && k < |p|
    ensures p[..k] in nodes && nodes[p[..k]] == Dir
    decreases |p|
  {
    if k < |p| - 1 {
      assert Parent(p)[..k] == p[..k];
      PrefixIsDir(nodes, Parent(p), k);
    } else {
      assert p[..k] == Parent(p);
    }
  }

  ghost predicate AllTraversable(nodes: Nodes, modes: Modes) {
    modes.Keys == nodes.Keys && forall p :: p in nodes && nodes[p] == Dir ==> Traversable(modes[p])
  }

  /** The modes entries ask for, later entries over earlier ones. */
  function Wanted(modes: Modes, entries: seq<ManifestEntry>): Modes
    requires forall e :: e in entries ==> ParseMode(e.permissions).Some?
  {
    if entries == [] then modes
    else
      var last := entries[|entries| - 1];
      Wanted(modes, entries[..|entries| - 1])[Target(last.path) := ParseMode(last.permissions).value]
  }

  lemma {:induction false} WantedElsewhere(modes: Modes, entries: seq<ManifestEntry>, p: Path)
    requires forall e :: e in entries ==> ParseMode(e.permissions).Some?
    requires forall e :: e in entries ==> Target(e.path) != p
    ensures p in Wanted(modes, entries) <==> p in modes
    ensures p in modes ==> Wanted(modes, entries)[p] == modes[p]
  {
    if entries != [] {
      assert entries[|entries| - 1] in entries;
      WantedElsewhere(modes, entries[..|entries| - 1], p);
    }
  }

  ghost predicate AllParse(entries: seq<ManifestEntry>) {
    forall e :: e in entries ==> ParseMode(e.permissions).Some?
  }

  lemma AllParseSnoc(entries: seq<ManifestEntry>)
    requires entries != []
    ensures AllParse(entries) <==> AllParse(entries[..|entries| - 1]) && ParseMode(entries[|entries| - 1].permissions).Some?
  {
    assert entries == entries[..|entries| - 1] + [entries[|entries| - 1]];
  }

  lemma AncestorsLastPrefix(order: seq<ManifestEntry>)
    requires order != [] && AncestorsLast(order)
    ensures AncestorsLast(order[..|order| - 1])
  {
  }

  /** When ancestors come last, nothing but an unreadable permission string stops the run. */
  lemma {:induction false} ApplyAllMeaning(nodes: Nodes, modes: Modes, order: seq<ManifestEntry>)
    requires WellFormed(nodes) && AllTraversable(nodes, modes) && AncestorsLast(order)
    requires forall e :: e in order ==> Target(e.path) in nodes
    ensures ApplyAll(modes, order).failed == None <==> AllParse(order)
    ensures AllParse(order) ==> ApplyAll(modes, order) == Outcome(Wanted(modes, order), None)
  {
    if order != [] {
      AncestorsLastPrefix(order);
      ApplyAllMeaning(nodes, modes, order[..|order| - 1]);
      if AllParse(order[..|order| - 1]) {
        LastReached(nodes, modes, order);
        LastApplied(modes, order);
      } else {
        AllParseSnoc(order);
        ErrorStays(modes, order);
      }
    }
  }

  lemma LastReached(nodes: Nodes, modes: Modes, order: seq<ManifestEntry>)
    requires WellFormed(nodes) && AllTraversable(nodes, modes) && AncestorsLast(order) && order != []
    requires AllParse(order[..|order| - 1]) && forall e :: e in order ==> Target(e.path) in nodes
    ensures CanReach(Wanted(modes, order[..|order| - 1]), Target(order[|order| - 1].path))
  {
    var before, last := order[..|order| - 1], order[|order| - 1];
    assert order == before + [last] && last in order;
    ReachesNext(nodes, modes, before, last);
  }

  lemma LastApplied(modes: Modes, order: seq<ManifestEntry>)
    requires order != [] && AllParse(order[..|order| - 1])
    requires ApplyAll(modes, order[..|order| - 1]) == Outcome(Wanted(modes, order[..|order| - 1]), None)
    requires CanReach(Wanted(modes, order[..|order| - 1]), Target(order[|order| - 1].path))
    ensures ApplyAll(modes, order).failed == None <==> AllParse(order)
    ensures AllParse(order) ==> ApplyAll(modes, order) == Outcome(Wanted(modes, order), None)
  {
    AllParseSnoc(order);
  }

  lemma ErrorStays(modes: Modes, order: seq<ManifestEntry>)
    requires order != [] && ApplyAll(modes, order[..|order| - 1]).failed != None
    ensures ApplyAll(modes, order).failed != None
  {
  }

  lemma ReachesNext(nodes: Nodes, modes: Modes, before: seq<ManifestEntry>, next: ManifestEntry)
    requires WellFormed(nodes) && AllTraversable(nodes, modes) && AllParse(before)
    requires AncestorsLast(before + [next]) && Target(next.path) in nodes
    ensures CanReach(Wanted(modes, before), Target(next.path))
  {
    var p := Target(next.path);
    WantedKeeps(modes, before, p);
    forall k | 0 <= k < |p| ensures p[..k] in Wanted(modes, before) && Traversable(Wanted(modes, before)[p[..k]]) {
      forall e | e in before ensures Target(e.path) != p[..k] {
        var j :| 0 <= j < |before| && before[j] == e;
        assert (before + [next])[j] == e && (before + [next])[|before|] == next;
      }
      PrefixIsDir(nodes, p, k);
      WantedElsewhere(modes, before, p[..k]);
    }
  }

  lemma {:induction false} WantedKeeps(modes: Modes, entries: seq<ManifestEntry>, p: Path)
    requires AllParse(entries) && p in modes
    ensures p in Wanted(modes, entries)
  {
    if entries != [] {
      AllParseSnoc(entries);
      WantedKeeps(modes, entries[..|entries| - 1], p);
    }
  }

  lemma {:induction false} WantedAt(modes: Modes, entries: seq<ManifestEntry>, e: ManifestEntry)
    requires AllParse(entries) && e in entries
    requires forall f :: f in entries && Target(f.path) == Target(e.path) ==> f == e
    ensures Target(e.path) in Wanted(modes, entries)
    ensures Wanted(modes, entries)[Target(e.path)] == ParseMode(e.permissions).value
  {
    var init, last := entries[..|entries| - 1], entries[|entries| - 1];
    AllParseSnoc(entries);
    WantedStep(modes, entries, Target(e.path));
    LastOrBefore(entries, e);
    if last != e {
      assert Target(last.path) != Target(e.path);
      WantedAt(modes, init, e);
    }
  }

  lemma LastOrBefore(entries: seq<ManifestEntry>, e: ManifestEntry)
    requires e in entries
    ensures entries[|entries| - 1] in entries && (e == entries[|entries| - 1] || e in entries[..|entries| - 1])
    ensures forall f :: f in entries[..|entries| - 1] ==> f in entries
  {
    assert entries == entries[..|entries| - 1] + [entries[|entries| - 1]];
  }

  /** The last entry decides its own target and no other. */
  lemma WantedStep(modes: Modes, entries: seq<ManifestEntry>, p: Path)
    requires AllParse(entries) && entries != [] && AllParse(entries[..|entries| - 1])
    ensures var init, last := entries[..|entries| - 1], entries[|entries| - 1];
            if p == Target(last.path)
            then ParseMode(last.permissions).Some? && p in Wanted(modes, entries)
                 && Wanted(modes, entries)[p] == ParseMode(last.permissions).value
            else (p in Wanted(modes, entries) <==> p in Wanted(modes, init))
                 && (p in Wanted(modes, init) ==> Wanted(modes, entries)[p] == Wanted(modes, init)[p])
  {
  }

  /**
   From a tree whose directories can all be passed through, a restore never locks itself out: it succeeds
   exactly when every permission string is an octal mode, and then every entry has its mode and everything
   else is unchanged.
  */
  lemma RestoreMeaning(nodes: Nodes, modes: Modes, entries: seq<ManifestEntry>)
    requires WellFormed(nodes) && AllTraversable(nodes, modes) && OneEntryPerPath(entries)
    requires forall e :: e in entries ==> Describes(e, nodes)
    ensures Restore(modes, entries).failed == None <==> AllParse(entries)
    ensures AllParse(entries) ==>
              var after := Restore(modes, entries).modes;
              && after.Keys == nodes.Keys
              && (forall e :: e in entries ==> Target(e.path) in after && after[Target(e.path)] == ParseMode(e.permissions).value)
              && (forall p :: p in nodes && (forall e :: e in entries ==> Target(e.path) != p) ==> after[p] == modes[p])
  {
    var order := RestoreOrder(entries);
    RestoreOrderElements(entries);
    RestoreOrderSafe(entries, nodes);
    forall e | e in order ensures Target(e.path) in nodes { DescribedTarget(e, nodes); }
    ApplyAllMeaning(nodes, modes, order);
    if AllParse(entries) {
      WantedKeys(nodes, modes, order);
      forall e | e in entries ensures Target(e.path) in Wanted(modes, order) && Wanted(modes, order)[Target(e.path)] == ParseMode(e.permissions).value {
        SoleEntry(nodes, entries, e);
        WantedAt(modes, order, e);
      }
      forall p | p in nodes && (forall e :: e in entries ==> Target(e.path) != p) ensures Wanted(modes, order)[p] == modes[p] {
        WantedElsewhere(modes, order, p);
      }
    }
  }

  lemma SoleEntry(nodes: Nodes, entries: seq<ManifestEntry>, e: ManifestEntry)
    requires WellFormed(nodes) && OneEntryPerPath(entries) && e in entries
    requires forall f :: f in entries ==> Describes(f, nodes)
    ensures forall f :: f in entries && Target(f.path) == Target(e.path) ==> f == e
  {
    DescribedTarget(e, nodes);
    forall f | f in entries && Target(f.path) == Target(e.path) ensures f == e {
      DescribedTarget(f, nodes);
    }
  }

  lemma {:induction false} WantedKeys(nodes: Nodes, modes: Modes, entries: seq<ManifestEntry>)
    requires AllParse(entries) && modes.Keys == nodes.Keys && forall e :: e in entries ==> Target(e.path) in nodes
    ensures Wanted(modes, entries).Keys == nodes.Keys
  {
    if entries != [] {
      AllParseSnoc(entries);
      assert entries[|entries| - 1] in entries;
      WantedKeys(nodes, modes, entries[..|entries| - 1]);
    }
  }

  // ----- the program -----

  class ModeTree {
    var modes: Modes

    constructor (modes: Modes)
      ensures this.modes == modes
    {
      this.modes := modes;
    }

    method SetPermissions(p: Path, mode: nat) returns (ok: bool)
      modifies this
      ensures ok <==> CanReach(old(modes), p)
      ensures modes == if ok then old(modes)[p := mode] else old(modes)
    {
      ok := p in modes;
      var k := 0;
      while ok && k < |p|
        invariant k <= |p| && modes == old(modes)
        invariant ok <==> p in modes && forall j :: 0 <= j < k ==> p[..j] in modes && Traversable(modes[p[..j]])
        decreases |p| - k, ok
      {
        ok := p[..k] in modes && Traversable(modes[p[..k]]);
        k := if ok then k + 1 else |p|;
      }
      if ok {
        modes := modes[p := mode];
      }
    }

    method ApplyEntry(e: ManifestEntry) returns (failed: Option<ManifestEntry>)
      modifies this
      ensures ApplyAll(old(modes), [e]) == Outcome(modes, failed)
    {
      ApplyOne(modes, e);
      var mode := ParseMode(e.permissions);
      if mode == None {
        return Some(e);
      }
      var ok := SetPermissions(Target(e.path), mode.value);
      failed := if ok then None else Some(e);
    }

    /** Applies entries in order; stops at the first failure. */
    method ApplyBatch(batch: seq<ManifestEntry>) returns (failed: Option<ManifestEntry>)
      modifies this
      ensures ApplyAll(old(modes), batch) == Outcome(modes, failed)
    {
      ghost var start := modes;
      failed := None;
      for i := 0 to |batch|
        invariant failed == None && ApplyAll(start, batch[..i]) == Outcome(modes, None)
      {
        ghost var before := modes;
        failed := ApplyEntry(batch[i]);
        BatchStep(start, batch, i, before, modes, failed);
        if failed.Some? {
          return;
        }
      }
      assert batch[..|batch|] == batch;
    }

    /** Files in manifest order, then directories longest path first; stops at the first failure. */
    method RestorePermissions(entries: seq<ManifestEntry>) returns (failed: Option<ManifestEntry>)
      modifies this
      ensures Restore(old(modes), entries) == Outcome(modes, failed)
    {
      ghost var start := modes;
      var files := Filter(entries, IsFile);
      var dirs := Sort(Filter(entries, IsDirectory), LongerFirst);
      failed := ApplyBatch(files);
      ApplyAllConcat(start, files, dirs);
      if failed.Some? {
        return;
      }
      failed := ApplyBatch(dirs);
    }
  }

  lemma ApplyOne(modes: Modes, e: ManifestEntry)
    ensures ApplyAll(modes, [e]) == ApplyMode(modes, e)
  {
    assert [e][..0] == [];
  }

  lemma BatchStep(start: Modes, order: seq<ManifestEntry>, n: nat, before: Modes, after: Modes, failed: Option<ManifestEntry>)
    requires n < |order| && ApplyAll(start, order[..n]) == Outcome(before, None)
    requires ApplyAll(before, [order[n]]) == Outcome(after, failed)
    ensures failed == None ==> ApplyAll(start, order[..n + 1]) == Outcome(after, None)
    ensures failed.Some? ==> ApplyAll(start, order) == Outcome(after, failed)
  {
    ApplyAllStep(start, order, n);
    ApplyOne(before, order[n]);
    if failed.Some? { FailureIsFinal(start, order, n + 1); }
  }

  lemma ApplyAllStep(modes: Modes, order: seq<ManifestEntry>, i: nat)
    requires i < |order|
    ensures ApplyAll(modes, order[..i + 1]) ==
            if ApplyAll(modes, order[..i]).failed.Some? then ApplyAll(modes, order[..i])
            else ApplyMode(ApplyAll(modes, order[..i]).modes, order[i])
  {
    assert order[..i + 1][..i] == order[..i];
  }

  lemma {:induction false} FailureIsFinal(modes: Modes, order: seq<ManifestEntry>, i: nat)
    requires i <= |order| && ApplyAll(modes, order[..i]).failed.Some?
    ensures ApplyAll(modes, order) == ApplyAll(modes, order[..i])
    decreases |order| - i
  {
    if i == |order| {
      assert order[..i] == order;
    } else {
      ApplyAllStep(modes, order, i);
      FailureIsFinal(modes, order, i + 1);
    }
  }

  lemma ApplyAllSnoc(modes: Modes, batch: seq<ManifestEntry>, e: ManifestEntry)
    ensures var before := ApplyAll(modes, batch);
            ApplyAll(modes, batch + [e]) == if before.failed.Some? then before else ApplyAll(before.modes, [e])
  {
    assert (batch + [e])[..|batch|] == batch;
    ApplyOne(ApplyAll(modes, batch).modes, e);
  }

  lemma AppendLast(first: seq<ManifestEntry>, init: seq<ManifestEntry>, last: ManifestEntry)
    ensures first + (init + [last]) == first + init + [last]
  {
  }

  lemma {:induction false} ApplyAllConcat(modes: Modes, first: seq<ManifestEntry>, second: seq<ManifestEntry>)
    ensures ApplyAll(modes, first + second)
            == if ApplyAll(modes, first).failed.Some? then ApplyAll(modes, first) else ApplyAll(ApplyAll(modes, first).modes, second)
  {
    if second == [] {
      assert first + second == first;
    } else {
      var init, last := second[..|second| - 1], second[|second| - 1];
      assert second == init + [last];
      AppendLast(first, init, last);
      ApplyAllConcat(modes, first, init);
      ApplyAllSnoc(modes, first + init, last);
      ApplyAllSnoc(ApplyAll(modes, first).modes, init, last);
    }
  }
}
