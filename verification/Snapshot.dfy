/** Snapshot ids and directory checksums over an arbitrary hash, and the manifest as a mutable document. */
module Snapshot {
  import opened Options
  import opened Sorting
  import opened StringOrder
  import opened Text
  import opened ManifestText

  ghost predicate Injective(hash: string -> string) {
    forall a, b :: hash(a) == hash(b) ==> a == b
  }

  /** The hash of the manifest text and one trailing newline. */
  function SnapshotId(entries: seq<ManifestEntry>, hash: string -> string): string {
    hash(Display(entries) + "\n")
  }

  /** Where no path has two different entries, the order of the entries does not show. */
  lemma DisplayIgnoresOrder(entries: seq<ManifestEntry>, shuffled: seq<ManifestEntry>)
    requires multiset(entries) == multiset(shuffled) && OneEntryPerPath(entries)
    ensures Display(entries) == Display(shuffled)
  {
    PathLeqIsTotalPreorder();
    SortSorts(entries, PathLeq);
    SortSorts(shuffled, PathLeq);
    SortPermutes(entries, PathLeq);
    SortPermutes(shuffled, PathLeq);
    forall a, b | a in SortByPath(entries) && b in SortByPath(entries) && a.path == b.path ensures a == b {
      assert a in Elements(SortByPath(entries)) && b in Elements(SortByPath(entries));
    }
    StrLeqIsTotalOrder();
    SortedUnique(SortByPath(entries), SortByPath(shuffled), PathLeq);
  }

  function HasPath(path: string): ManifestEntry -> bool {
    (e: ManifestEntry) => e.path == path
  }

  /** Sorting is stable, so the first entry of a path in the input is its first in the output. */
  lemma SwapShows(a: ManifestEntry, b: ManifestEntry, rest: seq<ManifestEntry>)
    requires a.path == b.path && a != b
    ensures SortByPath([a, b] + rest) != SortByPath([b, a] + rest)
  {
    PathLeqIsTotalPreorder();
    var p := HasPath(a.path);
    SortIsStable([a, b] + rest, PathLeq, p);
    SortIsStable([b, a] + rest, PathLeq, p);
    FirstKept(a, b, rest, p);
    FirstKept(b, a, rest, p);
  }

  lemma FirstKept(a: ManifestEntry, b: ManifestEntry, rest: seq<ManifestEntry>, p: ManifestEntry -> bool)
    requires p(a)
    ensures |Filter([a, b] + rest, p)| > 0 && Filter([a, b] + rest, p)[0] == a
  {
    assert [a, b] + rest == [a] + ([b] + rest);
    FilterCons(a, [b] + rest, p);
  }

  ghost predicate Arrangement(s: seq<ManifestEntry>, entries: seq<ManifestEntry>) {
    multiset(s) == multiset(entries)
  }

  /** Text determines the sorted entries, a final return in a path included. */
  lemma DisplayIsInjective(s: seq<ManifestEntry>, t: seq<ManifestEntry>)
    requires forall e :: e in s || e in t ==> Clean(e)
    ensures Display(s) == Display(t) <==> SortByPath(s) == SortByPath(t)
  {
    SortPermutes(s, PathLeq);
    SortPermutes(t, PathLeq);
    assert forall e :: e in SortByPath(s) || e in SortByPath(t) ==> e in Elements(s) || e in Elements(t);
    if Display(s) == Display(t) { JoinedIsInjective(SortByPath(s), SortByPath(t)); }
  }

  lemma JoinedIsInjective(u: seq<ManifestEntry>, v: seq<ManifestEntry>)
    requires (forall e :: e in u || e in v ==> Clean(e)) && Joined(u) == Joined(v)
    ensures u == v
  {
    JoinedIsJoin(u);
    JoinedIsJoin(v);
    if u != [] && v != [] {
      assert |Map(u, Line)| == |Map(v, Line)|;
      forall i | 0 <= i < |u| ensures u[i] == v[i] {
        assert u[i] in u && v[i] in v && Map(u, Line)[i] == Map(v, Line)[i];
        ParseOwnLine(u[i]);
        ParseOwnLine(v[i]);
      }
    }
  }

  /** Joined lines are cut apart again at their newlines. */
  lemma {:induction false} JoinedIsJoin(u: seq<ManifestEntry>)
    requires forall e :: e in u ==> Clean(e)
    ensures Joined(u) == "" <==> u == []
    ensures u != [] ==> Split(Joined(u), '\n') == Map(u, Line)
  {
    if u != [] {
      JoinedLines(u);
      LineFacts(u[0]);
      forall l | l in Map(u, Line) ensures '\n' !in l {
        var i :| 0 <= i < |u| && Map(u, Line)[i] == l;
        LineFacts(u[i]);
      }
      SplitOfJoin(Map(u, Line), '\n');
    }
  }

  lemma {:induction false} JoinedLines(u: seq<ManifestEntry>)
    ensures Joined(u) == Join(Map(u, Line), '\n')
  {
    if |u| > 1 {
      JoinedLines(u[1..]);
      assert Map(u, Line)[1..] == Map(u[1..], Line);
    }
  }

  /** With an injective hash, equal ids mean equal sorted entries. */
  lemma SnapshotIdIdentifies(s: seq<ManifestEntry>, t: seq<ManifestEntry>, hash: string -> string)
    requires Injective(hash) && forall e :: e in s || e in t ==> Clean(e)
    ensures SnapshotId(s, hash) == SnapshotId(t, hash) <==> SortByPath(s) == SortByPath(t)
  {
    DisplayIsInjective(s, t);
    if SnapshotId(s, hash) == SnapshotId(t, hash) {
      assert Display(s) == (Display(s) + "\n")[..|Display(s) + "\n"| - 1] == (Display(t) + "\n")[..|Display(t) + "\n"| - 1] == Display(t);
    }
  }

  /** The id ignores the order entries were added in exactly when no path has two different entries. */
  lemma SnapshotIdIgnoresOrder(entries: seq<ManifestEntry>, hash: string -> string)
    requires Injective(hash) && forall e :: e in entries ==> Clean(e)
    ensures (forall s, t :: Arrangement(s, entries) && Arrangement(t, entries) ==> SnapshotId(s, hash) == SnapshotId(t, hash))
            <==> OneEntryPerPath(entries)
  {
    if OneEntryPerPath(entries) {
      forall s, t | Arrangement(s, entries) && Arrangement(t, entries) ensures SnapshotId(s, hash) == SnapshotId(t, hash) {
        ArrangementsAlike(entries, s, t);
      }
    } else {
      var s, t := ArrangementsDiffer(entries, hash);
    }
  }

  lemma ArrangementsAlike(entries: seq<ManifestEntry>, s: seq<ManifestEntry>, t: seq<ManifestEntry>)
    requires OneEntryPerPath(entries) && Arrangement(s, entries) && Arrangement(t, entries)
    ensures Display(s) == Display(t)
  {
    SameMultiset(s, entries);
    assert forall a :: a in s ==> a in Elements(entries);
    DisplayIgnoresOrder(s, t);
  }

  lemma ArrangementsDiffer(entries: seq<ManifestEntry>, hash: string -> string) returns (s: seq<ManifestEntry>, t: seq<ManifestEntry>)
    requires Injective(hash) && !OneEntryPerPath(entries) && forall e :: e in entries ==> Clean(e)
    ensures Arrangement(s, entries) && Arrangement(t, entries) && SnapshotId(s, hash) != SnapshotId(t, hash)
  {
    var a, b :| a in entries && b in entries && a.path == b.path && a != b;
    var rest := Remainder(entries, a, b);
    s, t := [a, b] + rest, [b, a] + rest;
    TwoArrangements(entries, a, b, rest);
    SwapShows(a, b, rest);
    SnapshotIdIdentifies(s, t, hash);
  }

  /** Reached: two different entries for one path, in either order. */
  lemma TwoEntriesTwoIds(a: ManifestEntry, b: ManifestEntry, hash: string -> string)
    requires Injective(hash) && Clean(a) && Clean(b) && a.path == b.path && a != b
    ensures SnapshotId([a, b], hash) != SnapshotId([b, a], hash)
  {
    SwapShows(a, b, []);
    assert [a, b] + [] == [a, b] && [b, a] + [] == [b, a];
    SnapshotIdIdentifies([a, b], [b, a], hash);
  }

  lemma TwoArrangements(entries: seq<ManifestEntry>, a: ManifestEntry, b: ManifestEntry, rest: seq<ManifestEntry>)
    requires multiset(entries) == multiset{a, b} + multiset(rest) && forall e :: e in entries ==> Clean(e)
    ensures Arrangement([a, b] + rest, entries) && Arrangement([b, a] + rest, entries)
    ensures forall e :: e in [a, b] + rest || e in [b, a] + rest ==> Clean(e)
  {
    var s, t := [a, b] + rest, [b, a] + rest;
    assert multiset(s) == multiset{a, b} + multiset(rest) && multiset(t) == multiset{b, a} + multiset(rest);
    SameMultiset(s, entries);
    SameMultiset(t, entries);
    forall e | e in s || e in t ensures Clean(e) { assert e in Elements(s) || e in Elements(t); }
  }

  lemma TakeOut(s: seq<ManifestEntry>, x: ManifestEntry) returns (rest: seq<ManifestEntry>)
    requires x in s
    ensures multiset(s) == multiset(rest) + multiset{x}
  {
    var i :| 0 <= i < |s| && s[i] == x;
    rest := s[..i] + s[i + 1..];
    assert s == s[..i] + [x] + s[i + 1..];
  }

  lemma Remainder(entries: seq<ManifestEntry>, a: ManifestEntry, b: ManifestEntry) returns (rest: seq<ManifestEntry>)
    requires a in entries && b in entries && a != b
    ensures multiset(entries) == multiset{a, b} + multiset(rest)
  {
    var without := TakeOut(entries, a);
    assert b in multiset(entries) && b in multiset(without);
    rest := TakeOut(without, b);
  }

  lemma {:induction false} JoinTerminated(lines: seq<string>)
    requires lines != []
    ensures Join(lines, '\n') + "\n" == Terminated(lines)
  {
    if |lines| > 1 {
      JoinTerminated(lines[1..]);
      assert Join(lines, '\n') + "\n" == lines[0] + "\n" + (Join(lines[1..], '\n') + "\n");
    } else {
      assert Terminated(lines[1..]) == "" && lines[0] + "\n" + "" == lines[0] + "\n";
    }
  }

  /** A snapshot id is the hash of the path-sorted lines, each ended by a newline, and for no entries of one newline. */
  lemma SnapshotIdMeaning(entries: seq<ManifestEntry>, hash: string -> string)
    ensures SnapshotId(entries, hash) == hash(if entries == [] then "\n" else Terminated(Map(SortByPath(entries), Line)))
  {
    SortPermutes(entries, PathLeq);
    JoinedLines(SortByPath(entries));
    if entries == [] {
      assert Joined([]) + "\n" == "\n";
    } else {
      JoinTerminated(Map(SortByPath(entries), Line));
    }
  }

  // ----- directory checksums -----

  /** Children's checksums, sorted and deduplicated, concatenated and hashed. */
  function DirectoryChecksum(children: seq<string>, hash: string -> string): string {
    StrLeqIsTotalOrder();
    hash(Concatenated(Ascending(Elements(children), StrLeq)))
  }

  /** A directory checksum is the hash of its children's checksums, ascending and each once, run together. */
  lemma DirectoryChecksumMeaning(children: seq<string>, ascending: seq<string>, hash: string -> string)
    requires Strictly(ascending, StrLess) && Elements(ascending) == Elements(children)
    ensures DirectoryChecksum(children, hash) == hash(Concatenated(ascending))
  {
    StrLeqIsTotalOrder();
    forall i, j | 0 <= i < j < |ascending| ensures ascending[i] != ascending[j] { Trichotomy(ascending[i], ascending[j]); }
    SortedDistinctIsAscending(ascending, StrLeq);
  }

  lemma {:induction false} ConcatenationSplits(s: seq<string>, t: seq<string>, width: nat)
    requires width > 0 && (forall x :: x in s || x in t ==> |x| == width) && Concatenated(s) == Concatenated(t)
    ensures s == t
  {
    if s != [] && t != [] {
      assert s[0] in s && t[0] in t;
      assert Concatenated(s)[..width] == s[0] && Concatenated(t)[..width] == t[0];
      assert Concatenated(s)[width..] == Concatenated(s[1..]) && Concatenated(t)[width..] == Concatenated(t[1..]);
      ConcatenationSplits(s[1..], t[1..], width);
    } else {
      FirstPieceShows(s, width);
      FirstPieceShows(t, width);
    }
  }

  lemma FirstPieceShows(s: seq<string>, width: nat)
    requires forall x :: x in s ==> |x| == width
    ensures s == [] || |Concatenated(s)| >= width
  {
    if s != [] { assert s[0] in s; }
  }

  /** For checksums of one width, a directory checksum stands for the set of its children's checksums and nothing else. */
  lemma DirectoryChecksumIsOfTheSet(s: seq<string>, t: seq<string>, width: nat, hash: string -> string)
    requires Injective(hash) && width > 0 && forall x :: x in s || x in t ==> |x| == width
    ensures DirectoryChecksum(s, hash) == DirectoryChecksum(t, hash) <==> Elements(s) == Elements(t)
  {
    StrLeqIsTotalOrder();
    if DirectoryChecksum(s, hash) == DirectoryChecksum(t, hash) {
      var us, ut := Ascending(Elements(s), StrLeq), Ascending(Elements(t), StrLeq);
      assert Concatenated(us) == Concatenated(ut);
      ConcatenationSplits(us, ut, width);
      forall x ensures x in s <==> x in t {
        assert x in us <==> x in Elements(s);
        assert x in ut <==> x in Elements(t);
      }
    }
  }

  // ----- as loops over mutable state -----

  class Manifest {
    var entries: seq<ManifestEntry>

    constructor ()
      ensures entries == []
    {
      entries := [];
    }

    method Push(entry: ManifestEntry)
      modifies this
      ensures entries == old(entries) + [entry]
    {
      entries := entries + [entry];
    }

    /** Path order, entries of one path staying in the order they came. */
    method SortEntries()
      modifies this
      ensures entries == SortByPath(old(entries))
    {
      entries := SortByPath(entries);
    }

    method Render() returns (text: string)
      ensures text == Display(entries)
    {
      var order := SortByPath(entries);
      text := "";
      var first := true;
      for i := 0 to |order|
        invariant first <==> i == 0
        invariant text == Joined(order[..i])
      {
        if first {
          first := false;
        } else {
          text := text + "\n";
        }
        text := text + Line(order[i]);
        JoinedOneMore(order, i);
      }
      assert order[..|order|] == order;
    }

    /** Reads a document into this manifest; on an error the manifest is left as it was. */
    method Read(text: string) returns (error: Option<ParseError>)
      modifies this
      ensures match Parse(text)
              case Ok(parsed) => error == None && entries == parsed
              case Err(e) => error == Some(e) && entries == old(entries)
    {
      var lines := Lines(text);
      var parsed := [];
      var i := 0;
      assert lines[0..] == lines;
      assert ParseLines(lines).Ok? ==> [] + ParseLines(lines).value == ParseLines(lines).value;
      while i < |lines|
        invariant 0 <= i <= |lines|
        invariant entries == old(entries)
        invariant ParseLines(lines) == Onto(parsed, ParseLines(lines[i..]))
      {
        assert lines[i..][1..] == lines[i + 1..];
        if !Ignored(lines[i]) {
          match ParseLine(lines[i])
          case Err(e) => return Some(e);
          case Ok(entry) =>
            OntoOneMore(parsed, entry, ParseLines(lines[i + 1..]));
            parsed := parsed + [entry];
        }
        i := i + 1;
      }
      assert parsed + [] == parsed;
      entries := parsed;
      SortEntries();
      error := None;
    }
  }

  function Onto(parsed: seq<ManifestEntry>, rest: Result<seq<ManifestEntry>, ParseError>): Result<seq<ManifestEntry>, ParseError> {
    match rest
    case Ok(more) => Ok(parsed + more)
    case Err(e) => Err(e)
  }

  lemma OntoOneMore(parsed: seq<ManifestEntry>, entry: ManifestEntry, rest: Result<seq<ManifestEntry>, ParseError>)
    ensures Onto(parsed + [entry], rest) == Onto(parsed, Onto([entry], rest))
  {
    if rest.Ok? { assert parsed + [entry] + rest.value == parsed + ([entry] + rest.value); }
  }

  lemma JoinedOneMore(order: seq<ManifestEntry>, i: nat)
    requires i < |order|
    ensures Joined(order[..i + 1]) == if i == 0 then Line(order[0]) else Joined(order[..i]) + "\n" + Line(order[i])
  {
    JoinedLines(order[..i + 1]);
    JoinedLines(order[..i]);
    LinesOneMore(order, i);
    JoinSnoc(Map(order[..i], Line), '\n', Line(order[i]));
  }

  lemma LinesOneMore(order: seq<ManifestEntry>, i: nat)
    requires i < |order|
    ensures Map(order[..i + 1], Line) == Map(order[..i], Line) + [Line(order[i])]
  {
  }
}
