/** Manifest entries, their text format, and the parser that reads it back. */
module ManifestText {
  import opened Options
  import opened Sorting
  import opened StringOrder
  import opened Decimal
  import opened Text
  import opened Machine

  datatype PathType = File | Directory

  datatype ManifestEntry = ManifestEntry(pathType: PathType, permissions: string, checksum: string, size: U64, path: string)

  /** No path has two different entries. */
  ghost predicate OneEntryPerPath(entries: seq<ManifestEntry>) {
    forall a, b :: a in entries && b in entries && a.path == b.path ==> a == b
  }

  datatype ParseError = MalformedLine(line: string) | InvalidPathType(tag: string) | InvalidSize(size: string)

  // ----- printing -----

  function Tag(t: PathType): string {
    match t
    case File => "F"
    case Directory => "D"
  }

  function Line(e: ManifestEntry): string {
    Tag(e.pathType) + " " + e.permissions + " " + e.checksum + " " + Show(e.size) + " " + e.path
  }

  predicate PathLeq(a: ManifestEntry, b: ManifestEntry) { StrLeq(a.path, b.path) }

  function SortByPath(entries: seq<ManifestEntry>): seq<ManifestEntry> {
    Sort(entries, PathLeq)
  }

  /** Lines joined by newlines, without a trailing one. */
  function Joined(entries: seq<ManifestEntry>): string {
    if entries == [] then ""
    else if |entries| == 1 then Line(entries[0])
    else Line(entries[0]) + "\n" + Joined(entries[1..])
  }

  /** Lines, each ended by a newline. */
  function Terminated(lines: seq<string>): string {
    if lines == [] then "" else lines[0] + "\n" + Terminated(lines[1..])
  }

  function Display(entries: seq<ManifestEntry>): string {
    Joined(SortByPath(entries))
  }

  // ----- parsing -----

  /** At most `n` pieces, cut at the first separators. */
  function SplitN(s: string, c: char, n: nat): (parts: seq<string>)
    requires n > 0
    ensures 0 < |parts| <= n
  {
    var i := IndexOf(s, c);
    if n == 1 || i == |s| then [s] else [s[..i]] + SplitN(s[i + 1..], c, n - 1)
  }

  function ParseU64(s: string): Option<U64> {
    var digits := if s != "" && s[0] == '+' then s[1..] else s;
    if digits == "" || exists c :: c in digits && !IsDigit(c) then None
    else if Value(digits) > U64_MAX then None
    else Some(Value(digits))
  }

  function ParseLine(line: string): Result<ManifestEntry, ParseError> {
    var parts := SplitN(line, ' ', 5);
    if |parts| < 5 then Err(MalformedLine(line))
    else if parts[0] != "F" && parts[0] != "D" then Err(InvalidPathType(parts[0]))
    else if parts[1] == "" || parts[2] == "" || parts[4] == "" then Err(MalformedLine(line))
    else match ParseU64(parts[3])
      case None => Err(InvalidSize(parts[3]))
      case Some(size) => Ok(ManifestEntry(if parts[0] == "F" then File else Directory, parts[1], parts[2], size, parts[4]))
  }

  function StripReturn(s: string): string {
    if s != "" && s[|s| - 1] == '\r' then s[..|s| - 1] else s
  }

  /** `str::lines`: cut at newlines, dropping one return before each; no line after a final newline. */
  function Lines(text: string): seq<string>
    decreases |text|
  {
    if text == "" then [] else
      var i := IndexOf(text, '\n');
      if i == |text| then [text] else [StripReturn(text[..i])] + Lines(text[i + 1..])
  }

  predicate Ignored(line: string) { line == "" || line[0] == '#' }

  function ParseLines(lines: seq<string>): Result<seq<ManifestEntry>, ParseError> {
    if lines == [] then Ok([])
    else if Ignored(lines[0]) then ParseLines(lines[1..])
    else match ParseLine(lines[0])
      case Err(e) => Err(e)
      case Ok(entry) =>
        match ParseLines(lines[1..])
        case Err(e) => Err(e)
        case Ok(rest) => Ok([entry] + rest)
  }

  function Parse(text: string): Result<seq<ManifestEntry>, ParseError> {
    match ParseLines(Lines(text))
    case Err(e) => Err(e)
    case Ok(entries) => Ok(SortByPath(entries))
  }

  // ----- one line -----

  predicate CleanField(s: string) { s != "" && ' ' !in s && '\n' !in s }

  /** What the format can carry. */
  predicate Clean(e: ManifestEntry) {
    CleanField(e.permissions) && CleanField(e.checksum) && e.path != "" && '\n' !in e.path
  }

  lemma SplitFirst(a: string, b: string, n: nat, parts: seq<string>)
    requires ' ' !in a && n > 1 && SplitN(b, ' ', n - 1) == parts
    ensures SplitN(a + " " + b, ' ', n) == [a] + parts
  {
    IndexOfFirst(a, ' ', b);
    var s := a + " " + b;
    assert s == a + [' '] + b && s[..|a|] == a && s[|a| + 1..] == b;
  }

  lemma ParseShownSize(n: U64)
    ensures ParseU64(Show(n)) == Some(n) && ' ' !in Show(n) && '\n' !in Show(n)
  {
    ValueOfShow(n);
    assert Show(n)[0] in Show(n);
  }

  lemma SplitOwnLine(e: ManifestEntry)
    requires CleanField(e.permissions) && CleanField(e.checksum)
    ensures SplitN(Line(e), ' ', 5) == [Tag(e.pathType), e.permissions, e.checksum, Show(e.size), e.path]
  {
    var tail := LineTail(e);
    SplitFirst(Tag(e.pathType), tail, 5, [e.permissions, e.checksum, Show(e.size), e.path]);
  }

  /** What follows the tag of a line. */
  lemma LineTail(e: ManifestEntry) returns (tail: string)
    requires CleanField(e.permissions) && CleanField(e.checksum)
    ensures Line(e) == Tag(e.pathType) + " " + tail
    ensures SplitN(tail, ' ', 4) == [e.permissions, e.checksum, Show(e.size), e.path]
  {
    tail := e.permissions + " " + (e.checksum + " " + (Show(e.size) + " " + e.path));
    ParseShownSize(e.size);
    FiveFields(Tag(e.pathType), e.permissions, e.checksum, Show(e.size), e.path);
    SplitFour(e.permissions, e.checksum, Show(e.size), e.path);
  }

  lemma FiveFields(a: string, b: string, c: string, d: string, e: string)
    ensures a + " " + b + " " + c + " " + d + " " + e == a + " " + (b + " " + (c + " " + (d + " " + e)))
  {
    Regroup(a + " " + b + " " + c, d, e);
    Regroup(a + " " + b, c, d + " " + e);
    Regroup(a, b, c + " " + (d + " " + e));
  }

  lemma SplitFour(b: string, c: string, d: string, e: string)
    requires ' ' !in b && ' ' !in c && ' ' !in d
    ensures SplitN(b + " " + (c + " " + (d + " " + e)), ' ', 4) == [b, c, d, e]
  {
    SplitThree(c, d, e);
    SplitFirst(b, c + " " + (d + " " + e), 4, [c, d, e]);
  }

  lemma SplitThree(c: string, d: string, e: string)
    requires ' ' !in c && ' ' !in d
    ensures SplitN(c + " " + (d + " " + e), ' ', 3) == [c, d, e]
  {
    SplitFirst(d, e, 2, [e]);
    SplitFirst(c, d + " " + e, 3, [d, e]);
  }

  lemma Regroup(x: string, y: string, z: string)
    ensures x + " " + y + " " + z == x + " " + (y + " " + z)
  {
  }

  lemma ParseOwnLine(e: ManifestEntry)
    requires CleanField(e.permissions) && CleanField(e.checksum)
    ensures ParseLine(Line(e)) == if e.path == "" then Err(MalformedLine(Line(e))) else Ok(e)
  {
    SplitOwnLine(e);
    ParseShownSize(e.size);
  }

  predicate Free(s: string, c: char) { c !in s }

  lemma {:induction false} SplitClean(s: string, n: nat)
    requires n > 0 && '\n' !in s
    ensures forall i :: 0 <= i < |SplitN(s, ' ', n)| ==> Free(SplitN(s, ' ', n)[i], '\n')
    ensures forall i :: 0 <= i < |SplitN(s, ' ', n)| - 1 ==> Free(SplitN(s, ' ', n)[i], ' ')
  {
    var i := IndexOf(s, ' ');
    if n > 1 && i < |s| {
      SplitClean(s[i + 1..], n - 1);
      var rest := SplitN(s[i + 1..], ' ', n - 1);
      var parts := SplitN(s, ' ', n);
      assert parts == [s[..i]] + rest;
      assert forall k :: 0 < k < |parts| ==> parts[k] == rest[k - 1];
    } else {
      assert SplitN(s, ' ', n) == [s];
    }
  }

  lemma ParsedIsClean(line: string)
    requires '\n' !in line
    ensures ParseLine(line).Ok? ==> Clean(ParseLine(line).value)
  {
    SplitClean(line, 5);
    var parts := SplitN(line, ' ', 5);
    if |parts| == 5 {
      assert Free(parts[1], ' ') && Free(parts[2], ' ');
      assert Free(parts[1], '\n') && Free(parts[2], '\n') && Free(parts[4], '\n');
    }
  }

  // ----- many lines -----

  /** The entry with the return its line loses. */
  function Stripped(e: ManifestEntry): ManifestEntry { e.(path := StripReturn(e.path)) }

  /** What reading back joined lines yields: every line but the last loses a final return. */
  function ReadBack(entries: seq<ManifestEntry>): seq<ManifestEntry> {
    if |entries| <= 1 then entries else [Stripped(entries[0])] + ReadBack(entries[1..])
  }

  lemma LineFacts(e: ManifestEntry)
    requires Clean(e)
    ensures '\n' !in Line(e) && !Ignored(Line(e)) && StripReturn(Line(e)) == Line(Stripped(e))
    ensures Line(e) != "" && !Ignored(Line(Stripped(e)))
  {
    ParseShownSize(e.size);
    var head := Tag(e.pathType) + " " + e.permissions + " " + e.checksum + " " + Show(e.size) + " ";
    assert Line(e) == head + e.path;
    assert Line(e)[|Line(e)| - 1] == e.path[|e.path| - 1];
    if e.path[|e.path| - 1] == '\r' {
      assert (head + e.path)[..|head + e.path| - 1] == head + e.path[..|e.path| - 1];
    }
    assert Line(e)[0] == head[0] == Tag(e.pathType)[0];
    assert Line(Stripped(e)) == head + StripReturn(e.path);
    assert Line(Stripped(e))[0] == head[0];
  }

  lemma {:induction false} LinesOfJoined(entries: seq<ManifestEntry>)
    requires forall e :: e in entries ==> Clean(e)
    ensures Lines(Joined(entries)) == Map(ReadBack(entries), Line)
  {
    if entries != [] {
      var e := entries[0];
      assert e in entries;
      LineFacts(e);
      if |entries| == 1 {
        assert IndexOf(Line(e), '\n') == |Line(e)|;
      } else {
        var rest := Joined(entries[1..]);
        IndexOfFirst(Line(e), '\n', rest);
        var text := Line(e) + "\n" + rest;
        assert text == Line(e) + ['\n'] + rest && text[..|Line(e)|] == Line(e) && text[|Line(e)| + 1..] == rest;
        LinesOfJoined(entries[1..]);
        MapCons(Stripped(e), ReadBack(entries[1..]));
      }
    }
  }

  lemma MapCons(e: ManifestEntry, rest: seq<ManifestEntry>)
    ensures Map([e] + rest, Line) == [Line(e)] + Map(rest, Line)
  {
  }

  lemma {:induction false} ReadBackFacts(entries: seq<ManifestEntry>)
    requires forall e :: e in entries ==> Clean(e)
    ensures forall e :: e in ReadBack(entries) ==> CleanField(e.permissions) && CleanField(e.checksum) && !Ignored(Line(e))
    ensures |ReadBack(entries)| == |entries|
  {
    if entries != [] {
      assert entries[0] in entries;
      LineFacts(entries[0]);
      if |entries| > 1 { ReadBackFacts(entries[1..]); }
    }
  }

  lemma ParseLinesCons(line: string, rest: seq<string>)
    requires !Ignored(line)
    ensures ParseLines([line] + rest) ==
            if ParseLine(line).Err? then Err(ParseLine(line).error)
            else if ParseLines(rest).Err? then Err(ParseLines(rest).error)
            else Ok([ParseLine(line).value] + ParseLines(rest).value)
  {
    assert ([line] + rest)[1..] == rest;
  }

  lemma {:induction false} ParseOwnLines(entries: seq<ManifestEntry>)
    requires forall e :: e in entries ==> CleanField(e.permissions) && CleanField(e.checksum) && !Ignored(Line(e))
    ensures var r := ParseLines(Map(entries, Line));
            if forall e :: e in entries ==> e.path != "" then r == Ok(entries) else r.Err?
  {
    if entries != [] {
      assert entries[0] in entries;
      ParseOwnLine(entries[0]);
      MapCons(entries[0], entries[1..]);
      assert entries == [entries[0]] + entries[1..];
      ParseOwnLines(entries[1..]);
      ParseLinesCons(Line(entries[0]), Map(entries[1..], Line));
    }
  }

  lemma {:induction false} LinesHaveNoNewline(text: string)
    ensures forall l :: l in Lines(text) ==> '\n' !in l
    decreases |text|
  {
    if text != "" {
      var i := IndexOf(text, '\n');
      if i == |text| {
        assert text[..i] == text;
      } else {
        LinesHaveNoNewline(text[i + 1..]);
      }
    }
  }

  lemma {:induction false} ParsedLinesAreClean(lines: seq<string>)
    requires forall l :: l in lines ==> '\n' !in l
    ensures ParseLines(lines).Ok? ==> forall e :: e in ParseLines(lines).value ==> Clean(e)
  {
    if lines != [] {
      assert lines[0] in lines;
      ParsedIsClean(lines[0]);
      ParsedLinesAreClean(lines[1..]);
    }
  }

  lemma PathLeqIsTotalPreorder()
    ensures TotalPreorder(PathLeq)
  {
    StrLeqIsTotalOrder();
  }

  /** Whatever parses, parses to clean entries. */
  lemma ParsedEntriesAreClean(text: string)
    ensures Parse(text).Ok? ==> forall e :: e in Parse(text).value ==> Clean(e)
  {
    LinesHaveNoNewline(text);
    ParsedLinesAreClean(Lines(text));
    if ParseLines(Lines(text)).Ok? {
      var entries := ParseLines(Lines(text)).value;
      SortPermutes(entries, PathLeq);
      forall e | e in SortByPath(entries) ensures Clean(e) { assert e in Elements(SortByPath(entries)); }
    }
  }

  // ----- round trip -----

  predicate EndsInReturn(e: ManifestEntry) { e.path != "" && e.path[|e.path| - 1] == '\r' }

  function TotalLength(entries: seq<ManifestEntry>): nat {
    if entries == [] then 0 else |entries[0].path| + TotalLength(entries[1..])
  }

  lemma {:induction false} InsertLength(e: ManifestEntry, entries: seq<ManifestEntry>)
    ensures TotalLength(Insert(e, entries, PathLeq)) == |e.path| + TotalLength(entries)
  {
    if entries != [] && !PathLeq(e, entries[0]) { InsertLength(e, entries[1..]); }
  }

  lemma {:induction false} SortLength(entries: seq<ManifestEntry>)
    ensures TotalLength(SortByPath(entries)) == TotalLength(entries)
  {
    if entries != [] {
      SortLength(entries[1..]);
      InsertLength(entries[0], SortByPath(entries[1..]));
    }
  }

  predicate ReturnFree(entries: seq<ManifestEntry>) {
    forall i :: 0 <= i < |entries| - 1 ==> !EndsInReturn(entries[i])
  }

  lemma {:induction false} ReadBackLength(entries: seq<ManifestEntry>)
    ensures TotalLength(ReadBack(entries)) <= TotalLength(entries)
    ensures if ReturnFree(entries) then ReadBack(entries) == entries
            else TotalLength(ReadBack(entries)) < TotalLength(entries)
  {
    if |entries| > 1 {
      ReadBackLength(entries[1..]);
      assert ReturnFree(entries) <==> !EndsInReturn(entries[0]) && ReturnFree(entries[1..]) by {
        if !EndsInReturn(entries[0]) && ReturnFree(entries[1..]) {
          forall i | 0 <= i < |entries| - 1 ensures !EndsInReturn(entries[i]) {
            if i > 0 { assert !EndsInReturn(entries[1..][i - 1]); }
          }
        }
        if ReturnFree(entries) {
          forall i | 0 <= i < |entries[1..]| - 1 ensures !EndsInReturn(entries[1..][i]) { assert !EndsInReturn(entries[i + 1]); }
        }
      }
    }
  }

  /**
   Reading back what was printed gives the path-sorted entries exactly when every field is clean and no
   path but the one printed last ends in a return.
  */
  lemma ManifestRoundTrip(entries: seq<ManifestEntry>)
    ensures Parse(Display(entries)) == Ok(SortByPath(entries))
            <==> (forall e :: e in entries ==> Clean(e)) && ReturnFree(SortByPath(entries))
  {
    var sorted := SortByPath(entries);
    SortPermutes(entries, PathLeq);
    assert forall e :: e in sorted <==> e in entries by {
      forall e ensures e in sorted <==> e in entries { assert e in Elements(sorted) <==> e in Elements(entries); }
    }
    ParsedEntriesAreClean(Display(entries));
    if forall e :: e in entries ==> Clean(e) {
      LinesOfJoined(sorted);
      ReadBackFacts(sorted);
      ParseOwnLines(ReadBack(sorted));
      ReadBackLength(sorted);
      SortLength(ReadBack(sorted));
      if ReturnFree(sorted) {
        PathLeqIsTotalPreorder();
        SortIdempotent(entries, PathLeq);
      }
    }
  }

  /** Reached: of two entries in path order, the first loses a final return. */
  lemma ReturnIsLost(a: ManifestEntry, b: ManifestEntry)
    requires Clean(a) && Clean(b) && EndsInReturn(a) && StrLess(a.path, b.path)
    ensures Parse(Display([a, b])) != Ok([a, b]) && SortByPath([a, b]) == [a, b]
  {
    SortOfSorted([a, b], PathLeq);
    ManifestRoundTrip([a, b]);
    assert SortByPath([a, b])[0] == a;
  }
}
