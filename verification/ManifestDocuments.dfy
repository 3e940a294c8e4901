/** Manifest documents as text: comments and blank lines, and what every single line gives, good or bad. */
module ManifestDocuments {
  import opened Options
  import opened Sorting
  import opened Decimal
  import opened Text
  import opened Machine
  import opened ManifestText

  // ----- comments and blank lines -----

  /** Text that is empty or ends its last line. */
  predicate EndsLine(text: string) { text == "" || text[|text| - 1] == '\n' }

  lemma LinesHead(line: string, rest: string)
    requires '\n' !in line
    ensures Lines(line + "\n" + rest) == [StripReturn(line)] + Lines(rest)
  {
    var text := line + ['\n'] + rest;
    IndexOfFirst(line, '\n', rest);
    assert text[..|line|] == line && text[|line| + 1..] == rest;
  }

  lemma {:induction false} LinesConcat(a: string, b: string)
    requires EndsLine(a)
    ensures Lines(a + b) == Lines(a) + Lines(b)
    decreases |a|
  {
    if a == "" {
      assert a + b == b;
    } else {
      var line, rest := FirstLine(a);
      LinesConcat(rest, b);
      HeadConcat(line, rest, b);
    }
  }

  lemma HeadConcat(line: string, rest: string, b: string)
    requires '\n' !in line && Lines(rest + b) == Lines(rest) + Lines(b)
    ensures Lines(line + "\n" + rest + b) == Lines(line + "\n" + rest) + Lines(b)
  {
    LinesHead(line, rest);
    LinesHead(line, rest + b);
    FirstIsKept(Lines, StripReturn(line), line, rest, b);
  }

  /** The step for any function from texts to lists that takes one line off at a time. */
  lemma FirstIsKept(lines: string -> seq<string>, first: string, line: string, rest: string, b: string)
    requires lines(line + "\n" + rest) == [first] + lines(rest)
    requires lines(line + "\n" + (rest + b)) == [first] + lines(rest + b) && lines(rest + b) == lines(rest) + lines(b)
    ensures lines(line + "\n" + rest + b) == lines(line + "\n" + rest) + lines(b)
  {
    LinesAssociate(line, rest, b);
    assert [first] + (lines(rest) + lines(b)) == [first] + lines(rest) + lines(b);
  }

  /** Cuts off the first line of a text that ends its last line. */
  lemma FirstLine(a: string) returns (line: string, rest: string)
    requires a != "" && EndsLine(a)
    ensures a == line + "\n" + rest && '\n' !in line && EndsLine(rest) && |rest| < |a|
  {
    var i := IndexOf(a, '\n');
    if i == |a| { NewlineInside(a); }
    line, rest := a[..i], a[i + 1..];
    assert a == line + [a[i]] + rest;
    assert rest != "" ==> rest[|rest| - 1] == a[|a| - 1];
  }

  lemma LinesAssociate(x: string, y: string, z: string)
    ensures x + "\n" + y + z == x + "\n" + (y + z)
  {
  }

  lemma NewlineInside(a: string)
    requires a != "" && a[|a| - 1] == '\n'
    ensures '\n' in a[..|a|]
  {
    assert a[..|a|] == a;
  }

  /** Ignored lines can be taken out of a list of lines. */
  lemma {:induction false} ParseWithout(before: seq<string>, line: string, after: seq<string>)
    requires line == "" || line[0] == '#'
    ensures ParseLines(before + [line] + after) == ParseLines(before + after)
  {
    if before == [] {
      assert before + [line] + after == [line] + after && before + after == after && ([line] + after)[1..] == after;
    } else {
      ParseWithout(before[1..], line, after);
      assert (before + [line] + after)[1..] == before[1..] + [line] + after && (before + after)[1..] == before[1..] + after;
    }
  }

  /** A comment or blank line anywhere in a document changes nothing. */
  lemma CommentChangesNothing(a: string, comment: string, b: string)
    requires EndsLine(a) && '\n' !in comment && (comment == "" || comment[0] == '#')
    ensures Parse(a + comment + "\n" + b) == Parse(a + b)
  {
    LinesConcat(a, b);
    LinesWithin(a, comment, b);
    ParseWithout(Lines(a), StripReturn(comment), Lines(b));
  }

  lemma LinesWithin(a: string, line: string, b: string)
    requires EndsLine(a) && '\n' !in line
    ensures Lines(a + line + "\n" + b) == Lines(a) + [StripReturn(line)] + Lines(b)
  {
    LinesConcat(a, line + "\n" + b);
    LinesHead(line, b);
    MiddleLine(Lines, a, line, b, StripReturn(line));
  }

  lemma MiddleLine(lines: string -> seq<string>, a: string, line: string, b: string, middle: string)
    requires lines(a + (line + "\n" + b)) == lines(a) + lines(line + "\n" + b) && lines(line + "\n" + b) == [middle] + lines(b)
    ensures lines(a + line + "\n" + b) == lines(a) + [middle] + lines(b)
  {
    assert a + line + "\n" + b == a + (line + "\n" + b);
    assert lines(a) + ([middle] + lines(b)) == lines(a) + [middle] + lines(b);
  }

  function SaysSomething(line: string): bool { line != "" && line[0] != '#' }

  /** Any document reads as it does without its comments and blank lines. */
  lemma {:induction false} CommentsChangeNothing(a: string, lines: seq<string>)
    requires EndsLine(a) && forall l :: l in lines ==> '\n' !in l
    ensures Parse(a + Terminated(lines)) == Parse(a + Terminated(Filter(lines, SaysSomething)))
    decreases |lines|
  {
    if lines != [] {
      var l, rest := lines[0], lines[1..];
      assert l in lines && lines == [l] + rest;
      KeptLine(a, l, rest);
      if SaysSomething(l) {
        CommentsChangeNothing(a + l + "\n", rest);
      } else {
        CommentsChangeNothing(a, rest);
        CommentChangesNothing(a, l, Terminated(rest));
      }
    }
  }

  lemma KeptLine(a: string, l: string, rest: seq<string>)
    ensures EndsLine(a + l + "\n") && a + Terminated([l] + rest) == a + l + "\n" + Terminated(rest)
    ensures Filter([l] + rest, SaysSomething) == if SaysSomething(l) then [l] + Filter(rest, SaysSomething) else Filter(rest, SaysSomething)
    ensures SaysSomething(l) ==> a + Terminated(Filter([l] + rest, SaysSomething)) == a + l + "\n" + Terminated(Filter(rest, SaysSomething))
  {
    FilterCons(l, rest, SaysSomething);
    TerminatedAfter(a, l, rest);
    TerminatedAfter(a, l, Filter(rest, SaysSomething));
  }

  lemma TerminatedAfter(a: string, l: string, rest: seq<string>)
    ensures a + Terminated([l] + rest) == a + l + "\n" + Terminated(rest)
  {
    TerminatedCons(l, rest);
    assert a + (l + "\n" + Terminated(rest)) == a + l + "\n" + Terminated(rest);
  }

  lemma TerminatedCons(l: string, rest: seq<string>)
    ensures Terminated([l] + rest) == l + "\n" + Terminated(rest)
  {
    assert ([l] + rest)[1..] == rest;
  }

  /**
   A clean manifest with comments and blank lines put anywhere between its lines, each line ended, reads back as its
   path-sorted entries, if no path ends in a return.
  */
  lemma CommentedManifestReads(entries: seq<ManifestEntry>, lines: seq<string>)
    requires forall e :: e in entries ==> Clean(e) && !EndsInReturn(e)
    requires (forall l :: l in lines ==> '\n' !in l) && Filter(lines, SaysSomething) == Map(SortByPath(entries), Line)
    ensures Parse(Terminated(lines)) == Ok(SortByPath(entries))
  {
    var sorted := SortByPath(entries);
    SortPermutes(entries, PathLeq);
    assert forall e :: e in sorted ==> e in Elements(entries);
    CommentsChangeNothing("", lines);
    assert "" + Terminated(lines) == Terminated(lines) && "" + Terminated(Map(sorted, Line)) == Terminated(Map(sorted, Line));
    TerminatedLines(sorted);
    ParseOwnLines(sorted);
    SortSorts(entries, PathLeq) by { PathLeqIsTotalPreorder(); }
    SortOfSorted(sorted, PathLeq);
  }

  lemma {:induction false} TerminatedLines(entries: seq<ManifestEntry>)
    requires forall e :: e in entries ==> Clean(e) && !EndsInReturn(e)
    ensures Lines(Terminated(Map(entries, Line))) == Map(entries, Line)
    ensures forall e :: e in entries ==> CleanField(e.permissions) && CleanField(e.checksum) && !Ignored(Line(e))
  {
    if entries != [] {
      var e, rest := entries[0], entries[1..];
      assert e in entries && entries == [e] + rest;
      TerminatedLines(rest);
      LineFacts(e);
      MapCons(e, rest);
      TerminatedCons(Line(e), Map(rest, Line));
      LinesHead(Line(e), Terminated(Map(rest, Line)));
      assert Stripped(e) == e;
    }
  }

  // ----- errors -----

  /** Line `k` is the first that says something and does not parse. */
  ghost predicate FirstBad(lines: seq<string>, k: nat, error: ParseError) {
    && k < |lines| && SaysSomething(lines[k]) && ParseLine(lines[k]) == Err(error)
    && forall j :: 0 <= j < k && SaysSomething(lines[j]) ==> ParseLine(lines[j]).Ok?
  }

  lemma FirstBadInTail(lines: seq<string>, k: nat, error: ParseError)
    requires lines != []
    ensures FirstBad(lines, k + 1, error)
            <==> FirstBad(lines[1..], k, error) && (SaysSomething(lines[0]) ==> ParseLine(lines[0]).Ok?)
  {
    var tail := lines[1..];
    if FirstBad(lines, k + 1, error) {
      forall j | 0 <= j < k && SaysSomething(tail[j]) ensures ParseLine(tail[j]).Ok? { assert tail[j] == lines[j + 1]; }
    }
    if FirstBad(tail, k, error) && (SaysSomething(lines[0]) ==> ParseLine(lines[0]).Ok?) {
      forall j | 0 <= j < k + 1 && SaysSomething(lines[j]) ensures ParseLine(lines[j]).Ok? {
        if j > 0 { assert lines[j] == tail[j - 1]; }
      }
    }
  }

  lemma {:induction false} FirstLineError(lines: seq<string>, error: ParseError)
    ensures ParseLines(lines) == Err(error) <==> exists k: nat :: FirstBad(lines, k, error)
  {
    if lines != [] {
      var tail := lines[1..];
      FirstLineError(tail, error);
      if k: nat :| FirstBad(tail, k, error) { FirstBadInTail(lines, k, error); }
      if k: nat :| FirstBad(lines, k, error) {
        if k > 0 { FirstBadInTail(lines, k - 1, error); }
      }
      if SaysSomething(lines[0]) && ParseLine(lines[0]) == Err(error) { assert FirstBad(lines, 0, error); }
    }
  }

  /** A document fails with the error of its first line that says something and does not parse. */
  lemma FirstErrorOfDocument(text: string, lines: seq<string>, error: ParseError)
    requires lines == Lines(text)
    ensures Parse(text) == Err(error) <==> exists k: nat :: FirstBad(lines, k, error)
  {
    FirstLineError(lines, error);
  }

  // ----- one line -----

  /** A decimal number that fits 64 bits, with at most one leading plus. */
  predicate IsSize(s: string, n: nat) {
    var digits := if s != "" && s[0] == '+' then s[1..] else s;
    digits != "" && AllDigits(digits) && Value(digits) == n && n < 0x1_0000_0000_0000_0000
  }

  lemma ParsedSize(s: string)
    ensures match ParseU64(s)
            case Some(n) => IsSize(s, n)
            case None => forall n :: !IsSize(s, n)
  {
  }

  /** What five fields give: which of them is at fault, if any is, and what is read otherwise. */
  ghost predicate ReadsFields(line: string, a: string, b: string, c: string, d: string, e: string) {
    if a != "F" && a != "D" then ParseLine(line) == Err(InvalidPathType(a))
    else if b == "" || c == "" || e == "" then ParseLine(line) == Err(MalformedLine(line))
    else if exists n: U64 :: IsSize(d, n) then
      exists n: U64 :: IsSize(d, n) && ParseLine(line) == Ok(ManifestEntry(if a == "F" then File else Directory, b, c, n, e))
    else ParseLine(line) == Err(InvalidSize(d))
  }

  /** A line of five fields, the first four free of spaces, the last taking the rest. */
  lemma FiveFieldLine(line: string, a: string, b: string, c: string, d: string, e: string)
    requires ' ' !in a && ' ' !in b && ' ' !in c && ' ' !in d
    requires line == a + " " + (b + " " + (c + " " + (d + " " + e)))
    ensures ReadsFields(line, a, b, c, d, e)
  {
    FieldsAreSplit(line, a, b, c, d, e);
    FieldsAreRead(line, a, b, c, d, e);
  }

  lemma FieldsAreSplit(line: string, a: string, b: string, c: string, d: string, e: string)
    requires ' ' !in a && ' ' !in b && ' ' !in c && ' ' !in d
    requires line == a + " " + (b + " " + (c + " " + (d + " " + e)))
    ensures SplitN(line, ' ', 5) == [a, b, c, d, e]
  {
    SplitFour(b, c, d, e);
    FirstIsSplit(line, a, b + " " + (c + " " + (d + " " + e)), b, c, d, e);
  }

  lemma FirstIsSplit(line: string, a: string, tail: string, b: string, c: string, d: string, e: string)
    requires ' ' !in a && line == a + " " + tail && SplitN(tail, ' ', 4) == [b, c, d, e]
    ensures SplitN(line, ' ', 5) == [a, b, c, d, e]
  {
    SplitFirst(a, tail, 5, [b, c, d, e]);
  }

  lemma FieldsAreRead(line: string, a: string, b: string, c: string, d: string, e: string)
    requires SplitN(line, ' ', 5) == [a, b, c, d, e]
    ensures ReadsFields(line, a, b, c, d, e)
  {
    ParsedSize(d);
    match ParseU64(d)
    case Some(n) => assert IsSize(d, n);
    case None =>
  }

  /** Fewer than four spaces: fewer than five fields. */
  lemma ShortLine(line: string)
    requires Count(line, ' ') < 4
    ensures ParseLine(line) == Err(MalformedLine(line))
  {
    SplitCount(line, 5);
  }

  lemma {:induction false} SplitCount(s: string, n: nat)
    requires n > 0
    ensures |SplitN(s, ' ', n)| <= Count(s, ' ') + 1
  {
    var i := IndexOf(s, ' ');
    if n > 1 && i < |s| {
      SplitCount(s[i + 1..], n - 1);
      SpaceAt(s, i);
    }
  }

  lemma SpaceAt(s: string, i: nat)
    requires i < |s| && s[i] == ' '
    ensures Count(s, ' ') >= 1 + Count(s[i + 1..], ' ')
  {
    assert s == s[..i] + s[i..] && s[i..][1..] == s[i + 1..];
    CountConcat(s[..i], s[i..], ' ');
  }
}
