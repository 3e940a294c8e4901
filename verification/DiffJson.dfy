/**
 The JSON text of diff rows as two printers write it, the command line's own and the one behind the C
 interface, and the hand-written parser of the C++ binding, which reads the second.
*/
module DiffJson {
  import opened Options
  import opened Diff

  // ----- printers -----

  /** `CommandLine` is the hand-written printer; `Interface` is `serde_json` over a map, whose keys come in order. */
  datatype Printer = CommandLine | Interface

  function HexDigit(n: nat): char
    requires n < 16
  {
    "0123456789abcdef"[n]
  }

  /** How one character of a path is written; the escapes are those of section 7 of RFC 8259. */
  function EscapeChar(c: char, printer: Printer): string {
    if c == '"' then "\\\""
    else if c == '\\' then "\\\\"
    else if c == '\n' then "\\n"
    else if c == '\r' then "\\r"
    else if c == '\t' then "\\t"
    else if c == '\U{0008}' && printer == Interface then "\\b"
    else if c == '\U{000C}' && printer == Interface then "\\f"
    else if c as int < 0x20 then "\\u00" + [HexDigit(c as int / 16), HexDigit(c as int % 16)]
    else [c]
  }

  function JsonEscape(s: string, printer: Printer): string {
    if s == "" then "" else EscapeChar(s[0], printer) + JsonEscape(s[1..], printer)
  }

  /** Quoted strings, each with the character after it. */
  function Strings(parts: seq<string>, seps: string): string
    requires |parts| == |seps|
  {
    if parts == [] then "" else "\"" + parts[0] + "\"" + [seps[0]] + Strings(parts[1..], seps[1..])
  }

  /** An object's keys and values in the order they are written. */
  function RowParts(status: char, escaped: string, printer: Printer): seq<string> {
    match printer
    case CommandLine => ["status", [status], "path", escaped]
    case Interface => ["path", escaped, "status", [status]]
  }

  const SEPARATORS := ":,:}"

  function RowText(status: char, escaped: string, printer: Printer): string {
    "{" + Strings(RowParts(status, escaped, printer), SEPARATORS)
  }

  function RenderRow(row: DiffEntry, printer: Printer): string {
    RowText(row.status.Token(), JsonEscape(row.path, printer), printer)
  }

  /** The rows after the opening bracket, the first of them preceded by `sep`. */
  function RenderRest(rows: seq<DiffEntry>, sep: string, printer: Printer): string {
    if rows == [] then "]" else sep + RenderRow(rows[0], printer) + RenderRest(rows[1..], ",", printer)
  }

  function RenderJson(rows: seq<DiffEntry>, printer: Printer): string {
    "[" + RenderRest(rows, "", printer)
  }

  // ----- parser -----

  /** Index of the next unescaped quote at or after `i`. */
  function ScanFrom(s: string, i: nat): (r: Option<nat>)
    ensures r.Some? ==> i <= r.value < |s| && s[r.value] == '"'
    decreases |s| - i
  {
    if i >= |s| then None
    else if s[i] == '\\' then ScanFrom(s, i + 2)
    else if s[i] == '"' then Some(i)
    else ScanFrom(s, i + 1)
  }

  /** The closing quote of the string opened at `open`. */
  function ScanJsonStringEnd(s: string, open: nat): Option<nat> {
    ScanFrom(s, open + 1)
  }

  function Unescaped(c: char): string {
    if c == '"' then "\""
    else if c == '\\' then "\\"
    else if c == '/' then "/"
    else if c == 'n' then "\n"
    else if c == 'r' then "\r"
    else if c == 't' then "\t"
    else if c == 'b' then "\U{0008}"
    else if c == 'f' then "\U{000C}"
    else ['\\', c]
  }

  function UnescapeJsonString(s: string): string {
    if s == "" then ""
    else if s[0] == '\\' && |s| > 1 then Unescaped(s[1]) + UnescapeJsonString(s[2..])
    else [s[0]] + UnescapeJsonString(s[1..])
  }

  function FindChar(s: string, c: char, from: nat): (r: Option<nat>)
    ensures r.Some? ==> from <= r.value < |s| && s[r.value] == c
    decreases |s| - from
  {
    if from >= |s| then None
    else if s[from] == c then Some(from)
    else FindChar(s, c, from + 1)
  }

  /** `text` stands in `s` at `i`. */
  predicate At(s: string, i: nat, text: string) {
    i + |text| <= |s| && s[i..i + |text|] == text
  }

  function Find(s: string, pattern: string, from: nat): (r: Option<nat>)
    ensures r.Some? ==> At(s, r.value, pattern)
    decreases |s| - from
  {
    if At(s, from, pattern) then Some(from)
    else if from >= |s| then None
    else Find(s, pattern, from + 1)
  }

  /** The brace closing the object, from position `i` at nesting `depth`; strings are skipped. */
  function CloseBrace(s: string, i: nat, depth: int): (r: Option<nat>)
    ensures r.Some? ==> i <= r.value < |s|
    decreases |s| - i
  {
    if i >= |s| then None
    else if s[i] == '\\' then CloseBrace(s, i + 2, depth)
    else if s[i] == '"' then
      match ScanJsonStringEnd(s, i)
      case None => None
      case Some(j) => CloseBrace(s, j + 1, depth)
    else if s[i] == '{' then CloseBrace(s, i + 1, depth + 1)
    else if s[i] == '}' then (if depth == 1 then Some(i) else CloseBrace(s, i + 1, depth - 1))
    else CloseBrace(s, i + 1, depth)
  }

  const STATUS_KEY := "\"status\":\""
  const PATH_KEY := "\"path\":\""

  function StatusChar(obj: string): char {
    CharBehind(obj, Find(obj, STATUS_KEY, 0))
  }

  /** The character behind a ten-character key. */
  function CharBehind(obj: string, key: Option<nat>): char {
    match key
    case Some(st) => if st + 10 < |obj| then obj[st + 10] else '\0'
    case None => '\0'
  }

  function PathText(obj: string): string {
    TextBehind(obj, Find(obj, PATH_KEY, 0))
  }

  /** The decoded string whose quote ends an eight-character key. */
  function TextBehind(obj: string, key: Option<nat>): string {
    match key
    case Some(pa) =>
      (match ScanJsonStringEnd(obj, pa + 7)
       case Some(end) => UnescapeJsonString(obj[pa + 8..end])
       case None => "")
    case None => ""
  }

  function StatusOf(c: char): Option<Status> {
    if c == 'A' then Some(Added)
    else if c == 'D' then Some(Deleted)
    else if c == 'M' then Some(Modified)
    else if c == '=' then Some(Unchanged)
    else None
  }

  /** The row an object gives, if it has a known status and a non-empty path. */
  function ParseObject(obj: string): seq<DiffEntry> {
    match StatusOf(StatusChar(obj))
    case Some(status) => if PathText(obj) != "" then [DiffEntry(status, PathText(obj))] else []
    case None => []
  }

  /** The rows of the objects from position `pos` on. */
  function ParseFrom(json: string, pos: nat): seq<DiffEntry>
    decreases |json| - pos, 1
  {
    ParseAt(json, pos, FindChar(json, '{', pos))
  }

  function ParseAt(json: string, pos: nat, open: Option<nat>): seq<DiffEntry>
    requires open.Some? ==> pos <= open.value < |json|
    decreases |json| - pos, 0
  {
    match open
    case None => []
    case Some(o) =>
      match CloseBrace(json, o, 0)
      case None => []
      case Some(close) => ParseObject(json[o..close + 1]) + ParseFrom(json, close + 1)
  }

  function ParseDiffJson(json: string): seq<DiffEntry> {
    ParseFrom(json, 0)
  }

  // ----- what the parser makes of an escaped path -----

  /** A control character without a short escape comes back as its six-character escape. */
  predicate Mangles(c: char, printer: Printer) {
    c as int < 0x20 && |EscapeChar(c, printer)| == 6
  }

  function Mangled(s: string, printer: Printer): string {
    if s == "" then ""
    else (if Mangles(s[0], printer) then EscapeChar(s[0], printer) else [s[0]]) + Mangled(s[1..], printer)
  }

  /** The characters each printer has no short escape for. */
  lemma ManglesMeaning(c: char)
    ensures Mangles(c, CommandLine) <==> c as int < 0x20 && c != '\n' && c != '\r' && c != '\t'
    ensures Mangles(c, Interface) <==>
              c as int < 0x20 && c != '\n' && c != '\r' && c != '\t' && c != '\U{0008}' && c != '\U{000C}'
  {
  }

  lemma {:induction false} UnescapeEscape(s: string, printer: Printer)
    ensures UnescapeJsonString(JsonEscape(s, printer)) == Mangled(s, printer)
  {
    if s != "" {
      UnescapeEscape(s[1..], printer);
      UnescapeOne(s[0], JsonEscape(s[1..], printer), printer);
    }
  }

  lemma UnescapeOne(c: char, rest: string, printer: Printer)
    ensures UnescapeJsonString(EscapeChar(c, printer) + rest)
            == (if Mangles(c, printer) then EscapeChar(c, printer) else [c]) + UnescapeJsonString(rest)
  {
    if Mangles(c, printer) {
      UnescapeControl(c, rest, printer);
    } else if |EscapeChar(c, printer)| == 2 {
      assert (EscapeChar(c, printer) + rest)[2..] == rest;
    } else {
      UnescapePlain(c, rest);
    }
  }

  /** The six-character escape passes through unread. */
  lemma UnescapeControl(c: char, rest: string, printer: Printer)
    requires Mangles(c, printer)
    ensures UnescapeJsonString(EscapeChar(c, printer) + rest) == EscapeChar(c, printer) + UnescapeJsonString(rest)
  {
    var h1, h2 := HexDigit(c as int / 16), HexDigit(c as int % 16);
    assert EscapeChar(c, printer) == ['\\', 'u', '0', '0', h1, h2];
    UnescapeSix(h1, h2, rest);
  }

  lemma UnescapeSix(h1: char, h2: char, rest: string)
    requires h1 != '\\' && h2 != '\\'
    ensures UnescapeJsonString(['\\', 'u', '0', '0', h1, h2] + rest) == ['\\', 'u', '0', '0', h1, h2] + UnescapeJsonString(rest)
  {
    var s, d2 := ['\\', 'u', '0', '0', h1, h2] + rest, [h2] + rest;
    var d1 := [h1] + d2;
    assert s[2..] == ['0'] + (['0'] + d1);
    UnescapePlain('0', ['0'] + d1);
    UnescapePlain('0', d1);
    UnescapePlain(h1, d2);
    UnescapePlain(h2, rest);
    assert UnescapeJsonString(s) == ['\\', 'u'] + UnescapeJsonString(s[2..]);
  }

  lemma UnescapePlain(c: char, rest: string)
    requires c != '\\'
    ensures UnescapeJsonString([c] + rest) == [c] + UnescapeJsonString(rest)
  {
    assert ([c] + rest)[1..] == rest;
  }

  lemma {:induction false} MangledLength(s: string, printer: Printer)
    ensures |Mangled(s, printer)| >= |s|
    ensures Mangled(s, printer) == s <==> forall c :: c in s ==> !Mangles(c, printer)
  {
    if s != "" {
      MangledLength(s[1..], printer);
      assert s == [s[0]] + s[1..];
      if Mangles(s[0], printer) {
        assert |Mangled(s, printer)| > |s|;
        assert s[0] in s;
      }
    }
  }

  // ----- finding the pieces of a printed row -----

  lemma AtParts(json: string, i: nat, a: string, b: string)
    requires At(json, i, a + b)
    ensures At(json, i, a) && At(json, i + |a|, b)
  {
    assert json[i..i + |a|] == (a + b)[..|a|];
    assert json[i + |a|..i + |a| + |b|] == (a + b)[|a|..];
  }

  lemma AtChar(json: string, i: nat, text: string, k: nat)
    requires At(json, i, text) && k < |text|
    ensures i + k < |json| && json[i + k] == text[k]
  {
    assert json[i..i + |text|][k] == text[k];
  }

  /** Splits off the first escape and scans over it. */
  lemma ScanFirstEscape(json: string, i: nat, s: string, printer: Printer) returns (n: nat)
    requires s != "" && At(json, i, JsonEscape(s, printer) + "\"")
    ensures |JsonEscape(s, printer)| == n + |JsonEscape(s[1..], printer)|
    ensures At(json, i + n, JsonEscape(s[1..], printer) + "\"") && ScanFrom(json, i) == ScanFrom(json, i + n)
  {
    n := |EscapeChar(s[0], printer)|;
    EscapeParts(s, printer);
    ScanHead(json, i, s[0], JsonEscape(s[1..], printer) + "\"", printer);
  }

  lemma EscapeParts(s: string, printer: Printer)
    requires s != ""
    ensures JsonEscape(s, printer) + "\"" == EscapeChar(s[0], printer) + (JsonEscape(s[1..], printer) + "\"")
    ensures |JsonEscape(s, printer)| == |EscapeChar(s[0], printer)| + |JsonEscape(s[1..], printer)|
  {
  }

  lemma ScanHead(json: string, i: nat, c: char, rest: string, printer: Printer)
    requires At(json, i, EscapeChar(c, printer) + rest) && rest != ""
    ensures At(json, i + |EscapeChar(c, printer)|, rest)
    ensures ScanFrom(json, i) == ScanFrom(json, i + |EscapeChar(c, printer)|)
  {
    AtParts(json, i, EscapeChar(c, printer), rest);
    ScanOneEscape(json, i, c, printer);
  }

  lemma {:induction false} ScanEscaped(json: string, i: nat, s: string, printer: Printer)
    requires At(json, i, JsonEscape(s, printer) + "\"")
    ensures ScanFrom(json, i) == Some(i + |JsonEscape(s, printer)|)
    decreases |s|
  {
    if s == "" {
      AtChar(json, i, "\"", 0);
    } else {
      var n := ScanFirstEscape(json, i, s, printer);
      ScanEscaped(json, i + n, s[1..], printer);
    }
  }

  lemma ScanOneEscape(json: string, i: nat, c: char, printer: Printer)
    requires At(json, i, EscapeChar(c, printer)) && i + |EscapeChar(c, printer)| < |json|
    ensures ScanFrom(json, i) == ScanFrom(json, i + |EscapeChar(c, printer)|)
  {
    var e := EscapeChar(c, printer);
    AtChar(json, i, e, 0);
    if Mangles(c, printer) {
      AtChar(json, i, e, 2);
      AtChar(json, i, e, 3);
      AtChar(json, i, e, 4);
      AtChar(json, i, e, 5);
      assert ScanFrom(json, i) == ScanFrom(json, i + 2) == ScanFrom(json, i + 3) == ScanFrom(json, i + 4);
      assert ScanFrom(json, i + 4) == ScanFrom(json, i + 5) == ScanFrom(json, i + 6);
    }
  }

  lemma {:induction false} ScanPlain(json: string, i: nat, text: string)
    requires At(json, i, text + "\"") && forall c :: c in text ==> c != '"' && c != '\\'
    ensures ScanFrom(json, i) == Some(i + |text|)
    decreases |text|
  {
    AtChar(json, i, text + "\"", 0);
    if text != "" {
      assert text + "\"" == [text[0]] + (text[1..] + "\"");
      AtParts(json, i, [text[0]], text[1..] + "\"");
      assert text[0] in text && forall c :: c in text[1..] ==> c in text;
      ScanPlain(json, i + 1, text[1..]);
    }
  }

  /** Wherever `text` stands before a quote, that quote is the next unescaped one. */
  ghost predicate Quotable(text: string) {
    forall json: string, i: nat :: At(json, i, text + "\"") ==> ScanFrom(json, i) == Some(i + |text|)
  }

  lemma PlainIsQuotable(text: string)
    requires forall c :: c in text ==> c != '"' && c != '\\'
    ensures Quotable(text)
  {
    forall json: string, i: nat | At(json, i, text + "\"") ensures ScanFrom(json, i) == Some(i + |text|) { ScanPlain(json, i, text); }
  }

  lemma EscapedIsQuotable(s: string, printer: Printer)
    ensures Quotable(JsonEscape(s, printer))
  {
    forall json: string, i: nat | At(json, i, JsonEscape(s, printer) + "\"")
      ensures ScanFrom(json, i) == Some(i + |JsonEscape(s, printer)|)
    {
      ScanEscaped(json, i, s, printer);
    }
  }

  // ----- an object of two string members -----

  /** A quoted string, the separator behind it, and the rest. */
  lemma NextString(json: string, i: nat, text: string, sep: char, rest: string)
    requires At(json, i, "\"" + text + "\"" + [sep] + rest)
    ensures i + |text| + 3 + |rest| <= |json| && json[i] == '"' && json[i + 2 + |text|] == sep
    ensures At(json, i + 1, text + "\"") && At(json, i + 3 + |text|, rest)
  {
    var body, tail := text + "\"", [sep] + rest;
    assert "\"" + text + "\"" + [sep] + rest == "\"" + (body + tail);
    AtParts(json, i, "\"", body + tail);
    AtParts(json, i + 1, body, tail);
    AtParts(json, i + 2 + |text|, [sep], rest);
    AtChar(json, i, "\"", 0);
    AtChar(json, i + 2 + |text|, [sep], 0);
  }

  /** Offset of the `k`-th string's first character. */
  function Offset(parts: seq<string>, k: nat): nat
    requires k < |parts|
  {
    if k == 0 then 1 else |parts[0]| + 3 + Offset(parts[1..], k - 1)
  }

  /** Separators that keep the nesting, and a closing brace at the end. */
  predicate OneObject(seps: string) {
    seps != "" && seps[|seps| - 1] == '}' && forall i :: 0 <= i < |seps| - 1 ==> seps[i] == ':' || seps[i] == ','
  }

  /** The brace search passes over all strings to the closing brace. */
  lemma {:induction false} StringsClose(json: string, i: nat, parts: seq<string>, seps: string)
    requires |parts| == |seps| && At(json, i, Strings(parts, seps)) && OneObject(seps)
    requires forall p :: p in parts ==> Quotable(p)
    ensures |Strings(parts, seps)| > 0 && CloseBrace(json, i, 1) == Some(i + |Strings(parts, seps)| - 1)
    decreases |parts|
  {
    assert parts[0] in parts;
    if |parts| == 1 {
      StringsLength(parts, seps);
      ClosingString(json, i, parts[0], Strings(parts[1..], seps[1..]));
    } else {
      FirstOfStrings(json, i, parts, seps);
      StringsClose(json, i + 3 + |parts[0]|, parts[1..], seps[1..]);
    }
  }

  /** The brace search passes the first of several strings. */
  lemma FirstOfStrings(json: string, i: nat, parts: seq<string>, seps: string)
    requires |parts| == |seps| > 1 && At(json, i, Strings(parts, seps)) && OneObject(seps) && Quotable(parts[0])
    ensures |Strings(parts, seps)| == |parts[0]| + 3 + |Strings(parts[1..], seps[1..])| && OneObject(seps[1..])
    ensures At(json, i + 3 + |parts[0]|, Strings(parts[1..], seps[1..]))
    ensures CloseBrace(json, i, 1) == CloseBrace(json, i + 3 + |parts[0]|, 1)
  {
    StringsLength(parts, seps);
    InnerString(json, i, parts[0], seps[0], Strings(parts[1..], seps[1..]));
  }

  lemma ClosingString(json: string, i: nat, text: string, rest: string)
    requires At(json, i, "\"" + text + "\"" + ['}'] + rest) && Quotable(text)
    ensures CloseBrace(json, i, 1) == Some(i + 2 + |text|)
  {
    PassString(json, i, text, '}', rest);
  }

  lemma InnerString(json: string, i: nat, text: string, sep: char, rest: string)
    requires At(json, i, "\"" + text + "\"" + [sep] + rest) && Quotable(text) && (sep == ':' || sep == ',')
    ensures At(json, i + 3 + |text|, rest) && CloseBrace(json, i, 1) == CloseBrace(json, i + 3 + |text|, 1)
  {
    PassString(json, i, text, sep, rest);
    SkipChar(json, i + 2 + |text|);
  }

  lemma StringsLength(parts: seq<string>, seps: string)
    requires |parts| == |seps| > 0
    ensures |Strings(parts, seps)| == |parts[0]| + 3 + |Strings(parts[1..], seps[1..])|
    ensures |parts| == 1 ==> Strings(parts[1..], seps[1..]) == ""
  {
  }

  lemma PassString(json: string, i: nat, text: string, sep: char, rest: string)
    requires At(json, i, "\"" + text + "\"" + [sep] + rest) && Quotable(text)
    ensures i + |text| + 3 + |rest| <= |json| && json[i + 2 + |text|] == sep && At(json, i + 3 + |text|, rest)
    ensures CloseBrace(json, i, 1) == CloseBrace(json, i + 2 + |text|, 1)
  {
    NextString(json, i, text, sep, rest);
    SkipString(json, i, i + 1 + |text|);
  }

  /** Every string stands at its offset, with its quote. */
  lemma {:induction false} StringAt(json: string, i: nat, parts: seq<string>, seps: string, k: nat)
    requires k < |parts| == |seps| && At(json, i, Strings(parts, seps))
    ensures At(json, i + Offset(parts, k), parts[k] + "\"")
    decreases k
  {
    NextString(json, i, parts[0], seps[0], Strings(parts[1..], seps[1..]));
    if k > 0 { StringAt(json, i + 3 + |parts[0]|, parts[1..], seps[1..], k - 1); }
  }

  /** The brace search stops at the row's own closing brace, whatever the path holds. */
  lemma CloseOfRow(json: string, o: nat, status: char, path: string, printer: Printer)
    requires At(json, o, RowText(status, JsonEscape(path, printer), printer)) && status != '"' && status != '\\'
    ensures CloseBrace(json, o, 0) == Some(o + |RowText(status, JsonEscape(path, printer), printer)| - 1)
  {
    var parts := RowParts(status, JsonEscape(path, printer), printer);
    RowIsQuotable(status, path, printer);
    OpenObject(json, o, Strings(parts, SEPARATORS));
    StringsClose(json, o + 1, parts, SEPARATORS);
  }

  lemma OpenObject(json: string, o: nat, rest: string)
    requires At(json, o, "{" + rest)
    ensures At(json, o + 1, rest) && CloseBrace(json, o, 0) == CloseBrace(json, o + 1, 1)
  {
    AtParts(json, o, "{", rest);
    AtChar(json, o, "{", 0);
  }

  lemma RowIsQuotable(status: char, path: string, printer: Printer)
    requires status != '"' && status != '\\'
    ensures forall p :: p in RowParts(status, JsonEscape(path, printer), printer) ==> Quotable(p)
  {
    PlainIsQuotable("status");
    PlainIsQuotable("path");
    PlainIsQuotable([status]);
    EscapedIsQuotable(path, printer);
  }

  lemma SkipChar(json: string, i: nat)
    requires i < |json| && (json[i] == ':' || json[i] == ',')
    ensures CloseBrace(json, i, 1) == CloseBrace(json, i + 1, 1)
  {
  }

  lemma SkipString(json: string, i: nat, end: nat)
    requires i < |json| && json[i] == '"' && ScanFrom(json, i + 1) == Some(end)
    ensures CloseBrace(json, i, 1) == CloseBrace(json, end + 1, 1)
  {
  }

  /** The first match is at `at` when no earlier position matches. */
  lemma {:induction false} FindFirst(s: string, pattern: string, from: nat, at: nat)
    requires from <= at && At(s, at, pattern) && pattern != ""
    requires forall k :: from <= k < at ==> !At(s, k, pattern)
    ensures Find(s, pattern, from) == Some(at)
    decreases at - from
  {
    if from < at { FindFirst(s, pattern, from + 1, at); }
  }

  lemma NoMatch(s: string, pattern: string, k: nat, j: nat)
    requires j < |pattern| && (k + j < |s| ==> s[k + j] != pattern[j])
    ensures !At(s, k, pattern)
  {
    assert k + |pattern| <= |s| ==> s[k..k + |pattern|][j] == s[k + j];
  }

  /** Where the two values of a row stand. */
  function PathPart(printer: Printer): nat { if printer == CommandLine then 3 else 1 }

  function PathAt(status: char, escaped: string, printer: Printer): nat {
    1 + Offset(RowParts(status, escaped, printer), PathPart(printer))
  }

  lemma PathAtIs(status: char, escaped: string, printer: Printer)
    ensures PathAt(status, escaped, printer) == if printer == CommandLine then 22 else 9
  {
    var parts := RowParts(status, escaped, printer);
    assert Offset(parts, 1) == |parts[0]| + 3 + Offset(parts[1..], 0);
    if printer == CommandLine {
      assert Offset(parts, 3) == |parts[0]| + 3 + Offset(parts[1..], 2);
      assert Offset(parts[1..], 2) == |parts[1]| + 3 + Offset(parts[2..], 1);
      assert Offset(parts[2..], 1) == |parts[2]| + 3 + 1;
    }
  }

  lemma RowStatus(status: char, path: string, printer: Printer)
    requires status != '"' && status != 'p'
    ensures StatusChar(RowText(status, JsonEscape(path, printer), printer)) == status
  {
    var escaped := JsonEscape(path, printer);
    var obj := RowText(status, escaped, printer);
    match printer
    case CommandLine =>
      KeysInRow(obj, status, escaped);
      KeyedStatus(obj, 1);
    case Interface =>
      KeysInSortedRow(obj, status, path);
      KeyedStatus(obj, 11 + |escaped|);
  }

  lemma PathInRow(status: char, escaped: string, printer: Printer)
    ensures At(RowText(status, escaped, printer), if printer == CommandLine then 22 else 9, escaped + "\"")
  {
    var obj, parts := RowText(status, escaped, printer), RowParts(status, escaped, printer);
    PathAtIs(status, escaped, printer);
    AtParts(obj, 0, "{", Strings(parts, SEPARATORS));
    StringAt(obj, 1, parts, SEPARATORS, PathPart(printer));
  }

  /** The path's value stands behind its key, and ends where it should. */
  lemma PathStands(status: char, path: string, printer: Printer)
    ensures var escaped := JsonEscape(path, printer);
            var obj, at := RowText(status, escaped, printer), if printer == CommandLine then 22 else 9;
            && at + |escaped| <= |obj| && obj[at..at + |escaped|] == escaped
            && ScanFrom(obj, at) == Some(at + |escaped|)
  {
    var escaped := JsonEscape(path, printer);
    PathInRow(status, escaped, printer);
    QuotedStands(RowText(status, escaped, printer), if printer == CommandLine then 22 else 9, path, printer);
  }

  lemma QuotedStands(obj: string, at: nat, path: string, printer: Printer)
    requires At(obj, at, JsonEscape(path, printer) + "\"")
    ensures var escaped := JsonEscape(path, printer);
            && at + |escaped| <= |obj| && obj[at..at + |escaped|] == escaped
            && ScanFrom(obj, at) == Some(at + |escaped|)
  {
    ScanEscaped(obj, at, path, printer);
    AtParts(obj, at, JsonEscape(path, printer), "\"");
  }

  lemma RowPath(status: char, path: string, printer: Printer)
    requires status != '"' && status != 'p' && status != '\\'
    ensures PathText(RowText(status, JsonEscape(path, printer), printer)) == Mangled(path, printer)
  {
    var pa: nat := if printer == CommandLine then 14 else 1;
    UnescapeEscape(path, printer);
    PathStands(status, path, printer);
    PathKeyStands(status, path, printer);
    KeyedPath(RowText(status, JsonEscape(path, printer), printer), pa, pa + 8 + |JsonEscape(path, printer)|);
  }

  lemma PathKeyStands(status: char, path: string, printer: Printer)
    requires status != '"' && status != 'p'
    ensures Find(RowText(status, JsonEscape(path, printer), printer), PATH_KEY, 0)
            == Some(if printer == CommandLine then 14 else 1)
  {
    var escaped := JsonEscape(path, printer);
    match printer
    case CommandLine => KeysInRow(RowText(status, escaped, printer), status, escaped);
    case Interface => KeysInSortedRow(RowText(status, escaped, printer), status, path);
  }

  lemma KeyedStatus(obj: string, st: nat)
    requires Find(obj, STATUS_KEY, 0) == Some(st) && st + 10 < |obj|
    ensures StatusChar(obj) == obj[st + 10]
  {
  }

  lemma KeyedPath(obj: string, pa: nat, end: nat)
    requires Find(obj, PATH_KEY, 0) == Some(pa) && ScanFrom(obj, pa + 8) == Some(end)
    ensures PathText(obj) == UnescapeJsonString(obj[pa + 8..end])
  {
    assert ScanJsonStringEnd(obj, pa + 7) == Some(end);
  }

  lemma ParseRow(status: Status, path: string, printer: Printer)
    ensures ParseObject(RowText(status.Token(), JsonEscape(path, printer), printer))
            == if path == "" then [] else [DiffEntry(status, Mangled(path, printer))]
  {
    RowStatus(status.Token(), path, printer);
    RowPath(status.Token(), path, printer);
    MangledLength(path, printer);
    ObjectRow(RowText(status.Token(), JsonEscape(path, printer), printer), status, Mangled(path, printer));
  }

  lemma ObjectRow(obj: string, status: Status, path: string)
    requires StatusChar(obj) == status.Token() && PathText(obj) == path
    ensures ParseObject(obj) == if path == "" then [] else [DiffEntry(status, path)]
  {
    assert StatusOf(status.Token()) == Some(status);
  }

  lemma StatusFirst(c: char, escaped: string)
    ensures RowText(c, escaped, CommandLine) == "{\"status\":\"" + [c] + "\",\"path\":\"" + (escaped + "\"}")
  {
    FourStrings("status", [c], "path", escaped);
  }

  lemma PathFirst(c: char, escaped: string)
    ensures RowText(c, escaped, Interface) == "{\"path\":\"" + (escaped + ("\",\"status\":\"" + [c] + "\"}"))
  {
    FourStrings("path", escaped, "status", [c]);
  }

  lemma FourStrings(a: string, b: string, c: string, d: string)
    ensures Strings([a, b, c, d], SEPARATORS)
            == "\"" + a + "\":" + ("\"" + b + "\"," + ("\"" + c + "\":" + ("\"" + d + "\"}")))
  {
    var parts := [a, b, c, d];
    assert parts[1..] == [b, c, d] && parts[1..][1..] == [c, d] && parts[1..][1..][1..] == [d];
    assert SEPARATORS[1..] == ",:}" && SEPARATORS[1..][1..] == ":}" && SEPARATORS[1..][1..][1..] == "}";
    assert Strings([d], "}") == "\"" + d + "\"}";
    assert Strings([c, d], ":}") == "\"" + c + "\":" + Strings([d], "}");
    assert Strings([b, c, d], ",:}") == "\"" + b + "\"," + Strings([c, d], ":}");
  }

  lemma KeysInRow(obj: string, c: char, escaped: string)
    requires obj == RowText(c, escaped, CommandLine) && c != '"' && c != 'p'
    ensures |obj| > 22 && obj[11] == c && Find(obj, STATUS_KEY, 0) == Some(1) && Find(obj, PATH_KEY, 0) == Some(14)
  {
    StatusFirst(c, escaped);
    KeysBehindHeader(obj, c, escaped + "\"}");
  }

  lemma KeysBehindHeader(obj: string, c: char, rest: string)
    requires obj == "{\"status\":\"" + [c] + "\",\"path\":\"" + rest && c != '"' && c != 'p' && rest != ""
    ensures |obj| > 22 && obj[11] == c && Find(obj, STATUS_KEY, 0) == Some(1) && Find(obj, PATH_KEY, 0) == Some(14)
  {
    var header := "{\"status\":\"" + [c] + "\",\"path\":\"";
    HeaderKeys(header, c);
    assert obj[..22] == header && forall k :: 0 <= k < 22 ==> obj[k] == header[k];
    assert obj[1..11] == header[1..11] && obj[14..22] == header[14..22];
    NoMatch(obj, STATUS_KEY, 0, 0);
    FindFirst(obj, STATUS_KEY, 0, 1);
    forall k | 0 <= k < 14 ensures !At(obj, k, PATH_KEY) {
      NoMatch(obj, PATH_KEY, k, if k == 1 || k == 8 || k == 10 || k == 12 then 1 else 0);
    }
    FindFirst(obj, PATH_KEY, 0, 14);
  }

  lemma HeaderKeys(header: string, c: char)
    requires header == "{\"status\":\"" + [c] + "\",\"path\":\"" && c != '"' && c != 'p'
    ensures |header| == 22 && header[0] == '{' && header[1..11] == STATUS_KEY && header[11] == c && header[14..22] == PATH_KEY
    ensures forall k :: 0 <= k < 14 ==> header[k] != '"' || header[k + 1] != 'p'
    ensures forall k :: 0 <= k < 14 && !(k == 1 || k == 8 || k == 10 || k == 12) ==> header[k] != '"'
  {
  }

  /** Every quote of an escaped text is escaped. */
  ghost predicate QuotesEscaped(text: string) {
    forall i :: 0 <= i < |text| && text[i] == '"' ==> i > 0 && text[i - 1] == '\\'
  }

  lemma QuoteInEscape(c: char, printer: Printer)
    ensures QuotesEscaped(EscapeChar(c, printer))
  {
    var e := EscapeChar(c, printer);
    assert |e| == 6 ==> e[4] != '"' && e[5] != '"';
  }

  lemma QuotesInConcat(a: string, b: string)
    requires QuotesEscaped(a) && QuotesEscaped(b)
    ensures QuotesEscaped(a + b)
  {
    forall i | 0 <= i < |a + b| && (a + b)[i] == '"' ensures i > 0 && (a + b)[i - 1] == '\\' {
      if i >= |a| { assert b[i - |a|] == '"'; }
    }
  }

  lemma {:induction false} QuotesInEscaped(s: string, printer: Printer)
    ensures QuotesEscaped(JsonEscape(s, printer))
  {
    if s != "" {
      QuoteInEscape(s[0], printer);
      QuotesInEscaped(s[1..], printer);
      QuotesInConcat(EscapeChar(s[0], printer), JsonEscape(s[1..], printer));
    }
  }

  /** The characters of a row that has its path first. */
  lemma SortedRowChars(obj: string, c: char, escaped: string)
    requires obj == RowText(c, escaped, Interface)
    ensures |obj| == 24 + |escaped| && obj[0] == '{' && obj[1..9] == PATH_KEY
    ensures obj[9..9 + |escaped|] == escaped && obj[9 + |escaped|..11 + |escaped|] == "\","
    ensures obj[11 + |escaped|..21 + |escaped|] == STATUS_KEY && obj[21 + |escaped|] == c
  {
    var head, tail := "{\"path\":\"", "\",\"status\":\"" + [c] + "\"}";
    PathFirst(c, escaped);
    Pieces(obj, head, escaped, tail);
    HeadAndTail(obj, c, 9 + |escaped|);
  }

  lemma HeadAndTail(obj: string, c: char, end: nat)
    requires 9 <= end <= |obj| && obj[..9] == "{\"path\":\"" && obj[end..] == "\",\"status\":\"" + [c] + "\"}"
    ensures |obj| == end + 15 && obj[0] == '{' && obj[1..9] == PATH_KEY
    ensures obj[end..end + 2] == "\"," && obj[end + 2..end + 12] == STATUS_KEY && obj[end + 12] == c
  {
    var tail := obj[end..];
    assert |tail| == 15 && tail[12] == c;
    assert obj[1..9] == obj[..9][1..9] && obj[0] == obj[..9][0] && obj[end + 12] == tail[12];
    assert obj[end..end + 2] == tail[..2] && obj[end + 2..end + 12] == tail[2..12];
    assert tail == "\"," + (STATUS_KEY + ([c] + "\"}"));
    assert tail[..2] == "\"," && tail[2..12] == STATUS_KEY;
  }

  lemma Pieces(obj: string, head: string, mid: string, tail: string)
    requires obj == head + (mid + tail)
    ensures obj[..|head|] == head && obj[|head|..|head| + |mid|] == mid && obj[|head| + |mid|..] == tail
  {
  }

  /**
   With the path first, the status key is still found where it belongs: every quote in an escaped path is
   escaped, so no path can hold the key's text.
  */
  lemma KeysInSortedRow(obj: string, c: char, path: string)
    requires obj == RowText(c, JsonEscape(path, Interface), Interface)
    ensures |obj| == 24 + |JsonEscape(path, Interface)| && obj[21 + |JsonEscape(path, Interface)|] == c
    ensures Find(obj, STATUS_KEY, 0) == Some(11 + |JsonEscape(path, Interface)|) && Find(obj, PATH_KEY, 0) == Some(1)
  {
    var escaped := JsonEscape(path, Interface);
    var n := |escaped|;
    SortedRowChars(obj, c, escaped);
    NoMatch(obj, PATH_KEY, 0, 0);
    FindFirst(obj, PATH_KEY, 0, 1);
    QuotesInEscaped(path, Interface);
    forall k | 0 <= k < 11 + n ensures !At(obj, k, STATUS_KEY) { NoStatusKey(obj, escaped, k); }
    FindFirst(obj, STATUS_KEY, 0, 11 + n);
  }

  lemma NoStatusKey(obj: string, escaped: string, k: nat)
    requires QuotesEscaped(escaped) && 24 + |escaped| == |obj| && k < 11 + |escaped|
    requires obj[0] == '{' && obj[1..9] == PATH_KEY
    requires obj[9..9 + |escaped|] == escaped && obj[9 + |escaped|..11 + |escaped|] == "\","
    ensures !At(obj, k, STATUS_KEY)
  {
    var end := 9 + |escaped|;
    assert obj[end] == obj[end..end + 2][0] == '"' && obj[end + 1] == obj[end..end + 2][1] == ',';
    if k < 9 { assert k > 0 ==> obj[k] == obj[1..9][k - 1]; }
    if k < 8 {
      assert obj[k + 1] == obj[1..9][k];
      NoMatch(obj, STATUS_KEY, k, if k == 1 || k == 6 then 1 else 0);
    } else if k >= end {
      NoMatch(obj, STATUS_KEY, k, if k == end then 1 else 0);
    } else if end <= k + 7 {
      NoMatch(obj, STATUS_KEY, k, if end == k + 7 then 8 else end - k);
    } else {
      var i := k + 7 - 9;
      assert obj[k + 7] == obj[9..end][i] == escaped[i];
      assert i > 0 ==> obj[k + 6] == obj[9..end][i - 1] == escaped[i - 1];
      NoMatch(obj, STATUS_KEY, k, if obj[k + 7] == '"' then 6 else 7);
    }
  }

  /** What comes back of a list of rows. */
  function Received(rows: seq<DiffEntry>, printer: Printer): seq<DiffEntry> {
    if rows == [] then []
    else (if rows[0].path == "" then [] else [DiffEntry(rows[0].status, Mangled(rows[0].path, printer))]) + Received(rows[1..], printer)
  }

  lemma ParseStep(json: string, pos: nat, o: nat, obj: string)
    requires FindChar(json, '{', pos) == Some(o) && At(json, o, obj)
    requires obj != "" && CloseBrace(json, o, 0) == Some(o + |obj| - 1)
    ensures ParseFrom(json, pos) == ParseObject(obj) + ParseFrom(json, o + |obj|)
  {
    assert json[o..o + |obj| - 1 + 1] == obj;
  }

  lemma ParseRowText(row: DiffEntry, printer: Printer)
    ensures ParseObject(RenderRow(row, printer)) == Received([row], printer)
  {
    ParseRow(row.status, row.path, printer);
    ReceivedOne(row, printer);
  }

  /** Wherever `text` stands, the brace search from its start ends at its end. */
  ghost predicate ClosesItself(text: string) {
    text != "" && forall json, o: nat :: At(json, o, text) ==> CloseBrace(json, o, 0) == Some(o + |text| - 1)
  }

  lemma RowCloses(row: DiffEntry, printer: Printer)
    ensures ClosesItself(RenderRow(row, printer))
  {
    var text := RenderRow(row, printer);
    forall json, o: nat | At(json, o, text) ensures CloseBrace(json, o, 0) == Some(o + |text| - 1) {
      CloseOfRow(json, o, row.status.Token(), row.path, printer);
    }
  }

  /** Wherever `text` stands as the next object, the parser takes it as `got` and goes on behind it. */
  ghost predicate ReadsAs(text: string, got: seq<DiffEntry>) {
    forall json: string, pos: nat, o: nat :: At(json, o, text) && FindChar(json, '{', pos) == Some(o)
      ==> ParseFrom(json, pos) == got + ParseFrom(json, o + |text|)
  }

  lemma ObjectReads(text: string)
    requires ClosesItself(text)
    ensures ReadsAs(text, ParseObject(text))
  {
    forall json: string, pos: nat, o: nat | At(json, o, text) && FindChar(json, '{', pos) == Some(o)
      ensures ParseFrom(json, pos) == ParseObject(text) + ParseFrom(json, o + |text|)
    {
      ParseStep(json, pos, o, text);
    }
  }

  lemma ReceivedOne(row: DiffEntry, printer: Printer)
    ensures Received([row], printer) == if row.path == "" then [] else [DiffEntry(row.status, Mangled(row.path, printer))]
  {
    assert [row][1..] == [];
  }

  lemma RestParts(rows: seq<DiffEntry>, sep: string, printer: Printer) returns (text: string, rest: string, got: seq<DiffEntry>)
    requires rows != []
    ensures RenderRest(rows, sep, printer) == sep + text + rest && rest == RenderRest(rows[1..], ",", printer)
    ensures text != "" && text[0] == '{' && ReadsAs(text, got)
    ensures Received(rows, printer) == got + Received(rows[1..], printer)
  {
    text, rest, got := RenderRow(rows[0], printer), RenderRest(rows[1..], ",", printer), Received([rows[0]], printer);
    RowCloses(rows[0], printer);
    ObjectReads(text);
    ParseRowText(rows[0], printer);
    ReceivedOne(rows[0], printer);
  }

  lemma {:induction false} ParseRest(json: string, pos: nat, rows: seq<DiffEntry>, sep: string, printer: Printer)
    requires pos <= |json| && json[pos..] == RenderRest(rows, sep, printer)
    requires sep == "" || sep == ","
    ensures ParseFrom(json, pos) == Received(rows, printer)
    decreases |rows|
  {
    if rows == [] {
      NothingLeft(json, pos);
    } else {
      var text, rest, got := RestParts(rows, sep, printer);
      RowStands(json, pos, sep, text, rest);
      ParseRest(json, pos + |sep| + |text|, rows[1..], ",", printer);
    }
  }

  lemma NothingLeft(json: string, pos: nat)
    requires pos <= |json| && json[pos..] == "]"
    ensures ParseFrom(json, pos) == []
  {
    assert json[pos] == json[pos..][0] && |json| == pos + 1;
    assert FindChar(json, '{', pos) == FindChar(json, '{', pos + 1) == None;
  }

  lemma RowStands(json: string, pos: nat, sep: string, text: string, rest: string)
    requires pos <= |json| && json[pos..] == sep + text + rest
    requires (sep == "" || sep == ",") && text != "" && text[0] == '{'
    ensures var o := pos + |sep|;
            && At(json, o, text) && FindChar(json, '{', pos) == Some(o)
            && o + |text| <= |json| && json[o + |text|..] == rest
  {
    var o := pos + |sep|;
    assert json[pos..] == sep + (text + rest);
    assert json[o..] == json[pos..][|sep|..] == text + rest;
    assert json[o..o + |text|] == json[o..][..|text|];
    assert json[o + |text|..] == json[o..][|text|..];
    assert json[o] == json[o..][0];
    if sep == "," { assert json[pos] == json[pos..][0]; }
  }

  /** Everything the parser makes of printed rows, for any rows whatever. */
  lemma ParseOfRender(rows: seq<DiffEntry>, printer: Printer)
    ensures ParseDiffJson(RenderJson(rows, printer)) == Received(rows, printer)
  {
    var json := RenderJson(rows, printer);
    SkipBracket(json);
    assert json[1..] == RenderRest(rows, "", printer);
    ParseRest(json, 1, rows, "", printer);
  }

  lemma SkipBracket(json: string)
    requires json != "" && json[0] == '['
    ensures ParseFrom(json, 0) == ParseFrom(json, 1)
  {
    assert FindChar(json, '{', 0) == FindChar(json, '{', 1);
  }

  /** Non-empty, and every control character in it has a short escape. */
  predicate Faithful(path: string, printer: Printer) {
    path != "" && forall c :: c in path ==> !Mangles(c, printer)
  }

  lemma {:induction false} ReceivedExactly(rows: seq<DiffEntry>, printer: Printer)
    ensures |Received(rows, printer)| <= |rows|
    ensures Received(rows, printer) == rows <==> forall r :: r in rows ==> Faithful(r.path, printer)
  {
    if rows != [] {
      ReceivedExactly(rows[1..], printer);
      MangledLength(rows[0].path, printer);
      assert rows == [rows[0]] + rows[1..];
      var head, tail := rows[0], Received(rows[1..], printer);
      if head.path == "" {
        assert |Received(rows, printer)| < |rows|;
        assert head in rows;
      } else {
        assert Received(rows, printer)[0] == DiffEntry(head.status, Mangled(head.path, printer));
        assert Received(rows, printer)[1..] == tail;
        assert head in rows;
      }
    }
  }

  /**
   For either printer, the round trip gives back the same rows exactly when no path is empty and no path holds a
   control character without a short escape: `ManglesMeaning` lists them.
  */
  lemma JsonRoundTrip(rows: seq<DiffEntry>, printer: Printer)
    ensures ParseDiffJson(RenderJson(rows, printer)) == rows <==> forall r :: r in rows ==> Faithful(r.path, printer)
  {
    ParseOfRender(rows, printer);
    ReceivedExactly(rows, printer);
  }

  /** Two failures: a path of one control character comes back as six characters, and an empty path not at all. */
  lemma RoundTripFails(status: Status, printer: Printer)
    ensures ParseDiffJson(RenderJson([DiffEntry(status, [1 as char])], printer)) == [DiffEntry(status, EscapeChar(1 as char, printer))]
    ensures |EscapeChar(1 as char, printer)| == 6
    ensures ParseDiffJson(RenderJson([DiffEntry(status, "")], printer)) == []
  {
    ParseOfRender([DiffEntry(status, [1 as char])], printer);
    ParseOfRender([DiffEntry(status, "")], printer);
    ReceivedOne(DiffEntry(status, [1 as char]), printer);
    ReceivedOne(DiffEntry(status, ""), printer);
    MangledControl(printer);
  }

  lemma MangledControl(printer: Printer)
    ensures Mangled([1 as char], printer) == EscapeChar(1 as char, printer) && |EscapeChar(1 as char, printer)| == 6
  {
    assert [1 as char][1..] == [] && Mangled([], printer) == "";
    assert EscapeChar(1 as char, printer) + "" == EscapeChar(1 as char, printer);
  }

  // ----- the printers against the standard -----

  function HexValue(c: char): Option<nat> {
    if '0' <= c <= '9' then Some(c as int - '0' as int)
    else if 'a' <= c <= 'f' then Some(c as int - 'a' as int + 10)
    else if 'A' <= c <= 'F' then Some(c as int - 'A' as int + 10)
    else None
  }

  /** What a two-character escape stands for in section 7 of RFC 8259. */
  function StandardEscape(c: char): Option<char> {
    if c == '"' || c == '\\' || c == '/' then Some(c)
    else if c == 'b' then Some('\U{0008}')
    else if c == 'f' then Some('\U{000C}')
    else if c == 'n' then Some('\n')
    else if c == 'r' then Some('\r')
    else if c == 't' then Some('\t')
    else None
  }

  /** The character of `\u00XX`. */
  function StandardUnicode(s: string): Option<char>
    requires |s| >= 6
  {
    if s[2] == '0' && s[3] == '0' && HexValue(s[4]).Some? && HexValue(s[5]).Some?
    then Some((16 * HexValue(s[4]).value + HexValue(s[5]).value) as char)
    else None
  }

  /** Reads the body of a JSON string as the standard says, for the escapes below U+0100; `None` where it is not one. */
  function StandardDecode(s: string): Option<string> {
    if s == "" then Some("")
    else if s[0] == '"' || s[0] as int < 0x20 then None
    else if s[0] != '\\' then Prepend(s[0], StandardDecode(s[1..]))
    else if |s| == 1 then None
    else if s[1] != 'u' then
      (if StandardEscape(s[1]).Some? then Prepend(StandardEscape(s[1]).value, StandardDecode(s[2..])) else None)
    else if |s| < 6 || StandardUnicode(s) == None then None
    else Prepend(StandardUnicode(s).value, StandardDecode(s[6..]))
  }

  function Prepend(c: char, rest: Option<string>): Option<string> {
    match rest
    case None => None
    case Some(s) => Some([c] + s)
  }

  lemma HexDigitValue(n: nat)
    requires n < 16
    ensures HexValue(HexDigit(n)) == Some(n)
  {
  }

  lemma DecodeOne(c: char, rest: string, printer: Printer)
    ensures StandardDecode(EscapeChar(c, printer) + rest) == Prepend(c, StandardDecode(rest))
  {
    var s := EscapeChar(c, printer) + rest;
    if Mangles(c, printer) {
      HexDigitValue(c as int / 16);
      HexDigitValue(c as int % 16);
      assert s[6..] == rest;
      assert s[0] == '\\' && s[1] == 'u' && s[2] == '0' && s[3] == '0';
      assert StandardUnicode(s) == Some(c);
    } else if |EscapeChar(c, printer)| == 2 {
      assert s[2..] == rest;
    } else {
      assert s[1..] == rest;
    }
  }

  /** Every path at all is written so that the standard reads it back; only the hand-written parser loses some. */
  lemma {:induction false} PrinterFollowsTheStandard(s: string, printer: Printer)
    ensures StandardDecode(JsonEscape(s, printer)) == Some(s)
  {
    if s != "" {
      DecodeOne(s[0], JsonEscape(s[1..], printer), printer);
      PrinterFollowsTheStandard(s[1..], printer);
      assert s == [s[0]] + s[1..];
    }
  }

  // ----- the parser's decoder against the standard -----

  /** No `\u` escape is met when the text is read from the left. */
  predicate ShortEscapesOnly(s: string) {
    if s == "" then true
    else if s[0] != '\\' then ShortEscapesOnly(s[1..])
    else |s| > 1 && s[1] != 'u' && ShortEscapesOnly(s[2..])
  }

  /** Whatever the standard reads without a `\u` escape, the hand-written decoder reads alike. */
  lemma {:induction false} DecoderFollowsTheStandard(s: string)
    requires ShortEscapesOnly(s) && StandardDecode(s).Some?
    ensures UnescapeJsonString(s) == StandardDecode(s).value
  {
    if s != "" {
      if s[0] != '\\' {
        DecoderFollowsTheStandard(s[1..]);
      } else {
        DecoderFollowsTheStandard(s[2..]);
        ShortEscapeAgrees(s[1]);
      }
    }
  }

  lemma ShortEscapeAgrees(c: char)
    ensures StandardEscape(c).Some? ==> Unescaped(c) == [StandardEscape(c).value]
  {
  }
}
