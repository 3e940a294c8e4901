/** The diff as its programs run it: nested loops over manifests and paths, and index loops over text. */
module DiffLoops {
  import opened Options
  import opened ManifestText
  import opened Diff
  import opened DiffJson

  // ----- union and classification -----

  lemma FlattenStep(manifests: seq<seq<ManifestEntry>>, i: nat)
    requires i < |manifests|
    ensures Flatten(manifests[..i + 1]) == Flatten(manifests[..i]) + manifests[i]
  {
    assert manifests[..i + 1][..i] == manifests[..i];
  }

  /** The entries met after `j` entries of manifest `i`. */
  ghost function Met(manifests: seq<seq<ManifestEntry>>, i: nat, j: nat): seq<ManifestEntry>
    requires i < |manifests| && j <= |manifests[i]|
  {
    Flatten(manifests[..i]) + manifests[i][..j]
  }

  lemma MetStep(manifests: seq<seq<ManifestEntry>>, i: nat, j: nat)
    requires i < |manifests| && j < |manifests[i]|
    ensures Met(manifests, i, j + 1) == Met(manifests, i, j) + [manifests[i][j]]
  {
  }

  lemma UnionSnoc(entries: seq<ManifestEntry>, e: ManifestEntry, policy: OnConflict)
    ensures Union(entries + [e], policy) ==
            if Union(entries, policy).Err? then Union(entries, policy) else AddEntry(Union(entries, policy).value, e, policy)
    ensures UnionPrints(entries + [e], policy) ==
            if UnionPrints(entries, policy).Err? then UnionPrints(entries, policy)
            else AddPrint(UnionPrints(entries, policy).value, e, policy)
  {
    assert (entries + [e])[..|entries|] == entries;
  }

  /** A conflict ends the union of anything longer. */
  lemma {:induction false} ErrorStays(entries: seq<ManifestEntry>, more: seq<ManifestEntry>, policy: OnConflict)
    requires Union(entries, policy).Err?
    ensures Union(entries + more, policy) == Union(entries, policy)
    decreases |more|
  {
    if more == [] {
      assert entries + more == entries;
    } else {
      ErrorStays(entries, more[..|more| - 1], policy);
      UnionSnoc(entries + more[..|more| - 1], more[|more| - 1], policy);
      assert entries + more == entries + more[..|more| - 1] + [more[|more| - 1]];
    }
  }

  lemma {:induction false} FlattenSplit(manifests: seq<seq<ManifestEntry>>, i: nat) returns (rest: seq<ManifestEntry>)
    requires i <= |manifests|
    ensures Flatten(manifests) == Flatten(manifests[..i]) + rest
    decreases |manifests| - i
  {
    if i == |manifests| {
      assert manifests[..i] == manifests;
      rest := [];
    } else {
      var tail := FlattenSplit(manifests, i + 1);
      FlattenStep(manifests, i);
      rest := manifests[i] + tail;
    }
  }

  lemma ConflictIsFinal(manifests: seq<seq<ManifestEntry>>, i: nat, j: nat, policy: OnConflict)
    requires i < |manifests| && j <= |manifests[i]| && Union(Met(manifests, i, j), policy).Err?
    ensures Union(Flatten(manifests), policy) == Union(Met(manifests, i, j), policy)
  {
    var tail := FlattenSplit(manifests, i + 1);
    FlattenStep(manifests, i);
    var more := manifests[i][j..] + tail;
    assert manifests[i] == manifests[i][..j] + manifests[i][j..];
    assert Flatten(manifests) == Met(manifests, i, j) + more;
    ErrorStays(Met(manifests, i, j), more, policy);
  }

  method UnionSide(manifests: seq<seq<ManifestEntry>>, policy: OnConflict) returns (r: Result<Side, string>)
    ensures r == Union(Flatten(manifests), policy)
  {
    var side: Side := map[];
    for i := 0 to |manifests|
      invariant Union(Flatten(manifests[..i]), policy) == Ok(side)
    {
      assert Met(manifests, i, 0) == Flatten(manifests[..i]);
      for j := 0 to |manifests[i]|
        invariant Union(Met(manifests, i, j), policy) == Ok(side)
      {
        var entry := manifests[i][j];
        MetStep(manifests, i, j);
        UnionSnoc(Met(manifests, i, j), entry, policy);
        if entry.path in side {
          if !SameContent(side[entry.path], entry) {
            if policy == RaiseError {
              ConflictIsFinal(manifests, i, j + 1, policy);
              return Err(entry.path);
            }
            side := side[entry.path := entry];
          }
        } else {
          side := side[entry.path := entry];
        }
      }
      FlattenStep(manifests, i);
      assert manifests[i][..|manifests[i]|] == manifests[i];
    }
    assert manifests[..|manifests|] == manifests;
    r := Ok(side);
  }

  lemma PrintConflictIsFinal(manifests: seq<seq<ManifestEntry>>, i: nat, j: nat, policy: OnConflict)
    requires i < |manifests| && j <= |manifests[i]| && UnionPrints(Met(manifests, i, j), policy).Err?
    ensures UnionPrints(Flatten(manifests), policy) == UnionPrints(Met(manifests, i, j), policy)
  {
    UnionsAgree(Met(manifests, i, j), policy);
    ConflictIsFinal(manifests, i, j, policy);
    UnionsAgree(Flatten(manifests), policy);
  }

  /** The library's union, on fingerprints. */
  method UnionPrintSide(manifests: seq<seq<ManifestEntry>>, policy: OnConflict) returns (r: Result<Prints, string>)
    ensures r == UnionPrints(Flatten(manifests), policy)
  {
    var side: Prints := map[];
    for i := 0 to |manifests|
      invariant UnionPrints(Flatten(manifests[..i]), policy) == Ok(side)
    {
      assert Met(manifests, i, 0) == Flatten(manifests[..i]);
      for j := 0 to |manifests[i]|
        invariant UnionPrints(Met(manifests, i, j), policy) == Ok(side)
      {
        var entry := manifests[i][j];
        var fp := FingerprintOf(entry);
        MetStep(manifests, i, j);
        UnionSnoc(Met(manifests, i, j), entry, policy);
        if entry.path in side {
          if side[entry.path] != fp {
            match policy {
              case RaiseError =>
                PrintConflictIsFinal(manifests, i, j + 1, policy);
                return Err(entry.path);
              case LastWins => side := side[entry.path := fp];
            }
          }
        } else {
          side := side[entry.path := fp];
        }
      }
      FlattenStep(manifests, i);
      assert manifests[i][..|manifests[i]|] == manifests[i];
    }
    assert manifests[..|manifests|] == manifests;
    r := Ok(side);
  }

  lemma PrintRowsStep(from: Prints, to: Prints, all: bool, paths: seq<string>, i: nat)
    requires i < |paths| && forall p :: p in paths ==> p in from || p in to
    ensures forall p :: p in paths[..i + 1] ==> p in paths
    ensures PrintRowsFor(from, to, all, paths[..i + 1]) == PrintRowsFor(from, to, all, paths[..i]) + PrintRowFor(from, to, all, paths[i])
  {
    assert paths[..i + 1][..i] == paths[..i];
  }

  /** The library's whole diff. */
  method DiffSync(from: seq<seq<ManifestEntry>>, to: seq<seq<ManifestEntry>>, includeUnchanged: bool, policy: OnConflict)
    returns (r: Result<seq<DiffEntry>, string>)
    ensures r == ApiDiff(from, to, includeUnchanged, policy)
    ensures r == CliDiff(from, to, includeUnchanged, policy)
  {
    ImplementationsAgree(from, to, includeUnchanged, policy);
    var fromResult := UnionPrintSide(from, policy);
    if fromResult.Err? {
      return Err(fromResult.error);
    }
    var toResult := UnionPrintSide(to, policy);
    if toResult.Err? {
      return Err(toResult.error);
    }
    var fromMap, toMap := fromResult.value, toResult.value;
    var paths := AllPaths(fromMap.Keys, toMap.Keys);
    var entries := [];
    for i := 0 to |paths|
      invariant entries == PrintRowsFor(fromMap, toMap, includeUnchanged, paths[..i])
    {
      assert paths[i] in paths;
      PrintRowsStep(fromMap, toMap, includeUnchanged, paths, i);
      entries := entries + PrintRowFor(fromMap, toMap, includeUnchanged, paths[i]);
    }
    assert paths[..|paths|] == paths;
    r := Ok(entries);
  }

  lemma RowsStep(from: Side, to: Side, all: bool, paths: seq<string>, i: nat)
    requires i < |paths| && forall p :: p in paths ==> p in from || p in to
    ensures forall p :: p in paths[..i + 1] ==> p in paths
    ensures RowsFor(from, to, all, paths[..i + 1]) == RowsFor(from, to, all, paths[..i]) + RowFor(from, to, all, paths[i])
  {
    assert paths[..i + 1][..i] == paths[..i];
  }

  lemma RowsGrow(from: Side, to: Side, all: bool, paths: seq<string>, i: nat)
    requires i < |paths| && forall p :: p in paths ==> p in from || p in to
    ensures forall p :: p in paths[..i + 1] ==> p in paths
    ensures var quiet := DirOnly(from, to, paths[i]) || (StatusAt(from, to, paths[i]) == Unchanged && !all);
            RowsFor(from, to, all, paths[..i + 1])
            == if quiet then RowsFor(from, to, all, paths[..i])
               else RowsFor(from, to, all, paths[..i]) + [DiffEntry(StatusAt(from, to, paths[i]), paths[i])]
  {
    RowsStep(from, to, all, paths, i);
  }

  method ClassifySides(from: Side, to: Side, includeUnchanged: bool) returns (rows: seq<DiffEntry>)
    ensures rows == Classify(from, to, includeUnchanged)
  {
    var paths := AllPaths(from.Keys, to.Keys);
    rows := [];
    for i := 0 to |paths|
      invariant rows == RowsFor(from, to, includeUnchanged, paths[..i])
    {
      var path := paths[i];
      assert path in paths;
      RowsGrow(from, to, includeUnchanged, paths, i);
      var onlyDirs := (path !in from || IsDir(from[path])) && (path !in to || IsDir(to[path]));
      if onlyDirs {
        continue;
      }
      var status := Modified;
      if path !in from {
        status := Added;
      } else if path !in to {
        status := Deleted;
      } else if SameContent(from[path], to[path]) {
        status := Unchanged;
      }
      assert status == StatusAt(from, to, path);
      if status == Unchanged && !includeUnchanged {
        continue;
      }
      rows := rows + [DiffEntry(status, path)];
    }
    assert paths[..|paths|] == paths;
  }

  // ----- printing -----

  method EscapePath(s: string) returns (out: string)
    ensures out == JsonEscape(s, CommandLine)
  {
    out := "";
    assert s[0..] == s;
    for i := 0 to |s|
      invariant out + JsonEscape(s[i..], CommandLine) == JsonEscape(s, CommandLine)
    {
      assert s[i..][1..] == s[i + 1..];
      var piece := EscapeChar(s[i], CommandLine);
      AppendPiece(out, piece, JsonEscape(s[i + 1..], CommandLine));
      out := out + piece;
    }
  }

  lemma AppendPiece(a: string, b: string, c: string)
    ensures a + (b + c) == a + b + c
  {
  }

  method PrintRows(rows: seq<DiffEntry>) returns (out: string)
    ensures out == RenderJson(rows, CommandLine)
  {
    out := "[";
    assert rows[0..] == rows;
    for i := 0 to |rows|
      invariant out + RenderRest(rows[i..], if i == 0 then "" else ",", CommandLine) == RenderJson(rows, CommandLine)
    {
      assert rows[i..][1..] == rows[i + 1..];
      var sep := if i > 0 then "," else "";
      var escaped := EscapePath(rows[i].path);
      var text := RowText(rows[i].status.Token(), escaped, CommandLine);
      AppendPiece(out, sep + text, RenderRest(rows[i + 1..], ",", CommandLine));
      out := out + (sep + text);
    }
    out := out + "]";
  }

  // ----- parsing -----

  method FindStringEnd(s: string, open: nat) returns (end: Option<nat>)
    ensures end == ScanJsonStringEnd(s, open)
  {
    var i := open + 1;
    while i < |s|
      invariant ScanFrom(s, i) == ScanJsonStringEnd(s, open)
      decreases |s| - i
    {
      if s[i] == '\\' {
        i := i + 1;
      } else if s[i] == '"' {
        return Some(i);
      }
      i := i + 1;
    }
    end := None;
  }

  method UnescapeText(s: string) returns (out: string)
    ensures out == UnescapeJsonString(s)
  {
    out := "";
    var i := 0;
    assert s[0..] == s;
    while i < |s|
      invariant 0 <= i <= |s|
      invariant out + UnescapeJsonString(s[i..]) == UnescapeJsonString(s)
    {
      ghost var before := out;
      ghost var rest := s[i..];
      if s[i] == '\\' && i + 1 < |s| {
        i := i + 1;
        assert rest[2..] == s[i + 1..];
        var piece := Unescaped(s[i]);
        AppendPiece(before, piece, UnescapeJsonString(s[i + 1..]));
        out := out + piece;
      } else {
        assert rest[1..] == s[i + 1..];
        AppendPiece(before, [s[i]], UnescapeJsonString(s[i + 1..]));
        out := out + [s[i]];
      }
      i := i + 1;
    }
  }

  method FindObjectEnd(json: string, open: nat) returns (close: Option<nat>)
    ensures close == CloseBrace(json, open, 0)
  {
    var depth := 0;
    var i := open;
    while i < |json|
      invariant CloseBrace(json, i, depth) == CloseBrace(json, open, 0)
      decreases |json| - i
    {
      if json[i] == '\\' {
        i := i + 1;
      } else if json[i] == '"' {
        var end := FindStringEnd(json, i);
        match end {
          case None => return None;
          case Some(j) => i := j;
        }
      } else if json[i] == '{' {
        depth := depth + 1;
      } else if json[i] == '}' {
        depth := depth - 1;
        if depth == 0 {
          return Some(i);
        }
      }
      i := i + 1;
    }
    close := None;
  }

  /** The row of one object, if it has one. */
  method ReadObject(obj: string) returns (row: seq<DiffEntry>)
    ensures row == ParseObject(obj)
  {
    var pathText := "";
    var at := Find(obj, PATH_KEY, 0);
    if at.Some? {
      var end := FindStringEnd(obj, at.value + 7);
      if end.Some? {
        pathText := UnescapeText(obj[at.value + 8..end.value]);
      }
    }
    var status := StatusOf(StatusChar(obj));
    if status == None || pathText == "" {
      return [];
    }
    row := [DiffEntry(status.value, pathText)];
  }

  /** These are the rows of everything before `pos`. */
  ghost predicate ParsedTo(json: string, pos: nat, entries: seq<DiffEntry>) {
    entries + ParseFrom(json, pos) == ParseDiffJson(json)
  }

  lemma NothingParsed(json: string)
    ensures ParsedTo(json, 0, [])
  {
  }

  /** The row of the object between two braces, which takes the parse from before the object to behind it. */
  method ReadRow(json: string, open: nat, close: nat, ghost pos: nat, ghost entries: seq<DiffEntry>) returns (row: seq<DiffEntry>)
    requires FindChar(json, '{', pos) == Some(open) && CloseBrace(json, open, 0) == Some(close)
    requires ParsedTo(json, pos, entries)
    ensures ParsedTo(json, close + 1, entries + row)
  {
    row := ReadObject(json[open..close + 1]);
    EntriesGrow(json, pos, open, close, entries, row);
  }

  method ParseRows(json: string) returns (entries: seq<DiffEntry>)
    ensures entries == ParseDiffJson(json)
  {
    entries := [];
    var pos := 0;
    NothingParsed(json);
    while pos < |json|
      invariant 0 <= pos <= |json|
      invariant ParsedTo(json, pos, entries)
    {
      var open := FindChar(json, '{', pos);
      if open == None {
        EntriesEnd(json, pos, entries);
        return;
      }
      var close := FindObjectEnd(json, open.value);
      if close == None {
        EntriesEnd(json, pos, entries);
        return;
      }
      assert open.value <= close.value < |json|;
      var row := ReadRow(json, open.value, close.value, pos, entries);
      entries := entries + row;
      pos := close.value + 1;
    }
    EntriesEnd(json, pos, entries);
  }

  /** Where no further object opens, or it does not close, there are no further rows. */
  lemma EntriesEnd(json: string, pos: nat, entries: seq<DiffEntry>)
    requires FindChar(json, '{', pos) == None || CloseBrace(json, FindChar(json, '{', pos).value, 0) == None
    requires ParsedTo(json, pos, entries)
    ensures entries == ParseDiffJson(json)
  {
    assert ParseFrom(json, pos) == [];
  }

  lemma EntriesGrow(json: string, pos: nat, o: nat, close: nat, entries: seq<DiffEntry>, row: seq<DiffEntry>)
    requires FindChar(json, '{', pos) == Some(o) && CloseBrace(json, o, 0) == Some(close)
    requires row == ParseObject(json[o..close + 1]) && ParsedTo(json, pos, entries)
    ensures ParsedTo(json, close + 1, entries + row)
  {
    ParseStep(json, pos, o, json[o..close + 1]);
    Regrouped(entries, row, ParseFrom(json, close + 1));
  }

  lemma Regrouped(a: seq<DiffEntry>, b: seq<DiffEntry>, c: seq<DiffEntry>)
    ensures a + (b + c) == a + b + c
  {
  }
}
