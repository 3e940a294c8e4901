/** Object keys recovered from the paths of store objects, by lexical path normalisation alone. */
module Recover {
  import opened Options
  import opened Layout

  /** Path components as `Path::components` yields them. */
  datatype Component = RootDir | CurDir | ParentDir | Normal(name: string)

  type Comps = seq<Component>

  // ----- lexical normalisation -----

  /** What the accumulated path becomes on meeting one component. */
  function Fold(out: Comps, c: Component): Comps {
    match c
    case CurDir => out
    case ParentDir => if out != [] && out[|out| - 1].Normal? then out[..|out| - 1] else out + [ParentDir]
    case RootDir => [RootDir]
    case Normal(_) => out + [c]
  }

  function Normalized(comps: Comps): Comps {
    if comps == [] then [] else Fold(Normalized(comps[..|comps| - 1]), comps[|comps| - 1])
  }

  method LexicallyNormalize(comps: Comps) returns (out: Comps)
    ensures out == Normalized(comps)
  {
    out := [];
    for i := 0 to |comps|
      invariant out == Normalized(comps[..i])
    {
      assert comps[..i + 1][..i] == comps[..i];
      match comps[i]
      case CurDir =>
      case ParentDir =>
        if out != [] && out[|out| - 1].Normal? {
          out := out[..|out| - 1];
        } else {
          out := out + [ParentDir];
        }
      case RootDir => out := [RootDir];
      case Normal(_) => out := out + [comps[i]];
    }
    assert comps[..|comps|] == comps;
  }

  /** At most a root, then only `..`, then only names. */
  ghost predicate IsNormal(comps: Comps) {
    && (forall i :: 0 <= i < |comps| ==> !comps[i].CurDir? && (comps[i].RootDir? ==> i == 0))
    && (forall i :: 0 < i < |comps| && comps[i].ParentDir? ==> !comps[i - 1].Normal?)
  }

  /** A normalised path has no `.`, and `..` only at its start or right after the root. */
  lemma {:induction false} NormalizedIsNormal(comps: Comps)
    ensures IsNormal(Normalized(comps))
  {
    if comps != [] {
      NormalizedIsNormal(comps[..|comps| - 1]);
    }
  }

  lemma {:induction false} ParentsLead(comps: Comps, i: nat, j: nat)
    requires IsNormal(comps) && i < j < |comps| && comps[i].Normal?
    ensures comps[j].Normal?
    decreases j
  {
    if i < j - 1 { ParentsLead(comps, i, j - 1); }
  }

  lemma {:induction false} NormalStays(comps: Comps)
    requires IsNormal(comps)
    ensures Normalized(comps) == comps
  {
    if comps != [] {
      var n := |comps| - 1;
      NormalStays(comps[..n]);
      assert comps == comps[..n] + [comps[n]];
      if comps[n].RootDir? { assert n == 0; }
      if comps[n].ParentDir? && n > 0 { assert !comps[n - 1].Normal?; }
    }
  }

  /** Normalising twice is normalising once, and the normal paths are exactly the fixed points. */
  lemma NormalizeIdempotent(comps: Comps)
    ensures Normalized(Normalized(comps)) == Normalized(comps)
    ensures Normalized(comps) == comps <==> IsNormal(comps)
  {
    NormalizedIsNormal(comps);
    NormalStays(Normalized(comps));
    if IsNormal(comps) { NormalStays(comps); }
  }

  /** Where a path leads from a directory of a tree without links; above the root is the root. */
  function Walk(at: seq<string>, comps: Comps): seq<string> {
    if comps == [] then at else Moved(Walk(at, comps[..|comps| - 1]), comps[|comps| - 1])
  }

  /** Where one component leads. */
  function Moved(at: seq<string>, c: Component): seq<string> {
    match c
    case RootDir => []
    case CurDir => at
    case ParentDir => if at == [] then [] else at[..|at| - 1]
    case Normal(name) => at + [name]
  }

  lemma WalkSnoc(at: seq<string>, comps: Comps, c: Component)
    ensures Walk(at, comps + [c]) == Moved(Walk(at, comps), c)
  {
    assert (comps + [c])[..|comps|] == comps;
  }

  /** Folding a component in leads where appending it leads. */
  lemma FoldWalks(at: seq<string>, out: Comps, c: Component)
    ensures Walk(at, Fold(out, c)) == Moved(Walk(at, out), c)
  {
    if c.RootDir? {
      WalkSnoc(at, [], c);
      assert [] + [c] == [c];
    } else if c.ParentDir? && out != [] && out[|out| - 1].Normal? {
      PopWalks(at, out[..|out| - 1], out[|out| - 1]);
      assert out == out[..|out| - 1] + [out[|out| - 1]];
    } else if !c.CurDir? {
      WalkSnoc(at, out, c);
    }
  }

  lemma PopWalks(at: seq<string>, kept: Comps, last: Component)
    requires last.Normal?
    ensures Moved(Walk(at, kept + [last]), ParentDir) == Walk(at, kept)
  {
    WalkSnoc(at, kept, last);
  }

  /** Normalising does not change where a path leads, from anywhere. */
  lemma {:induction false} NormalizePreservesMeaning(at: seq<string>, comps: Comps)
    ensures Walk(at, Normalized(comps)) == Walk(at, comps)
  {
    if comps != [] {
      NormalizePreservesMeaning(at, comps[..|comps| - 1]);
      FoldWalks(at, Normalized(comps[..|comps| - 1]), comps[|comps| - 1]);
    }
  }

  function IsAbsolute(comps: Comps): bool { comps != [] && comps[0] == RootDir }

  /** `a.join(b)` for a relative `b`. */
  function ResolveTarget(linkParent: Comps, target: Comps): Comps {
    Normalized(if IsAbsolute(target) then target else linkParent + target)
  }

  // ----- object keys -----

  const OBJECTS_DIR := ".objects"

  predicate IsHex64(s: string) {
    |s| == 64 && forall i :: 0 <= i < |s| ==> '0' <= s[i] <= '9' || 'a' <= s[i] <= 'f'
  }

  /** Where a store files an object, below its root. */
  function ObjectPath(key: string): Comps {
    var p := Sharded(key);
    [Normal(OBJECTS_DIR), Normal(p[0]), Normal(p[1]), Normal(p[2]), Normal(p[3])]
  }

  /** What a path under a root shows. */
  datatype Finding = Found(key: string) | NotHere | NotPlain

  predicate AllNormal(comps: Comps) {
    forall i :: 0 <= i < |comps| ==> comps[i].Normal?
  }

  function KeyUnder(rel: Comps): Finding {
    if !AllNormal(rel) then NotPlain
    else if |rel| != 5 then NotHere
    else if rel[0].name != OBJECTS_DIR then NotHere
    else
      var s0, s1, s2, rest := rel[1].name, rel[2].name, rel[3].name, rel[4].name;
      if |s0| != 3 || |s1| != 3 || |s2| != 3 then NotHere
      else if IsHex64(s0 + s1 + s2 + rest) then Found(s0 + s1 + s2 + rest)
      else NotHere
  }

  /** One hinted root; a target outside it is not here. */
  function TryRoot(resolved: Comps, root: Comps): Finding {
    var root' := Normalized(root);
    if root' <= resolved then KeyUnder(resolved[|root'|..]) else NotHere
  }

  /** Roots are tried in order; a remainder with anything but names ends the search. */
  function TryRoots(resolved: Comps, roots: seq<Comps>): Option<string> {
    if roots == [] then None
    else
      match TryRoot(resolved, roots[0])
      case Found(key) => Some(key)
      case NotPlain => None
      case NotHere => TryRoots(resolved, roots[1..])
  }

  function RecoveredKey(linkParent: Comps, target: Comps, roots: seq<Comps>): Option<string> {
    TryRoots(ResolveTarget(linkParent, target), roots)
  }

  method RecoverObjectKey(linkParent: Comps, target: Comps, roots: seq<Comps>) returns (key: Option<string>)
    ensures key == RecoveredKey(linkParent, target, roots)
  {
    if roots == [] {
      return None;
    }
    var joined := if IsAbsolute(target) then target else linkParent + target;
    var resolved := LexicallyNormalize(joined);
    assert roots[0..] == roots;
    for i := 0 to |roots|
      invariant TryRoots(resolved, roots[i..]) == RecoveredKey(linkParent, target, roots)
    {
      assert roots[i..][1..] == roots[i + 1..];
      var root := LexicallyNormalize(roots[i]);
      if !(root <= resolved) {
        continue;
      }
      var rel := resolved[|root|..];
      if exists c :: c in rel && !c.Normal? {
        assert !AllNormal(rel);
        return None;
      }
      assert AllNormal(rel) by { forall k | 0 <= k < |rel| ensures rel[k].Normal? { assert rel[k] in rel; } }
      if |rel| != 5 || rel[0].name != OBJECTS_DIR {
        continue;
      }
      var s0, s1, s2, rest := rel[1].name, rel[2].name, rel[3].name, rel[4].name;
      if |s0| != 3 || |s1| != 3 || |s2| != 3 {
        continue;
      }
      if IsHex64(s0 + s1 + s2 + rest) {
        return Some(s0 + s1 + s2 + rest);
      }
    }
    key := None;
  }

  // ----- recovery inverts the layout -----

  /** Splitting a key into shards and joining them again. */
  lemma ShardsJoin(key: string)
    requires |key| >= 9
    ensures key[..3] + key[3..6] + key[6..9] + key[9..] == key
  {
  }

  /** The remainder gives a key exactly when it is that key's object path. */
  lemma KeyUnderInvertsObjectPath(rel: Comps, key: string)
    ensures KeyUnder(rel) == Found(key) <==> IsHex64(key) && rel == ObjectPath(key)
  {
    if IsHex64(key) && rel == ObjectPath(key) {
      ShardsJoin(key);
    }
    if KeyUnder(rel) == Found(key) {
      var s0, s1, s2, rest := rel[1].name, rel[2].name, rel[3].name, rel[4].name;
      assert key == s0 + s1 + s2 + rest;
      assert key[..3] == s0 && key[3..6] == s1 && key[6..9] == s2 && key[9..] == rest;
      assert rel == [rel[0], rel[1], rel[2], rel[3], rel[4]];
    }
  }

  /** The target lies exactly where this root files the key. */
  ghost predicate FiledUnder(resolved: Comps, root: Comps, key: string) {
    IsHex64(key) && resolved == Normalized(root) + ObjectPath(key)
  }

  lemma TryRootMeaning(resolved: Comps, root: Comps, key: string)
    ensures TryRoot(resolved, root) == Found(key) <==> FiledUnder(resolved, root, key)
  {
    var root' := Normalized(root);
    if root' <= resolved {
      assert resolved == root' + resolved[|root'|..];
      KeyUnderInvertsObjectPath(resolved[|root'|..], key);
      if FiledUnder(resolved, root, key) { assert resolved[|root'|..] == ObjectPath(key); }
    }
  }

  /** A root that the target is under by something other than names stops the search. */
  ghost predicate Stops(resolved: Comps, root: Comps) {
    Normalized(root) <= resolved && !AllNormal(resolved[|Normalized(root)|..])
  }

  /** The `i`-th root files the target under this key, and no root before it stops the search. */
  ghost predicate FiledFirst(resolved: Comps, roots: seq<Comps>, key: string, i: nat) {
    i < |roots| && FiledUnder(resolved, roots[i], key) && forall j :: 0 <= j < i ==> !Stops(resolved, roots[j])
  }

  lemma FiledInTail(resolved: Comps, roots: seq<Comps>, key: string, i: nat)
    requires roots != []
    ensures FiledFirst(resolved, roots, key, i + 1) <==> !Stops(resolved, roots[0]) && FiledFirst(resolved, roots[1..], key, i)
  {
    var tail := roots[1..];
    if FiledFirst(resolved, tail, key, i) && !Stops(resolved, roots[0]) {
      forall j | 0 <= j < i + 1 ensures !Stops(resolved, roots[j]) { if j > 0 { assert !Stops(resolved, tail[j - 1]); } }
    }
    if FiledFirst(resolved, roots, key, i + 1) {
      forall j | 0 <= j < i ensures !Stops(resolved, tail[j]) { assert !Stops(resolved, roots[j + 1]); }
    }
  }

  /** A key is recovered exactly when some root files it there and no root before that one stops the search. */
  lemma {:induction false} TryRootsMeaning(resolved: Comps, roots: seq<Comps>, key: string)
    ensures TryRoots(resolved, roots) == Some(key) <==> exists i: nat :: FiledFirst(resolved, roots, key, i)
  {
    if roots != [] {
      TryRootMeaning(resolved, roots[0], key);
      match TryRoot(resolved, roots[0])
      case Found(other) =>
        FoundFirst(resolved, roots, key, other);
      case NotPlain =>
        assert Stops(resolved, roots[0]) && !FiledUnder(resolved, roots[0], key);
        forall i: nat ensures !FiledFirst(resolved, roots, key, i) { }
      case NotHere =>
        TryRootsMeaning(resolved, roots[1..], key);
        if i: nat :| FiledFirst(resolved, roots[1..], key, i) { FiledInTail(resolved, roots, key, i); }
        if i: nat :| FiledFirst(resolved, roots, key, i) {
          assert i > 0;
          FiledInTail(resolved, roots, key, i - 1);
        }
    }
  }

  lemma FoundFirst(resolved: Comps, roots: seq<Comps>, key: string, other: string)
    requires roots != [] && TryRoot(resolved, roots[0]) == Found(other)
    ensures key == other <==> exists i: nat :: FiledFirst(resolved, roots, key, i)
  {
    TryRootMeaning(resolved, roots[0], other);
    if key == other { assert FiledFirst(resolved, roots, key, 0); }
    if i: nat :| FiledFirst(resolved, roots, key, i) { OneKeyPerTarget(resolved, roots[0], other, roots[i], key); }
  }

  /** A target is filed for one key only, whichever root it is under. */
  lemma OneKeyPerTarget(resolved: Comps, r1: Comps, k1: string, r2: Comps, k2: string)
    requires FiledUnder(resolved, r1, k1) && FiledUnder(resolved, r2, k2)
    ensures k1 == k2
  {
    var n := |resolved|;
    assert resolved[n - 5..] == ObjectPath(k1);
    assert resolved[n - 5..] == ObjectPath(k2);
    KeyUnderInvertsObjectPath(resolved[n - 5..], k1);
    KeyUnderInvertsObjectPath(resolved[n - 5..], k2);
  }

  ghost predicate NoParent(comps: Comps) {
    forall i :: 0 <= i < |comps| ==> !comps[i].ParentDir?
  }

  /** Under an absolute root, a target free of `..` leaves only names. */
  lemma AbsoluteRootsNeverStop(resolved: Comps, root: Comps)
    requires IsNormal(resolved) && NoParent(resolved) && IsAbsolute(Normalized(root))
    ensures !Stops(resolved, root)
  {
  }

  lemma {:induction false} AbsoluteStaysAbsolute(comps: Comps)
    requires IsAbsolute(comps)
    ensures IsAbsolute(Normalized(comps))
  {
    if |comps| == 1 {
      assert comps == [] + [RootDir] && comps[..0] == [];
    } else {
      AbsoluteStaysAbsolute(comps[..|comps| - 1]);
    }
  }

  /**
   With absolute roots and a resolved target free of `..`, a key is recovered exactly when some root files it
   at the resolved target, whatever the order of the roots.
  */
  lemma RecoveryByRoots(linkParent: Comps, target: Comps, roots: seq<Comps>, key: string)
    requires forall r :: r in roots ==> IsAbsolute(r)
    requires NoParent(ResolveTarget(linkParent, target))
    ensures RecoveredKey(linkParent, target, roots) == Some(key)
            <==> exists r :: r in roots && FiledUnder(ResolveTarget(linkParent, target), r, key)
  {
    var resolved := ResolveTarget(linkParent, target);
    NormalizedIsNormal(if IsAbsolute(target) then target else linkParent + target);
    TryRootsMeaning(resolved, roots, key);
    forall j | 0 <= j < |roots| ensures !Stops(resolved, roots[j]) {
      assert roots[j] in roots;
      AbsoluteStaysAbsolute(roots[j]);
      AbsoluteRootsNeverStop(resolved, roots[j]);
    }
    SomeRootFiles(resolved, roots, key);
  }

  lemma SomeRootFiles(resolved: Comps, roots: seq<Comps>, key: string)
    requires forall j :: 0 <= j < |roots| ==> !Stops(resolved, roots[j])
    ensures (exists i: nat :: FiledFirst(resolved, roots, key, i)) <==> exists r :: r in roots && FiledUnder(resolved, r, key)
  {
    if r :| r in roots && FiledUnder(resolved, r, key) {
      var i: nat :| i < |roots| && roots[i] == r;
      assert FiledFirst(resolved, roots, key, i);
    }
  }

  // ----- by places -----

  lemma {:induction false} WalkConcat(at: seq<string>, a: Comps, b: Comps)
    ensures Walk(at, a + b) == Walk(Walk(at, a), b)
  {
    if b == [] {
      assert a + b == a;
    } else {
      var n := |b| - 1;
      WalkConcat(at, a, b[..n]);
      assert (a + b)[..|a| + n] == a + b[..n];
    }
  }

  lemma AbsoluteWalk(at: seq<string>, comps: Comps)
    requires IsAbsolute(comps)
    ensures Walk(at, comps) == Walk([], comps)
  {
    assert comps == [RootDir] + comps[1..];
    WalkConcat(at, [RootDir], comps[1..]);
    WalkConcat([], [RootDir], comps[1..]);
    assert [RootDir][..0] == [];
  }

  /** A resolved target leads where the target leads from the link's own directory. */
  lemma ResolvedLeads(at: seq<string>, linkParent: Comps, target: Comps)
    ensures Walk(at, ResolveTarget(linkParent, target))
            == if target != [] && target[0] == RootDir then Walk([], target) else Walk(Walk(at, linkParent), target)
  {
    if IsAbsolute(target) {
      NormalizePreservesMeaning(at, target);
      AbsoluteWalk(at, target);
    } else {
      NormalizePreservesMeaning(at, linkParent + target);
      WalkConcat(at, linkParent, target);
    }
  }

  /** No `..` on the way is taken at the root. */
  predicate StaysInside(comps: Comps) {
    if comps == [] then true
    else
      var before, last := comps[..|comps| - 1], comps[|comps| - 1];
      last.RootDir? || (StaysInside(before) && (last.ParentDir? ==> Walk([], before) != []))
  }

  function Names(place: seq<string>): (comps: Comps)
    ensures |comps| == |place| && forall i :: 0 <= i < |place| ==> comps[i] == Normal(place[i])
  {
    seq(|place|, i requires 0 <= i < |place| => Normal(place[i]))
  }

  /** A normal absolute path without `..` is the root and the names of the place it leads to. */
  lemma {:induction false} AbsoluteShape(comps: Comps)
    requires IsNormal(comps) && IsAbsolute(comps) && NoParent(comps)
    ensures comps == [RootDir] + Names(Walk([], comps))
  {
    var n := |comps| - 1;
    if n == 0 {
      assert comps == [RootDir] && comps[..0] == [];
    } else {
      assert comps == comps[..n] + [comps[n]] && comps[n].Normal?;
      AbsoluteShape(comps[..n]);
      LongerShape(comps[..n], comps[n].name);
    }
  }

  lemma LongerShape(comps: Comps, name: string)
    requires comps == [RootDir] + Names(Walk([], comps))
    ensures comps + [Normal(name)] == [RootDir] + Names(Walk([], comps + [Normal(name)]))
  {
    WalkSnoc([], comps, Normal(name));
    NamesConcat(Walk([], comps), [name]);
  }

  /** An absolute path normalises without `..` exactly when it stays inside the root. */
  lemma {:induction false} InsideMeansNoParent(comps: Comps)
    requires IsAbsolute(comps)
    ensures StaysInside(comps) <==> NoParent(Normalized(comps))
  {
    var n := |comps| - 1;
    if n == 0 {
      assert comps[..0] == [] && Normalized(comps) == Fold([], RootDir);
    } else {
      InsideMeansNoParent(comps[..n]);
      AbsoluteStaysAbsolute(comps[..n]);
      NormalizedIsNormal(comps[..n]);
      NormalizePreservesMeaning([], comps[..n]);
      FoldInside(Normalized(comps[..n]), comps[n]);
    }
  }

  lemma FoldInside(out: Comps, c: Component)
    requires IsNormal(out) && IsAbsolute(out)
    ensures NoParent(Fold(out, c)) <==> c.RootDir? || (NoParent(out) && (c.ParentDir? ==> Walk([], out) != []))
  {
    var n := |out| - 1;
    if NoParent(out) { AbsoluteShape(out); }
    if c.ParentDir? {
      if out[n].Normal? {
        assert out == out[..n] + [out[n]];
        assert NoParent(out[..n]) ==> NoParent(out);
      } else {
        assert Fold(out, c)[n + 1].ParentDir?;
      }
    } else if c.Normal? {
      assert NoParent(out + [c]) <==> NoParent(out) by {
        assert forall i :: 0 <= i < |out| ==> (out + [c])[i] == out[i];
      }
    }
  }

  /** 64 lower-case hexadecimal digits. */
  predicate IsKey(key: string) {
    |key| == 64 && forall c :: c in key ==> c in "0123456789abcdef"
  }

  lemma KeyIsHex(key: string)
    ensures IsKey(key) <==> IsHex64(key)
  {
    assert forall c: char :: ('0' <= c <= '9' || 'a' <= c <= 'f') ==> c in "0123456789abcdef" by {
      forall c: char | '0' <= c <= '9' || 'a' <= c <= 'f' ensures c in "0123456789abcdef" { HexDigits(c); }
    }
    if IsHex64(key) {
      forall c | c in key ensures c in "0123456789abcdef" { var i :| 0 <= i < |key| && key[i] == c; }
    }
    if IsKey(key) {
      forall i | 0 <= i < |key| ensures '0' <= key[i] <= '9' || 'a' <= key[i] <= 'f' { assert key[i] in key; }
    }
  }

  lemma HexDigits(c: char)
    requires '0' <= c <= '9' || 'a' <= c <= 'f'
    ensures c in "0123456789abcdef"
  {
    var digits := "0123456789abcdef";
    var i := if c <= '9' then c as int - '0' as int else c as int - 'a' as int + 10;
    assert digits[i] == c;
  }

  /** Where a link leads: its target, from the link's own directory. */
  function LinkPlace(linkParent: Comps, target: Comps): seq<string> {
    if target != [] && target[0] == RootDir then Walk([], target) else Walk(Walk([], linkParent), target)
  }

  /** The names a key's object has below its root. */
  function ObjectNames(key: string): seq<string>
    requires |key| >= 9
  {
    [".objects", key[..3], key[3..6], key[6..9], key[9..]]
  }

  lemma FiledByPlace(joined: Comps, root: Comps, key: string)
    requires IsAbsolute(joined) && IsAbsolute(root) && StaysInside(joined) && StaysInside(root) && |key| >= 9
    ensures Normalized(joined) == Normalized(root) + ObjectPath(key) <==> Walk([], joined) == Walk([], root) + ObjectNames(key)
  {
    PlaceShape(joined);
    PlaceShape(root);
    assert ObjectPath(key) == Names(ObjectNames(key));
    NamesConcat(Walk([], root), ObjectNames(key));
    NamesInjective(Walk([], joined), Walk([], root) + ObjectNames(key));
  }

  lemma PlaceShape(comps: Comps)
    requires IsAbsolute(comps) && StaysInside(comps)
    ensures Normalized(comps) == [RootDir] + Names(Walk([], comps))
  {
    InsideMeansNoParent(comps);
    AbsoluteStaysAbsolute(comps);
    NormalizedIsNormal(comps);
    NormalizePreservesMeaning([], comps);
    AbsoluteShape(Normalized(comps));
  }

  lemma NamesConcat(a: seq<string>, b: seq<string>)
    ensures [RootDir] + Names(a + b) == [RootDir] + Names(a) + Names(b)
  {
  }

  lemma NamesInjective(a: seq<string>, b: seq<string>)
    ensures [RootDir] + Names(a) == [RootDir] + Names(b) <==> a == b
  {
    if [RootDir] + Names(a) == [RootDir] + Names(b) {
      assert Names(a) == ([RootDir] + Names(a))[1..] == ([RootDir] + Names(b))[1..] == Names(b);
      forall i | 0 <= i < |a| ensures a[i] == b[i] { assert Names(a)[i] == Names(b)[i]; }
    }
  }

  /**
   For an absolute link directory and absolute roots that stay inside the root, a key comes back exactly when it is 64
   hexadecimal digits, the link stays inside the root, and the place it leads to from its own directory is some
   root's place followed by the key's object names.
  */
  lemma RecoveryInvertsLayout(linkParent: Comps, target: Comps, roots: seq<Comps>, key: string)
    requires IsAbsolute(linkParent) && forall r :: r in roots ==> IsAbsolute(r) && StaysInside(r)
    ensures RecoveredKey(linkParent, target, roots) == Some(key)
            <==> IsKey(key) && StaysInside(if IsAbsolute(target) then target else linkParent + target)
                 && exists r :: r in roots && LinkPlace(linkParent, target) == Walk([], r) + ObjectNames(key)
  {
    var joined := if IsAbsolute(target) then target else linkParent + target;
    KeyIsHex(key);
    InsideMeansNoParent(joined);
    WalkConcat([], linkParent, target);
    if StaysInside(joined) {
      RecoveryByRoots(linkParent, target, roots, key);
      if IsKey(key) {
        forall r | r in roots
          ensures FiledUnder(Normalized(joined), r, key) <==> LinkPlace(linkParent, target) == Walk([], r) + ObjectNames(key)
        {
          FiledByPlace(joined, r, key);
        }
      }
    } else {
      NothingOutside(Normalized(joined), roots, key);
    }
  }

  lemma NothingOutside(resolved: Comps, roots: seq<Comps>, key: string)
    requires !NoParent(resolved) && forall r :: r in roots ==> IsAbsolute(r) && StaysInside(r)
    ensures TryRoots(resolved, roots) != Some(key)
  {
    TryRootsMeaning(resolved, roots, key);
    forall i: nat ensures !FiledFirst(resolved, roots, key, i) {
      if i < |roots| {
        assert roots[i] in roots;
        InsideMeansNoParent(roots[i]);
        assert NoParent(Normalized(roots[i]) + ObjectPath(key));
      }
    }
  }

  /** Order matters once a root is the empty relative path: it stops the search in front of a root that files the key. */
  lemma EmptyRootStopsTheSearch(root: Comps, key: string)
    requires IsAbsolute(root) && IsNormal(root) && IsHex64(key)
    ensures RecoveredKey([], root + ObjectPath(key), [root, []]) == Some(key)
    ensures RecoveredKey([], root + ObjectPath(key), [[], root]) == None
  {
    var target := root + ObjectPath(key);
    StoredIsNormal(root, key);
    NormalStays(root);
    KeyUnderInvertsObjectPath(ObjectPath(key), key);
    assert target[|root|..] == ObjectPath(key);
    StopsAtEmptyRoot(target);
  }

  lemma StoredIsNormal(root: Comps, key: string)
    requires IsAbsolute(root) && IsNormal(root) && |key| >= 9
    ensures Normalized(root + ObjectPath(key)) == root + ObjectPath(key) && IsAbsolute(root + ObjectPath(key))
  {
    assert IsNormal(root + ObjectPath(key));
    NormalStays(root + ObjectPath(key));
  }

  lemma StopsAtEmptyRoot(target: Comps)
    requires target != [] && !target[0].Normal?
    ensures TryRoot(target, []) == NotPlain
  {
    assert target[0..] == target;
  }
}
