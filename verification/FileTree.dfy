/** A directory tree as the set of its entries, and how its entries are spelled in manifests. */
module FileTree {
  import opened Options
  import opened Text

  /** A path below the tree's root, as its components; the root is the empty path. */
  type Path = seq<string>

  /** `NonDir` is a regular file or a symbolic link, which is never followed. */
  datatype Kind = Dir | NonDir

  type Nodes = map<Path, Kind>

  predicate ValidName(name: string) {
    name != "" && '/' !in name && name != "." && name != ".."
  }

  predicate ValidPath(p: Path) {
    forall i :: 0 <= i < |p| ==> ValidName(p[i])
  }

  function Parent(p: Path): Path
    requires p != []
  {
    p[..|p| - 1]
  }

  /** Every entry sits in a directory of the tree. */
  predicate WellFormed(nodes: Nodes) {
    && [] in nodes && nodes[[]] == Dir
    && (forall p :: p in nodes ==> ValidPath(p))
    && (forall p :: p in nodes && p != [] ==> Parent(p) in nodes && nodes[Parent(p)] == Dir)
  }

  /** `./a/b` for a file, `./a/b/` for a directory. */
  function Key(p: Path, kind: Kind): string {
    "./" + Join(p, '/') + (if kind == Dir then "/" else "")
  }

  /** The entry a key names: `./` and one trailing slash dropped, then cut at slashes. */
  function Target(key: string): Path {
    var rel := if |key| >= 2 && key[..2] == "./" then key[2..] else key;
    var rel' := if rel != "" && rel[|rel| - 1] == '/' then rel[..|rel| - 1] else rel;
    if rel' == "" then [] else Split(rel', '/')
  }

  /** Separators, not counting trailing ones. */
  function Depth(key: string): nat {
    Count(TrimSlashes(key), '/')
  }

  function TrimSlashes(s: string): string {
    if s != "" && s[|s| - 1] == '/' then TrimSlashes(s[..|s| - 1]) else s
  }

  lemma {:induction false} JoinedEnd(p: Path)
    requires p != [] && ValidPath(p)
    ensures Join(p, '/') != "" && Join(p, '/')[|Join(p, '/')| - 1] != '/'
  {
    var first := p[0];
    assert ValidName(first) && first[|first| - 1] in first;
    if |p| > 1 {
      assert ValidPath(p[1..]) by { forall i | 0 <= i < |p[1..]| ensures ValidName(p[1..][i]) { assert p[1..][i] == p[i + 1]; } }
      JoinedEnd(p[1..]);
    }
  }

  lemma KeyFacts(p: Path, kind: Kind)
    requires p != [] && ValidPath(p)
    ensures Target(Key(p, kind)) == p
    ensures Depth(Key(p, kind)) == |p|
    ensures Key(p, kind) != "./"
    ensures Key(p, kind)[|Key(p, kind)| - 1] == '/' <==> kind == Dir
  {
    var body := Join(p, '/');
    JoinedEnd(p);
    forall name | name in p ensures '/' !in name { var i :| 0 <= i < |p| && p[i] == name; assert ValidName(p[i]); }
    SplitOfJoin(p, '/');
    CountOfJoin(p, '/');
    var key := Key(p, kind);
    assert key[..2] == "./" && key[2..] == body + (if kind == Dir then "/" else "");
    if kind == Dir {
      assert (body + "/")[..|body|] == body;
      assert key[..|key| - 1] == "./" + body;
    } else {
      assert body + "" == body && key == "./" + body;
    }
    assert TrimSlashes("./" + body) == "./" + body;
    CountConcat("./", body, '/');
    assert Count("./", '/') == 1 by { assert "./"[1..] == "/" && "/"[1..] == ""; }
  }

  /** Different entries have different keys. */
  lemma KeyInjective(p: Path, pk: Kind, q: Path, qk: Kind)
    requires p != [] && q != [] && ValidPath(p) && ValidPath(q) && Key(p, pk) == Key(q, qk)
    ensures p == q && pk == qk
  {
    KeyFacts(p, pk);
    KeyFacts(q, qk);
  }

  predicate HasChild(nodes: Nodes, p: Path) {
    exists q :: q in nodes && q != [] && Parent(q) == p
  }

  /** The tree as system calls see it. */
  class Tree {
    var nodes: Nodes

    constructor (nodes: Nodes)
      ensures this.nodes == nodes
    {
      this.nodes := nodes;
    }

    method SymlinkMetadata(p: Path) returns (kind: Option<Kind>)
      ensures kind == if p in nodes then Some(nodes[p]) else None
    {
      if p !in nodes {
        return None;
      }
      kind := Some(nodes[p]);
    }

    /** Fails on anything but an empty directory. */
    method RemoveDir(p: Path) returns (ok: bool)
      modifies this
      ensures ok <==> p in old(nodes) && old(nodes)[p] == Dir && !HasChild(old(nodes), p)
      ensures nodes == if ok then old(nodes) - {p} else old(nodes)
    {
      ok := p in nodes && nodes[p] == Dir && !HasChild(nodes, p);
      if ok {
        nodes := nodes - {p};
      }
    }

    method RemoveFile(p: Path) returns (ok: bool)
      modifies this
      ensures ok <==> p in old(nodes) && old(nodes)[p] == NonDir
      ensures nodes == if ok then old(nodes) - {p} else old(nodes)
    {
      ok := p in nodes && nodes[p] == NonDir;
      if ok {
        nodes := nodes - {p};
      }
    }
  }
}
