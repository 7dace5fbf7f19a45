/** A file system seen by name, and pathnames. */
module PathTree {

  import opened Wrappers

  type Inode = nat

  /** What a lookup says an inode is; `Invalid` is the type of an attribute structure left empty. */
  datatype Kind = Invalid | Directory | Regular | Symlink

  datatype Node = Dir | File | Link(target: string)

  /** A fixed file system: `child` is what a lookup of a name in a directory finds. */
  datatype Tree = Tree(root: Inode, node: Inode -> Node, child: (Inode, string) -> Option<Inode>)

  /** GLFS_SYMLINK_MAX_FOLLOW. */
  const MAX_FOLLOW: nat := 2048

  function KindOf(tree: Tree, i: Inode): Kind {
    match tree.node(i)
    case Dir => Directory
    case File => Regular
    case Link(_) => Symlink
  }

  ghost predicate IsTree(tree: Tree) {
    tree.node(tree.root).Dir? && forall d: Inode :: tree.node(d).Dir? ==> tree.child(d, ".") == Some(d)
  }

  predicate IsName(c: string) {
    c != "" && '/' !in c
  }

  // --- paths as the code reads them ---

  function TokenLength(path: string): (n: nat)
    ensures n <= |path| && '/' !in path[..n] && (n < |path| ==> path[n] == '/')
    ensures path != "" && path[0] != '/' ==> n > 0
  {
    if path == "" || path[0] == '/' then 0
    else
      var n := TokenLength(path[1..]);
      assert path[..n + 1] == [path[0]] + path[1..][..n];
      n + 1
  }

  /** The tokens that strtok_r finds between slashes. */
  function Components(path: string): (r: seq<string>)
    ensures forall c <- r :: IsName(c)
    decreases |path|
  {
    if path == "" then []
    else if path[0] == '/' then Components(path[1..])
    else
      var n := TokenLength(path);
      [path[..n]] + Components(path[n..])
  }

  predicate Absolute(path: string) {
    path != "" && path[0] == '/'
  }

  /** Where resolution of `path` begins. */
  function StartOf(tree: Tree, at: Option<Inode>, path: string): Inode {
    if at.Some? && !Absolute(path) then at.value else tree.root
  }

  /** A path that has components, or is the root's own. */
  predicate IsProper(path: string) {
    Components(path) != [] || path == "/"
  }

  lemma {:induction false} TokenOfName(c: string, rest: string)
    requires '/' !in c && (rest == "" || rest[0] == '/')
    ensures TokenLength(c + rest) == |c|
    decreases |c|
  {
    if c != "" {
      assert (c + rest)[1..] == c[1..] + rest;
      TokenOfName(c[1..], rest);
    }
  }

  lemma ComponentsOfName(c: string)
    requires IsName(c)
    ensures Components(c) == [c] && !Absolute(c)
  {
    TokenOfName(c, "");
    assert c + "" == c && c[|c|..] == "" && c[..|c|] == c;
  }

  lemma ComponentsOfTwo(c: string, x: string)
    requires IsName(c) && IsName(x)
    ensures !Absolute(c + "/" + x) && Components(c + "/" + x) == [c, x]
  {
    var path, rest := c + "/" + x, "/" + x;
    assert path == c + rest;
    TokenOfName(c, rest);
    assert path[..|c|] == c && path[|c|..] == rest && rest[1..] == x;
    ComponentsOfName(x);
  }

  // --- paths as POSIX reads them ---

  function SkipSlashes(path: string): (r: string)
    ensures |r| <= |path| && (r == "" || r[0] != '/')
  {
    if Absolute(path) then SkipSlashes(path[1..]) else path
  }

  /** The filenames of a pathname; one that ends in a slash has to name a directory, like one that ends in a dot. */
  function Names(path: string): (r: seq<string>)
    ensures forall c <- r :: IsName(c)
    decreases |path|, 0
  {
    var p := SkipSlashes(path);
    if p == "" then []
    else
      var n := TokenLength(p);
      [p[..n]] + NamesAfter(p[n..])
  }

  /** The filenames in what follows a filename. */
  function NamesAfter(rest: string): (r: seq<string>)
    ensures forall c <- r :: IsName(c)
    decreases |rest|, 1
  {
    if rest != "" && SkipSlashes(rest) == "" then ["."] else Names(rest)
  }

  /** A path that ends in a slash after its last component. */
  predicate Trailing(path: string) {
    Components(path) != [] && path[|path| - 1] == '/'
  }

  lemma {:induction false} SlashesSkipped(path: string)
    ensures Components(SkipSlashes(path)) == Components(path)
    ensures SkipSlashes(path) == "" <==> Components(path) == []
    ensures SkipSlashes(path) != "" ==> path != "" && SkipSlashes(path)[|SkipSlashes(path)| - 1] == path[|path| - 1]
    decreases |path|
  {
    if Absolute(path) {
      SlashesSkipped(path[1..]);
    }
  }

  lemma SkipTwice(path: string)
    ensures SkipSlashes(SkipSlashes(path)) == SkipSlashes(path) && Names(SkipSlashes(path)) == Names(path)
  {
  }

  /** The two readings differ in the dot for a trailing slash. */
  lemma {:induction false} NamesAreComponents(path: string)
    ensures Names(path) == Components(path) + (if Trailing(path) then ["."] else [])
    decreases |path|
  {
    SlashesSkipped(path);
    var p := SkipSlashes(path);
    if p != "" {
      var n := TokenLength(p);
      var rest := p[n..];
      var dot := if Trailing(path) then ["."] else [];
      calc {
        Names(path);
        [p[..n]] + NamesAfter(rest);
        { NamesAreComponents(rest); TrailingAfter(path, p, n); }
        [p[..n]] + (Components(rest) + dot);
        ([p[..n]] + Components(rest)) + dot;
        Components(path) + dot;
      }
    }
  }

  /** A pathname ends in a slash exactly if what follows its first filename is slashes, or ends in one. */
  lemma TrailingAfter(path: string, p: string, n: nat)
    requires p == SkipSlashes(path) != "" && n == TokenLength(p)
    ensures Trailing(path) <==> p[n..] != "" && (SkipSlashes(p[n..]) == "" || Trailing(p[n..]))
  {
    var rest := p[n..];
    SlashesSkipped(path);
    SlashesSkipped(rest);
    if rest == "" {
      assert p[..n] == p && p[n - 1] in p[..n];
    } else {
      assert rest[|rest| - 1] == p[|p| - 1] == path[|path| - 1];
      if SkipSlashes(rest) == "" {
        LastSlash(rest);
      }
    }
  }

  lemma {:induction false} LastSlash(rest: string)
    requires rest != "" && SkipSlashes(rest) == ""
    ensures rest[|rest| - 1] == '/'
    decreases |rest|
  {
    if |rest| > 1 {
      LastSlash(rest[1..]);
    }
  }

  /** The names of a path with `rest` after it, where `rest` begins with a slash. */
  lemma {:induction false} NamesJoined(path: string, rest: string)
    requires Absolute(rest) && Components(path) != []
    ensures Names(path + rest) == Components(path) + NamesAfter(rest)
    decreases |path|, 0
  {
    if Absolute(path) {
      assert (path + rest)[1..] == path[1..] + rest;
      NamesJoined(path[1..], rest);
      SkipTwice(path + rest);
      assert SkipSlashes(path + rest) == SkipSlashes(path[1..] + rest);
    } else {
      var n := TokenLength(path);
      var c, more := path[..n], path[n..];
      assert path == c + more && path + rest == c + (more + rest);
      TokenOfName(c, more + rest);
      assert SkipSlashes(path + rest) == path + rest;
      assert (path + rest)[n..] == more + rest && (path + rest)[..n] == c;
      assert Names(path + rest) == [c] + NamesAfter(more + rest);
      AfterJoined(more, rest);
      assert Components(path) == [c] + Components(more);
      assert [c] + (Components(more) + NamesAfter(rest)) == [c] + Components(more) + NamesAfter(rest);
    }
  }

  lemma {:induction false} AfterJoined(more: string, rest: string)
    requires Absolute(rest) && (more == "" || more[0] == '/')
    ensures NamesAfter(more + rest) == Components(more) + NamesAfter(rest)
    decreases |more|, 1
  {
    SlashesSkipped(more);
    SlashesSkipped(more + rest);
    SkipJoined(more, rest);
    if Components(more) == [] {
      SkipTwice(more + rest);
      SkipTwice(rest);
    } else {
      NamesJoined(more, rest);
    }
  }

  lemma {:induction false} SkipJoined(more: string, rest: string)
    requires Absolute(rest)
    ensures SkipSlashes(more + rest) == if SkipSlashes(more) == "" then SkipSlashes(rest) else SkipSlashes(more) + rest
    decreases |more|
  {
    if more == "" {
      assert more + rest == rest;
    } else if Absolute(more) {
      assert (more + rest)[1..] == more[1..] + rest;
      SkipJoined(more[1..], rest);
    }
  }
}
