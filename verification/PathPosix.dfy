/**
 Pathname resolution as section 4.13 of POSIX.1-2017 Base Definitions describes it, on pathnames as
 strings, and the same on filenames. `PathAgreement` says exactly when the code agrees with it.
 */
module PathPosix {

  import opened Wrappers
  import opened PathTree
  import opened PathResolve
  import opened PathWalk

  // --- the reference ---

  /** What remains of a pathname with a link's contents ahead of it. */
  function Combined(target: string, rest: string): string {
    target + (if SkipSlashes(target) == "" then SkipSlashes(rest) else rest)
  }

  /**
   The pathname `path`, which does not begin with a slash, with `dir` as the predecessor of its first
   filename. A link's contents are put ahead of what remains of the pathname; contents that are only
   slashes swallow the slashes that follow. For an empty link the section leaves a choice: with
   `nullLinks` the directory that holds the link is used in its place, otherwise resolution fails.
   */
  function Locate(tree: Tree, nullLinks: bool, dir: Inode, path: string, followLast: bool, fuel: nat): Option<Inode>
    decreases fuel, |path|
  {
    if path == "" || path[0] == '/' then Some(dir)
    else
      var n := TokenLength(path);
      var rest := path[n..];
      match tree.child(dir, path[..n])
      case None => None
      case Some(i) =>
        match tree.node(i)
        case File => if rest == "" then Some(i) else None
        case Dir => Locate(tree, nullLinks, i, SkipSlashes(rest), followLast, fuel)
        case Link(target) =>
          if rest == "" && !followLast then Some(i)
          else if fuel == 0 || (target == "" && !nullLinks) then None
          else
            var combined := Combined(target, rest);
            Locate(tree, nullLinks, StartOf(tree, Some(dir), combined), SkipSlashes(combined), followLast, fuel - 1)
  }

  /** A null pathname is not resolved; one that begins with a slash is resolved from the root. */
  function Pathname(tree: Tree, nullLinks: bool, at: Option<Inode>, path: string, follow: nat,
                    fuel: nat): Option<Inode> {
    if path == "" then None
    else Locate(tree, nullLinks, StartOf(tree, at, path), SkipSlashes(path), follow > 0, fuel)
  }

  // --- the reference name by name ---

  /** The same with the pathname read into filenames; `rules` may limit nesting. */
  function PosixPath(tree: Tree, rules: Rules, at: Option<Inode>, path: string, follow: nat, fuel: nat): Option<Inode>
    requires rules.Posix?
  {
    if path == "" then None
    else Flat(tree, rules, StartOf(tree, at, path), Parts(Names(path), follow), follow > 0, fuel)
  }

  ghost predicate SameNames(x: seq<Part>, y: seq<Part>) {
    |x| == |y| && forall i :: 0 <= i < |x| ==> x[i].name == y[i].name
  }

  /** Without a limit, depths do not matter. */
  lemma {:induction false} DepthsDoNotMatter(tree: Tree, rules: Rules, dir: Inode, x: seq<Part>, y: seq<Part>,
                                             followLast: bool, fuel: nat)
    requires !Limited(rules) && SameNames(x, y)
    ensures Flat(tree, rules, dir, x, followLast, fuel) == Flat(tree, rules, dir, y, followLast, fuel)
    decreases fuel, |x|
  {
    if x != [] && tree.child(dir, x[0].name).Some? {
      var i := tree.child(dir, x[0].name).value;
      match tree.node(i)
      case File =>
      case Dir => DepthsDoNotMatter(tree, rules, i, x[1..], y[1..], followLast, fuel);
      case Link(target) =>
        var names := Contents(rules, target, x[1..] == []);
        if (x[1..] != [] || followLast) && fuel > 0 && !Refused(rules, target, x[1..] == []) {
          PartNames(names, x[0].depth + 1, y[0].depth + 1);
          DepthsDoNotMatter(tree, rules, StartOf(tree, Some(dir), target), Parts(names, x[0].depth + 1) + x[1..],
                            Parts(names, y[0].depth + 1) + y[1..], followLast, fuel - 1);
        }
    }
  }

  lemma {:induction false} PartNames(names: seq<string>, k: nat, m: nat)
    ensures SameNames(Parts(names, k), Parts(names, m))
  {
    if names != [] {
      PartNames(names[1..], k, m);
    }
  }

  lemma {:induction false} PartsJoined(x: seq<string>, y: seq<string>, k: nat)
    ensures Parts(x + y, k) == Parts(x, k) + Parts(y, k)
    decreases |x|
  {
    if x == [] {
      assert x + y == y;
    } else {
      assert (x + y)[1..] == x[1..] + y;
      PartsJoined(x[1..], y, k);
    }
  }

  lemma PathParts(path: string, k: nat)
    requires path != "" && path[0] != '/'
    ensures var n, parts := TokenLength(path), Parts(Names(path), k);
            && parts != [] && parts[0] == Part(path[..n], k) && parts[1..] == Parts(NamesAfter(path[n..]), k)
            && (parts[1..] == [] <==> path[n..] == "")
  {
    var n := TokenLength(path);
    assert Names(path) == [path[..n]] + NamesAfter(path[n..]);
    assert ([path[..n]] + NamesAfter(path[n..]))[1..] == NamesAfter(path[n..]);
  }

  /** What is left of a pathname behind a directory, string by string and name by name. */
  lemma {:induction false} RestIsFlat(tree: Tree, nullLinks: bool, dir: Inode, rest: string, k: nat,
                                      followLast: bool, fuel: nat)
    requires IsTree(tree) && tree.node(dir).Dir?
    ensures Locate(tree, nullLinks, dir, SkipSlashes(rest), followLast, fuel) ==
            Flat(tree, Posix(false, nullLinks), dir, Parts(NamesAfter(rest), k), followLast, fuel)
    decreases fuel, |rest|, 2
  {
    if SkipSlashes(rest) == "" {
      if rest != "" {
        assert Parts(["."], k) == [Part(".", k)];
        DotAlone(tree, Posix(false, nullLinks), dir, k, followLast, fuel);
      }
    } else {
      SkipTwice(rest);
      LocateIsFlat(tree, nullLinks, dir, SkipSlashes(rest), k, followLast, fuel);
    }
  }

  lemma {:induction false} LocateIsFlat(tree: Tree, nullLinks: bool, dir: Inode, path: string, k: nat,
                                        followLast: bool, fuel: nat)
    requires IsTree(tree) && tree.node(dir).Dir? && !Absolute(path)
    ensures Locate(tree, nullLinks, dir, path, followLast, fuel) ==
            Flat(tree, Posix(false, nullLinks), dir, Parts(Names(path), k), followLast, fuel)
    decreases fuel, |path|, 1
  {
    if path != "" {
      PathParts(path, k);
      var n := TokenLength(path);
      var rest := path[n..];
      if tree.child(dir, path[..n]).Some? {
        var i := tree.child(dir, path[..n]).value;
        if tree.node(i).Dir? {
          RestIsFlat(tree, nullLinks, i, rest, k, followLast, fuel);
        } else if tree.node(i).Link? {
          NamedLinkIsFlat(tree, nullLinks, dir, path, i, k, followLast, fuel);
        }
      }
    }
  }

  /** The same when the first filename is that of a link. */
  lemma {:induction false} NamedLinkIsFlat(tree: Tree, nullLinks: bool, dir: Inode, path: string, i: Inode, k: nat,
                                           followLast: bool, fuel: nat)
    requires IsTree(tree) && tree.node(dir).Dir? && path != "" && path[0] != '/'
    requires tree.child(dir, path[..TokenLength(path)]) == Some(i) && tree.node(i).Link?
    ensures Locate(tree, nullLinks, dir, path, followLast, fuel) ==
            Flat(tree, Posix(false, nullLinks), dir, Parts(Names(path), k), followLast, fuel)
    decreases fuel, |path|, 0
  {
    PathParts(path, k);
    var target, rest := tree.node(i).target, path[TokenLength(path)..];
    var rules, parts := Posix(false, nullLinks), Parts(Names(path), k);
    if (rest != "" || followLast) && fuel > 0 && (target != "" || nullLinks) {
      var combined, start := Combined(target, rest), StartOf(tree, Some(dir), target);
      var inside := Parts(Contents(rules, target, rest == ""), k + 1) + parts[1..];
      calc {
        Locate(tree, nullLinks, dir, path, followLast, fuel);
        { LocateAtLink(tree, nullLinks, dir, path, i, followLast, fuel); }
        Locate(tree, nullLinks, StartOf(tree, Some(dir), combined), SkipSlashes(combined), followLast, fuel - 1);
        { LinkIsFlat(tree, nullLinks, dir, target, rest, k, followLast, fuel - 1); }
        Flat(tree, rules, start, inside, followLast, fuel - 1);
        { FlatAtLink(tree, rules, dir, parts, i, followLast, fuel); }
        Flat(tree, rules, dir, parts, followLast, fuel);
      }
    } else {
      LinkStays(tree, nullLinks, dir, path, i, parts, followLast, fuel);
    }
  }

  lemma LinkStays(tree: Tree, nullLinks: bool, dir: Inode, path: string, i: Inode, parts: seq<Part>, followLast: bool,
                  fuel: nat)
    requires path != "" && path[0] != '/' && tree.child(dir, path[..TokenLength(path)]) == Some(i) && tree.node(i).Link?
    requires parts != [] && parts[0].name == path[..TokenLength(path)]
    requires parts[1..] == [] <==> path[TokenLength(path)..] == ""
    requires (path[TokenLength(path)..] == "" && !followLast) || fuel == 0 || (tree.node(i).target == "" && !nullLinks)
    ensures Locate(tree, nullLinks, dir, path, followLast, fuel) ==
            Flat(tree, Posix(false, nullLinks), dir, parts, followLast, fuel)
  {
  }

  lemma LocateAtLink(tree: Tree, nullLinks: bool, dir: Inode, path: string, i: Inode, followLast: bool, fuel: nat)
    requires path != "" && path[0] != '/' && tree.child(dir, path[..TokenLength(path)]) == Some(i) && tree.node(i).Link?
    requires (path[TokenLength(path)..] != "" || followLast) && fuel > 0 && (tree.node(i).target != "" || nullLinks)
    ensures var combined := Combined(tree.node(i).target, path[TokenLength(path)..]);
            Locate(tree, nullLinks, dir, path, followLast, fuel) ==
            Locate(tree, nullLinks, StartOf(tree, Some(dir), combined), SkipSlashes(combined), followLast, fuel - 1)
  {
  }

  /** A link's contents ahead of the rest of the pathname, string by string and name by name. */
  lemma {:induction false} LinkIsFlat(tree: Tree, nullLinks: bool, dir: Inode, target: string, rest: string, k: nat,
                                      followLast: bool, fuel: nat)
    requires IsTree(tree) && tree.node(dir).Dir? && (rest == "" || rest[0] == '/')
    ensures Locate(tree, nullLinks, StartOf(tree, Some(dir), Combined(target, rest)),
                   SkipSlashes(Combined(target, rest)), followLast, fuel) ==
            Flat(tree, Posix(false, nullLinks), StartOf(tree, Some(dir), target),
                 Parts(Contents(Posix(false, nullLinks), target, rest == ""), k + 1) + Parts(NamesAfter(rest), k),
                 followLast, fuel)
    decreases fuel + 1, 0, 1
  {
    SlashesSkipped(target);
    var start := StartOf(tree, Some(dir), target);
    if rest == "" {
      assert SkipSlashes(rest) == "" && target + "" == target && Combined(target, rest) == target;
      assert Parts(Names(target), k + 1) + Parts([], k) == Parts(Names(target), k + 1);
      SkipTwice(target);
      LocateIsFlat(tree, nullLinks, start, SkipSlashes(target), k + 1, followLast, fuel);
    } else if Components(target) == [] {
      assert Parts([], k + 1) + Parts(NamesAfter(rest), k) == Parts(NamesAfter(rest), k);
      OnlySlashes(target, rest);
      assert StartOf(tree, Some(dir), Combined(target, rest)) == start;
      RestIsFlat(tree, nullLinks, start, rest, k, followLast, fuel);
    } else {
      JoinedIsFlat(tree, nullLinks, start, target, rest, k, followLast, fuel);
    }
  }

  lemma {:induction false} JoinedIsFlat(tree: Tree, nullLinks: bool, start: Inode, target: string, rest: string, k: nat,
                                        followLast: bool, fuel: nat)
    requires IsTree(tree) && tree.node(start).Dir? && Absolute(rest) && Components(target) != []
    ensures Locate(tree, nullLinks, start, SkipSlashes(target + rest), followLast, fuel) ==
            Flat(tree, Posix(false, nullLinks), start, Parts(Components(target), k + 1) + Parts(NamesAfter(rest), k),
                 followLast, fuel)
    decreases fuel + 1, 0, 0
  {
    NamesJoined(target, rest);
    SkipTwice(target + rest);
    LocateIsFlat(tree, nullLinks, start, SkipSlashes(target + rest), k, followLast, fuel);
    PartsJoined(Components(target), NamesAfter(rest), k);
    PartNames(Components(target), k, k + 1);
    DepthsDoNotMatter(tree, Posix(false, nullLinks), start, Parts(Names(target + rest), k),
                      Parts(Components(target), k + 1) + Parts(NamesAfter(rest), k), followLast, fuel);
  }

  lemma {:induction false} OnlySlashes(target: string, rest: string)
    requires SkipSlashes(target) == ""
    ensures SkipSlashes(target + SkipSlashes(rest)) == SkipSlashes(rest)
    decreases |target|
  {
    if target == "" {
      assert target + SkipSlashes(rest) == SkipSlashes(rest);
    } else {
      assert (target + SkipSlashes(rest))[1..] == target[1..] + SkipSlashes(rest);
      OnlySlashes(target[1..], rest);
    }
  }

  /** The walk name by name is the section's resolution of the string. */
  lemma PosixPathIsPathname(tree: Tree, nullLinks: bool, at: Option<Inode>, path: string, follow: nat, fuel: nat)
    requires IsTree(tree) && (at.Some? ==> tree.node(at.value).Dir?)
    ensures PosixPath(tree, Posix(false, nullLinks), at, path, follow, fuel) ==
            Pathname(tree, nullLinks, at, path, follow, fuel)
  {
    if path != "" {
      SkipTwice(path);
      LocateIsFlat(tree, nullLinks, StartOf(tree, at, path), SkipSlashes(path), follow, follow > 0, fuel);
    }
  }
}
