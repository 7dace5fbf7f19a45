/** Exactly when path resolution in the code agrees with POSIX, path by path and tree by tree. */
module PathAgreement {

  import opened Wrappers
  import opened PathTree
  import opened PathResolve
  import opened PathWalk
  import opened PathPosix

  // --- a dot at the end ---

  function DirOnly(tree: Tree, o: Option<Inode>): Option<Inode> {
    if o.Some? && tree.node(o.value).Dir? then o else None
  }

  lemma TrailingParts(path: string, k: nat)
    ensures Parts(Names(path), k) ==
            if Trailing(path) then Parts(Components(path), k) + [Part(".", k)] else Parts(Components(path), k)
  {
    NamesAreComponents(path);
    if Trailing(path) {
      PartsJoined(Components(path), ["."], k);
      assert Parts(["."], k) == [Part(".", k)];
    } else {
      assert Components(path) + [] == Components(path);
    }
  }

  /** Under POSIX a dot at the end lets through what is a directory, after the last link was followed. */
  lemma {:induction false} DotAtEnd(tree: Tree, rules: Rules, dir: Inode, x: seq<Part>, k: nat, followLast: bool,
                                    fuel: nat)
    requires IsTree(tree) && tree.node(dir).Dir? && rules.Posix?
    ensures Flat(tree, rules, dir, x + [Part(".", k)], followLast, fuel) ==
            DirOnly(tree, Flat(tree, rules, dir, x, true, fuel))
    decreases fuel, |x|, 1
  {
    var dot := [Part(".", k)];
    if x == [] {
      assert x + dot == dot;
      DotAlone(tree, rules, dir, k, followLast, fuel);
    } else {
      assert (x + dot)[0] == x[0] && (x + dot)[1..] == x[1..] + dot;
      if tree.child(dir, x[0].name).Some? {
        var i := tree.child(dir, x[0].name).value;
        if tree.node(i).Dir? {
          DotAtEnd(tree, rules, i, x[1..], k, followLast, fuel);
        } else if tree.node(i).Link? {
          var target := tree.node(i).target;
          if fuel > 0 && !(Limited(rules) && x[0].depth > MAX_FOLLOW) && !Refused(rules, target, false) {
            DotThroughLink(tree, rules, dir, x, i, k, followLast, fuel);
          }
        }
      }
    }
  }

  lemma {:induction false} DotThroughLink(tree: Tree, rules: Rules, dir: Inode, x: seq<Part>, i: Inode, k: nat,
                                          followLast: bool, fuel: nat)
    requires IsTree(tree) && tree.node(dir).Dir? && rules.Posix?
    requires x != [] && tree.child(dir, x[0].name) == Some(i) && tree.node(i).Link? && fuel > 0
    requires !(Limited(rules) && x[0].depth > MAX_FOLLOW) && !Refused(rules, tree.node(i).target, false)
    ensures Flat(tree, rules, dir, x + [Part(".", k)], followLast, fuel) ==
            DirOnly(tree, Flat(tree, rules, dir, x, true, fuel))
    decreases fuel, |x|, 0
  {
    var target, dot, depth := tree.node(i).target, [Part(".", k)], x[0].depth + 1;
    var start, rest := StartOf(tree, Some(dir), target), x[1..];
    assert (x + dot)[0] == x[0] && (x + dot)[1..] == rest + dot;
    calc {
      Flat(tree, rules, dir, x + dot, followLast, fuel);
      { FlatAtLink(tree, rules, dir, x + dot, i, followLast, fuel); }
      Flat(tree, rules, start, Parts(Components(target), depth) + (rest + dot), followLast, fuel - 1);
      { DotAfterLink(tree, rules, dir, target, depth, rest, k, followLast, fuel - 1); }
      DirOnly(tree, Flat(tree, rules, start, Parts(Contents(rules, target, rest == []), depth) + rest, true, fuel - 1));
      { FlatAtLink(tree, rules, dir, x, i, true, fuel); }
      DirOnly(tree, Flat(tree, rules, dir, x, true, fuel));
    }
  }

  lemma {:induction false} DotAfterLink(tree: Tree, rules: Rules, dir: Inode, target: string, depth: nat,
                                        rest: seq<Part>, k: nat, followLast: bool, fuel: nat)
    requires IsTree(tree) && tree.node(dir).Dir? && rules.Posix?
    ensures var start := StartOf(tree, Some(dir), target);
            Flat(tree, rules, start, Parts(Components(target), depth) + (rest + [Part(".", k)]), followLast, fuel) ==
            DirOnly(tree, Flat(tree, rules, start,
                               Parts(Contents(rules, target, rest == []), depth) + rest, true, fuel))
    decreases fuel + 1, 0, 0
  {
    var start, y, dot := StartOf(tree, Some(dir), target), Parts(Components(target), depth), [Part(".", k)];
    if rest == [] {
      assert y + (rest + dot) == y + dot;
      DotAtEnd(tree, rules, start, y, k, followLast, fuel);
      TrailingParts(target, depth);
      assert Parts(Names(target), depth) + rest == Parts(Names(target), depth);
      if Trailing(target) {
        DotAtEnd(tree, rules, start, y, depth, true, fuel);
      }
    } else {
      assert y + (rest + dot) == (y + rest) + dot;
      DotAtEnd(tree, rules, start, y + rest, k, followLast, fuel);
    }
  }

  /** Following the last link or not makes a difference only if there is one. */
  lemma {:induction false} LastUnfollowed(tree: Tree, rules: Rules, dir: Inode, x: seq<Part>, fuel: nat)
    ensures var u, v := Flat(tree, rules, dir, x, false, fuel), Flat(tree, rules, dir, x, true, fuel);
            (u.None? ==> v.None?) && (u.Some? && !tree.node(u.value).Link? ==> v == u)
    decreases fuel, |x|
  {
    if x != [] && tree.child(dir, x[0].name).Some? {
      var i := tree.child(dir, x[0].name).value;
      match tree.node(i)
      case File =>
      case Dir => LastUnfollowed(tree, rules, i, x[1..], fuel);
      case Link(target) =>
        if x[1..] != [] && fuel > 0 {
          LastUnfollowed(tree, rules, StartOf(tree, Some(dir), target),
                         Parts(Contents(rules, target, false), x[0].depth + 1) + x[1..], fuel - 1);
        }
    }
  }

  // --- links on which the code and POSIX agree ---

  /** The POSIX walk of `path` without a slash at its end. */
  function Stripped(tree: Tree, nullLinks: bool, d: Inode, path: string, depth: nat, followLast: bool,
                    fuel: nat): Option<Inode> {
    Flat(tree, Posix(true, nullLinks), StartOf(tree, Some(d), path), Parts(Components(path), depth), followLast, fuel)
  }

  /** The walk of `path` without its last slash ends only at directories, at every depth a followed link can have. */
  ghost predicate EndsAtDirectories(tree: Tree, nullLinks: bool, d: Inode, path: string) {
    forall depth: nat, n: nat :: 2 <= depth <= MAX_FOLLOW + 1 ==>
      (Stripped(tree, nullLinks, d, path, depth, true, n).Some? ==>
         tree.node(Stripped(tree, nullLinks, d, path, depth, true, n).value).Dir?)
  }

  /** Contents with components, and with a slash at their end only if they lead to directories; or the root alone. */
  ghost predicate GoodLink(tree: Tree, nullLinks: bool, d: Inode, target: string) {
    target == "/" || (Components(target) != [] && (Trailing(target) ==> EndsAtDirectories(tree, nullLinks, d, target)))
  }

  ghost predicate LinkAt(tree: Tree, d: Inode, c: string) {
    tree.node(d).Dir? && IsName(c) && tree.child(d, c).Some? && tree.node(tree.child(d, c).value).Link?
  }

  ghost predicate GoodLinks(tree: Tree, nullLinks: bool) {
    forall d: Inode, c: string :: LinkAt(tree, d, c) ==>
      GoodLink(tree, nullLinks, d, tree.node(tree.child(d, c).value).target)
  }

  ghost predicate AllNames(parts: seq<Part>) {
    forall p <- parts :: IsName(p.name)
  }

  lemma {:induction false} PartsAreNames(comps: seq<string>, depth: nat)
    requires forall c <- comps :: IsName(c)
    ensures AllNames(Parts(comps, depth)) && forall p <- Parts(comps, depth) :: p.depth == depth
  {
    if comps != [] {
      assert IsName(comps[0]);
      PartsAreNames(comps[1..], depth);
    }
  }

  ghost predicate DeepEnough(parts: seq<Part>, followLast: bool) {
    followLast ==> forall p <- parts :: p.depth >= 1
  }

  /** With good links, the code's rules and those of POSIX take a walk to the same place. */
  lemma {:induction false} SameWalk(tree: Tree, nullLinks: bool, dir: Inode, parts: seq<Part>, followLast: bool,
                                    fuel: nat)
    requires IsTree(tree) && tree.node(dir).Dir? && GoodLinks(tree, nullLinks)
    requires AllNames(parts) && DeepEnough(parts, followLast)
    ensures Flat(tree, AsCoded, dir, parts, followLast, fuel) ==
            Flat(tree, Posix(true, nullLinks), dir, parts, followLast, fuel)
    decreases fuel, |parts|, 1
  {
    if parts != [] && tree.child(dir, parts[0].name).Some? {
      var i := tree.child(dir, parts[0].name).value;
      assert parts[0] in parts && IsName(parts[0].name);
      if tree.node(i).Dir? {
        SameWalk(tree, nullLinks, i, parts[1..], followLast, fuel);
      } else if tree.node(i).Link? {
        assert LinkAt(tree, dir, parts[0].name);
        if (parts[1..] != [] || followLast) && fuel > 0 && parts[0].depth <= MAX_FOLLOW {
          SameAtLink(tree, nullLinks, dir, parts, i, followLast, fuel);
        }
      }
    }
  }

  lemma {:induction false} SameAtLink(tree: Tree, nullLinks: bool, dir: Inode, parts: seq<Part>, i: Inode,
                                      followLast: bool, fuel: nat)
    requires IsTree(tree) && tree.node(dir).Dir? && GoodLinks(tree, nullLinks)
    requires parts != [] && AllNames(parts[1..]) && DeepEnough(parts, followLast)
    requires tree.child(dir, parts[0].name) == Some(i) && tree.node(i).Link?
    requires GoodLink(tree, nullLinks, dir, tree.node(i).target)
    requires (parts[1..] != [] || followLast) && fuel > 0 && parts[0].depth <= MAX_FOLLOW
    ensures Flat(tree, AsCoded, dir, parts, followLast, fuel) ==
            Flat(tree, Posix(true, nullLinks), dir, parts, followLast, fuel)
    decreases fuel, |parts|, 0
  {
    var target, depth, rest := tree.node(i).target, parts[0].depth + 1, parts[1..];
    var start := StartOf(tree, Some(dir), target);
    calc {
      Flat(tree, AsCoded, dir, parts, followLast, fuel);
      { FlatAtLink(tree, AsCoded, dir, parts, i, followLast, fuel); }
      Flat(tree, AsCoded, start, Parts(Components(target), depth) + rest, followLast, fuel - 1);
      { SameLink(tree, nullLinks, dir, target, depth, rest, followLast, fuel - 1); }
      Flat(tree, Posix(true, nullLinks), start,
           Parts(Contents(Posix(true, nullLinks), target, rest == []), depth) + rest, followLast, fuel - 1);
      { FlatAtLink(tree, Posix(true, nullLinks), dir, parts, i, followLast, fuel); }
      Flat(tree, Posix(true, nullLinks), dir, parts, followLast, fuel);
    }
  }

  lemma {:induction false} SameLink(tree: Tree, nullLinks: bool, dir: Inode, target: string, depth: nat,
                                    rest: seq<Part>, followLast: bool, fuel: nat)
    requires IsTree(tree) && tree.node(dir).Dir? && GoodLinks(tree, nullLinks) && GoodLink(tree, nullLinks, dir, target)
    requires AllNames(rest) && DeepEnough(rest, followLast) && 1 <= depth <= MAX_FOLLOW + 1
    requires rest == [] ==> followLast && depth >= 2
    ensures var start := StartOf(tree, Some(dir), target);
            Flat(tree, AsCoded, start, Parts(Components(target), depth) + rest, followLast, fuel) ==
            Flat(tree, Posix(true, nullLinks), start,
                 Parts(Contents(Posix(true, nullLinks), target, rest == []), depth) + rest, followLast, fuel)
    decreases fuel + 1, 0, 0
  {
    var start, y := StartOf(tree, Some(dir), target), Parts(Components(target), depth);
    PartsAreNames(Components(target), depth);
    SameWalk(tree, nullLinks, start, y + rest, followLast, fuel);
    if rest == [] {
      TrailingParts(target, depth);
      assert y + rest == y && Parts(Names(target), depth) + rest == Parts(Names(target), depth);
      if Trailing(target) {
        DotAtEnd(tree, Posix(true, nullLinks), start, y, depth, true, fuel);
        assert Stripped(tree, nullLinks, dir, target, depth, true, fuel) ==
               Flat(tree, Posix(true, nullLinks), start, y, true, fuel);
      }
    }
  }

  /** With good links, what leads to a directory under the code's rules does so under those of POSIX. */
  lemma SameDirectories(tree: Tree, nullLinks: bool, d: Inode, path: string, depth: nat)
    requires IsTree(tree) && GoodLinks(tree, nullLinks) && tree.node(d).Dir? && depth > 0
    ensures WalksToDirectory(tree, d, path, depth) <==>
            exists n: nat :: Stripped(tree, nullLinks, d, path, depth, true, n).Some?
                             && tree.node(Stripped(tree, nullLinks, d, path, depth, true, n).value).Dir?
  {
    var start, x := StartOf(tree, Some(d), path), Parts(Components(path), depth);
    forall n: nat
      ensures Flat(tree, AsCoded, start, x + [Part(".", depth)], true, n) ==
              DirOnly(tree, Stripped(tree, nullLinks, d, path, depth, true, n))
    {
      PartsAreNames(Components(path), depth);
      SameWalk(tree, nullLinks, start, x + [Part(".", depth)], true, n);
      DotAtEnd(tree, Posix(true, nullLinks), start, x, depth, true, n);
    }
  }

  // --- agreement on a path ---

  /** The code finds the inode that POSIX resolution, with nesting limited, finds. */
  ghost predicate Agrees(tree: Tree, nullLinks: bool, d: Inode, path: string, follow: nat)
    requires follow <= MAX_FOLLOW + 1
  {
    forall i: Inode :: Resolve(tree, Some(d), path, follow).inode == Some(i) <==>
      exists n: nat :: PosixPath(tree, Posix(true, nullLinks), Some(d), path, follow, n) == Some(i)
  }

  /** What the path without its last slash leads to, if anything, is a directory and not a link to one. */
  ghost predicate NamesDirectory(tree: Tree, nullLinks: bool, d: Inode, path: string, follow: nat) {
    var followLast := follow > 0;
    forall n: nat :: Stripped(tree, nullLinks, d, path, follow, followLast, n).Some? ==>
      tree.node(Stripped(tree, nullLinks, d, path, follow, followLast, n).value).Dir?
  }

  lemma CodedIsPosix(tree: Tree, nullLinks: bool, d: Inode, path: string, follow: nat, n: nat)
    requires IsTree(tree) && GoodLinks(tree, nullLinks) && tree.node(d).Dir?
    ensures CodedPath(tree, Some(d), path, follow, n) == Stripped(tree, nullLinks, d, path, follow, follow > 0, n)
  {
    PartsAreNames(Components(path), follow);
    SameWalk(tree, nullLinks, StartOf(tree, Some(d), path), Parts(Components(path), follow), follow > 0, n);
  }

  /** A path without a slash at its end, or one with a slash that names a directory: the same walk. */
  lemma SamePath(tree: Tree, nullLinks: bool, d: Inode, path: string, follow: nat, n: nat)
    requires IsTree(tree) && GoodLinks(tree, nullLinks) && tree.node(d).Dir? && path != ""
    requires Trailing(path) ==> NamesDirectory(tree, nullLinks, d, path, follow)
    ensures CodedPath(tree, Some(d), path, follow, n) ==
            PosixPath(tree, Posix(true, nullLinks), Some(d), path, follow, n)
  {
    var rules, start, x := Posix(true, nullLinks), StartOf(tree, Some(d), path), Parts(Components(path), follow);
    CodedIsPosix(tree, nullLinks, d, path, follow, n);
    TrailingParts(path, follow);
    if Trailing(path) {
      DotAtEnd(tree, rules, start, x, follow, follow > 0, n);
      LastUnfollowed(tree, rules, start, x, n);
      assert Stripped(tree, nullLinks, d, path, follow, follow > 0, n) == Flat(tree, rules, start, x, follow > 0, n);
    }
  }

  lemma NotDirectory(tree: Tree, nullLinks: bool, d: Inode, path: string, follow: nat, n: nat, i: Inode)
    requires IsTree(tree) && tree.node(d).Dir? && Trailing(path) && !tree.node(i).Dir?
    ensures PosixPath(tree, Posix(true, nullLinks), Some(d), path, follow, n) != Some(i)
  {
    TrailingParts(path, follow);
    var start := StartOf(tree, Some(d), path);
    DotAtEnd(tree, Posix(true, nullLinks), start, Parts(Components(path), follow), follow, follow > 0, n);
  }

  /**
   In a tree of good links the code agrees with POSIX on a path if and only if the path is not null and,
   if it ends in a slash, names a directory without that slash.
   */
  lemma AgreesIff(tree: Tree, nullLinks: bool, d: Inode, path: string, follow: nat)
    requires IsTree(tree) && GoodLinks(tree, nullLinks) && tree.node(d).Dir? && follow <= MAX_FOLLOW + 1
    ensures Agrees(tree, nullLinks, d, path, follow) <==>
            path != "" && (Trailing(path) ==> NamesDirectory(tree, nullLinks, d, path, follow))
  {
    var rules := Posix(true, nullLinks);
    if path == "" {
      assert Resolve(tree, Some(d), path, follow).inode == Some(d);
      assert forall n: nat :: PosixPath(tree, rules, Some(d), path, follow, n).None?;
    } else if Trailing(path) && !NamesDirectory(tree, nullLinks, d, path, follow) {
      var n: nat :| Stripped(tree, nullLinks, d, path, follow, follow > 0, n).Some?
                    && !tree.node(Stripped(tree, nullLinks, d, path, follow, follow > 0, n).value).Dir?;
      CodedIsPosix(tree, nullLinks, d, path, follow, n);
      var i := CodedPath(tree, Some(d), path, follow, n).value;
      ResolveIsFlat(tree, d, path, follow, i);
      forall m: nat ensures PosixPath(tree, rules, Some(d), path, follow, m) != Some(i) {
        NotDirectory(tree, nullLinks, d, path, follow, m, i);
      }
    } else {
      AgreesOnPath(tree, nullLinks, d, path, follow);
    }
  }

  lemma AgreesOnPath(tree: Tree, nullLinks: bool, d: Inode, path: string, follow: nat)
    requires IsTree(tree) && GoodLinks(tree, nullLinks) && tree.node(d).Dir? && follow <= MAX_FOLLOW + 1 && path != ""
    requires Trailing(path) ==> NamesDirectory(tree, nullLinks, d, path, follow)
    ensures Agrees(tree, nullLinks, d, path, follow)
  {
    var rules := Posix(true, nullLinks);
    forall i: Inode ensures Resolve(tree, Some(d), path, follow).inode == Some(i) <==>
      exists n: nat :: PosixPath(tree, rules, Some(d), path, follow, n) == Some(i)
    {
      ResolveIsFlat(tree, d, path, follow, i);
      forall n: nat
        ensures CodedPath(tree, Some(d), path, follow, n) == PosixPath(tree, rules, Some(d), path, follow, n)
      {
        SamePath(tree, nullLinks, d, path, follow, n);
      }
    }
  }

  // --- agreement in a tree ---

  /** Agreement on every path that is not null and does not end in a slash. */
  ghost predicate AgreesEverywhere(tree: Tree, nullLinks: bool) {
    forall d: Inode, path: string, follow: nat ::
      tree.node(d).Dir? && path != "" && !Trailing(path) && follow <= MAX_FOLLOW + 1 ==>
        Agrees(tree, nullLinks, d, path, follow)
  }

  /** With proper links, what POSIX finds the code's rules find too. */
  lemma {:induction false} PosixTakesAway(tree: Tree, nullLinks: bool, dir: Inode, parts: seq<Part>, followLast: bool,
                                          fuel: nat)
    requires IsTree(tree) && tree.node(dir).Dir? && ProperLinks(tree) && AllNames(parts)
    requires Flat(tree, Posix(true, nullLinks), dir, parts, followLast, fuel).Some?
    ensures Flat(tree, AsCoded, dir, parts, followLast, fuel) ==
            Flat(tree, Posix(true, nullLinks), dir, parts, followLast, fuel)
    decreases fuel, |parts|, 1
  {
    if parts != [] {
      var i := tree.child(dir, parts[0].name).value;
      assert parts[0] in parts && IsName(parts[0].name);
      if tree.node(i).Dir? {
        PosixTakesAway(tree, nullLinks, i, parts[1..], followLast, fuel);
      } else if tree.node(i).Link? && (parts[1..] != [] || followLast) {
        TakesAwayAtLink(tree, nullLinks, dir, parts, i, followLast, fuel);
      }
    }
  }

  lemma {:induction false} TakesAwayAtLink(tree: Tree, nullLinks: bool, dir: Inode, parts: seq<Part>, i: Inode,
                                           followLast: bool, fuel: nat)
    requires IsTree(tree) && tree.node(dir).Dir? && ProperLinks(tree) && parts != [] && AllNames(parts[1..])
    requires tree.child(dir, parts[0].name) == Some(i) && tree.node(i).Link? && IsProper(tree.node(i).target)
    requires parts[1..] != [] || followLast
    requires Flat(tree, Posix(true, nullLinks), dir, parts, followLast, fuel).Some?
    ensures Flat(tree, AsCoded, dir, parts, followLast, fuel) ==
            Flat(tree, Posix(true, nullLinks), dir, parts, followLast, fuel)
    decreases fuel, |parts|, 0
  {
    var target, depth, rest := tree.node(i).target, parts[0].depth + 1, parts[1..];
    var start := StartOf(tree, Some(dir), target);
    FlatAtLink(tree, Posix(true, nullLinks), dir, parts, i, followLast, fuel);
    calc {
      Flat(tree, AsCoded, dir, parts, followLast, fuel);
      { FlatAtLink(tree, AsCoded, dir, parts, i, followLast, fuel); }
      Flat(tree, AsCoded, start, Parts(Components(target), depth) + rest, followLast, fuel - 1);
      { LinkTakesAway(tree, nullLinks, dir, target, depth, rest, followLast, fuel - 1); }
      Flat(tree, Posix(true, nullLinks), start,
           Parts(Contents(Posix(true, nullLinks), target, rest == []), depth) + rest, followLast, fuel - 1);
      Flat(tree, Posix(true, nullLinks), dir, parts, followLast, fuel);
    }
  }

  lemma {:induction false} LinkTakesAway(tree: Tree, nullLinks: bool, dir: Inode, target: string, depth: nat,
                                         rest: seq<Part>, followLast: bool, fuel: nat)
    requires IsTree(tree) && tree.node(dir).Dir? && ProperLinks(tree) && AllNames(rest) && (rest == [] ==> followLast)
    requires Flat(tree, Posix(true, nullLinks), StartOf(tree, Some(dir), target),
                  Parts(Contents(Posix(true, nullLinks), target, rest == []), depth) + rest, followLast, fuel).Some?
    ensures var start := StartOf(tree, Some(dir), target);
            Flat(tree, AsCoded, start, Parts(Components(target), depth) + rest, followLast, fuel) ==
            Flat(tree, Posix(true, nullLinks), start,
                 Parts(Contents(Posix(true, nullLinks), target, rest == []), depth) + rest, followLast, fuel)
    decreases fuel + 1, 0, 0
  {
    var start, y := StartOf(tree, Some(dir), target), Parts(Components(target), depth);
    PartsAreNames(Components(target), depth);
    if rest == [] {
      TrailingParts(target, depth);
      assert y + rest == y && Parts(Names(target), depth) + rest == Parts(Names(target), depth);
      if Trailing(target) {
        DotAtEnd(tree, Posix(true, nullLinks), start, y, depth, true, fuel);
      }
    }
    PosixTakesAway(tree, nullLinks, start, y + rest, followLast, fuel);
  }

  lemma NameAlone(c: string, depth: nat)
    requires IsName(c)
    ensures Components(c) == [c] && Names(c) == [c] && !Absolute(c) && !Trailing(c)
    ensures Parts([c], depth) == [Part(c, depth)] && [Part(c, depth)][1..] == []
  {
    ComponentsOfName(c);
    assert c[|c| - 1] in c;
    NamesAreComponents(c);
    assert [c] + [] == [c];
  }

  /** The code follows a link as if its contents did not end in a slash. */
  lemma CodeForgetsSlash(tree: Tree, nullLinks: bool, d: Inode, c: string, i: Inode, depth: nat, n: nat)
    requires IsTree(tree) && ProperLinks(tree) && LinkAt(tree, d, c) && tree.child(d, c) == Some(i)
    requires 2 <= depth <= MAX_FOLLOW + 1 && Stripped(tree, nullLinks, d, tree.node(i).target, depth, true, n).Some?
    ensures Resolve(tree, Some(d), c, depth - 1).inode ==
            Stripped(tree, nullLinks, d, tree.node(i).target, depth, true, n)
  {
    var target, follow := tree.node(i).target, depth - 1;
    var start, y := StartOf(tree, Some(d), target), Parts(Components(target), depth);
    PartsAreNames(Components(target), depth);
    PosixTakesAway(tree, nullLinks, start, y, true, n);
    NameAlone(c, follow);
    assert y + [] == y;
    FlatAtLink(tree, AsCoded, d, [Part(c, follow)], i, true, n + 1);
    assert CodedPath(tree, Some(d), c, follow, n + 1) == Flat(tree, AsCoded, start, y, true, n);
    ResolveIsFlat(tree, d, c, follow, Flat(tree, AsCoded, start, y, true, n).value);
  }

  /** Under POSIX such a link stands for its contents, as far as they lead to a directory. */
  lemma SlashedLink(tree: Tree, rules: Rules, d: Inode, part: Part, i: Inode, m: nat)
    requires IsTree(tree) && tree.node(d).Dir? && rules.Posix? && part.depth <= MAX_FOLLOW && m > 0
    requires tree.child(d, part.name) == Some(i) && tree.node(i).Link? && Trailing(tree.node(i).target)
    ensures var target := tree.node(i).target;
            var y := Parts(Components(target), part.depth + 1);
            Flat(tree, rules, d, [part], true, m)
            == DirOnly(tree, Flat(tree, rules, StartOf(tree, Some(d), target), y, true, m - 1))
  {
    var target, k := tree.node(i).target, part.depth + 1;
    var start, y, dot := StartOf(tree, Some(d), target), Parts(Components(target), k), [Part(".", k)];
    var parts := [part];
    assert parts[1..] == [] && target != "";
    assert Parts(Names(target), k) + parts[1..] == y + dot by {
      TrailingParts(target, k);
    }
    calc {
      Flat(tree, rules, d, parts, true, m);
      { FlatAtLink(tree, rules, d, parts, i, true, m); }
      Flat(tree, rules, start, Parts(Names(target), k) + parts[1..], true, m - 1);
      Flat(tree, rules, start, y + dot, true, m - 1);
      { DotAtEnd(tree, rules, start, y, k, true, m - 1); }
      DirOnly(tree, Flat(tree, rules, start, y, true, m - 1));
    }
  }

  /** POSIX does not find anything but a directory through it. */
  lemma PosixMindsSlash(tree: Tree, nullLinks: bool, d: Inode, c: string, i: Inode, follow: nat, m: nat)
    requires IsTree(tree) && LinkAt(tree, d, c) && tree.child(d, c) == Some(i) && Trailing(tree.node(i).target)
    requires 1 <= follow <= MAX_FOLLOW
    ensures var o := Flat(tree, Posix(true, nullLinks), d, [Part(c, follow)], true, m);
            o.Some? ==> tree.node(o.value).Dir?
  {
    assert [Part(c, follow)][1..] == [];
    if m > 0 {
      SlashedLink(tree, Posix(true, nullLinks), d, Part(c, follow), i, m);
    }
  }

  /** A link that ends in a slash and leads to something else than a directory: the code finds that, POSIX does not. */
  lemma SlashIsForgotten(tree: Tree, nullLinks: bool, d: Inode, c: string, follow: nat, n: nat)
    requires IsTree(tree) && ProperLinks(tree) && LinkAt(tree, d, c) && 1 <= follow <= MAX_FOLLOW
    requires var target := tree.node(tree.child(d, c).value).target;
             var o := Stripped(tree, nullLinks, d, target, follow + 1, true, n);
             Trailing(target) && o.Some? && !tree.node(o.value).Dir?
    ensures !Trailing(c) && !Agrees(tree, nullLinks, d, c, follow)
  {
    var i := tree.child(d, c).value;
    var j := Stripped(tree, nullLinks, d, tree.node(i).target, follow + 1, true, n).value;
    NameAlone(c, follow);
    CodeForgetsSlash(tree, nullLinks, d, c, i, follow + 1, n);
    forall m: nat ensures PosixPath(tree, Posix(true, nullLinks), Some(d), c, follow, m) != Some(j) {
      PosixMindsSlash(tree, nullLinks, d, c, i, follow, m);
    }
  }

  /** An empty link, where POSIX resolution is to fail on it: the code finds its directory. */
  lemma NullLinkIsFound(tree: Tree, d: Inode, c: string)
    requires IsTree(tree) && LinkAt(tree, d, c) && tree.node(tree.child(d, c).value).target == ""
    ensures !Trailing(c) && !Agrees(tree, false, d, c, 1)
  {
    NameAlone(c, 1);
    assert Resolve(tree, Some(d), "", 2).inode == Some(d);
    assert Resolve(tree, Some(d), c, 1).inode == Some(d);
    forall m: nat ensures PosixPath(tree, Posix(true, false), Some(d), c, 1, m).None? {
    }
  }

  /** A link that is empty or several slashes, followed by a dot: POSIX finds a directory, the code nothing. */
  lemma ImproperLinkIsLost(tree: Tree, nullLinks: bool, d: Inode, c: string)
    requires IsTree(tree) && LinkAt(tree, d, c) && !IsProper(tree.node(tree.child(d, c).value).target)
    requires tree.node(tree.child(d, c).value).target == "" ==> nullLinks
    ensures !Trailing(c + "/" + ".") && !Agrees(tree, nullLinks, d, c + "/" + ".", 1)
  {
    ComponentsOfTwo(c, ".");
    NamesAreComponents(c + "/" + ".");
    assert [c, "."] + [] == [c, "."] && [c, "."][1..] == ["."];
    var target := tree.node(tree.child(d, c).value).target;
    assert Components(target) == [] && Resolve(tree, Some(d), target, 2).kind == Invalid;
    DotIsFound(tree, nullLinks, d, c, target);
    var path, i := c + "/" + ".", StartOf(tree, Some(d), target);
    assert path[|path| - 1] == '.';
    assert PosixPath(tree, Posix(true, nullLinks), Some(d), path, 1, 1) == Some(i);
    assert Walk(tree, d, [c, "."], 1, -1).inode.None?;
    assert Resolve(tree, Some(d), path, 1).inode != Some(i);
  }

  lemma DotIsFound(tree: Tree, nullLinks: bool, d: Inode, c: string, target: string)
    requires IsTree(tree) && tree.node(d).Dir? && tree.child(d, c).Some? && (target == "" ==> nullLinks)
    requires tree.node(tree.child(d, c).value) == Link(target) && Components(target) == []
    ensures Flat(tree, Posix(true, nullLinks), d, Parts([c, "."], 1), true, 1) == Some(StartOf(tree, Some(d), target))
  {
    var rules, start, parts := Posix(true, nullLinks), StartOf(tree, Some(d), target), [Part(c, 1), Part(".", 1)];
    assert parts[1..] == [Part(".", 1)] && Parts([], 2) + parts[1..] == [Part(".", 1)];
    calc {
      Flat(tree, rules, d, Parts([c, "."], 1), true, 1);
      { TwoParts(c, 1); }
      Flat(tree, rules, d, parts, true, 1);
      { FlatAtLink(tree, rules, d, parts, tree.child(d, c).value, true, 1); }
      Flat(tree, rules, start, [Part(".", 1)], true, 0);
      { DotAlone(tree, rules, start, 1, true, 0); }
      Some(start);
    }
  }

  lemma TwoParts(c: string, k: nat)
    ensures Parts([c, "."], k) == [Part(c, k), Part(".", k)]
  {
    assert [c, "."] == [c] + ["."];
    PartsJoined([c], ["."], k);
    assert Parts([c], k) == [Part(c, k)] && Parts(["."], k) == [Part(".", k)];
  }

  lemma GoodLinksAgree(tree: Tree, nullLinks: bool)
    requires IsTree(tree) && GoodLinks(tree, nullLinks)
    ensures AgreesEverywhere(tree, nullLinks)
  {
    forall d: Inode, path: string, follow: nat |
      tree.node(d).Dir? && path != "" && !Trailing(path) && follow <= MAX_FOLLOW + 1
      ensures Agrees(tree, nullLinks, d, path, follow)
    {
      AgreesOnPath(tree, nullLinks, d, path, follow);
    }
  }

  lemma BadSlashDisagrees(tree: Tree, nullLinks: bool, d: Inode, c: string)
    requires IsTree(tree) && ProperLinks(tree) && LinkAt(tree, d, c)
    requires !GoodLink(tree, nullLinks, d, tree.node(tree.child(d, c).value).target)
    ensures !AgreesEverywhere(tree, nullLinks)
  {
    var target := tree.node(tree.child(d, c).value).target;
    assert IsProper(target);
    var depth: nat, n: nat :|
      2 <= depth <= MAX_FOLLOW + 1 && Stripped(tree, nullLinks, d, target, depth, true, n).Some?
      && !tree.node(Stripped(tree, nullLinks, d, target, depth, true, n).value).Dir?;
    var follow := depth - 1;
    SlashIsForgotten(tree, nullLinks, d, c, follow, n);
    assert c != "" && !Agrees(tree, nullLinks, d, c, follow);
  }

  lemma ImproperLinkDisagrees(tree: Tree, nullLinks: bool, d: Inode, c: string)
    requires IsTree(tree) && LinkAt(tree, d, c) && !IsProper(tree.node(tree.child(d, c).value).target)
    ensures !AgreesEverywhere(tree, nullLinks)
  {
    if tree.node(tree.child(d, c).value).target == "" && !nullLinks {
      NullLinkIsFound(tree, d, c);
    } else {
      ImproperLinkIsLost(tree, nullLinks, d, c);
    }
  }

  /** The code agrees with POSIX on all paths that do not end in a slash if and only if all links are good. */
  lemma GoodLinksIff(tree: Tree, nullLinks: bool)
    requires IsTree(tree)
    ensures AgreesEverywhere(tree, nullLinks) <==> GoodLinks(tree, nullLinks)
  {
    if GoodLinks(tree, nullLinks) {
      GoodLinksAgree(tree, nullLinks);
    } else if ProperLinks(tree) {
      var d: Inode, c: string :|
        LinkAt(tree, d, c) && !GoodLink(tree, nullLinks, d, tree.node(tree.child(d, c).value).target);
      BadSlashDisagrees(tree, nullLinks, d, c);
    } else {
      var d: Inode, c: string :| LinkAt(tree, d, c) && !IsProper(tree.node(tree.child(d, c).value).target);
      ImproperLinkDisagrees(tree, nullLinks, d, c);
    }
  }

  // --- agreement with the section itself ---

  /** The limit on nesting takes away, and changes nothing else. */
  lemma {:induction false} LimitOnlyTakesAway(tree: Tree, nullLinks: bool, dir: Inode, parts: seq<Part>,
                                              followLast: bool, fuel: nat)
    requires Flat(tree, Posix(true, nullLinks), dir, parts, followLast, fuel).Some?
    ensures Flat(tree, Posix(false, nullLinks), dir, parts, followLast, fuel) ==
            Flat(tree, Posix(true, nullLinks), dir, parts, followLast, fuel)
    decreases fuel, |parts|
  {
    if parts != [] {
      var i, rest := tree.child(dir, parts[0].name).value, parts[1..];
      match tree.node(i)
      case Link(target) =>
        if rest != [] || followLast {
          LimitOnlyTakesAway(tree, nullLinks, StartOf(tree, Some(dir), target),
                             Parts(Contents(Posix(true, nullLinks), target, rest == []), parts[0].depth + 1) + rest,
                             followLast, fuel - 1);
        }
      case Dir => LimitOnlyTakesAway(tree, nullLinks, i, rest, followLast, fuel);
      case File =>
    }
  }

  lemma {:induction false} PartsDepth(comps: seq<string>, depth: nat)
    ensures forall p <- Parts(comps, depth) :: p.depth == depth
  {
    if comps != [] {
      PartsDepth(comps[1..], depth);
    }
  }

  /** Parts so few links deep that replacing `fuel` more stays within the limit. */
  ghost predicate Shallow(parts: seq<Part>, fuel: nat) {
    forall p <- parts :: p.depth + fuel <= MAX_FOLLOW + 1
  }

  lemma ShallowAfterLink(comps: seq<string>, parts: seq<Part>, fuel: nat)
    requires parts != [] && fuel > 0 && Shallow(parts, fuel)
    ensures Shallow(Parts(comps, parts[0].depth + 1) + parts[1..], fuel - 1) && parts[0].depth <= MAX_FOLLOW
  {
    assert parts[0] in parts;
    PartsDepth(comps, parts[0].depth + 1);
  }

  /** And it takes nothing away from a walk through few links. */
  lemma {:induction false} FewLinksAreWithin(tree: Tree, nullLinks: bool, dir: Inode, parts: seq<Part>,
                                             followLast: bool, fuel: nat)
    requires Shallow(parts, fuel)
    ensures Flat(tree, Posix(true, nullLinks), dir, parts, followLast, fuel) ==
            Flat(tree, Posix(false, nullLinks), dir, parts, followLast, fuel)
    decreases fuel, |parts|, 1
  {
    if parts != [] && tree.child(dir, parts[0].name).Some? {
      var i, rest := tree.child(dir, parts[0].name).value, parts[1..];
      match tree.node(i)
      case Link(target) =>
        if (rest != [] || followLast) && fuel > 0 && !Refused(Posix(true, nullLinks), target, rest == []) {
          FewLinksThrough(tree, nullLinks, dir, parts, i, followLast, fuel);
        }
      case Dir => FewLinksAreWithin(tree, nullLinks, i, rest, followLast, fuel);
      case File =>
    }
  }

  lemma {:induction false} FewLinksThrough(tree: Tree, nullLinks: bool, dir: Inode, parts: seq<Part>, i: Inode,
                                           followLast: bool, fuel: nat)
    requires Shallow(parts, fuel) && parts != [] && tree.child(dir, parts[0].name) == Some(i) && tree.node(i).Link?
    requires (parts[1..] != [] || followLast) && fuel > 0
    requires !Refused(Posix(true, nullLinks), tree.node(i).target, parts[1..] == [])
    ensures Flat(tree, Posix(true, nullLinks), dir, parts, followLast, fuel) ==
            Flat(tree, Posix(false, nullLinks), dir, parts, followLast, fuel)
    decreases fuel, |parts|, 0
  {
    var target, rest := tree.node(i).target, parts[1..];
    var start := StartOf(tree, Some(dir), target);
    var inside := Parts(Contents(Posix(true, nullLinks), target, rest == []), parts[0].depth + 1) + rest;
    ShallowAfterLink(Contents(Posix(true, nullLinks), target, rest == []), parts, fuel);
    calc {
      Flat(tree, Posix(true, nullLinks), dir, parts, followLast, fuel);
      { FlatAtLink(tree, Posix(true, nullLinks), dir, parts, i, followLast, fuel); }
      Flat(tree, Posix(true, nullLinks), start, inside, followLast, fuel - 1);
      { FewLinksAreWithin(tree, nullLinks, start, inside, followLast, fuel - 1); }
      Flat(tree, Posix(false, nullLinks), start, inside, followLast, fuel - 1);
      { FlatAtLink(tree, Posix(false, nullLinks), dir, parts, i, followLast, fuel); }
      Flat(tree, Posix(false, nullLinks), dir, parts, followLast, fuel);
    }
  }

  /**
   On a path where the code agrees, what it finds is what the section's resolution of the string finds,
   and what that finds through no more links than the limit, the code finds.
   */
  lemma AgreementIsWithPathname(tree: Tree, nullLinks: bool, d: Inode, path: string, follow: nat, i: Inode)
    requires IsTree(tree) && tree.node(d).Dir? && follow <= MAX_FOLLOW + 1 && Agrees(tree, nullLinks, d, path, follow)
    ensures Resolve(tree, Some(d), path, follow).inode == Some(i) ==>
              exists n: nat :: Pathname(tree, nullLinks, Some(d), path, follow, n) == Some(i)
    ensures forall n: nat :: follow + n <= MAX_FOLLOW + 1 ==>
              (Pathname(tree, nullLinks, Some(d), path, follow, n) == Some(i) ==>
                 Resolve(tree, Some(d), path, follow).inode == Some(i))
  {
    var start, parts := StartOf(tree, Some(d), path), Parts(Names(path), follow);
    if Resolve(tree, Some(d), path, follow).inode == Some(i) {
      var n: nat :| PosixPath(tree, Posix(true, nullLinks), Some(d), path, follow, n) == Some(i);
      LimitOnlyTakesAway(tree, nullLinks, start, parts, follow > 0, n);
      PosixPathIsPathname(tree, nullLinks, Some(d), path, follow, n);
    }
    forall n: nat | follow + n <= MAX_FOLLOW + 1 && Pathname(tree, nullLinks, Some(d), path, follow, n) == Some(i)
      ensures Resolve(tree, Some(d), path, follow).inode == Some(i)
    {
      PosixPathIsPathname(tree, nullLinks, Some(d), path, follow, n);
      PartsDepth(Names(path), follow);
      FewLinksAreWithin(tree, nullLinks, start, parts, follow > 0, n);
      assert PosixPath(tree, Posix(true, nullLinks), Some(d), path, follow, n) == Some(i);
    }
  }

  /** Inputs on which the code and the section differ in every tree: the null path, and a file's name with a slash. */
  lemma NullPathAndSlashedFile(tree: Tree, nullLinks: bool, d: Inode, c: string, i: Inode, follow: nat, n: nat)
    requires IsTree(tree) && tree.node(d).Dir? && IsName(c) && tree.child(d, c) == Some(i) && tree.node(i).File?
    requires follow <= MAX_FOLLOW + 1
    ensures Resolve(tree, Some(d), "", follow).inode == Some(d)
    ensures Pathname(tree, nullLinks, Some(d), "", follow, n).None?
    ensures Resolve(tree, Some(d), c + "/", follow).inode == Some(i)
    ensures Pathname(tree, nullLinks, Some(d), c + "/", follow, n).None?
  {
    TokenOfName(c, "/");
    var path := c + "/";
    assert path[..|c|] == c && path[|c|..] == "/" && "/"[1..] == "";
    assert Components(path) == [c] && !Absolute(path) && SkipSlashes(path) == path;
    assert Walk(tree, d, [c], follow, -1).inode == Some(i);
  }
}
