/**
 A walk without recursion, in which the contents of a link replace its name, under the rules of
 POSIX or under those that the code's recursion comes down to.
 */
module PathWalk {

  import opened Wrappers
  import opened PathTree
  import opened PathResolve

  /** A component still to be taken, and how many links it was inside of when it was written out. */
  datatype Part = Part(name: string, depth: nat)

  function Parts(comps: seq<string>, depth: nat): (r: seq<Part>)
    ensures |r| == |comps|
  {
    if comps == [] then [] else [Part(comps[0], depth)] + Parts(comps[1..], depth)
  }

  /**
   Under `AsCoded` a slash at the end of a link's contents is forgotten, a link that is empty or
   consists of several slashes cannot be followed by anything, and nesting is limited. Under
   `Posix` a slash at the end demands a directory; an empty link stands for its directory if
   `nullLinks`, and for nothing otherwise, which POSIX leaves open; nesting is limited if `limited`.
   */
  datatype Rules = AsCoded | Posix(limited: bool, nullLinks: bool)

  predicate Limited(rules: Rules) {
    rules.AsCoded? || rules.limited
  }

  predicate Refused(rules: Rules, target: string, last: bool) {
    match rules
    case AsCoded => !last && !IsProper(target)
    case Posix(_, nullLinks) => target == "" && !nullLinks
  }

  /** The names that a link's contents stand for. */
  function Contents(rules: Rules, target: string, last: bool): seq<string> {
    if rules.Posix? && last then Names(target) else Components(target)
  }

  /** Components are taken one at a time; at most `fuel` links are replaced. */
  function Flat(tree: Tree, rules: Rules, dir: Inode, parts: seq<Part>, followLast: bool, fuel: nat): Option<Inode>
    decreases fuel, |parts|
  {
    if parts == [] then Some(dir)
    else
      var Part(name, depth) := parts[0];
      var rest := parts[1..];
      match tree.child(dir, name)
      case None => None
      case Some(i) =>
        match tree.node(i)
        case Link(target) =>
          if rest == [] && !followLast then Some(i)
          else if fuel == 0 || (Limited(rules) && depth > MAX_FOLLOW) || Refused(rules, target, rest == []) then None
          else
            Flat(tree, rules, StartOf(tree, Some(dir), target),
                 Parts(Contents(rules, target, rest == []), depth + 1) + rest, followLast, fuel - 1)
        case Dir => Flat(tree, rules, i, rest, followLast, fuel)
        case File => if rest == [] then Some(i) else None
  }

  /** What the walk under the code's rules finds for `path`. */
  function CodedPath(tree: Tree, at: Option<Inode>, path: string, follow: nat, fuel: nat): Option<Inode> {
    Flat(tree, AsCoded, StartOf(tree, at, path), Parts(Components(path), follow), follow > 0, fuel)
  }

  lemma DotAlone(tree: Tree, rules: Rules, dir: Inode, depth: nat, followLast: bool, fuel: nat)
    requires IsTree(tree) && tree.node(dir).Dir?
    ensures Flat(tree, rules, dir, [Part(".", depth)], followLast, fuel) == Some(dir)
  {
    assert [Part(".", depth)][1..] == [];
  }

  /** A link that is replaced. */
  lemma FlatAtLink(tree: Tree, rules: Rules, dir: Inode, parts: seq<Part>, i: Inode, followLast: bool, fuel: nat)
    requires parts != [] && tree.child(dir, parts[0].name) == Some(i) && tree.node(i).Link?
    requires (parts[1..] != [] || followLast) && fuel > 0 && !(Limited(rules) && parts[0].depth > MAX_FOLLOW)
    requires !Refused(rules, tree.node(i).target, parts[1..] == [])
    ensures var target := tree.node(i).target;
            Flat(tree, rules, dir, parts, followLast, fuel) ==
            Flat(tree, rules, StartOf(tree, Some(dir), target),
                 Parts(Contents(rules, target, parts[1..] == []), parts[0].depth + 1) + parts[1..],
                 followLast, fuel - 1)
  {
  }

  /** A walk that gets past a link has replaced it. */
  lemma FlatPastLink(tree: Tree, rules: Rules, dir: Inode, parts: seq<Part>, i: Inode, followLast: bool, fuel: nat)
    requires parts != [] && tree.child(dir, parts[0].name) == Some(i) && tree.node(i).Link?
    requires (parts[1..] != [] || followLast) && Flat(tree, rules, dir, parts, followLast, fuel).Some?
    ensures fuel > 0 && !(Limited(rules) && parts[0].depth > MAX_FOLLOW)
    ensures !Refused(rules, tree.node(i).target, parts[1..] == [])
  {
  }

  // --- resolution finds what the walk finds ---

  /** The number of links that resolution replaces. */
  function Cost(tree: Tree, at: Option<Inode>, path: string, follow: nat): nat
    requires follow <= MAX_FOLLOW + 1
    decreases MAX_FOLLOW + 1 - follow, 1, 0
  {
    if Components(path) == [] then 0 else WalkCost(tree, StartOf(tree, at, path), Components(path), follow)
  }

  function WalkCost(tree: Tree, dir: Inode, comps: seq<string>, follow: nat): nat
    requires comps != [] && follow <= MAX_FOLLOW + 1
    decreases MAX_FOLLOW + 1 - follow, 0, |comps|
  {
    var last := |comps| == 1;
    match tree.child(dir, comps[0])
    case None => 0
    case Some(i) =>
      if Follows(tree, i, last, follow) && follow > MAX_FOLLOW then 0
      else
        var s := Component(tree, dir, i, last, follow);
        var here := ComponentCost(tree, dir, i, last, follow);
        if last || s.inode.None? then here else here + WalkCost(tree, s.inode.value, comps[1..], follow)
  }

  function ComponentCost(tree: Tree, dir: Inode, i: Inode, last: bool, follow: nat): nat
    requires follow <= MAX_FOLLOW || !Follows(tree, i, last, follow)
    decreases MAX_FOLLOW + 1 - follow, 0, 0
  {
    if Follows(tree, i, last, follow) && follow <= MAX_FOLLOW
    then 1 + Cost(tree, Some(dir), tree.node(i).target, follow + 1) else 0
  }

  /** What resolution finds is where the walk of the same components gets to, whatever follows them. */
  lemma {:induction false} WalkIsSound(tree: Tree, dir: Inode, comps: seq<string>, follow: nat, ret: int,
                                       rest: seq<Part>, followLast: bool, fuel: nat, n: nat)
    requires comps != [] && follow <= MAX_FOLLOW + 1 && n == fuel + WalkCost(tree, dir, comps, follow)
    requires Walk(tree, dir, comps, follow, ret).inode.Some?
    requires if rest == [] then followLast == (follow > 0)
             else follow > 0 && Walk(tree, dir, comps, follow, ret).kind == Directory
    ensures Flat(tree, AsCoded, dir, Parts(comps, follow) + rest, followLast, n) ==
            Flat(tree, AsCoded, Walk(tree, dir, comps, follow, ret).inode.value, rest, followLast, fuel)
    decreases MAX_FOLLOW + 1 - follow, 0, |comps|
  {
    var i, ret' := WalkUnfolds(tree, dir, comps, follow, ret);
    if |comps| == 1 {
      assert Parts(comps, follow) == [Part(comps[0], follow)];
      ComponentIsSound(tree, dir, comps[0], i, true, follow, rest, followLast, fuel, n);
    } else {
      var s, tail := Component(tree, dir, i, false, follow), comps[1..];
      var m := fuel + WalkCost(tree, s.inode.value, tail, follow);
      assert Parts(comps, follow) + rest == [Part(comps[0], follow)] + (Parts(tail, follow) + rest);
      ComponentIsSound(tree, dir, comps[0], i, false, follow, Parts(tail, follow) + rest, followLast, m, n);
      WalkIsSound(tree, s.inode.value, tail, follow, ret', rest, followLast, fuel, m);
    }
  }

  lemma {:induction false} ComponentIsSound(tree: Tree, dir: Inode, c: string, i: Inode, last: bool, follow: nat,
                                            rest: seq<Part>, followLast: bool, fuel: nat, n: nat)
    requires follow <= MAX_FOLLOW + 1 && (follow <= MAX_FOLLOW || !Follows(tree, i, last, follow))
    requires tree.child(dir, c) == Some(i) && Component(tree, dir, i, last, follow).inode.Some?
    requires n == fuel + ComponentCost(tree, dir, i, last, follow)
    requires if rest == [] then followLast == (!last || follow > 0)
             else (!last || follow > 0) && Component(tree, dir, i, last, follow).kind == Directory
    ensures Flat(tree, AsCoded, dir, [Part(c, follow)] + rest, followLast, n) ==
            Flat(tree, AsCoded, Component(tree, dir, i, last, follow).inode.value, rest, followLast, fuel)
    decreases MAX_FOLLOW + 1 - follow, 0, 0
  {
    assert ([Part(c, follow)] + rest)[1..] == rest;
    if Follows(tree, i, last, follow) {
      ResolveIsSound(tree, Some(dir), tree.node(i).target, follow + 1, rest, followLast, fuel, n - 1);
    }
  }

  lemma {:induction false} ResolveIsSound(tree: Tree, at: Option<Inode>, path: string, follow: nat,
                                          rest: seq<Part>, followLast: bool, fuel: nat, n: nat)
    requires follow <= MAX_FOLLOW + 1 && n == fuel + Cost(tree, at, path, follow)
    requires Resolve(tree, at, path, follow).inode.Some?
    requires if rest == [] then followLast == (follow > 0)
             else follow > 0 && Resolve(tree, at, path, follow).kind == Directory
    ensures Flat(tree, AsCoded, StartOf(tree, at, path), Parts(Components(path), follow) + rest, followLast, n) ==
            Flat(tree, AsCoded, Resolve(tree, at, path, follow).inode.value, rest, followLast, fuel)
    decreases MAX_FOLLOW + 1 - follow, 1, 0
  {
    if Components(path) == [] {
      assert Parts(Components(path), follow) + rest == rest;
    } else {
      WalkIsSound(tree, StartOf(tree, at, path), Components(path), follow, -1, rest, followLast, fuel, n);
    }
  }

  /** When `parent` is set, it is where the walk of all components but the last gets to. */
  lemma {:induction false} ParentIsPrefix(tree: Tree, dir: Inode, comps: seq<string>, follow: nat, ret: int)
    returns (n: nat)
    requires comps != [] && follow <= MAX_FOLLOW + 1 && Walk(tree, dir, comps, follow, ret).parent.Some?
    ensures Flat(tree, AsCoded, dir, Parts(comps[..|comps| - 1], follow), true, n)
            == Walk(tree, dir, comps, follow, ret).parent
    ensures Walk(tree, dir, comps, follow, ret).name == comps[|comps| - 1]
    decreases |comps|
  {
    n := 0;
    if |comps| > 1 {
      var i := tree.child(dir, comps[0]).value;
      var s, tail := Component(tree, dir, i, false, follow), comps[1..];
      var ret' := if Follows(tree, i, false, follow) then s.ret else ret;
      var early := ParentIsPrefix(tree, s.inode.value, tail, follow, ret');
      var rest := Parts(tail[..|tail| - 1], follow);
      n := early + ComponentCost(tree, dir, i, false, follow);
      ComponentIsSound(tree, dir, comps[0], i, false, follow, rest, true, early, n);
      assert comps[..|comps| - 1][1..] == tail[..|tail| - 1];
    }
  }

  // --- the walk finds what resolution finds ---

  lemma {:induction false} ResolveIsComplete(tree: Tree, at: Option<Inode>, path: string, follow: nat,
                                             rest: seq<Part>, followLast: bool, fuel: nat) returns (left: nat)
    requires IsTree(tree) && (at.Some? ==> tree.node(at.value).Dir?) && follow <= MAX_FOLLOW + 1
    requires Flat(tree, AsCoded, StartOf(tree, at, path), Parts(Components(path), follow) + rest,
                  followLast, fuel).Some?
    requires if rest == [] then followLast == (follow > 0) else follow > 0 && IsProper(path)
    ensures left <= fuel && Resolve(tree, at, path, follow).inode.Some?
    ensures rest != [] ==> Resolve(tree, at, path, follow).kind == Directory
    ensures Flat(tree, AsCoded, Resolve(tree, at, path, follow).inode.value, rest, followLast, left) ==
            Flat(tree, AsCoded, StartOf(tree, at, path), Parts(Components(path), follow) + rest, followLast, fuel)
    decreases fuel, 1, 0
  {
    if Components(path) == [] {
      assert Parts(Components(path), follow) + rest == rest;
      left := fuel;
    } else {
      left := WalkIsComplete(tree, StartOf(tree, at, path), Components(path), follow, -1, rest, followLast, fuel);
    }
  }

  lemma {:induction false} WalkIsComplete(tree: Tree, dir: Inode, comps: seq<string>, follow: nat, ret: int,
                                          rest: seq<Part>, followLast: bool, fuel: nat) returns (left: nat)
    requires IsTree(tree) && tree.node(dir).Dir? && comps != [] && follow <= MAX_FOLLOW + 1
    requires Flat(tree, AsCoded, dir, Parts(comps, follow) + rest, followLast, fuel).Some?
    requires if rest == [] then followLast == (follow > 0) else follow > 0
    ensures left <= fuel && Walk(tree, dir, comps, follow, ret).inode.Some?
    ensures rest != [] ==> Walk(tree, dir, comps, follow, ret).kind == Directory
    ensures Flat(tree, AsCoded, Walk(tree, dir, comps, follow, ret).inode.value, rest, followLast, left) ==
            Flat(tree, AsCoded, dir, Parts(comps, follow) + rest, followLast, fuel)
    decreases fuel, 0, |comps|
  {
    var i, last, tail := tree.child(dir, comps[0]).value, |comps| == 1, comps[1..];
    var more := Parts(tail, follow) + rest;
    assert (Parts(comps, follow) + rest)[1..] == more;
    assert last ==> more == rest;
    if Follows(tree, i, last, follow) {
      var s := Component(tree, dir, i, last, follow);
      left := LinkIsComplete(tree, dir, comps[0], i, follow, Parts(comps, follow) + rest, more, followLast, fuel);
      if !last {
        left := WalkIsComplete(tree, s.inode.value, tail, follow, s.ret, rest, followLast, left);
      }
    } else if last {
      left := fuel;
    } else {
      left := WalkIsComplete(tree, i, tail, follow, ret, rest, followLast, fuel);
    }
  }

  /** A link ahead of `more`: resolving its contents gets to where the walk goes on. */
  lemma {:induction false} LinkIsComplete(tree: Tree, dir: Inode, name: string, i: Inode, follow: nat, parts: seq<Part>,
                                          more: seq<Part>, followLast: bool, fuel: nat) returns (left: nat)
    requires IsTree(tree) && tree.node(dir).Dir? && follow <= MAX_FOLLOW + 1
    requires tree.child(dir, name) == Some(i) && tree.node(i).Link?
    requires parts != [] && parts[0] == Part(name, follow) && parts[1..] == more
    requires Flat(tree, AsCoded, dir, parts, followLast, fuel).Some?
    requires more == [] ==> followLast
    ensures follow <= MAX_FOLLOW && left < fuel
    ensures var r := Resolve(tree, Some(dir), tree.node(i).target, follow + 1);
            && r.inode.Some? && (more != [] ==> r.kind == Directory && tree.node(r.inode.value).Dir?)
            && Flat(tree, AsCoded, r.inode.value, more, followLast, left)
               == Flat(tree, AsCoded, dir, parts, followLast, fuel)
    decreases fuel, 0, 0
  {
    var target := tree.node(i).target;
    FlatPastLink(tree, AsCoded, dir, parts, i, followLast, fuel);
    FlatAtLink(tree, AsCoded, dir, parts, i, followLast, fuel);
    assert Contents(AsCoded, target, more == []) == Components(target);
    left := ResolveIsComplete(tree, Some(dir), target, follow + 1, more, followLast, fuel - 1);
    ResolveKind(tree, Some(dir), target, follow + 1);
  }

  /** For every tree, resolution finds an inode if and only if the walk under the code's rules gets to it. */
  lemma ResolveIsFlat(tree: Tree, d: Inode, path: string, follow: nat, i: Inode)
    requires IsTree(tree) && tree.node(d).Dir? && follow <= MAX_FOLLOW + 1
    ensures Resolve(tree, Some(d), path, follow).inode == Some(i)
            <==> exists n: nat :: CodedPath(tree, Some(d), path, follow, n) == Some(i)
  {
    assert Parts(Components(path), follow) + [] == Parts(Components(path), follow);
    if Resolve(tree, Some(d), path, follow).inode == Some(i) {
      var n := Cost(tree, Some(d), path, follow);
      ResolveIsSound(tree, Some(d), path, follow, [], follow > 0, 0, n);
      assert CodedPath(tree, Some(d), path, follow, n) == Some(i);
    }
    if n: nat :| CodedPath(tree, Some(d), path, follow, n) == Some(i) {
      var left := ResolveIsComplete(tree, Some(d), path, follow, [], follow > 0, n);
    }
  }

  /** A link that leads to itself is not found. */
  lemma LinkToItself(tree: Tree, d: Inode, c: string, i: Inode, follow: nat)
    requires IsTree(tree) && tree.node(d).Dir?
    requires IsName(c) && tree.child(d, c) == Some(i) && tree.node(i) == Link(c)
    requires 0 < follow <= MAX_FOLLOW + 1
    ensures Resolve(tree, Some(d), c, follow).inode.None?
  {
    if Resolve(tree, Some(d), c, follow).inode.Some? {
      var j := Resolve(tree, Some(d), c, follow).inode.value;
      ResolveIsFlat(tree, d, c, follow, j);
      var n: nat :| CodedPath(tree, Some(d), c, follow, n) == Some(j);
      ComponentsOfName(c);
      assert Parts([c], follow) == [Part(c, follow)];
      RoundAndRound(tree, d, c, i, follow, n);
    }
  }

  lemma {:induction false} RoundAndRound(tree: Tree, d: Inode, c: string, i: Inode, depth: nat, n: nat)
    requires IsName(c) && tree.child(d, c) == Some(i) && tree.node(i) == Link(c)
    ensures Flat(tree, AsCoded, d, [Part(c, depth)], true, n).None?
    decreases n
  {
    ComponentsOfName(c);
    assert [Part(c, depth)][1..] == [] && Parts([c], depth + 1) + [] == [Part(c, depth + 1)];
    if n > 0 {
      RoundAndRound(tree, d, c, i, depth + 1, n - 1);
    }
  }

  // --- the return code ---

  /** What the walk of `path` at nesting depth `depth` gets to is a directory that something can follow. */
  ghost predicate WalksToDirectory(tree: Tree, d: Inode, path: string, depth: nat) {
    exists n: nat ::
      Flat(tree, AsCoded, StartOf(tree, Some(d), path), Parts(Components(path), depth) + [Part(".", depth)],
           true, n).Some?
  }

  /** Resolution reports a directory for a path just when the walk could go on from there, and the path is proper. */
  lemma DirectoryIffWalk(tree: Tree, d: Inode, path: string, follow: nat)
    requires IsTree(tree) && tree.node(d).Dir? && 0 < follow <= MAX_FOLLOW + 1
    ensures Resolve(tree, Some(d), path, follow).inode.Some? && Resolve(tree, Some(d), path, follow).kind == Directory
            <==> IsProper(path) && WalksToDirectory(tree, d, path, follow)
  {
    var r, dot := Resolve(tree, Some(d), path, follow), [Part(".", follow)];
    if r.inode.Some? && r.kind == Directory {
      var n := Cost(tree, Some(d), path, follow);
      ResolveIsSound(tree, Some(d), path, follow, dot, true, 0, n);
      ResolveKind(tree, Some(d), path, follow);
      DotAlone(tree, AsCoded, r.inode.value, follow, true, 0);
      assert WalksToDirectory(tree, d, path, follow);
    } else if IsProper(path) && WalksToDirectory(tree, d, path, follow) {
      var n: nat :|
        Flat(tree, AsCoded, StartOf(tree, Some(d), path), Parts(Components(path), follow) + dot, true, n).Some?;
      var left := ResolveIsComplete(tree, Some(d), path, follow, dot, true, n);
      assert false;
    }
  }

  /** Directory `d` holds under the name `c` a proper link that leads to a directory, at nesting depth `follow`. */
  ghost predicate LinksDirectory(tree: Tree, d: Inode, c: string, follow: nat) {
    && tree.node(d).Dir? && IsName(c) && tree.child(d, c).Some? && tree.node(tree.child(d, c).value).Link?
    && follow <= MAX_FOLLOW && IsProper(tree.node(tree.child(d, c).value).target)
    && WalksToDirectory(tree, d, tree.node(tree.child(d, c).value).target, follow + 1)
  }

  ghost predicate NoLinkToDirectory(tree: Tree) {
    forall d: Inode, c: string, follow: nat :: !LinksDirectory(tree, d, c, follow)
  }

  /** No directory holds every name. */
  ghost predicate NamesAreFree(tree: Tree) {
    forall d: Inode :: tree.node(d).Dir? ==> exists x :: IsName(x) && tree.child(d, x).None?
  }

  ghost predicate ZeroMeansInode(tree: Tree) {
    forall d: Inode, path: string, follow: nat :: tree.node(d).Dir? && follow <= MAX_FOLLOW + 1 ==>
      (Resolve(tree, Some(d), path, follow).ret == 0 ==> Resolve(tree, Some(d), path, follow).inode.Some?)
  }

  lemma {:induction false} ResolveZero(tree: Tree, d: Inode, path: string, follow: nat)
    requires IsTree(tree) && tree.node(d).Dir? && NoLinkToDirectory(tree) && follow <= MAX_FOLLOW + 1
    ensures Resolve(tree, Some(d), path, follow).ret == 0 ==> Resolve(tree, Some(d), path, follow).inode.Some?
    decreases MAX_FOLLOW + 1 - follow, 1, 0
  {
    if Components(path) != [] {
      WalkZero(tree, StartOf(tree, Some(d), path), Components(path), follow);
    }
  }

  lemma {:induction false} WalkZero(tree: Tree, dir: Inode, comps: seq<string>, follow: nat)
    requires IsTree(tree) && tree.node(dir).Dir? && NoLinkToDirectory(tree)
    requires comps != [] && follow <= MAX_FOLLOW + 1 && forall c <- comps :: IsName(c)
    ensures Walk(tree, dir, comps, follow, -1).ret == 0 ==> Walk(tree, dir, comps, follow, -1).inode.Some?
    decreases MAX_FOLLOW + 1 - follow, 0, |comps|
  {
    var c, last := comps[0], |comps| == 1;
    assert IsName(c) && !LinksDirectory(tree, dir, c, follow);
    if tree.child(dir, c).Some? {
      var i := tree.child(dir, c).value;
      if Follows(tree, i, last, follow) {
        if follow <= MAX_FOLLOW {
          DirectoryIffWalk(tree, dir, tree.node(i).target, follow + 1);
          ResolveZero(tree, dir, tree.node(i).target, follow + 1);
        }
      } else if !last && tree.node(i).Dir? {
        WalkZero(tree, i, comps[1..], follow);
      }
    }
  }

  /** A name that is missing behind a link to a directory. */
  lemma ZeroWithoutInode(tree: Tree, d: Inode, c: string, follow: nat)
    requires IsTree(tree) && NamesAreFree(tree) && LinksDirectory(tree, d, c, follow)
    ensures !ZeroMeansInode(tree)
  {
    var i := tree.child(d, c).value;
    var target := tree.node(i).target;
    var s := Resolve(tree, Some(d), target, follow + 1);
    DirectoryIffWalk(tree, d, target, follow + 1);
    ResolveKind(tree, Some(d), target, follow + 1);
    var x :| IsName(x) && tree.child(s.inode.value, x).None?;
    ComponentsOfTwo(c, x);
    MissAfterLink(tree, d, c, i, x, follow);
    var path := c + "/" + x;
    assert Resolve(tree, Some(d), path, follow) == Walk(tree, d, [c, x], follow, -1);
  }

  lemma ZeroIsReliable(tree: Tree)
    requires IsTree(tree) && NoLinkToDirectory(tree)
    ensures ZeroMeansInode(tree)
  {
    forall d: Inode, path: string, follow: nat | tree.node(d).Dir? && follow <= MAX_FOLLOW + 1
      ensures Resolve(tree, Some(d), path, follow).ret == 0 ==> Resolve(tree, Some(d), path, follow).inode.Some?
    {
      ResolveZero(tree, d, path, follow);
    }
  }

  /** The return code 0 always comes with an inode if and only if no proper link leads to a directory. */
  lemma ZeroMeansInodeIff(tree: Tree)
    requires IsTree(tree) && NamesAreFree(tree)
    ensures ZeroMeansInode(tree) <==> NoLinkToDirectory(tree)
  {
    if NoLinkToDirectory(tree) {
      ZeroIsReliable(tree);
    } else {
      var d: Inode, c: string, follow: nat :| LinksDirectory(tree, d, c, follow);
      ZeroWithoutInode(tree, d, c, follow);
    }
  }
}
