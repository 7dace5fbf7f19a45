/** Path resolution as the code does it: the loop and recursion of `glfs_resolve_at` over an inode cache. */
module PathResolve {

  import opened Wrappers
  import opened PathTree

  // --- the result without a cache ---

  /**
   `loc` as resolution leaves it, with the type that goes into the caller's attributes, and the
   return code. `parent` is set when everything up to the last component was found.
   */
  datatype Loc = Loc(parent: Option<Inode>, name: string, inode: Option<Inode>, kind: Kind, ret: int)

  /** Resolution failed ahead of the last component: `loc` is not touched. */
  function Midway(ret: int): Loc {
    Loc(None, "", None, Invalid, ret)
  }

  function Missing(dir: Inode, name: string, ret: int): Loc {
    Loc(Some(dir), name, None, Invalid, ret)
  }

  /** What the code after the loop makes of where the loop was left. */
  function Finish(parent: Option<Inode>, name: string, more: bool, inode: Option<Inode>, kind: Kind, ret: int): Loc {
    if parent.Some? && more then Midway(ret)
    else Loc(parent, if parent.Some? then name else "", inode, if inode.Some? then kind else Invalid,
             if inode.Some? then 0 else ret)
  }

  function Resolve(tree: Tree, at: Option<Inode>, path: string, follow: nat): Loc
    requires follow <= MAX_FOLLOW + 1
    decreases MAX_FOLLOW + 1 - follow, 1, 0
  {
    var comps := Components(path);
    var start := StartOf(tree, at, path);
    if comps == [] then Loc(None, "", Some(start), if path == "/" then KindOf(tree, start) else Invalid, 0)
    else Walk(tree, start, comps, follow, -1)
  }

  predicate Follows(tree: Tree, i: Inode, last: bool, follow: nat) {
    tree.node(i).Link? && (!last || follow > 0)
  }

  /** The loop over the components, from `dir` on; `ret` is what the return code is so far. */
  function Walk(tree: Tree, dir: Inode, comps: seq<string>, follow: nat, ret: int): Loc
    requires comps != [] && follow <= MAX_FOLLOW + 1
    decreases MAX_FOLLOW + 1 - follow, 0, |comps|
  {
    var c, last := comps[0], |comps| == 1;
    match tree.child(dir, c)
    case None => if last then Missing(dir, c, ret) else Midway(ret)
    case Some(i) =>
      if Follows(tree, i, last, follow) && follow > MAX_FOLLOW then
        if last then Missing(dir, c, -1) else Midway(-1)
      else
        var s := Component(tree, dir, i, last, follow);
        if last then Finish(Some(dir), c, false, s.inode, s.kind, s.ret)
        else if s.inode.Some? && s.kind == Directory then
          Walk(tree, s.inode.value, comps[1..], follow, if Follows(tree, i, last, follow) then s.ret else ret)
        else Midway(-1)
  }

  /** What a component that was found stands for: itself, or what the link it is leads to. */
  function Component(tree: Tree, dir: Inode, i: Inode, last: bool, follow: nat): Loc
    requires follow <= MAX_FOLLOW || !Follows(tree, i, last, follow)
    decreases MAX_FOLLOW + 1 - follow, 0, 0
  {
    if Follows(tree, i, last, follow) && follow <= MAX_FOLLOW
    then Resolve(tree, Some(dir), tree.node(i).target, follow + 1)
    else Loc(None, "", Some(i), KindOf(tree, i), 0)
  }

  /** An inode comes with the return code 0. */
  lemma {:induction false} InodeMeansZero(tree: Tree, at: Option<Inode>, path: string, follow: nat)
    requires follow <= MAX_FOLLOW + 1
    ensures var r := Resolve(tree, at, path, follow); r.inode.Some? ==> r.ret == 0
  {
    if Components(path) != [] {
      WalkInodeMeansZero(tree, StartOf(tree, at, path), Components(path), follow, -1);
    }
  }

  lemma {:induction false} WalkInodeMeansZero(tree: Tree, dir: Inode, comps: seq<string>, follow: nat, ret: int)
    requires comps != [] && follow <= MAX_FOLLOW + 1
    ensures var r := Walk(tree, dir, comps, follow, ret); r.inode.Some? ==> r.ret == 0
    decreases |comps|
  {
    match tree.child(dir, comps[0])
    case None =>
    case Some(i) =>
      var last := |comps| == 1;
      if !last && !(Follows(tree, i, last, follow) && follow > MAX_FOLLOW) {
        var s := Component(tree, dir, i, last, follow);
        if s.inode.Some? && s.kind == Directory {
          var ret' := if Follows(tree, i, last, follow) then s.ret else ret;
          WalkInodeMeansZero(tree, s.inode.value, comps[1..], follow, ret');
        }
      }
  }

  /** A walk that finds something, taken apart after its first component. */
  lemma WalkUnfolds(tree: Tree, dir: Inode, comps: seq<string>, follow: nat, ret: int) returns (i: Inode, ret': int)
    requires comps != [] && follow <= MAX_FOLLOW + 1 && Walk(tree, dir, comps, follow, ret).inode.Some?
    ensures tree.child(dir, comps[0]) == Some(i)
    ensures var last := |comps| == 1;
            && (follow <= MAX_FOLLOW || !Follows(tree, i, last, follow))
            && var s, r := Component(tree, dir, i, last, follow), Walk(tree, dir, comps, follow, ret);
               s.inode.Some? &&
               if last then r.inode == s.inode && r.kind == s.kind
               else s.kind == Directory && r == Walk(tree, s.inode.value, comps[1..], follow, ret')
  {
    i := tree.child(dir, comps[0]).value;
    ret' := if Follows(tree, i, |comps| == 1, follow) then Component(tree, dir, i, |comps| == 1, follow).ret else ret;
  }

  /** A name that is missing from the directory that a link leads to: the return code is 0, and there is no inode. */
  lemma MissAfterLink(tree: Tree, d: Inode, c: string, i: Inode, x: string, follow: nat)
    requires follow <= MAX_FOLLOW && tree.child(d, c) == Some(i) && tree.node(i).Link?
    requires var s := Resolve(tree, Some(d), tree.node(i).target, follow + 1);
             s.inode.Some? && s.kind == Directory && tree.child(s.inode.value, x).None?
    ensures var r := Walk(tree, d, [c, x], follow, -1);
            r.ret == 0 && r.inode.None? && r.parent == Resolve(tree, Some(d), tree.node(i).target, follow + 1).inode
  {
    InodeMeansZero(tree, Some(d), tree.node(i).target, follow + 1);
    assert [c, x][1..] == [x];
  }

  /** No directory holds a link that is empty or consists of several slashes. */
  ghost predicate ProperLinks(tree: Tree) {
    forall d: Inode, c: string :: tree.node(d).Dir? && IsName(c) && tree.child(d, c).Some? ==>
      var node := tree.node(tree.child(d, c).value);
      node.Link? ==> IsProper(node.target)
  }

  /** The type that resolution reports is that of the inode, or is not filled in. */
  ghost predicate KindFits(tree: Tree, r: Loc, filled: bool) {
    r.inode.Some? ==> r.kind == KindOf(tree, r.inode.value) || (!filled && r.kind == Invalid)
  }

  lemma {:induction false} ResolveKind(tree: Tree, at: Option<Inode>, path: string, follow: nat)
    requires follow <= MAX_FOLLOW + 1 && IsTree(tree) && (at.Some? ==> tree.node(at.value).Dir?)
    ensures KindFits(tree, Resolve(tree, at, path, follow), ProperLinks(tree) && IsProper(path))
    decreases MAX_FOLLOW + 1 - follow, 1, 0
  {
    if Components(path) != [] {
      WalkKind(tree, StartOf(tree, at, path), Components(path), follow, -1);
    }
  }

  lemma {:induction false} WalkKind(tree: Tree, dir: Inode, comps: seq<string>, follow: nat, ret: int)
    requires comps != [] && follow <= MAX_FOLLOW + 1 && IsTree(tree) && tree.node(dir).Dir?
    requires forall c <- comps :: IsName(c)
    ensures KindFits(tree, Walk(tree, dir, comps, follow, ret), ProperLinks(tree))
    decreases MAX_FOLLOW + 1 - follow, 0, |comps|
  {
    if Walk(tree, dir, comps, follow, ret).inode.Some? {
      var i, ret' := WalkUnfolds(tree, dir, comps, follow, ret);
      var last := |comps| == 1;
      if Follows(tree, i, last, follow) {
        ResolveKind(tree, Some(dir), tree.node(i).target, follow + 1);
        assert IsName(comps[0]);
      }
      if !last {
        WalkKind(tree, Component(tree, dir, i, last, follow).inode.value, comps[1..], follow, ret');
      }
    }
  }

  // --- the cache ---

  /** A tree seen through an inode table; a name's entry for ".." is the inode's own parent pointer. */
  class Resolver {
    const tree: Tree
    var cache: map<(Inode, string), Inode>

    /** What the cache holds is so. */
    ghost predicate Valid()
      reads this
    {
      IsTree(tree) && forall d, c :: (d, c) in cache ==> tree.child(d, c) == Some(cache[(d, c)])
    }

    constructor (t: Tree)
      requires IsTree(t)
      ensures Valid() && tree == t
    {
      tree, cache := t, map[];
    }

    /** `inode_grep`, `inode_parent`, or the directory itself. */
    method Cached(parent: Inode, c: string) returns (r: Option<Inode>)
      requires Valid() && tree.node(parent).Dir?
      ensures r == if c == "." then Some(parent) else if (parent, c) in cache then Some(cache[(parent, c)]) else None
      ensures r.Some? ==> r == tree.child(parent, c)
    {
      r := if c == "." then Some(parent) else if (parent, c) in cache then Some(cache[(parent, c)]) else None;
    }

    /** `glfs_resolve_component`: from the cache, or looked up and then linked into it. */
    method ResolveComponent(parent: Inode, c: string, forceLookup: bool) returns (inode: Option<Inode>, kind: Kind)
      requires Valid() && tree.node(parent).Dir?
      modifies this
      ensures Valid() && inode == tree.child(parent, c)
      ensures inode.Some? ==> kind == KindOf(tree, inode.value)
      ensures cache == if inode.None? || (!forceLookup && (c == "." || (parent, c) in old(cache))) then old(cache)
                       else old(cache)[(parent, c) := inode.value]
    {
      kind := Invalid;
      inode := Cached(parent, c);
      if inode.Some? && !forceLookup {
        kind := KindOf(tree, inode.value);
        return;
      }
      inode := tree.child(parent, c);
      if inode.Some? {
        kind := KindOf(tree, inode.value);
        cache := cache[(parent, c) := inode.value];
      }
    }

    /**
     `glfs_resolve_at`. The cache, and whether lookups are forced, have no influence on what is
     found.
     */
    method ResolveAt(at: Option<Inode>, path: string, wantIatt: bool, follow: nat, reval: bool) returns (loc: Loc)
      requires Valid() && follow <= MAX_FOLLOW + 1 && (at.Some? ==> tree.node(at.value).Dir?)
      modifies this
      ensures Valid() && loc == Resolve(tree, at, path, follow)
      decreases MAX_FOLLOW + 1 - follow, 1
    {
      var comps := Components(path);
      var inode, parent := Some(StartOf(tree, at, path)), None;
      var ret, kind := -1, Invalid;
      if path == "/" {
        kind := KindOf(tree, inode.value);
      }
      var k := 0;
      var done := comps == [];
      while !done
        invariant Valid() && 0 <= k <= |comps|
        invariant !done ==> k < |comps| && inode.Some? && tree.node(inode.value).Dir?
        invariant !done ==> Resolve(tree, at, path, follow) == Walk(tree, inode.value, comps[k..], follow, ret)
        invariant done && comps != [] ==>
                    && k < |comps| && parent.Some?
                    && Resolve(tree, at, path, follow) ==
                       Finish(parent, comps[k], k + 1 < |comps|, inode, kind, ret)
        invariant comps == [] ==> inode == Some(StartOf(tree, at, path)) && parent.None?
        invariant comps == [] ==> kind == Resolve(tree, at, path, follow).kind
        decreases if done then 0 else |comps| - k
      {
        parent := inode;
        done, inode, kind, ret := OneComponent(comps, k, inode.value, wantIatt, follow, reval, ret);
        if !done {
          k := k + 1;
        }
      }
      loc := Finish(parent, if comps == [] then "" else comps[k], k + 1 < |comps|, inode, kind, ret);
    }

    /** The body of the loop over the components. */
    method OneComponent(comps: seq<string>, k: nat, dir: Inode, wantIatt: bool, follow: nat, reval: bool, ret0: int)
      returns (done: bool, inode: Option<Inode>, kind: Kind, ret: int)
      requires Valid() && k < |comps| && follow <= MAX_FOLLOW + 1 && tree.node(dir).Dir?
      modifies this
      ensures Valid()
      ensures done ==>
                Walk(tree, dir, comps[k..], follow, ret0) ==
                Finish(Some(dir), comps[k], k + 1 < |comps|, inode, kind, ret)
      ensures !done ==> k + 1 < |comps| && inode.Some? && tree.node(inode.value).Dir?
      ensures !done ==>
                Walk(tree, dir, comps[k..], follow, ret0) ==
                Walk(tree, inode.value, comps[k + 1..], follow, ret)
      decreases MAX_FOLLOW + 1 - follow, 0
    {
      var last := k + 1 == |comps|;
      assert comps[k..][1..] == comps[k + 1..];
      ret, done := ret0, true;
      inode, kind := ResolveComponent(dir, comps[k], reval || (last && wantIatt));
      if inode.None? {
        return;
      }
      if kind == Symlink && (!last || follow > 0) {
        if follow > MAX_FOLLOW {
          inode, ret := None, -1;
          return;
        }
        var sym := ResolveAt(Some(dir), tree.node(inode.value).target, true, follow + 1, reval);
        InodeMeansZero(tree, Some(dir), tree.node(inode.value).target, follow + 1);
        ResolveKind(tree, Some(dir), tree.node(inode.value).target, follow + 1);
        inode, ret := if sym.ret == 0 then sym.inode else None, sym.ret;
        kind := if sym.inode.Some? then sym.kind else kind;
      }
      if last {
        return;
      }
      if kind != Directory {
        inode, ret := None, -1;
        return;
      }
      done := false;
    }
  }
}
