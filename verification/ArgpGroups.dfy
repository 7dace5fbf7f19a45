/** The tree of `struct argp`s given to a parse, and the table of groups made from it. */
module ArgpGroups {

  import opened Wrappers
  import opened ArgpTable

  /** `argsDoc` holds the lines of the ARGS_DOC string. */
  datatype Argp = Argp(
    options: Option<seq<Opt>>,
    hasParser: bool,
    argsDoc: Option<seq<string>>,
    children: seq<Argp>)

  predicate NeedsGroup(a: Argp) {
    a.options.Some? || a.hasParser
  }

  /**
   A group owns the child-input slots [childBase, childBase + childCount); its own input is slot
   `parentIndex` of its parent's.
   */
  datatype Group = Group(argp: Argp, parent: Option<nat>, parentIndex: nat, childBase: nat, childCount: nat)

  // --- calc_sizes ---

  function NumGroups(a: Argp): nat
    decreases a, 1
  {
    (if NeedsGroup(a) then 1 else 0) + NumGroupsAll(a.children)
  }

  function NumGroupsAll(kids: seq<Argp>): nat
    decreases kids, 0
  {
    if kids == [] then 0 else NumGroups(kids[0]) + NumGroupsAll(kids[1..])
  }

  function NumChildInputs(a: Argp): nat
    decreases a, 1
  {
    NumChildInputsAll(a.children)
  }

  function NumChildInputsAll(kids: seq<Argp>): nat
    decreases kids, 0
  {
    if kids == [] then 0 else NumChildInputs(kids[0]) + 1 + NumChildInputsAll(kids[1..])
  }

  /** The argps of a tree that get a group, parents before children and siblings in order. */
  function Preorder(a: Argp): seq<Argp>
    decreases a, 1
  {
    (if NeedsGroup(a) then [a] else []) + PreorderAll(a.children)
  }

  function PreorderAll(kids: seq<Argp>): seq<Argp>
    decreases kids, 0
  {
    if kids == [] then [] else Preorder(kids[0]) + PreorderAll(kids[1..])
  }

  /** The parser's table for the groups of `argps`, the first of which has number `first`. */
  function TableOf(argps: seq<Argp>, first: nat): seq<Entry> {
    if argps == [] then []
    else
      var own := if argps[0].options.Some? then argps[0].options.value else [];
      seq(|own|, i requires 0 <= i < |own| => Entry(first, own[i])) + TableOf(argps[1..], first + 1)
  }

  // --- convert_options ---

  /**
   The groups from `base` on mirror the tree of `a`: an argp that needs a group has the next one, which
   hangs on its parent's group, if that has one, at its place among the children.
   */
  ghost predicate Mirrors(groups: seq<Group>, base: nat, a: Argp, parent: Option<nat>, parentIndex: nat)
    decreases a, 1
  {
    if NeedsGroup(a) then
      && base < |groups| && groups[base].argp == a && groups[base].childCount == |a.children|
      && groups[base].parent == parent && groups[base].parentIndex == parentIndex
      && MirrorsAll(groups, base + 1, a.children, Some(base), 0)
    else
      MirrorsAll(groups, base, a.children, None, 0)
  }

  ghost predicate MirrorsAll(groups: seq<Group>, base: nat, kids: seq<Argp>, mine: Option<nat>, index: nat)
    decreases kids, 0
  {
    kids == [] || (&& Mirrors(groups, base, kids[0], mine, index)
                   && MirrorsAll(groups, base + NumGroups(kids[0]), kids[1..], mine, index + 1))
  }

  lemma {:induction false} MirrorsGrows(groups: seq<Group>, more: seq<Group>, base: nat, a: Argp,
                                        parent: Option<nat>, parentIndex: nat)
    requires Mirrors(groups, base, a, parent, parentIndex) && groups <= more
    ensures Mirrors(more, base, a, parent, parentIndex)
    decreases a, 1
  {
    MirrorsAllGrows(groups, more, if NeedsGroup(a) then base + 1 else base, a.children,
                    if NeedsGroup(a) then Some(base) else None, 0);
  }

  lemma {:induction false} MirrorsAllGrows(groups: seq<Group>, more: seq<Group>, base: nat, kids: seq<Argp>,
                                           mine: Option<nat>, index: nat)
    requires MirrorsAll(groups, base, kids, mine, index) && groups <= more
    ensures MirrorsAll(more, base, kids, mine, index)
    decreases kids, 0
  {
    if kids != [] {
      MirrorsGrows(groups, more, base, kids[0], mine, index);
      MirrorsAllGrows(groups, more, base + NumGroups(kids[0]), kids[1..], mine, index + 1);
    }
  }

  lemma {:induction false} MirrorsOneMore(groups: seq<Group>, base: nat, done: seq<Argp>, kid: Argp,
                                          mine: Option<nat>, index: nat)
    requires MirrorsAll(groups, base, done, mine, index)
    requires Mirrors(groups, base + NumGroupsAll(done), kid, mine, index + |done|)
    ensures MirrorsAll(groups, base, done + [kid], mine, index)
    ensures NumGroupsAll(done + [kid]) == NumGroupsAll(done) + NumGroups(kid)
    ensures NumChildInputsAll(done + [kid]) == NumChildInputsAll(done) + NumChildInputs(kid) + 1
    decreases |done|
  {
    if done == [] {
      assert done + [kid] == [kid] && [kid][1..] == [];
    } else {
      MirrorsOneMore(groups, base + NumGroups(done[0]), done[1..], kid, mine, index + 1);
      assert (done + [kid])[1..] == done[1..] + [kid];
    }
  }

  /** The groups from `base` on are those of `argps`, in order. */
  ghost predicate Filled(groups: seq<Group>, base: nat, argps: seq<Argp>) {
    base + |argps| <= |groups| && forall i :: 0 <= i < |argps| ==> groups[base + i].argp == argps[i]
  }

  lemma FilledOnto(groups: seq<Group>, base: nat, first: seq<Argp>, rest: seq<Argp>)
    requires Filled(groups, base, first) && Filled(groups, base + |first|, rest)
    ensures Filled(groups, base, first + rest)
  {
    forall i | 0 <= i < |first + rest| ensures groups[base + i].argp == (first + rest)[i] {
      if i >= |first| {
        assert groups[base + |first| + (i - |first|)].argp == rest[i - |first|];
      }
    }
  }

  /** Groups that mirror a tree are those that were counted, in pre-order. */
  lemma {:induction false} MirrorIsPreorder(groups: seq<Group>, base: nat, a: Argp, parent: Option<nat>,
                                            parentIndex: nat)
    requires Mirrors(groups, base, a, parent, parentIndex) && base <= |groups|
    ensures Filled(groups, base, Preorder(a)) && |Preorder(a)| == NumGroups(a)
    decreases a, 1
  {
    if NeedsGroup(a) {
      MirrorsAllIsPreorder(groups, base + 1, a.children, Some(base), 0);
      FilledOnto(groups, base, [a], PreorderAll(a.children));
    } else {
      MirrorsAllIsPreorder(groups, base, a.children, None, 0);
      assert Preorder(a) == PreorderAll(a.children);
    }
  }

  lemma {:induction false} MirrorsAllIsPreorder(groups: seq<Group>, base: nat, kids: seq<Argp>, mine: Option<nat>,
                                                index: nat)
    requires MirrorsAll(groups, base, kids, mine, index) && base <= |groups|
    ensures Filled(groups, base, PreorderAll(kids)) && |PreorderAll(kids)| == NumGroupsAll(kids)
    decreases kids, 0
  {
    if kids != [] {
      MirrorIsPreorder(groups, base, kids[0], mine, index);
      MirrorsAllIsPreorder(groups, base + NumGroups(kids[0]), kids[1..], mine, index + 1);
      FilledOnto(groups, base, Preorder(kids[0]), PreorderAll(kids[1..]));
    }
  }

  /** The parent of group `i` comes before it, and has the slot that the group takes its input from. */
  ghost predicate ParentFirst(groups: seq<Group>, i: nat)
    requires i < |groups|
  {
    groups[i].parent.Some? ==>
      groups[i].parent.value < i && groups[i].parentIndex < groups[groups[i].parent.value].childCount
  }

  ghost predicate ParentsFirst(groups: seq<Group>) {
    forall i: nat :: i < |groups| ==> ParentFirst(groups, i)
  }

  /** The slices follow one another below `end`. */
  ghost predicate SlicesApart(groups: seq<Group>, end: nat) {
    && (forall i :: 0 <= i < |groups| ==> groups[i].childBase + groups[i].childCount <= end)
    && forall i, j :: 0 <= i < j < |groups| ==> groups[i].childBase + groups[i].childCount <= groups[j].childBase
  }

  /** No two groups take their input from the same slot. */
  ghost predicate SlotsUnique(groups: seq<Group>) {
    forall i, j :: 0 <= i < j < |groups| && groups[i].parent.Some? && groups[i].parent == groups[j].parent ==>
      groups[i].parentIndex != groups[j].parentIndex
  }

  /** Group `p` has so far handed out only slots below `n`. */
  ghost predicate SlotsBelow(groups: seq<Group>, p: Option<nat>, n: nat) {
    p.Some? ==> forall g <- groups :: g.parent == p ==> g.parentIndex < n
  }

  ghost predicate TableOk(groups: seq<Group>, end: nat) {
    ParentsFirst(groups) && SlicesApart(groups, end) && SlotsUnique(groups)
  }

  ghost predicate MayHang(groups: seq<Group>, parent: Option<nat>, parentIndex: nat) {
    && (parent.Some? ==> parent.value < |groups| && parentIndex < groups[parent.value].childCount)
    && SlotsBelow(groups, parent, parentIndex)
  }

  /** Groups from `base` on hang on `parent` at `parentIndex`, on a group from `base` on, or on nothing. */
  ghost predicate HangBelow(groups: seq<Group>, base: nat, parent: Option<nat>, parentIndex: nat) {
    forall i :: base <= i < |groups| && groups[i].parent.Some? ==>
      groups[i].parent.value >= base || (groups[i].parent == parent && groups[i].parentIndex == parentIndex)
  }

  lemma AddKeepsTable(groups: seq<Group>, end: nat, g: Group)
    requires TableOk(groups, end) && MayHang(groups, g.parent, g.parentIndex) && g.childBase == end
    ensures TableOk(groups + [g], end + g.childCount)
    ensures SlotsBelow(groups + [g], Some(|groups|), 0)
  {
    var more := groups + [g];
    forall i: nat | i < |more| ensures ParentFirst(more, i) {
      if i < |groups| {
        assert ParentFirst(groups, i);
      }
    }
    assert SlicesApart(more, end + g.childCount);
    forall h | h in more ensures h.parent != Some(|groups|) {
      var i :| 0 <= i < |more| && more[i] == h;
      assert ParentFirst(more, i);
    }
    forall i, j | 0 <= i < j < |more| && more[i].parent.Some? && more[i].parent == more[j].parent
      ensures more[i].parentIndex != more[j].parentIndex
    {
      assert more[i] == groups[i] && groups[i] in groups;
    }
  }

  /** Groups from `base` on hang on `mine` or on a group from `base` on. */
  ghost predicate HangOn(groups: seq<Group>, base: nat, mine: Option<nat>) {
    forall i :: base <= i < |groups| && groups[i].parent.Some? ==>
      groups[i].parent == mine || groups[i].parent.value >= base
  }

  lemma FamilyHangs(groups: seq<Group>, g: Group, more: seq<Group>)
    requires groups + [g] <= more && HangOn(more, |groups| + 1, Some(|groups|))
    ensures HangBelow(more, |groups|, g.parent, g.parentIndex)
  {
    assert more[|groups|] == (groups + [g])[|groups|];
  }

  /** The slot numbers of `mine` stay below the next one when a child has been hung on it. */
  lemma NextSlot(groups: seq<Group>, more: seq<Group>, mine: Option<nat>, index: nat)
    requires groups <= more && SlotsBelow(groups, mine, index) && HangBelow(more, |groups|, mine, index)
    requires mine.Some? ==> mine.value < |groups|
    ensures SlotsBelow(more, mine, index + 1)
  {
    if mine.Some? {
      forall g | g in more && g.parent == mine ensures g.parentIndex < index + 1 {
        var i :| 0 <= i < |more| && more[i] == g;
        if i < |groups| {
          assert groups[i] in groups;
        }
      }
    }
  }

  /** The tables being filled in, with the cursors of `struct parser_convert_state`. */
  class Converter {
    var groups: seq<Group>
    var childInputsEnd: nat

    constructor ()
      ensures groups == [] && childInputsEnd == 0
    {
      groups, childInputsEnd := [], 0;
    }

    /** `convert_options`: one group for `a` if it needs one, then its children in order. */
    method ConvertOptions(a: Argp, parent: Option<nat>, parentIndex: nat)
      requires TableOk(groups, childInputsEnd) && MayHang(groups, parent, parentIndex)
      modifies this
      ensures TableOk(groups, childInputsEnd)
      ensures old(groups) <= groups && |groups| == |old(groups)| + NumGroups(a)
      ensures Mirrors(groups, |old(groups)|, a, parent, parentIndex)
      ensures childInputsEnd <= old(childInputsEnd) + NumChildInputs(a)
      ensures HangBelow(groups, |old(groups)|, parent, parentIndex)
      decreases a, 1
    {
      ghost var before := groups;
      if NeedsGroup(a) {
        var g := Group(a, parent, parentIndex, childInputsEnd, |a.children|);
        var mine := |groups|;
        AddKeepsTable(groups, childInputsEnd, g);
        groups := groups + [g];
        childInputsEnd := childInputsEnd + g.childCount;
        ConvertChildren(a.children, Some(mine));
        FamilyHangs(before, g, groups);
        assert groups[mine] == (before + [g])[mine];
      } else {
        ConvertChildren(a.children, None);
      }
    }

    /** The loop over the children; `mine` is their parent's group, if it has one. */
    method ConvertChildren(kids: seq<Argp>, mine: Option<nat>)
      requires TableOk(groups, childInputsEnd) && SlotsBelow(groups, mine, 0)
      requires mine.Some? ==> mine.value < |groups| && |kids| == groups[mine.value].childCount
      modifies this
      ensures TableOk(groups, childInputsEnd)
      ensures old(groups) <= groups && |groups| == |old(groups)| + NumGroupsAll(kids)
      ensures MirrorsAll(groups, |old(groups)|, kids, mine, 0)
      ensures childInputsEnd + |kids| <= old(childInputsEnd) + NumChildInputsAll(kids)
      ensures HangOn(groups, |old(groups)|, mine)
      decreases kids, 0
    {
      var index := 0;
      while index < |kids|
        invariant 0 <= index <= |kids|
        invariant TableOk(groups, childInputsEnd) && SlotsBelow(groups, mine, index)
        invariant old(groups) <= groups && |groups| == |old(groups)| + NumGroupsAll(kids[..index])
        invariant MirrorsAll(groups, |old(groups)|, kids[..index], mine, 0)
        invariant childInputsEnd + index <= old(childInputsEnd) + NumChildInputsAll(kids[..index])
        invariant HangOn(groups, |old(groups)|, mine)
      {
        ghost var before := groups;
        ConvertOptions(kids[index], mine, index);
        NextSlot(before, groups, mine, index);
        MirrorsAllGrows(before, groups, |old(groups)|, kids[..index], mine, 0);
        MirrorsOneMore(groups, |old(groups)|, kids[..index], kids[index], mine, 0);
        assert kids[..index] + [kids[index]] == kids[..index + 1];
        index := index + 1;
      }
      assert kids[..index] == kids;
    }
  }
}
