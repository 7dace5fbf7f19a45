/**
 How inputs are handed down at the start of a parse: a parser finds its input in a slot that its
 parent's parser has filled, one shared vector holding the slots of all groups.
 */
module ArgpInputs {

  import opened Wrappers
  import opened ArgpGroups

  /** A `void *` that parsers pass on; 0 is NULL. */
  type Input = int

  /** What the parser of a group, given its input, leaves in the slot of its child number `k`. */
  type Hands = (nat, Input, nat) -> Input

  /** What group `g` with input `input` leaves in slot `k`; without a parser, the first child gets the input itself. */
  function Handed(groups: seq<Group>, hands: Hands, g: nat, input: Input, k: nat): Input
    requires g < |groups|
  {
    if groups[g].argp.hasParser then hands(g, input, k) else if k == 0 then input else 0
  }

  /** The input that a group is meant to get: the caller's for the first, and from its parent for every child. */
  function InputOf(groups: seq<Group>, hands: Hands, top: Input, g: nat): Input
    requires ParentsFirst(groups) && g < |groups|
    decreases g
  {
    assert ParentFirst(groups, g);
    match groups[g].parent
    case None => if g == 0 then top else 0
    case Some(p) => Handed(groups, hands, p, InputOf(groups, hands, top, p), groups[g].parentIndex)
  }

  /** The slots of group `g` hold what it hands down. */
  ghost predicate Filled(groups: seq<Group>, hands: Hands, slots: seq<Input>, g: nat, input: Input)
    requires g < |groups| && groups[g].childBase + groups[g].childCount <= |slots|
  {
    forall k :: 0 <= k < groups[g].childCount ==> slots[groups[g].childBase + k] == Handed(groups, hands, g, input, k)
  }

  /** Slot `i` is one of those of group `g`. */
  predicate Owns(groups: seq<Group>, g: nat, i: nat)
    requires g < |groups|
  {
    groups[g].childBase <= i < groups[g].childBase + groups[g].childCount
  }

  ghost predicate Empty(groups: seq<Group>, slots: seq<Input>, g: nat)
    requires g < |groups| && groups[g].childBase + groups[g].childCount <= |slots|
  {
    forall i :: groups[g].childBase <= i < groups[g].childBase + groups[g].childCount ==> slots[i] == 0
  }

  /** The slots of the first `g` groups are filled, and those of the others still empty. */
  ghost predicate FilledUpTo(groups: seq<Group>, hands: Hands, top: Input, slots: seq<Input>, g: nat)
    requires TableOk(groups, |slots|) && g <= |groups|
  {
    && (forall h: nat :: h < g ==> Filled(groups, hands, slots, h, InputOf(groups, hands, top, h)))
    && forall h: nat :: g <= h < |groups| ==> Empty(groups, slots, h)
  }

  /** Filling the slots of one group leaves those of all others alone. */
  lemma FillOne(groups: seq<Group>, hands: Hands, top: Input, slots: seq<Input>, g: nat, slots': seq<Input>)
    requires TableOk(groups, |slots|) && g < |groups| && FilledUpTo(groups, hands, top, slots, g)
    requires |slots'| == |slots| && Filled(groups, hands, slots', g, InputOf(groups, hands, top, g))
    requires forall i: nat :: i < |slots| && !Owns(groups, g, i) ==> slots'[i] == slots[i]
    ensures FilledUpTo(groups, hands, top, slots', g + 1)
  {
    forall h: nat | h < g + 1 ensures Filled(groups, hands, slots', h, InputOf(groups, hands, top, h)) {
      if h < g {
        assert Filled(groups, hands, slots, h, InputOf(groups, hands, top, h));
      }
    }
    forall h: nat | g + 1 <= h < |groups| ensures Empty(groups, slots', h) {
      assert Empty(groups, slots, h);
    }
  }

  /** Group `g` takes its input out of its parent's slot, which is filled by then. */
  lemma InputIsThere(groups: seq<Group>, hands: Hands, top: Input, slots: seq<Input>, g: nat)
    requires TableOk(groups, |slots|) && g < |groups| && FilledUpTo(groups, hands, top, slots, g)
    requires groups[g].parent.Some?
    ensures var p := groups[g].parent.value;
            && p < g && groups[g].parentIndex < groups[p].childCount
            && groups[p].childBase + groups[g].parentIndex < |slots|
            && slots[groups[p].childBase + groups[g].parentIndex] == InputOf(groups, hands, top, g)
  {
    assert ParentFirst(groups, g);
    var p := groups[g].parent.value;
    assert Filled(groups, hands, slots, p, InputOf(groups, hands, top, p));
  }

  /** What a group does with its slots when it is initialised. */
  method HandDown(groups: seq<Group>, hands: Hands, slots: array<Input>, g: nat, input: Input)
    requires g < |groups| && groups[g].childBase + groups[g].childCount <= slots.Length
    requires Empty(groups, slots[..], g)
    modifies slots
    ensures Filled(groups, hands, slots[..], g, input)
    ensures forall i: nat :: i < slots.Length && !Owns(groups, g, i) ==> slots[i] == old(slots[i])
  {
    var base, count := groups[g].childBase, groups[g].childCount;
    if groups[g].argp.hasParser {
      for k := 0 to count
        invariant forall j :: 0 <= j < k ==> slots[base + j] == hands(g, input, j)
        invariant forall i :: 0 <= i < slots.Length && !(base <= i < base + count) ==> slots[i] == old(slots[i])
      {
        slots[base + k] := hands(g, input, k);
      }
    } else if count > 0 {
      slots[base] := input;
    }
  }

  /**
   The loop of `parser_init`: each group takes its input and hands on to its children, in the order of
   their numbers, until a parser fails. Every group that is reached gets the input it is meant to get.
   */
  method InitInputs(groups: seq<Group>, slotCount: nat, top: Input, hands: Hands, fails: nat -> bool)
    returns (inputs: seq<Input>)
    requires TableOk(groups, slotCount)
    ensures |inputs| <= |groups| && forall g :: 0 <= g < |inputs| ==> inputs[g] == InputOf(groups, hands, top, g)
    ensures |inputs| < |groups| ==> inputs != [] && fails(|inputs| - 1)
    ensures forall g :: 0 <= g < |inputs| - 1 ==> !fails(g)
  {
    var slots := new Input[slotCount](_ => 0);
    inputs := [];
    var g := 0;
    var failed := false;
    while g < |groups| && !failed
      invariant 0 <= g <= |groups| && |inputs| == g && FilledUpTo(groups, hands, top, slots[..], g)
      invariant forall h :: 0 <= h < g ==> inputs[h] == InputOf(groups, hands, top, h)
      invariant failed ==> g > 0 && fails(g - 1)
      invariant forall h :: 0 <= h < (if failed then g - 1 else g) ==> !fails(h)
    {
      var input := if g == 0 then top else 0;
      if groups[g].parent.Some? {
        InputIsThere(groups, hands, top, slots[..], g);
        var p := groups[g].parent.value;
        input := slots[groups[p].childBase + groups[g].parentIndex];
      }
      ghost var before := slots[..];
      assert Empty(groups, before, g);
      HandDown(groups, hands, slots, g, input);
      FillOne(groups, hands, top, before, g, slots[..]);
      inputs := inputs + [input];
      failed := fails(g);
      g := g + 1;
    }
  }
}
