/** The in-place rotation of two adjacent blocks of argv (`exchange`). */
module ArgvRotate {

  /** `a` with its adjacent blocks [bottom, middle) and [middle, top) swapped, each in its order. */
  function BlocksSwapped<T>(a: seq<T>, bottom: nat, middle: nat, top: nat): (r: seq<T>)
    requires bottom <= middle <= top <= |a|
    ensures |r| == |a|
  {
    a[..bottom] + a[middle..top] + a[bottom..middle] + a[top..]
  }

  // --- the same, index by index ---

  /** Where the element that belongs at `i` is taken from. */
  function Source(bottom: nat, middle: nat, top: nat, i: nat): (j: nat)
    requires bottom <= middle <= top
    ensures bottom <= i < top <==> bottom <= j < top
    ensures !(bottom <= i < top) ==> j == i
  {
    if i < bottom || top <= i then i
    else if i < bottom + (top - middle) then i + (middle - bottom)
    else i - (top - middle)
  }

  /** Swapping the blocks of `a` gives `goal`. */
  ghost predicate LeadsTo<T>(a: seq<T>, bottom: nat, middle: nat, top: nat, goal: seq<T>)
    requires bottom <= middle <= top <= |a|
  {
    |goal| == |a| && forall i :: 0 <= i < |a| ==> goal[i] == a[Source(bottom, middle, top, i)]
  }

  lemma LeadsToBlocks<T>(a: seq<T>, bottom: nat, middle: nat, top: nat)
    requires bottom <= middle <= top <= |a|
    ensures LeadsTo(a, bottom, middle, top, BlocksSwapped(a, bottom, middle, top))
  {
  }

  /** `a` with the disjoint blocks of length `len` at `x` and `y` traded. */
  ghost predicate Traded<T>(a: seq<T>, b: seq<T>, x: nat, y: nat, len: nat)
    requires x + len <= y && y + len <= |a|
  {
    && |b| == |a|
    && (forall i :: x <= i < x + len ==> b[i] == a[y + (i - x)])
    && (forall i :: y <= i < y + len ==> b[i] == a[x + (i - y)])
    && forall i :: 0 <= i < |a| && !(x <= i < x + len) && !(y <= i < y + len) ==> b[i] == a[i]
  }

  method TradeBlocks<T>(argv: array<T>, x: nat, y: nat, len: nat)
    requires x + len <= y && y + len <= argv.Length
    modifies argv
    ensures Traded(old(argv[..]), argv[..], x, y, len)
  {
    for i := 0 to len
      invariant Traded(old(argv[..]), argv[..], x, y, i)
    {
      var tem := argv[x + i];
      argv[x + i] := argv[y + i];
      argv[y + i] := tem;
    }
  }

  /** The short bottom block goes to the far end of the top block, which keeps its other part to fix. */
  lemma BottomPlaced<T>(a: seq<T>, b: seq<T>, bottom: nat, middle: nat, top: nat, top': nat, goal: seq<T>)
    requires bottom < middle < top' <= top <= |a| && top - top' == middle - bottom
    requires Traded(a, b, bottom, top', middle - bottom)
    requires LeadsTo(a, bottom, middle, top, goal)
    ensures LeadsTo(b, bottom, middle, top', goal)
  {
    forall i | 0 <= i < |b| ensures goal[i] == b[Source(bottom, middle, top', i)] {
      assert goal[i] == a[Source(bottom, middle, top, i)];
    }
  }

  /** The short top block goes to the near end of the bottom block. */
  lemma TopPlaced<T>(a: seq<T>, b: seq<T>, bottom: nat, middle: nat, top: nat, goal: seq<T>)
    requires bottom <= middle < top <= |a| && top - middle <= middle - bottom
    requires Traded(a, b, bottom, middle, top - middle)
    requires LeadsTo(a, bottom, middle, top, goal)
    ensures LeadsTo(b, bottom + (top - middle), middle, top, goal)
  {
    forall i | 0 <= i < |b| ensures goal[i] == b[Source(bottom + (top - middle), middle, top, i)] {
      assert goal[i] == a[Source(bottom, middle, top, i)];
    }
  }

  method PlaceBottom<T>(argv: array<T>, bottom: nat, middle: nat, top: nat, ghost goal: seq<T>) returns (top': nat)
    requires bottom < middle && top <= argv.Length && middle - bottom < top - middle
    requires LeadsTo(argv[..], bottom, middle, top, goal)
    modifies argv
    ensures middle < top' <= top && top - top' == middle - bottom
    ensures LeadsTo(argv[..], bottom, middle, top', goal)
  {
    top' := top - (middle - bottom);
    TradeBlocks(argv, bottom, top', middle - bottom);
    BottomPlaced(old(argv[..]), argv[..], bottom, middle, top, top', goal);
  }

  method PlaceTop<T>(argv: array<T>, bottom: nat, middle: nat, top: nat, ghost goal: seq<T>) returns (bottom': nat)
    requires bottom <= middle < top <= argv.Length && top - middle <= middle - bottom
    requires LeadsTo(argv[..], bottom, middle, top, goal)
    modifies argv
    ensures bottom' == bottom + (top - middle) && LeadsTo(argv[..], bottom', middle, top, goal)
  {
    bottom' := bottom + (top - middle);
    TradeBlocks(argv, bottom, middle, top - middle);
    TopPlaced(old(argv[..]), argv[..], bottom, middle, top, goal);
  }

  lemma GoalReached<T>(a: seq<T>, bottom: nat, middle: nat, top: nat, goal: seq<T>)
    requires bottom <= middle <= top <= |a| && (bottom == middle || middle == top)
    requires LeadsTo(a, bottom, middle, top, goal)
    ensures a == goal
  {
    forall i | 0 <= i < |a| ensures a[i] == goal[i] {
      assert Source(bottom, middle, top, i) == i;
    }
  }

  /** The loop of `exchange`: the shorter block is put in its place until one of them is empty. */
  method Rotate<T>(argv: array<T>, bottom0: nat, middle: nat, top0: nat)
    requires bottom0 <= middle <= top0 <= argv.Length
    modifies argv
    ensures argv[..] == BlocksSwapped(old(argv[..]), bottom0, middle, top0)
  {
    ghost var goal := BlocksSwapped(argv[..], bottom0, middle, top0);
    LeadsToBlocks(argv[..], bottom0, middle, top0);
    var bottom, top := bottom0, top0;
    while top > middle && middle > bottom
      invariant bottom0 <= bottom <= middle <= top <= top0
      invariant LeadsTo(argv[..], bottom, middle, top, goal)
      decreases top - bottom
    {
      if top - middle > middle - bottom {
        top := PlaceBottom(argv, bottom, middle, top, goal);
      } else {
        bottom := PlaceTop(argv, bottom, middle, top, goal);
      }
    }
    GoalReached(argv[..], bottom, middle, top, goal);
  }

  lemma SwappingKeepsElements<T>(a: seq<T>, bottom: nat, middle: nat, top: nat)
    requires bottom <= middle <= top <= |a|
    ensures multiset(BlocksSwapped(a, bottom, middle, top)) == multiset(a)
  {
    assert a == a[..bottom] + a[bottom..middle] + a[middle..top] + a[top..];
  }
}
