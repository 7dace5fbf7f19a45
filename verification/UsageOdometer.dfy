/**
 The usage patterns of `--help`: an odometer whose digits are spread over the tree of argps.

 An argp whose ARGS_DOC has several lines has one digit, kept in a byte vector at the argp's
 pre-order place; the digits turn in post-order, the children of an argp ahead of its own.
 */
module UsageOdometer {

  import opened Wrappers
  import opened ArgpGroups

  function Lines(a: Argp): seq<string> {
    if a.argsDoc.Some? then a.argsDoc.value else []
  }

  /** The ARGS_DOC of `a` holds a newline. */
  predicate Multi(a: Argp) {
    |Lines(a)| > 1
  }

  function OwnSlots(a: Argp): nat {
    if Multi(a) then 1 else 0
  }

  // --- argp_args_levels ---

  function ArgsLevels(a: Argp): nat
    decreases a, 1
  {
    OwnSlots(a) + ArgsLevelsAll(a.children)
  }

  function ArgsLevelsAll(kids: seq<Argp>): nat
    decreases kids, 0
  {
    if kids == [] then 0 else ArgsLevels(kids[0]) + ArgsLevelsAll(kids[1..])
  }

  // --- what a level vector means ---

  /** A level is a signed char that selects a line, or is negative and selects the first. */
  predicate IsLevel(a: Argp, level: int) {
    -128 <= level <= 127 && level < |Lines(a)|
  }

  ghost predicate LevelsOk(a: Argp, lv: seq<int>)
    decreases a, 1
  {
    OwnSlots(a) <= |lv| && (Multi(a) ==> IsLevel(a, lv[0])) && LevelsOkAll(a.children, lv[OwnSlots(a)..])
  }

  ghost predicate LevelsOkAll(kids: seq<Argp>, lv: seq<int>)
    decreases kids, 0
  {
    if kids == [] then lv == []
    else
      var n := ArgsLevels(kids[0]);
      n <= |lv| && LevelsOk(kids[0], lv[..n]) && LevelsOkAll(kids[1..], lv[n..])
  }

  ghost predicate NonNegative(lv: seq<int>) {
    forall i :: 0 <= i < |lv| ==> lv[i] >= 0
  }

  /** One line chosen of each ARGS_DOC that has several. */
  ghost predicate IsChoice(a: Argp, lv: seq<int>) {
    LevelsOk(a, lv) && NonNegative(lv)
  }

  ghost predicate IsChoiceAll(kids: seq<Argp>, lv: seq<int>) {
    LevelsOkAll(kids, lv) && NonNegative(lv)
  }

  /** Every line number fits a signed char. */
  ghost predicate Fits(a: Argp)
    decreases a, 1
  {
    |Lines(a)| <= 128 && FitsAll(a.children)
  }

  ghost predicate FitsAll(kids: seq<Argp>)
    decreases kids, 0
  {
    kids == [] || (Fits(kids[0]) && FitsAll(kids[1..]))
  }

  function OwnText(a: Argp, level: int): seq<string>
    requires Multi(a) ==> IsLevel(a, level)
  {
    if Multi(a) then [Lines(a)[if level < 0 then 0 else level]] else Lines(a)
  }

  /** The pattern that a level vector selects. */
  ghost function Pattern(a: Argp, lv: seq<int>): seq<string>
    requires LevelsOk(a, lv)
    decreases a, 1
  {
    OwnText(a, if Multi(a) then lv[0] else 0) + PatternAll(a.children, lv[OwnSlots(a)..])
  }

  ghost function PatternAll(kids: seq<Argp>, lv: seq<int>): seq<string>
    requires LevelsOkAll(kids, lv)
    decreases kids, 0
  {
    if kids == [] then []
    else
      var n := ArgsLevels(kids[0]);
      Pattern(kids[0], lv[..n]) + PatternAll(kids[1..], lv[n..])
  }

  // --- argp_args_usage ---

  /** The level vector afterwards, and whether whoever comes next is still to advance. */
  datatype Turn = Turn(levels: seq<int>, advance: bool)

  /** One digit's turn: the increment of a signed char, or the reset after the last line. */
  function TurnOwn(a: Argp, level: int): (r: (int, bool))
    requires Multi(a) && IsLevel(a, level)
    ensures IsLevel(a, r.0)
  {
    var shown := if level < 0 then 0 else level;
    if shown + 1 < |Lines(a)| then (if level == 127 then -128 else level + 1, false)
    else (if level > 0 then 0 else level, true)
  }

  ghost function Usage(a: Argp, lv: seq<int>, advance: bool): Turn
    requires LevelsOk(a, lv)
    decreases a, 1
  {
    var kids := UsageAll(a.children, lv[OwnSlots(a)..], advance);
    if Multi(a) then
      var own := if kids.advance then TurnOwn(a, lv[0]) else (lv[0], false);
      Turn([own.0] + kids.levels, own.1)
    else
      kids
  }

  ghost function UsageAll(kids: seq<Argp>, lv: seq<int>, advance: bool): Turn
    requires LevelsOkAll(kids, lv)
    decreases kids, 0
  {
    if kids == [] then Turn([], advance)
    else
      var n := ArgsLevels(kids[0]);
      var first := Usage(kids[0], lv[..n], advance);
      var rest := UsageAll(kids[1..], lv[n..], first.advance);
      Turn(first.levels + rest.levels, rest.advance)
  }

  // --- the odometer's reading ---

  function OwnCount(a: Argp): nat {
    if Multi(a) then |Lines(a)| else 1
  }

  /** The number of patterns. */
  function Count(a: Argp): nat
    decreases a, 1
  {
    CountAll(a.children) * OwnCount(a)
  }

  function CountAll(kids: seq<Argp>): nat
    decreases kids, 0
  {
    if kids == [] then 1 else Count(kids[0]) * CountAll(kids[1..])
  }

  /**
   The reading: an argp's own digit counts for more than its children's, a later child's for more than an
   earlier's.
   */
  ghost function Value(a: Argp, lv: seq<int>): int
    requires LevelsOk(a, lv)
    decreases a, 1
  {
    ValueAll(a.children, lv[OwnSlots(a)..]) + CountAll(a.children) * (if Multi(a) then lv[0] else 0)
  }

  ghost function ValueAll(kids: seq<Argp>, lv: seq<int>): int
    requires LevelsOkAll(kids, lv)
    decreases kids, 0
  {
    if kids == [] then 0
    else
      var n := ArgsLevels(kids[0]);
      Value(kids[0], lv[..n]) + Count(kids[0]) * ValueAll(kids[1..], lv[n..])
  }

  function Bit(b: bool): int { if b then 1 else 0 }

  lemma {:induction false} LevelsLength(a: Argp, lv: seq<int>)
    requires LevelsOk(a, lv)
    ensures |lv| == ArgsLevels(a)
    decreases a, 1
  {
    LevelsLengthAll(a.children, lv[OwnSlots(a)..]);
  }

  lemma {:induction false} LevelsLengthAll(kids: seq<Argp>, lv: seq<int>)
    requires LevelsOkAll(kids, lv)
    ensures |lv| == ArgsLevelsAll(kids)
    decreases kids, 0
  {
    if kids != [] {
      LevelsLengthAll(kids[1..], lv[ArgsLevels(kids[0])..]);
    }
  }

  /** Two digits read as one: the first is below `n`, the second below `m`. */
  lemma TwoDigits(x: int, n: nat, y: int, m: nat)
    requires 0 <= x < n && 0 <= y < m
    ensures 0 <= x + n * y < n * m
  {
    assert 0 <= n * y;
    assert n * y <= n * (m - 1);
  }

  lemma Multiple(n: nat, d: int)
    ensures d > 0 ==> n * d >= n
  {
    assert n * d == n * (d - 1) + n;
  }

  lemma SameDigits(x: int, x': int, n: nat, y: int, y': int)
    requires 0 <= x < n && 0 <= x' < n && x + n * y == x' + n * y'
    ensures x == x' && y == y'
  {
    assert n * (y - y') == n * y - n * y' && n * (y' - y) == n * y' - n * y;
    Multiple(n, y - y');
    Multiple(n, y' - y);
  }

  /** A carry from the first digit into the second. */
  lemma Carries(x: int, x': int, n: nat, y: int, y': int, m: nat, carry: bool, middle: bool, out: bool)
    requires x' + n * Bit(middle) == x + Bit(carry)
    requires y' + m * Bit(out) == y + Bit(middle)
    ensures (x' + n * y') + (n * m) * Bit(out) == (x + n * y) + Bit(carry)
  {
    assert n * y' + (n * m) * Bit(out) == n * (y' + m * Bit(out)) == n * (y + Bit(middle));
  }

  lemma {:induction false} ValueBounded(a: Argp, lv: seq<int>)
    requires IsChoice(a, lv)
    ensures 0 <= Value(a, lv) < Count(a)
    decreases a, 1
  {
    var low := lv[OwnSlots(a)..];
    ValueBoundedAll(a.children, low);
    TwoDigits(ValueAll(a.children, low), CountAll(a.children), if Multi(a) then lv[0] else 0, OwnCount(a));
  }

  lemma {:induction false} ValueBoundedAll(kids: seq<Argp>, lv: seq<int>)
    requires IsChoiceAll(kids, lv)
    ensures 0 <= ValueAll(kids, lv) < CountAll(kids)
    decreases kids, 0
  {
    if kids != [] {
      var n := ArgsLevels(kids[0]);
      ValueBounded(kids[0], lv[..n]);
      ValueBoundedAll(kids[1..], lv[n..]);
      TwoDigits(Value(kids[0], lv[..n]), Count(kids[0]), ValueAll(kids[1..], lv[n..]), CountAll(kids[1..]));
    }
  }

  /** The reading tells level vectors apart. */
  lemma {:induction false} ValueInjective(a: Argp, lv: seq<int>, lv': seq<int>)
    requires IsChoice(a, lv) && IsChoice(a, lv') && Value(a, lv) == Value(a, lv')
    ensures lv == lv'
    decreases a, 1
  {
    var k := OwnSlots(a);
    ValueBoundedAll(a.children, lv[k..]);
    ValueBoundedAll(a.children, lv'[k..]);
    SameDigits(ValueAll(a.children, lv[k..]), ValueAll(a.children, lv'[k..]), CountAll(a.children),
               if Multi(a) then lv[0] else 0, if Multi(a) then lv'[0] else 0);
    ValueInjectiveAll(a.children, lv[k..], lv'[k..]);
    assert lv[..k] == lv'[..k];
    assert lv == lv[..k] + lv[k..] && lv' == lv'[..k] + lv'[k..];
  }

  lemma {:induction false} ValueInjectiveAll(kids: seq<Argp>, lv: seq<int>, lv': seq<int>)
    requires IsChoiceAll(kids, lv) && IsChoiceAll(kids, lv') && ValueAll(kids, lv) == ValueAll(kids, lv')
    ensures lv == lv'
    decreases kids, 0
  {
    if kids != [] {
      var n := ArgsLevels(kids[0]);
      ValueBounded(kids[0], lv[..n]);
      ValueBounded(kids[0], lv'[..n]);
      SameDigits(Value(kids[0], lv[..n]), Value(kids[0], lv'[..n]), Count(kids[0]),
                 ValueAll(kids[1..], lv[n..]), ValueAll(kids[1..], lv'[n..]));
      ValueInjective(kids[0], lv[..n], lv'[..n]);
      ValueInjectiveAll(kids[1..], lv[n..], lv'[n..]);
      assert lv == lv[..n] + lv[n..] && lv' == lv'[..n] + lv'[n..];
    }
  }

  // --- one call of argp_args_usage ---

  /** A call keeps the level vector well-formed, and reads and writes exactly its slots. */
  lemma {:induction false} UsageKeepsLevels(a: Argp, lv: seq<int>, advance: bool)
    requires LevelsOk(a, lv)
    ensures LevelsOk(a, Usage(a, lv, advance).levels) && |Usage(a, lv, advance).levels| == |lv|
    decreases a, 1
  {
    var kids := UsageAll(a.children, lv[OwnSlots(a)..], advance);
    UsageKeepsLevelsAll(a.children, lv[OwnSlots(a)..], advance);
    if Multi(a) {
      assert Usage(a, lv, advance).levels[1..] == kids.levels;
    } else {
      assert lv[0..] == lv && kids.levels[0..] == kids.levels;
    }
  }

  lemma {:induction false} UsageKeepsLevelsAll(kids: seq<Argp>, lv: seq<int>, advance: bool)
    requires LevelsOkAll(kids, lv)
    ensures LevelsOkAll(kids, UsageAll(kids, lv, advance).levels) && |UsageAll(kids, lv, advance).levels| == |lv|
    decreases kids, 0
  {
    if kids != [] {
      var n := ArgsLevels(kids[0]);
      var first := Usage(kids[0], lv[..n], advance);
      var rest := UsageAll(kids[1..], lv[n..], first.advance);
      UsageKeepsLevels(kids[0], lv[..n], advance);
      UsageKeepsLevelsAll(kids[1..], lv[n..], first.advance);
      assert (first.levels + rest.levels)[..n] == first.levels;
      assert (first.levels + rest.levels)[n..] == rest.levels;
    }
  }

  /** A call adds its `advance` to the reading, with a carry out when that wraps. */
  ghost predicate Advances(before: int, after: Turn, reading: int, count: nat, advance: bool) {
    NonNegative(after.levels) && reading + count * Bit(after.advance) == before + Bit(advance)
  }

  lemma {:induction false} UsageAdvances(a: Argp, lv: seq<int>, advance: bool)
    requires IsChoice(a, lv) && Fits(a)
    ensures LevelsOk(a, Usage(a, lv, advance).levels)
    ensures Advances(Value(a, lv), Usage(a, lv, advance), Value(a, Usage(a, lv, advance).levels), Count(a), advance)
    decreases a, 1
  {
    UsageKeepsLevels(a, lv, advance);
    var k := OwnSlots(a);
    var r := Usage(a, lv, advance);
    var kids := UsageAll(a.children, lv[k..], advance);
    UsageAdvancesAll(a.children, lv[k..], advance);
    assert r.levels[k..] == kids.levels;
    Carries(ValueAll(a.children, lv[k..]), ValueAll(a.children, kids.levels), CountAll(a.children),
            if Multi(a) then lv[0] else 0, if Multi(a) then r.levels[0] else 0, OwnCount(a),
            advance, kids.advance, r.advance);
  }

  lemma {:induction false} UsageAdvancesAll(kids: seq<Argp>, lv: seq<int>, advance: bool)
    requires IsChoiceAll(kids, lv) && FitsAll(kids)
    ensures LevelsOkAll(kids, UsageAll(kids, lv, advance).levels)
    ensures Advances(ValueAll(kids, lv), UsageAll(kids, lv, advance),
                     ValueAll(kids, UsageAll(kids, lv, advance).levels), CountAll(kids), advance)
    decreases kids, 0
  {
    UsageKeepsLevelsAll(kids, lv, advance);
    if kids != [] {
      var n := ArgsLevels(kids[0]);
      var r := UsageAll(kids, lv, advance);
      var first := Usage(kids[0], lv[..n], advance);
      var rest := UsageAll(kids[1..], lv[n..], first.advance);
      UsageAdvances(kids[0], lv[..n], advance);
      UsageAdvancesAll(kids[1..], lv[n..], first.advance);
      LevelsLength(kids[0], first.levels);
      assert r.levels[..n] == first.levels && r.levels[n..] == rest.levels;
      Carries(Value(kids[0], lv[..n]), Value(kids[0], first.levels), Count(kids[0]),
              ValueAll(kids[1..], lv[n..]), ValueAll(kids[1..], rest.levels), CountAll(kids[1..]),
              advance, first.advance, r.advance);
    }
  }

  // --- the level vector in place ---

  /** The vector holds `lv` from `at` on. */
  ghost predicate Holds(levels: array<int>, at: nat, lv: seq<int>)
    reads levels
  {
    at + |lv| <= levels.Length && forall i :: 0 <= i < |lv| ==> levels[at + i] == lv[i]
  }

  twostate predicate SameBut(levels: array<int>, at: nat, end: nat)
    reads levels
  {
    forall i :: 0 <= i < levels.Length && !(at <= i < end) ==> levels[i] == old(levels[i])
  }

  /** `argp_args_usage`: the digits are turned in place, and the pattern is put out on the way. */
  method ArgsUsage(a: Argp, levels: array<int>, at: nat, advance: bool, ghost lv: seq<int>)
    returns (next: nat, more: bool, out: seq<string>)
    requires LevelsOk(a, lv) && Holds(levels, at, lv)
    modifies levels
    ensures next == at + ArgsLevels(a) && |lv| == ArgsLevels(a)
    ensures Holds(levels, at, Usage(a, lv, advance).levels) && SameBut(levels, at, next)
    ensures more == !Usage(a, lv, advance).advance
    ensures out == Pattern(a, lv)
    decreases a, 1
  {
    LevelsLength(a, lv);
    var ours := OwnSlots(a);
    out := OwnText(a, if Multi(a) then levels[at] else 0);
    var text, advance';
    next, advance', text := ChildrenUsage(a.children, levels, at + ours, advance, lv[ours..]);
    out := out + text;
    ghost var kids := UsageAll(a.children, lv[ours..], advance);
    UsageInParts(a, lv, advance, kids);
    assert SameBut(levels, at + ours, next) && Holds(levels, at + ours, kids.levels);
    more := TurnOwnInPlace(a, levels, at, advance', lv, kids.levels);
    assert SameBut(levels, at, next);
  }

  /** The argp's own digit after those of its children. */
  ghost function OwnTurn(a: Argp, lv: seq<int>, advance: bool): (int, bool)
    requires LevelsOk(a, lv)
  {
    if !Multi(a) then (0, advance) else if advance then TurnOwn(a, lv[0]) else (lv[0], false)
  }

  lemma UsageInParts(a: Argp, lv: seq<int>, advance: bool, kids: Turn)
    requires LevelsOk(a, lv) && kids == UsageAll(a.children, lv[OwnSlots(a)..], advance)
    ensures var own := OwnTurn(a, lv, kids.advance);
            && OwnSlots(a) + |kids.levels| == |lv|
            && Usage(a, lv, advance) == Turn((if Multi(a) then [own.0] else []) + kids.levels, own.1)
    ensures Pattern(a, lv) == OwnText(a, if Multi(a) then lv[0] else 0) + PatternAll(a.children, lv[OwnSlots(a)..])
  {
    UsageKeepsLevelsAll(a.children, lv[OwnSlots(a)..], advance);
    assert [] + kids.levels == kids.levels;
  }

  /** The digit of the argp itself, once its children have taken their turn. */
  method TurnOwnInPlace(a: Argp, levels: array<int>, at: nat, advance: bool, ghost lv: seq<int>, ghost below: seq<int>)
    returns (more: bool)
    requires LevelsOk(a, lv) && |lv| == ArgsLevels(a) && OwnSlots(a) + |below| == |lv|
    requires (Multi(a) ==> at < levels.Length && levels[at] == lv[0]) && Holds(levels, at + OwnSlots(a), below)
    modifies levels
    ensures var own := OwnTurn(a, lv, advance);
            Holds(levels, at, (if Multi(a) then [own.0] else []) + below) && more == !own.1
    ensures SameBut(levels, at, at + OwnSlots(a))
  {
    more := !advance;
    if advance && Multi(a) {
      var own := TurnOwn(a, levels[at]);
      levels[at] := own.0;
      more := !own.1;
    }
  }

  /** Where the loop over the children is: `k` of them are done, `rest` are the levels of the others. */
  ghost predicate Midway(kids: seq<Argp>, lv: seq<int>, advance0: bool, k: nat,
                         done: seq<int>, advance: bool, out: seq<string>, rest: seq<int>)
    requires LevelsOkAll(kids, lv)
  {
    && k <= |kids| && LevelsOkAll(kids[k..], rest)
    && UsageAll(kids, lv, advance0).levels == done + UsageAll(kids[k..], rest, advance).levels
    && UsageAll(kids, lv, advance0).advance == UsageAll(kids[k..], rest, advance).advance
    && PatternAll(kids, lv) == out + PatternAll(kids[k..], rest)
  }

  lemma MidwayNext(kids: seq<Argp>, lv: seq<int>, advance0: bool, k: nat,
                   done: seq<int>, advance: bool, out: seq<string>, rest: seq<int>, n: nat)
    requires LevelsOkAll(kids, lv) && k < |kids| && Midway(kids, lv, advance0, k, done, advance, out, rest)
    requires n == ArgsLevels(kids[k])
    ensures n <= |rest| && LevelsOk(kids[k], rest[..n]) && |Usage(kids[k], rest[..n], advance).levels| == n
    ensures var turn := Usage(kids[k], rest[..n], advance);
            Midway(kids, lv, advance0, k + 1, done + turn.levels, turn.advance, out + Pattern(kids[k], rest[..n]),
                   rest[n..])
  {
    assert kids[k..][1..] == kids[k + 1..];
    FirstTurn(kids[k..], rest, advance, n);
    var turn := Usage(kids[k], rest[..n], advance);
    var later := UsageAll(kids[k + 1..], rest[n..], turn.advance);
    assert done + (turn.levels + later.levels) == (done + turn.levels) + later.levels;
    var text, texts := Pattern(kids[k], rest[..n]), PatternAll(kids[k + 1..], rest[n..]);
    assert out + (text + texts) == (out + text) + texts;
  }

  /** The first of some children takes its turn, then the others. */
  lemma FirstTurn(kids: seq<Argp>, lv: seq<int>, advance: bool, n: nat)
    requires kids != [] && LevelsOkAll(kids, lv) && n == ArgsLevels(kids[0])
    ensures n <= |lv| && LevelsOk(kids[0], lv[..n]) && LevelsOkAll(kids[1..], lv[n..])
    ensures var turn := Usage(kids[0], lv[..n], advance);
            var later := UsageAll(kids[1..], lv[n..], turn.advance);
            && |turn.levels| == n
            && UsageAll(kids, lv, advance) == Turn(turn.levels + later.levels, later.advance)
    ensures PatternAll(kids, lv) == Pattern(kids[0], lv[..n]) + PatternAll(kids[1..], lv[n..])
  {
    UsageKeepsLevels(kids[0], lv[..n], advance);
  }

  /** The loop over the children. */
  method ChildrenUsage(kids: seq<Argp>, levels: array<int>, at: nat, advance0: bool, ghost lv: seq<int>)
    returns (next: nat, advance: bool, out: seq<string>)
    requires LevelsOkAll(kids, lv) && Holds(levels, at, lv)
    modifies levels
    ensures next == at + |lv|
    ensures Holds(levels, at, UsageAll(kids, lv, advance0).levels) && SameBut(levels, at, next)
    ensures advance == UsageAll(kids, lv, advance0).advance
    ensures out == PatternAll(kids, lv)
    decreases kids, 0
  {
    next, advance, out := at, advance0, [];
    var k := 0;
    ghost var done, rest := [], lv;
    assert kids[0..] == kids;
    while k < |kids|
      invariant 0 <= k <= |kids| && next == at + |done| && |done| + |rest| == |lv|
      invariant Midway(kids, lv, advance0, k, done, advance, out, rest)
      invariant Holds(levels, at, done) && Holds(levels, next, rest) && SameBut(levels, at, next)
    {
      next, advance, out, done, rest := OneChild(kids, levels, at, next, k, advance0, advance, out, lv, done, rest);
      k := k + 1;
    }
  }

  /** The body of that loop. */
  method OneChild(kids: seq<Argp>, levels: array<int>, ghost at: nat, cursor: nat, k: nat, ghost advance0: bool,
                  advance: bool,
                  out: seq<string>, ghost lv: seq<int>, ghost done: seq<int>, ghost rest: seq<int>)
    returns (next: nat, advance': bool, out': seq<string>, ghost done': seq<int>, ghost rest': seq<int>)
    requires LevelsOkAll(kids, lv) && k < |kids| && Midway(kids, lv, advance0, k, done, advance, out, rest)
    requires cursor == at + |done| && Holds(levels, at, done) && Holds(levels, cursor, rest)
    modifies levels
    ensures cursor <= next == at + |done'| && |done'| + |rest'| == |done| + |rest|
    ensures Midway(kids, lv, advance0, k + 1, done', advance', out', rest')
    ensures Holds(levels, at, done') && Holds(levels, next, rest') && SameBut(levels, cursor, next)
    decreases kids, 0, 0
  {
    ghost var n := ArgsLevels(kids[k]);
    MidwayNext(kids, lv, advance0, k, done, advance, out, rest, n);
    var more, text;
    next, more, text := ArgsUsage(kids[k], levels, cursor, advance, rest[..n]);
    done', rest' := done + Usage(kids[k], rest[..n], advance).levels, rest[n..];
    out', advance' := out + text, !more;
  }

  // --- the usage loop ---

  function Zeros(n: nat): (r: seq<int>)
    ensures |r| == n && forall i :: 0 <= i < n ==> r[i] == 0
  {
    seq(n, _ => 0)
  }

  lemma {:induction false} ZerosReadZero(a: Argp, lv: seq<int>)
    requires lv == Zeros(ArgsLevels(a))
    ensures IsChoice(a, lv) && Value(a, lv) == 0
    decreases a, 1
  {
    assert lv[OwnSlots(a)..] == Zeros(ArgsLevelsAll(a.children));
    ZerosReadZeroAll(a.children, lv[OwnSlots(a)..]);
  }

  lemma {:induction false} ZerosReadZeroAll(kids: seq<Argp>, lv: seq<int>)
    requires lv == Zeros(ArgsLevelsAll(kids))
    ensures IsChoiceAll(kids, lv) && ValueAll(kids, lv) == 0
    decreases kids, 0
  {
    if kids != [] {
      var n := ArgsLevels(kids[0]);
      assert lv[..n] == Zeros(n) && lv[n..] == Zeros(ArgsLevelsAll(kids[1..]));
      ZerosReadZero(kids[0], lv[..n]);
      ZerosReadZeroAll(kids[1..], lv[n..]);
    }
  }

  /** From one pattern to the next, or from the last one back to all levels zero. */
  lemma NextPattern(a: Argp, lv: seq<int>)
    requires IsChoice(a, lv) && Fits(a)
    ensures IsChoice(a, Usage(a, lv, true).levels)
    ensures if Usage(a, lv, true).advance
            then Value(a, lv) + 1 == Count(a) && Usage(a, lv, true).levels == Zeros(ArgsLevels(a))
            else Value(a, Usage(a, lv, true).levels) == Value(a, lv) + 1 < Count(a)
  {
    var r := Usage(a, lv, true);
    UsageAdvances(a, lv, true);
    ValueBounded(a, lv);
    ValueBounded(a, r.levels);
    if r.advance {
      ZerosReadZero(a, Zeros(ArgsLevels(a)));
      ValueInjective(a, r.levels, Zeros(ArgsLevels(a)));
    }
  }

  /** The choices made so far read 0, 1, 2, ... */
  ghost predicate Counting(a: Argp, choices: seq<seq<int>>) {
    forall i :: 0 <= i < |choices| ==> IsChoice(a, choices[i]) && Value(a, choices[i]) == i
  }

  ghost predicate Shows(a: Argp, choices: seq<seq<int>>, shown: seq<seq<string>>) {
    |shown| == |choices| && forall i :: 0 <= i < |choices| ==>
      LevelsOk(a, choices[i]) && shown[i] == Pattern(a, choices[i])
  }

  /** Every choice is there once. */
  ghost predicate EachOnce(a: Argp, choices: seq<seq<int>>) {
    && (forall lv :: lv in choices <==> IsChoice(a, lv))
    && forall i, j :: 0 <= i < j < |choices| ==> choices[i] != choices[j]
  }

  lemma CountingIsComplete(a: Argp, choices: seq<seq<int>>)
    requires Counting(a, choices) && |choices| == Count(a)
    ensures EachOnce(a, choices)
  {
    forall lv | IsChoice(a, lv) ensures lv in choices {
      ValueBounded(a, lv);
      var i := Value(a, lv);
      ValueInjective(a, lv, choices[i]);
    }
  }

  /** Where the loop is: `choices` were shown, and the odometer stands at `lv`, the next of them if there is one. */
  ghost predicate Shown(a: Argp, choices: seq<seq<int>>, shown: seq<seq<string>>, lv: seq<int>, more: bool) {
    && IsChoice(a, lv) && |lv| == ArgsLevels(a) && Counting(a, choices) && Shows(a, choices, shown)
    && if more then Value(a, lv) == |choices| < Count(a) else |choices| == Count(a) && lv == Zeros(ArgsLevels(a))
  }

  lemma NextShown(a: Argp, choices: seq<seq<int>>, shown: seq<seq<string>>, lv: seq<int>)
    requires Fits(a) && Shown(a, choices, shown, lv, true)
    ensures LevelsOk(a, lv)
    ensures var turn := Usage(a, lv, true);
            Shown(a, choices + [lv], shown + [Pattern(a, lv)], turn.levels, !turn.advance)
  {
    NextPattern(a, lv);
    UsageKeepsLevels(a, lv, true);
  }

  /** The loop of `_help`: one pattern after another until the odometer is back at zero. */
  method PrintUsages(a: Argp) returns (shown: seq<seq<string>>, final: seq<int>, ghost choices: seq<seq<int>>)
    requires Fits(a)
    ensures EachOnce(a, choices) && Shows(a, choices, shown) && |shown| == Count(a)
    ensures final == Zeros(ArgsLevels(a))
  {
    var levels := new int[ArgsLevels(a)](_ => 0);
    shown, choices := [], [];
    ghost var lv := Zeros(ArgsLevels(a));
    ZerosReadZero(a, lv);
    ValueBounded(a, lv);
    var more := true;
    while more
      invariant Holds(levels, 0, lv) && levels.Length == ArgsLevels(a) && Shown(a, choices, shown, lv, more)
      decreases more, Count(a) - |choices|
    {
      NextShown(a, choices, shown, lv);
      var next, out;
      next, more, out := ArgsUsage(a, levels, 0, true, lv);
      choices, shown := choices + [lv], shown + [out];
      lv := Usage(a, lv, true).levels;
    }
    CountingIsComplete(a, choices);
    final := levels[..];
  }

  // --- line numbers that do not fit ---

  /** An ARGS_DOC with more than 128 lines takes every advance that reaches it. */
  lemma {:induction false} LongDocAbsorbs(a: Argp, lv: seq<int>, advance: bool)
    requires LevelsOk(a, lv) && !Fits(a)
    ensures !Usage(a, lv, advance).advance
    decreases a, 1
  {
    if !FitsAll(a.children) {
      LongDocAbsorbsAll(a.children, lv[OwnSlots(a)..], advance);
    }
  }

  lemma {:induction false} LongDocAbsorbsAll(kids: seq<Argp>, lv: seq<int>, advance: bool)
    requires LevelsOkAll(kids, lv) && !FitsAll(kids)
    ensures !UsageAll(kids, lv, advance).advance
    decreases kids, 0
  {
    var n := ArgsLevels(kids[0]);
    var first := Usage(kids[0], lv[..n], advance);
    if !FitsAll(kids[1..]) {
      LongDocAbsorbsAll(kids[1..], lv[n..], first.advance);
    } else {
      LongDocAbsorbs(kids[0], lv[..n], advance);
      NoAdvanceStays(kids[1..], lv[n..]);
    }
  }

  lemma {:induction false} NoAdvanceStays(kids: seq<Argp>, lv: seq<int>)
    requires LevelsOkAll(kids, lv)
    ensures !UsageAll(kids, lv, false).advance
    decreases kids, 0
  {
    if kids != [] {
      var n := ArgsLevels(kids[0]);
      NoAdvanceStays(kids[0].children, lv[..n][OwnSlots(kids[0])..]);
      NoAdvanceStays(kids[1..], lv[n..]);
    }
  }

  /** The level vector ahead of call `n` of a loop that never looks whether it is to stop. */
  ghost function LevelsBefore(a: Argp, n: nat): (lv: seq<int>)
    ensures LevelsOk(a, lv)
  {
    if n == 0 then ZerosReadZero(a, Zeros(ArgsLevels(a))); Zeros(ArgsLevels(a))
    else UsageKeepsLevels(a, LevelsBefore(a, n - 1), true); Usage(a, LevelsBefore(a, n - 1), true).levels
  }

  lemma {:induction false} LevelsCount(a: Argp, n: nat)
    requires Fits(a) && n < Count(a)
    ensures IsChoice(a, LevelsBefore(a, n)) && Value(a, LevelsBefore(a, n)) == n
  {
    if n == 0 {
      ZerosReadZero(a, Zeros(ArgsLevels(a)));
    } else {
      LevelsCount(a, n - 1);
      NextPattern(a, LevelsBefore(a, n - 1));
    }
  }

  /** The usage loop stops if and only if every line number fits a signed char. */
  lemma UsageStopsIff(a: Argp)
    ensures (exists n :: Usage(a, LevelsBefore(a, n), true).advance) <==> Fits(a)
  {
    if Fits(a) {
      var zeros := Zeros(ArgsLevels(a));
      ZerosReadZero(a, zeros);
      ValueBounded(a, zeros);
      var n: nat := Count(a) - 1;
      LevelsCount(a, n);
      NextPattern(a, LevelsBefore(a, n));
      ValueBounded(a, Usage(a, LevelsBefore(a, n), true).levels);
      assert Usage(a, LevelsBefore(a, n), true).advance;
    } else {
      forall n: nat ensures !Usage(a, LevelsBefore(a, n), true).advance {
        LongDocAbsorbs(a, LevelsBefore(a, n), true);
      }
    }
  }
}
