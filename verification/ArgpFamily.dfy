/** A parse for a whole tree of argps: what its groups are, and in which order parents and children are called. */
module ArgpFamily {

  import opened Wrappers
  import opened ArgpTable
  import opened ArgpSpec
  import opened ArgpSweep
  import opened ArgpGroups
  import ArgpInputs
  import ArgpParser

  // --- one call ahead of another ---

  /** Whenever `b` is made, `a` was made before. */
  ghost predicate Precedes(calls: seq<Call>, a: Call, b: Call) {
    forall y :: 0 <= y < |calls| && calls[y] == b ==> exists x :: 0 <= x < y && calls[x] == a
  }

  lemma PrecedesWithin(early: seq<Call>, calls: seq<Call>, late: seq<Call>, a: Call, b: Call)
    requires Precedes(calls, a, b) && b !in early && b !in late
    ensures Precedes(early + calls + late, a, b)
  {
    var all := early + calls + late;
    forall y | 0 <= y < |all| && all[y] == b ensures exists x :: 0 <= x < y && all[x] == a {
      assert all[y] in early || all[y] in late || |early| <= y < |early| + |calls|;
      var x :| 0 <= x < y - |early| && calls[x] == a;
      assert all[|early| + x] == a;
    }
  }

  /** The calls of a sweep are to the groups of its range that have a parser. */
  lemma {:induction false} UpHas(parsers: seq<bool>, key: Key, lo: nat, hi: nat, c: Call)
    requires lo <= hi <= |parsers|
    ensures c in Up(parsers, key, lo, hi) <==>
            lo <= c.group < hi && parsers[c.group] && c == Call(c.group, key, None)
    decreases hi - lo
  {
    if lo < hi {
      UpHas(parsers, key, lo, hi - 1, c);
      var most, last := Up(parsers, key, lo, hi - 1), Maybe(parsers[hi - 1], hi - 1, key);
      assert Up(parsers, key, lo, hi) == most + last;
      assert c in most + last <==> c in most || c in last;
    }
  }

  lemma {:induction false} DownHas(parsers: seq<bool>, key: Key, lo: nat, hi: nat, c: Call)
    requires lo <= hi <= |parsers|
    ensures c in Down(parsers, key, lo, hi) <==>
            lo <= c.group < hi && parsers[c.group] && c == Call(c.group, key, None)
    decreases hi - lo
  {
    if lo < hi {
      DownHas(parsers, key, lo + 1, hi, c);
      var most, last := Down(parsers, key, lo + 1, hi), Maybe(parsers[lo], lo, key);
      assert Down(parsers, key, lo, hi) == most + last;
      assert c in most + last <==> c in most || c in last;
    }
  }

  lemma UpPrecedes(parsers: seq<bool>, key: Key, hi: nat, p: nat, i: nat)
    requires hi <= |parsers| && p < i < |parsers| && parsers[p]
    ensures Precedes(Up(parsers, key, 0, hi), Call(p, key, None), Call(i, key, None))
  {
    var calls, a, b := Up(parsers, key, 0, hi), Call(p, key, None), Call(i, key, None);
    UpIsAscending(parsers, key, 0, hi);
    UpHas(parsers, key, 0, hi, a);
    UpHas(parsers, key, 0, hi, b);
    forall y | 0 <= y < |calls| && calls[y] == b ensures exists x :: 0 <= x < y && calls[x] == a {
      var x :| 0 <= x < |calls| && calls[x] == a;
    }
  }

  lemma DownPrecedes(parsers: seq<bool>, key: Key, lo: nat, p: nat, i: nat)
    requires lo <= |parsers| && p < i < |parsers| && parsers[i]
    ensures Precedes(Down(parsers, key, lo, |parsers|), Call(i, key, None), Call(p, key, None))
  {
    var calls, a, b := Down(parsers, key, lo, |parsers|), Call(i, key, None), Call(p, key, None);
    DownIsDescending(parsers, key, lo, |parsers|);
    DownHas(parsers, key, lo, |parsers|, a);
    DownHas(parsers, key, lo, |parsers|, b);
    forall y | 0 <= y < |calls| && calls[y] == b ensures exists x :: 0 <= x < y && calls[x] == a {
      var x :| 0 <= x < |calls| && calls[x] == a;
    }
  }

  // --- parents and children in a parse ---

  /** INIT reaches a parent before its child; END, SUCCESS and FINI reach the child before its parent. */
  ghost predicate FamilyOrder(calls: seq<Call>, p: nat, i: nat) {
    && Precedes(calls, Call(p, Init, None), Call(i, Init, None))
    && Precedes(calls, Call(i, End, None), Call(p, End, None))
    && Precedes(calls, Call(i, Success, None), Call(p, Success, None))
    && Precedes(calls, Call(i, Fini, None), Call(p, Fini, None))
  }

  lemma ClosingOrder(parsers: seq<bool>, processed: seq<nat>, c: Closing, p: nat, i: nat, key: Key)
    requires |processed| == |parsers| && ClosingOk(|parsers|, c) && p < i < |parsers| && parsers[i]
    requires key == End || key == Success || key == Fini
    ensures Precedes(ClosingCalls(parsers, processed, c), Call(i, key, None), Call(p, key, None))
  {
    var n, b := |parsers|, Call(p, key, None);
    var s1, s2 := Up(Idle(parsers, processed), NoArgs, 0, c.noArgs), Down(parsers, End, c.ends, n);
    var s3, s4 := Announced(parsers, c.failed, c.successes), Down(parsers, Fini, 0, n);
    UpHas(Idle(parsers, processed), NoArgs, 0, c.noArgs, b);
    DownHas(parsers, End, c.ends, n, b);
    UpHas(parsers, Error, 0, n, b);
    DownHas(parsers, Success, c.successes, n, b);
    DownHas(parsers, Fini, 0, n, b);
    match key
    case End =>
      DownPrecedes(parsers, End, c.ends, p, i);
      PrecedesWithin(s1, s2, s3 + s4, Call(i, key, None), b);
      assert s1 + s2 + (s3 + s4) == s1 + s2 + s3 + s4;
    case Success =>
      DownPrecedes(parsers, Success, c.successes, p, i);
      PrecedesWithin(s1 + s2, s3, s4, Call(i, key, None), b);
    case Fini =>
      DownPrecedes(parsers, Fini, 0, p, i);
      PrecedesWithin(s1 + s2 + s3, s4, [], Call(i, key, None), b);
      assert s1 + s2 + s3 + s4 + [] == s1 + s2 + s3 + s4;
  }

  lemma ClosingHasNoInit(parsers: seq<bool>, processed: seq<nat>, c: Closing, b: Call)
    requires |processed| == |parsers| && ClosingOk(|parsers|, c) && b.key == Init
    ensures b !in ClosingCalls(parsers, processed, c)
  {
    var n := |parsers|;
    UpHas(Idle(parsers, processed), NoArgs, 0, c.noArgs, b);
    DownHas(parsers, End, c.ends, n, b);
    UpHas(parsers, Error, 0, n, b);
    DownHas(parsers, Success, c.successes, n, b);
    DownHas(parsers, Fini, 0, n, b);
  }

  /** In a parse whose groups come from a tree, every group and its parent are called in family order. */
  lemma ParseKeepsFamilyOrder(env: Env, groups: seq<Group>, calls: seq<Call>, t: ArgpParser.Trace, i: nat)
    requires ArgpParser.Traces(env, calls, t) && ParentsFirst(groups) && |groups| == |env.parsers|
    requires i < |groups| && groups[i].parent.Some?
    ensures groups[i].parent.value < i
    ensures env.parsers[groups[i].parent.value] && env.parsers[i] ==> FamilyOrder(calls, groups[i].parent.value, i)
  {
    assert ParentFirst(groups, i);
    var p := groups[i].parent.value;
    if env.parsers[p] && env.parsers[i] {
      match t
      case InitFailed(k) =>
        UpPrecedes(env.parsers, Init, k, p, i);
        InitsOnly(env.parsers, k, p);
      case Parsed(work, processed, _, _, closing) =>
        var start, close := Up(env.parsers, Init, 0, |env.parsers|), ClosingCalls(env.parsers, processed, closing);
        UpPrecedes(env.parsers, Init, |env.parsers|, p, i);
        ClosingHasNoInit(env.parsers, processed, closing, Call(i, Init, None));
        PrecedesWithin([], start, work + close, Call(p, Init, None), Call(i, Init, None));
        assert [] + start + (work + close) == calls;
        ClosingLast(env, start, work, processed, closing, p, i, End);
        ClosingLast(env, start, work, processed, closing, p, i, Success);
        ClosingLast(env, start, work, processed, closing, p, i, Fini);
    }
  }

  lemma InitsOnly(parsers: seq<bool>, k: nat, p: nat)
    requires k <= |parsers|
    ensures forall key: Key :: key != Init ==> Call(p, key, None) !in Up(parsers, Init, 0, k)
  {
    forall key: Key | key != Init ensures Call(p, key, None) !in Up(parsers, Init, 0, k) {
      UpHas(parsers, Init, 0, k, Call(p, key, None));
    }
  }

  lemma ClosingLast(env: Env, start: seq<Call>, work: seq<Call>, processed: seq<nat>, c: Closing, p: nat, i: nat,
                    key: Key)
    requires start == Up(env.parsers, Init, 0, |env.parsers|) && forall x :: 0 <= x < |work| ==> IsWork(work[x].key)
    requires |processed| == |env.parsers| && ClosingOk(|env.parsers|, c) && p < i < |env.parsers| && env.parsers[i]
    requires key == End || key == Success || key == Fini
    ensures Precedes(start + work + ClosingCalls(env.parsers, processed, c), Call(i, key, None), Call(p, key, None))
  {
    var close := ClosingCalls(env.parsers, processed, c);
    ClosingOrder(env.parsers, processed, c, p, i, key);
    UpHas(env.parsers, Init, 0, |env.parsers|, Call(p, key, None));
    PrecedesWithin(start + work, close, [], Call(i, key, None), Call(p, key, None));
    assert start + work + close + [] == start + work + close;
  }

  // --- a parse for a tree ---

  function ParsersOf(groups: seq<Group>): (r: seq<bool>)
    ensures |r| == |groups|
  {
    seq(|groups|, i requires 0 <= i < |groups| => groups[i].argp.hasParser)
  }

  lemma {:induction false} TableGroups(argps: seq<Argp>, first: nat)
    ensures forall e <- TableOf(argps, first) :: first <= e.group < first + |argps|
    decreases |argps|
  {
    if argps != [] {
      TableGroups(argps[1..], first + 1);
    }
  }

  /** The loop that hands inputs down and the calls of the parse stop at the same group. */
  lemma SameStop(env: Env, fails: nat -> bool, n: nat, hi: nat, failed: bool)
    requires forall g: nat :: fails(g) == (g < |env.parsers| && ArgpParser.Objects(env, env.parsers, [], Init, g))
    requires ArgpParser.StopsAt(env, env.parsers, [], Init, hi, failed) && (!failed ==> hi == |env.parsers|)
    requires n <= |env.parsers| && (n < |env.parsers| ==> n > 0 && fails(n - 1))
    requires forall g :: 0 <= g < n - 1 ==> !fails(g)
    ensures n == hi
  {
  }

  /**
   `argp_parse` for a tree of argps: groups are made from the tree, each that is initialised gets its input
   from its parent, which are all unless a parser fails, and parents and children are called in family order.
   */
  method ParseTree(a: Argp, ordering: Ordering, respond: (seq<Call>, Call) -> Response, top: ArgpInputs.Input,
                   hands: ArgpInputs.Hands, argv: array<string>, parseArgv0: bool, wantsEnd: bool)
    returns (err: Err, end: Option<nat>, calls: seq<Call>, inputs: seq<ArgpInputs.Input>,
             ghost groups: seq<Group>, ghost trace: ArgpParser.Trace)
    modifies argv
    ensures ParentsFirst(groups) && |groups| == NumGroups(a) && Mirrors(groups, 0, a, None, 0)
    ensures var env := Env(TableOf(Preorder(a), 0), ParsersOf(groups), ordering, respond);
            && ArgpParser.Traces(env, calls, trace)
            && |inputs| == ArgpParser.Initialised(env, trace) <= |groups|
            && ArgpParser.StopsAt(env, env.parsers, [], Init, |inputs|, trace.InitFailed?)
    ensures forall g :: 0 <= g < |inputs| ==> inputs[g] == ArgpInputs.InputOf(groups, hands, top, g)
    ensures forall i: nat :: i < |groups| && groups[i].parent.Some? ==>
              groups[i].parent.value < i
              && (groups[groups[i].parent.value].argp.hasParser && groups[i].argp.hasParser ==>
                    FamilyOrder(calls, groups[i].parent.value, i))
  {
    var converter := new Converter();
    converter.ConvertOptions(a, None, 0);
    var made := converter.groups;
    groups := made;
    MirrorIsPreorder(made, 0, a, None, 0);
    var env := Env(TableOf(Preorder(a), 0), ParsersOf(made), ordering, respond);
    TableGroups(Preorder(a), 0);
    var fails := (g: nat) => g < |env.parsers| && ArgpParser.Objects(env, env.parsers, [], Init, g);
    inputs := ArgpInputs.InitInputs(made, converter.childInputsEnd, top, hands, fails);
    err, end, calls, trace := ArgpParser.ArgpParse(env, argv, parseArgv0, wantsEnd);
    SameStop(env, fails, |inputs|, ArgpParser.Initialised(env, trace), trace.InitFailed?);
    forall i: nat | i < |groups| && groups[i].parent.Some?
      ensures groups[i].parent.value < i
              && (groups[groups[i].parent.value].argp.hasParser && groups[i].argp.hasParser ==>
                    FamilyOrder(calls, groups[i].parent.value, i))
    {
      ParseKeepsFamilyOrder(env, groups, calls, trace, i);
    }
  }
}
