/**
 What becomes of an option that is in the table but that its own parser does not know. The parse ends
 with `Unknown`, and that is an error only if the flag `arg_ebadkey` is clear: an argument sets it, a
 long option clears it, and a short option leaves it as it is.
 */
module ArgpRefusal {

  import opened Wrappers
  import opened ArgpTable
  import opened ArgpSpec
  import opened ArgpSweep
  import ArgpParser

  /** The last call was for an option, and the parser did not know it. */
  predicate LastRefused(env: Env, calls: seq<Call>) {
    && calls != [] && calls[|calls| - 1].key.User?
    && env.respond(calls[..|calls| - 1], calls[|calls| - 1]).err == Unknown
  }

  /** An option that takes the next element of argv for its argument. */
  predicate TakesNext(opt: Opt, attached: Option<string>) {
    SupplyFor(opt, attached, true) == FromArgv
  }

  /**
   The flag once `n` elements of `rest` are consumed, as the elements alone tell: an argument sets it,
   a long option clears it. An element that is the value of an option does neither.
   */
  function FlagAt(table: seq<Entry>, flag: bool, letters: string, rest: seq<string>, n: nat): bool
    decreases |rest|, |letters|
  {
    if n == 0 || rest == [] then flag
    else if letters != "" then
      match FindShort(table, letters[0] as int)
      case None => false
      case Some(k) =>
        var opt := table[k].opt;
        if !opt.hasArg then FlagAt(table, flag, letters[1..], rest, n)
        else if TakesNext(opt, if |letters| > 1 then Some(letters[1..]) else None)
        then FlagAt(table, flag, "", rest[1..], n - 1)
        else FlagAt(table, flag, "", rest, n)
    else match Classify(rest[0])
      case ArgKind => FlagAt(table, true, "", rest[1..], n - 1)
      case QuoteKind => true
      case ShortKind => FlagAt(table, flag, rest[0][1..], rest[1..], n - 1)
      case LongKind =>
        match FindLong(table, rest[0][2..])
        case None => false
        case Some(k) =>
          if TakesNext(table[k].opt, ValuePart(rest[0][2..])) && n > 1 && |rest| > 1
          then FlagAt(table, false, "", rest[2..], n - 2)
          else FlagAt(table, false, "", rest[1..], n - 1)
  }

  lemma AskedLast(env: Env, log: Log, c: Call)
    requires Fits(env, log) && c.group < |env.parsers| && !LastRefused(env, log.calls)
    ensures var (log1, err) := Ask(env, log, c);
            && log1.ebadkey == log.ebadkey && (LastRefused(env, log1.calls) ==> err == Unknown && c.key.User?)
  {
    assert (log.calls + [c])[..|log.calls|] == log.calls;
  }

  lemma {:induction false} DeliveryIsNoOption(env: Env, log: Log, g: nat, val: string, left: nat)
    requires Fits(env, log) && g <= |env.parsers| && !LastRefused(env, log.calls)
    ensures var d := Deliver(env, log, g, val, left); !LastRefused(env, d.log.calls) && d.log.ebadkey == log.ebadkey
    decreases |env.parsers| - g
  {
    if g < |env.parsers| {
      var (log1, err1) := Ask(env, log, Call(g, Arg, Some(val)));
      AskedLast(env, log, Call(g, Arg, Some(val)));
      AskedLast(env, log1, Call(g, Args, None));
      if err1 == Unknown {
        var (log2, err2) := Ask(env, log1, Call(g, Args, None));
        if err2 == Unknown {
          DeliveryIsNoOption(env, log2, g + 1, val, left);
        }
      }
    }
  }

  lemma {:induction false} ArgsPhaseGivesArgv(env: Env, log: Log, done: seq<string>, rest: seq<string>)
    requires Fits(env, log)
    ensures ArgsPhase(env, log, done, rest).argv.Some?
    decreases |rest|
  {
    if rest != [] {
      var d := Deliver(env, log.(ebadkey := true), 0, rest[0], |rest|);
      if d.err == Ok && !d.all {
        ArgsPhaseGivesArgv(env, d.log, done + [rest[0]], rest[1..]);
      }
    }
  }

  /** The scan stopped half-way, at an option that its parser does not know. */
  ghost predicate StoppedAtOption(env: Env, log: Log, v: Verdict) {
    !LastRefused(env, log.calls) && v.argv.None? && LastRefused(env, v.log.calls)
  }

  /** The scan of `rest`, which began at index `at`, stopped with the flag that `FlagAt` gives. */
  ghost predicate FlagIs(env: Env, v: Verdict, at: nat, flag: bool, letters: string, rest: seq<string>) {
    at <= v.next && v.err == Unknown && v.log.ebadkey == FlagAt(env.table, flag, letters, rest, v.next - at)
  }

  lemma {:induction false} FlagInScan(env: Env, log: Log, opts: seq<string>, letters: string, rest: seq<string>)
    requires Fits(env, log) && env.ordering == ReturnInOrder
    requires StoppedAtOption(env, log, Scan(env, log, opts, [], letters, rest))
    ensures FlagIs(env, Scan(env, log, opts, [], letters, rest), |opts|, log.ebadkey, letters, rest)
    decreases |rest|, |letters|, 1
  {
    if letters != "" {
      FlagInLetters(env, log, opts, letters, rest);
    } else if rest == [] {
      ArgsPhaseGivesArgv(env, log, opts, []);
    } else {
      match Classify(rest[0])
      case ArgKind => FlagInArgument(env, log, opts, rest);
      case QuoteKind => ArgsPhaseGivesArgv(env, log, opts + [rest[0]], [] + rest[1..]);
      case ShortKind => FlagInScan(env, log, opts + [rest[0]], rest[0][1..], rest[1..]);
      case LongKind => FlagInLong(env, log, opts, rest);
    }
  }

  lemma {:induction false} FlagInLetters(env: Env, log: Log, opts: seq<string>, letters: string, rest: seq<string>)
    requires Fits(env, log) && env.ordering == ReturnInOrder && letters != ""
    requires StoppedAtOption(env, log, Scan(env, log, opts, [], letters, rest))
    ensures FlagIs(env, Scan(env, log, opts, [], letters, rest), |opts|, log.ebadkey, letters, rest)
    decreases |rest|, |letters|, 0
  {
    var k := FindShort(env.table, letters[0] as int).value;
    var e := env.table[k];
    var attached := if e.opt.hasArg && |letters| > 1 then Some(letters[1..]) else None;
    var left := if e.opt.hasArg then "" else letters[1..];
    var v := Recognised(env, log, e, attached, opts, [], left, rest);
    assert Scan(env, log, opts, [], letters, rest) == v;
    FlagInRecognised(env, log, e, attached, opts, left, rest, v);
  }

  lemma {:induction false} FlagInLong(env: Env, log: Log, opts: seq<string>, rest: seq<string>)
    requires Fits(env, log) && env.ordering == ReturnInOrder && rest != [] && Classify(rest[0]) == LongKind
    requires StoppedAtOption(env, log, Scan(env, log, opts, [], "", rest))
    ensures FlagIs(env, Scan(env, log, opts, [], "", rest), |opts|, log.ebadkey, "", rest)
    decreases |rest|, 0, 0
  {
    var arg := rest[0][2..];
    var e := env.table[FindLong(env.table, arg).value];
    var log0 := log.(ebadkey := false);
    var v := Recognised(env, log0, e, ValuePart(arg), opts + [rest[0]], [], "", rest[1..]);
    assert Scan(env, log, opts, [], "", rest) == v;
    FlagInRecognised(env, log0, e, ValuePart(arg), opts + [rest[0]], "", rest[1..], v);
    assert rest[1..] != [] ==> rest[1..][1..] == rest[2..];
  }

  lemma {:induction false} FlagInArgument(env: Env, log: Log, opts: seq<string>, rest: seq<string>)
    requires Fits(env, log) && env.ordering == ReturnInOrder && rest != [] && Classify(rest[0]) == ArgKind
    requires StoppedAtOption(env, log, Scan(env, log, opts, [], "", rest))
    ensures FlagIs(env, Scan(env, log, opts, [], "", rest), |opts|, log.ebadkey, "", rest)
    decreases |rest|, 0, 0
  {
    var d := Deliver(env, log.(ebadkey := true), 0, rest[0], |rest|);
    DeliveryIsNoOption(env, log.(ebadkey := true), 0, rest[0], |rest|);
    if d.err == Ok {
      if d.all {
        ArgsPhaseGivesArgv(env, d.log, opts + rest, []);
      } else {
        FlagInScan(env, d.log, opts + [rest[0]], "", rest[1..]);
      }
    }
  }

  lemma {:induction false} FlagInRecognised(env: Env, log: Log, e: Entry, attached: Option<string>, opts: seq<string>,
                                            left: string, rest: seq<string>, v: Verdict)
    requires Fits(env, log) && e in env.table && env.ordering == ReturnInOrder
    requires v == Recognised(env, log, e, attached, opts, [], left, rest) && StoppedAtOption(env, log, v)
    ensures if TakesNext(e.opt, attached) then rest != [] && FlagIs(env, v, |opts| + 1, log.ebadkey, left, rest[1..])
            else FlagIs(env, v, |opts|, log.ebadkey, left, rest)
    decreases |rest|, |left|, 3
  {
    match SupplyFor(e.opt, attached, rest != [])
    case Unwanted =>
    case Missing =>
    case FromArgv =>
      var c := Call(e.group, User(e.opt.key), Some(rest[0]));
      FlagAfterCall(env, log, c, opts + [rest[0]], left, rest[1..], v);
    case _ =>
      FlagAfterCall(env, log, Call(e.group, User(e.opt.key), attached), opts, left, rest, v);
  }

  /** The same from the call for the option on. */
  lemma {:induction false} FlagAfterCall(env: Env, log: Log, c: Call, opts: seq<string>, left: string,
                                         rest: seq<string>, v: Verdict)
    requires Fits(env, log) && c.group < |env.parsers| && env.ordering == ReturnInOrder
    requires var (log1, err) := Ask(env, log, c);
             v == if err != Ok then Verdict(log1, None, |opts|, err) else Scan(env, log1, opts, [], left, rest)
    requires StoppedAtOption(env, log, v)
    ensures FlagIs(env, v, |opts|, log.ebadkey, left, rest)
    decreases |rest|, |left|, 2
  {
    AskedLast(env, log, c);
    var (log1, err) := Ask(env, log, c);
    if err == Ok {
      FlagInScan(env, log1, opts, left, rest);
    }
  }

  // --- the other orderings, in which only the last phase delivers arguments ---

  lemma {:induction false} FlagKept(env: Env, log: Log, opts: seq<string>, skipped: seq<string>, letters: string,
                                    rest: seq<string>)
    requires Fits(env, log) && env.ordering != ReturnInOrder && !log.ebadkey
    requires !LastRefused(env, log.calls)
    ensures var v := Scan(env, log, opts, skipped, letters, rest);
            v.argv.None? ==>
              && !v.log.ebadkey && v.next >= |opts| + |skipped|
              && (LastRefused(env, v.log.calls) ==> v.err == Unknown)
    decreases |rest|, |letters|, 1
  {
    if letters != "" {
      var k := FindShort(env.table, letters[0] as int);
      if k.Some? {
        var e := env.table[k.value];
        var attached := if e.opt.hasArg && |letters| > 1 then Some(letters[1..]) else None;
        FlagKeptByOption(env, log, e, attached, opts, skipped, if e.opt.hasArg then "" else letters[1..], rest);
      }
    } else if rest == [] {
      ArgsPhaseGivesArgv(env, log, opts, skipped);
    } else {
      match Classify(rest[0])
      case ArgKind =>
        FlagKept(env, log, opts, skipped + [rest[0]], "", rest[1..]);
        ArgsPhaseGivesArgv(env, log, opts + skipped, rest);
      case QuoteKind => ArgsPhaseGivesArgv(env, log, opts + [rest[0]], skipped + rest[1..]);
      case ShortKind => FlagKept(env, log, opts + [rest[0]], skipped, rest[0][1..], rest[1..]);
      case LongKind =>
        var k := FindLong(env.table, rest[0][2..]);
        if k.Some? {
          FlagKeptByOption(env, log.(ebadkey := false), env.table[k.value], ValuePart(rest[0][2..]),
                           opts + [rest[0]], skipped, "", rest[1..]);
        }
    }
  }

  lemma {:induction false} FlagKeptByOption(env: Env, log: Log, e: Entry, attached: Option<string>, opts: seq<string>,
                                            skipped: seq<string>, left: string, rest: seq<string>)
    requires Fits(env, log) && e in env.table && env.ordering != ReturnInOrder && !log.ebadkey
    requires !LastRefused(env, log.calls)
    ensures var v := Recognised(env, log, e, attached, opts, skipped, left, rest);
            v.argv.None? ==>
              && !v.log.ebadkey && v.next >= |opts| + |skipped|
              && (LastRefused(env, v.log.calls) ==> v.err == Unknown)
    decreases |rest|, |left|, 2
  {
    match SupplyFor(e.opt, attached, rest != [])
    case Unwanted =>
    case Missing =>
    case FromArgv =>
      var c := Call(e.group, User(e.opt.key), Some(rest[0]));
      AskedLast(env, log, c);
      var (log1, err) := Ask(env, log, c);
      if err == Ok {
        FlagKept(env, log1, opts + [rest[0]], skipped, left, rest[1..]);
      }
    case _ =>
      var c := Call(e.group, User(e.opt.key), attached);
      AskedLast(env, log, c);
      var (log1, err) := Ask(env, log, c);
      if err == Ok {
        FlagKept(env, log1, opts, skipped, left, rest);
      }
  }

  // --- a whole parse ---

  /** What the parse of `a` from `start` on comes to, once all groups are initialised. */
  ghost function ParseOf(env: Env, a: seq<string>, start: nat): Verdict
    requires Fits(env, ArgpParser.LogAfterInit(env)) && start <= |a|
  {
    ArgpParser.OutcomeOf(env, ArgpParser.LogAfterInit(env), a, 0, 0, start, "", false)
  }

  lemma {:induction false} InitIsNoOption(env: Env, hi: nat)
    requires hi <= |env.parsers|
    ensures !LastRefused(env, Up(env.parsers, Init, 0, hi))
  {
    if hi > 0 {
      InitIsNoOption(env, hi - 1);
      var before := Up(env.parsers, Init, 0, hi - 1);
      if env.parsers[hi - 1] {
        assert Up(env.parsers, Init, 0, hi) == before + [Call(hi - 1, Init, None)];
      } else {
        assert Up(env.parsers, Init, 0, hi) == before + [] == before;
      }
    }
  }

  /**
   A parse that ends at an option whose parser does not know it: the flag is set, so that no error is
   reported, exactly if arguments are delivered in order and the last element before the option that is
   an argument or a long option is an argument.
   */
  lemma RefusalIsSwallowedIff(env: Env, a: seq<string>, start: nat)
    requires Fits(env, ArgpParser.LogAfterInit(env)) && start <= |a|
    requires ParseOf(env, a, start).argv.None? && LastRefused(env, ParseOf(env, a, start).log.calls)
    ensures var v := ParseOf(env, a, start);
            && v.err == Unknown && start <= v.next
            && (v.log.ebadkey <==>
                  env.ordering == ReturnInOrder && FlagAt(env.table, false, "", a[start..], v.next - start))
  {
    var log := ArgpParser.LogAfterInit(env);
    ArgpParser.ScanAt(env, log, a, 0, start);
    InitIsNoOption(env, |env.parsers|);
    if env.ordering == ReturnInOrder {
      FlagInScan(env, log, a[..start], "", a[start..]);
    } else {
      FlagKept(env, log, a[..start], [], "", a[start..]);
    }
  }

  /**
   `argp_parse` that ends at such an option. It is reported as EINVAL, and every group hears of an error, unless
   the flag is set; then the parse is closed as if it had gone well.
   */
  method ParseRefused(env: Env, argv: array<string>, parseArgv0: bool, wantsEnd: bool)
    returns (err: Err, end: Option<nat>, calls: seq<Call>, ghost trace: ArgpParser.Trace)
    requires Still(env) && Fits(env, ArgpParser.LogAfterInit(env))
    requires var v := ParseOf(env, argv[..], ArgpParser.StartOf(argv.Length, parseArgv0));
             v.argv.None? && LastRefused(env, v.log.calls)
    modifies argv
    ensures ArgpParser.Traces(env, calls, trace)
    ensures trace.Parsed? ==>
              var start := ArgpParser.StartOf(argv.Length, parseArgv0);
              var swallowed := env.ordering == ReturnInOrder && start <= trace.next
                               && FlagAt(env.table, false, "", old(argv[..])[start..], trace.next - start);
              && ArgpParser.ClosesAs(|env.parsers|, swallowed, trace.next == argv.Length, err, trace.closing)
              && (!swallowed ==> err == Fail(ArgpParser.EINVAL))
  {
    ghost var start := ArgpParser.StartOf(argv.Length, parseArgv0);
    RefusalIsSwallowedIff(env, argv[..], start);
    err, end, calls, trace := ArgpParser.ArgpParse(env, argv, parseArgv0, wantsEnd);
  }

  /** One group with the option `-x`, whose parser takes every argument and knows no option. */
  function Forgetful(): Env {
    Env([Entry(0, Opt(None, 'x' as int, false, false, false, false, false))], [true], ReturnInOrder,
        (calls: seq<Call>, c: Call) => Response(if c.key == Arg then Ok else Unknown, 0))
  }

  /** The call for `-x`, and what the scan of a cluster with nothing but it comes to. */
  lemma OptionIsRefused(log: Log, opts: seq<string>)
    requires Fits(Forgetful(), log)
    ensures var v := Scan(Forgetful(), log, opts, [], "", ["-x"]);
            && v == Verdict(log.(calls := log.calls + [Call(0, User('x' as int), None)]), None, |opts| + 1, Unknown)
            && LastRefused(Forgetful(), v.log.calls)
  {
    var env, c := Forgetful(), Call(0, User('x' as int), None);
    var e := env.table[0];
    assert Classify("-x") == ShortKind && "-x"[1..] == "x" && ["-x"][1..] == [];
    assert FindShort(env.table, 'x' as int) == Some(0);
    calc {
      Scan(env, log, opts, [], "", ["-x"]);
      Scan(env, log, opts + ["-x"], [], "x", []);
      { assert "x"[1..] == ""; }
      Recognised(env, log, e, None, opts + ["-x"], [], "", []);
      Verdict(Ask(env, log, c).0, None, |opts| + 1, Unknown);
    }
    assert (log.calls + [c])[..|log.calls|] == log.calls;
  }

  /** With `a -x` the refused option counts as the end of a parse of everything; with `-x` alone it does not. */
  lemma SwallowedRefusal()
    ensures Fits(Forgetful(), ArgpParser.LogAfterInit(Forgetful())) && Still(Forgetful())
    ensures var v := ParseOf(Forgetful(), ["a", "-x"], 0);
            v.argv.None? && LastRefused(Forgetful(), v.log.calls) && v.err == Unknown && v.next == 2 && v.log.ebadkey
    ensures var v := ParseOf(Forgetful(), ["-x"], 0);
            v.argv.None? && LastRefused(Forgetful(), v.log.calls) && v.err == Unknown && v.next == 1 && !v.log.ebadkey
  {
    var env, log := Forgetful(), ArgpParser.LogAfterInit(Forgetful());
    ArgpParser.EmptySegment(["-x"], 0, 0);
    assert ["-x"][..0] == [] && ["-x"][0..] == ["-x"];
    OptionIsRefused(log, []);
    ArgpParser.EmptySegment(["a", "-x"], 0, 0);
    assert ["a", "-x"][..0] == [] && ["a", "-x"][0..] == ["a", "-x"] && ["a", "-x"][1..] == ["-x"];
    var d := Deliver(env, log.(ebadkey := true), 0, "a", 2);
    assert d.err == Ok && !d.all && d.log.ebadkey;
    assert Classify("a") == ArgKind && [] + ["a"] == ["a"];
    assert Scan(env, log, [], [], "", ["a", "-x"]) == Scan(env, d.log, ["a"], [], "", ["-x"]);
    OptionIsRefused(d.log, ["a"]);
  }
}
