/** A whole `argp_parse` of a command line on which every option is known and has its argument. */
module ArgpWholeParse {

  import opened Wrappers
  import opened ArgpTable
  import opened ArgpSpec
  import opened ArgpSweep
  import opened ArgpPermute
  import ArgpParser

  lemma WholeOutcome(env: Env, g: nat, a: seq<string>, start: nat)
    requires start <= |a| && Fits(env, ArgpParser.LogAfterInit(env))
    requires OptionsFirst(env, []) && AcceptsOptions(env, ArgpParser.LogAfterInit(env)) && AcceptsArgs(env, g)
    requires PlanOf(env.table, Strict(env), "", a[start..]).Plan?
    ensures var p := PlanOf(env.table, Strict(env), "", a[start..]);
            var v := ArgpParser.OutcomeOf(env, ArgpParser.LogAfterInit(env), a, 0, 0, start, "", false);
            && v.log.calls == ArgpParser.LogAfterInit(env).calls + (p.calls + ArgCalls(g, Others(a[start..], p)))
            && v.argv == Some(a[..start] + Pick(a[start..], p.roles, OptionRole) + Others(a[start..], p))
            && v.next == |a| && v.err == Unknown && v.log.ebadkey
  {
    var log, p := ArgpParser.LogAfterInit(env), PlanOf(env.table, Strict(env), "", a[start..]);
    ArgpParser.EmptySegment(a, 0, start);
    OptionsFirstParse(env, log, g, a[..start], a[start..], p);
    assert log.calls + p.calls + ArgCalls(g, Others(a[start..], p)) ==
      log.calls + (p.calls + ArgCalls(g, Others(a[start..], p)));
  }

  /**
   `argp_parse`, permuting argv or not: once all groups are initialised, the options are called back
   from left to right, then the arguments set aside in their order, then those behind the end of the
   options; argv ends as the stable partition into those three parts.
   */
  method ParseOptionsFirst(env: Env, ghost g: nat, argv: array<string>, parseArgv0: bool, wantsEnd: bool)
    returns (err: Err, end: Option<nat>, calls: seq<Call>, ghost trace: ArgpParser.Trace)
    requires Still(env) && OptionsFirst(env, []) && Fits(env, ArgpParser.LogAfterInit(env))
    requires AcceptsOptions(env, ArgpParser.LogAfterInit(env)) && AcceptsArgs(env, g)
    requires PlanOf(env.table, Strict(env), "", argv[..][ArgpParser.StartOf(argv.Length, parseArgv0)..]).Plan?
    modifies argv
    ensures ArgpParser.Traces(env, calls, trace)
    ensures var start := ArgpParser.StartOf(argv.Length, parseArgv0);
            var args := old(argv[..])[start..];
            var p := PlanOf(env.table, Strict(env), "", args);
            trace.Parsed? ==>
              && trace.work == p.calls + ArgCalls(g, Others(args, p))
              && argv[..] == old(argv[..])[..start] + Pick(args, p.roles, OptionRole) + Others(args, p)
              && trace.next == argv.Length && trace.well
  {
    ghost var start := ArgpParser.StartOf(argv.Length, parseArgv0);
    ghost var args := argv[..][start..];
    ghost var p := PlanOf(env.table, Strict(env), "", args);
    WholeOutcome(env, g, argv[..], start);
    err, end, calls, trace := ArgpParser.ArgpParse(env, argv, parseArgv0, wantsEnd);
    if trace.Parsed? {
      SamePrefix(ArgpParser.LogAfterInit(env).calls, trace.work, p.calls + ArgCalls(g, Others(args, p)));
    }
  }

  lemma SamePrefix(a: seq<Call>, x: seq<Call>, y: seq<Call>)
    requires a + x == a + y
    ensures x == y
  {
    assert x == (a + x)[|a|..] && y == (a + y)[|a|..];
  }
}
