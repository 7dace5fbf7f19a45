/**
 What a parse comes to when every option is known and has its argument: the calls it makes, in
 order, and the stable partition it leaves in argv. Arguments that are no options are set aside,
 or (as POSIX has it) the first of them ends the options.
 */
module ArgpPermute {

  import opened Wrappers
  import opened ArgpTable
  import opened ArgpSpec

  /** The part an argument plays: an option (or its value, or the `--`), set aside, or behind the `--`. */
  datatype Role = OptionRole | SkippedRole | QuotedRole

  datatype Plan = Bad | Plan(roles: seq<Role>, calls: seq<Call>)

  function First(role: Role, p: Plan): Plan {
    if p.Bad? then Bad else p.(roles := [role] + p.roles)
  }

  function Calling(c: Call, p: Plan): Plan {
    if p.Bad? then Bad else p.(calls := [c] + p.calls)
  }

  function AllQuoted(n: nat): (r: seq<Role>)
    ensures |r| == n && forall i :: 0 <= i < n ==> r[i] == QuotedRole
  {
    seq(n, i => QuotedRole)
  }

  /**
   Roles and option calls from left to right; nothing here depends on what parsers answer. With
   `strict`, the first other argument ends the options.
   */
  function PlanOf(table: seq<Entry>, strict: bool, letters: string, rest: seq<string>): (p: Plan)
    ensures p.Plan? ==> |p.roles| == |rest|
    decreases |rest|, |letters|, 1
  {
    if letters != "" then
      match FindShort(table, letters[0] as int)
      case None => Bad
      case Some(k) =>
        var opt := table[k].opt;
        PlanOption(table, strict, table[k], if opt.hasArg && |letters| > 1 then Some(letters[1..]) else None,
                   if opt.hasArg then "" else letters[1..], rest)
    else if rest == [] then Plan([], [])
    else match Classify(rest[0])
      case ArgKind =>
        if strict then Plan(AllQuoted(|rest|), []) else First(SkippedRole, PlanOf(table, strict, "", rest[1..]))
      case QuoteKind => Plan([OptionRole] + AllQuoted(|rest| - 1), [])
      case ShortKind => First(OptionRole, PlanOf(table, strict, rest[0][1..], rest[1..]))
      case LongKind =>
        var arg := rest[0][2..];
        match FindLong(table, arg)
        case None => Bad
        case Some(k) => First(OptionRole, PlanOption(table, strict, table[k], ValuePart(arg), "", rest[1..]))
  }

  function PlanOption(table: seq<Entry>, strict: bool, e: Entry, attached: Option<string>, left: string,
                      rest: seq<string>): (p: Plan)
    ensures p.Plan? ==> |p.roles| == |rest|
    decreases |rest|, |left|, 2
  {
    match SupplyFor(e.opt, attached, rest != [])
    case Unwanted => Bad
    case Missing => Bad
    case FromArgv =>
      Calling(Call(e.group, User(e.opt.key), Some(rest[0])), First(OptionRole, PlanOf(table, strict, left, rest[1..])))
    case _ => Calling(Call(e.group, User(e.opt.key), attached), PlanOf(table, strict, left, rest))
  }

  /** The arguments that play `role`, in their original order. */
  function Pick(args: seq<string>, roles: seq<Role>, role: Role): seq<string>
    requires |args| == |roles|
  {
    if args == [] then []
    else (if roles[0] == role then [args[0]] else []) + Pick(args[1..], roles[1..], role)
  }

  lemma {:induction false} PickQuoted(args: seq<string>, roles: seq<Role>)
    requires |args| == |roles| && forall i :: 0 <= i < |roles| ==> roles[i] == QuotedRole
    ensures Pick(args, roles, QuotedRole) == args
    ensures Pick(args, roles, OptionRole) == [] && Pick(args, roles, SkippedRole) == []
  {
    if args != [] {
      PickQuoted(args[1..], roles[1..]);
      assert args == [args[0]] + args[1..];
    }
  }

  /** Every option's group has a parser, and it accepts. */
  ghost predicate AcceptsOptions(env: Env, log: Log)
    requires Fits(env, log)
  {
    && (forall e <- env.table :: env.parsers[e.group])
    && forall calls, c: Call :: c.key.User? ==> env.respond(calls, c).err == Ok
  }

  predicate Strict(env: Env) {
    env.ordering == RequireOrder
  }

  /** Options come ahead of other arguments, in argv or after permuting it; nothing is set aside if they must be. */
  predicate OptionsFirst(env: Env, skipped: seq<string>) {
    env.ordering == Permute || (env.ordering == RequireOrder && skipped == [])
  }

  /** Where a scan that follows `p` ends up: what remains is to deliver the other arguments. */
  function After(env: Env, log: Log, opts: seq<string>, skipped: seq<string>, rest: seq<string>, p: Plan): Verdict
    requires Fits(env, log) && p.Plan? && |p.roles| == |rest|
  {
    ArgsPhase(env, log.(calls := log.calls + p.calls),
              opts + Pick(rest, p.roles, OptionRole),
              skipped + Pick(rest, p.roles, SkippedRole) + Pick(rest, p.roles, QuotedRole))
  }

  lemma AfterIgnoresFlag(env: Env, log: Log, flag: bool, done: seq<string>, rest: seq<string>)
    requires Fits(env, log)
    ensures ArgsPhase(env, log.(ebadkey := flag), done, rest) == ArgsPhase(env, log, done, rest)
  {
  }

  lemma AfterFirst(env: Env, log: Log, opts: seq<string>, skipped: seq<string>, rest: seq<string>, role: Role, p: Plan)
    requires Fits(env, log) && rest != [] && role != QuotedRole && p.Plan? && |p.roles| == |rest| - 1
    ensures After(env, log, opts, skipped, rest, First(role, p)) ==
            if role == OptionRole then After(env, log, opts + [rest[0]], skipped, rest[1..], p)
            else After(env, log, opts, skipped + [rest[0]], rest[1..], p)
  {
    var q := First(role, p);
    assert q.roles[1..] == p.roles;
    var o, s := Pick(rest[1..], p.roles, OptionRole), Pick(rest[1..], p.roles, SkippedRole);
    if role == OptionRole {
      assert opts + ([rest[0]] + o) == (opts + [rest[0]]) + o;
      assert [] + s == s;
    } else {
      assert skipped + ([rest[0]] + s) == (skipped + [rest[0]]) + s;
      assert [] + o == o;
    }
    assert [] + Pick(rest[1..], p.roles, QuotedRole) == Pick(rest[1..], p.roles, QuotedRole);
  }

  lemma AfterCalling(env: Env, log: Log, opts: seq<string>, skipped: seq<string>, rest: seq<string>, c: Call, p: Plan)
    requires Fits(env, log) && p.Plan? && |p.roles| == |rest|
    ensures After(env, log, opts, skipped, rest, Calling(c, p))
            == After(env, log.(calls := log.calls + [c]), opts, skipped, rest, p)
  {
    assert log.calls + ([c] + p.calls) == (log.calls + [c]) + p.calls;
  }

  lemma {:induction false} ScanFollowsPlan(env: Env, log: Log, opts: seq<string>, skipped: seq<string>,
                                           letters: string, rest: seq<string>)
    requires Fits(env, log) && OptionsFirst(env, skipped) && AcceptsOptions(env, log)
    requires PlanOf(env.table, Strict(env), letters, rest).Plan?
    ensures Scan(env, log, opts, skipped, letters, rest)
            == After(env, log, opts, skipped, rest, PlanOf(env.table, Strict(env), letters, rest))
    decreases |rest|, |letters|, 1
  {
    var p := PlanOf(env.table, Strict(env), letters, rest);
    if letters != "" {
      var k := FindShort(env.table, letters[0] as int).value;
      var opt := env.table[k].opt;
      OptionFollowsPlan(env, log, env.table[k], if opt.hasArg && |letters| > 1 then Some(letters[1..]) else None,
                        opts, skipped, if opt.hasArg then "" else letters[1..], rest);
    } else if rest == [] {
      assert log.calls + [] == log.calls && opts + [] == opts && skipped + [] + [] == skipped;
    } else {
      match Classify(rest[0])
      case ArgKind =>
        if Strict(env) {
          ArgumentEndsOptions(env, log, opts, rest);
        } else {
          ScanFollowsPlan(env, log, opts, skipped + [rest[0]], "", rest[1..]);
          AfterFirst(env, log, opts, skipped, rest, SkippedRole, PlanOf(env.table, Strict(env), "", rest[1..]));
        }
      case QuoteKind =>
        QuoteFollowsPlan(env, log, opts, skipped, rest);
      case ShortKind =>
        ScanFollowsPlan(env, log, opts + [rest[0]], skipped, rest[0][1..], rest[1..]);
        AfterFirst(env, log, opts, skipped, rest, OptionRole, PlanOf(env.table, Strict(env), rest[0][1..], rest[1..]));
      case LongKind =>
        LongFollowsPlan(env, log, opts, skipped, rest);
    }
  }

  lemma ArgumentEndsOptions(env: Env, log: Log, opts: seq<string>, rest: seq<string>)
    requires Fits(env, log) && Strict(env) && rest != [] && Classify(rest[0]) == ArgKind
    ensures Scan(env, log, opts, [], "", rest) ==
            After(env, log, opts, [], rest, PlanOf(env.table, Strict(env), "", rest))
  {
    var p := PlanOf(env.table, Strict(env), "", rest);
    PickQuoted(rest, p.roles);
    assert log.(calls := log.calls + p.calls) == log;
    assert opts + [] == opts && [] + [] + rest == rest;
  }

  lemma QuotePicks(rest: seq<string>, roles: seq<Role>)
    requires rest != [] && roles == [OptionRole] + AllQuoted(|rest| - 1)
    ensures Pick(rest, roles, OptionRole) == [rest[0]]
    ensures Pick(rest, roles, SkippedRole) == [] && Pick(rest, roles, QuotedRole) == rest[1..]
  {
    PickQuoted(rest[1..], AllQuoted(|rest| - 1));
    assert roles[1..] == AllQuoted(|rest| - 1);
  }

  lemma QuoteFollowsPlan(env: Env, log: Log, opts: seq<string>, skipped: seq<string>, rest: seq<string>)
    requires Fits(env, log) && rest != [] && Classify(rest[0]) == QuoteKind
    ensures Scan(env, log, opts, skipped, "", rest)
            == After(env, log, opts, skipped, rest, PlanOf(env.table, Strict(env), "", rest))
  {
    var p := PlanOf(env.table, Strict(env), "", rest);
    QuotePicks(rest, p.roles);
    assert log.(calls := log.calls + p.calls) == log;
    assert skipped + [] == skipped;
  }

  lemma LongFollowsPlan(env: Env, log: Log, opts: seq<string>, skipped: seq<string>, rest: seq<string>)
    requires Fits(env, log) && OptionsFirst(env, skipped) && AcceptsOptions(env, log)
    requires rest != [] && Classify(rest[0]) == LongKind && PlanOf(env.table, Strict(env), "", rest).Plan?
    ensures Scan(env, log, opts, skipped, "", rest)
            == After(env, log, opts, skipped, rest, PlanOf(env.table, Strict(env), "", rest))
    decreases |rest|, 0, 0
  {
    var arg := rest[0][2..];
    var e := env.table[FindLong(env.table, arg).value];
    var log1 := log.(ebadkey := false);
    var p := PlanOption(env.table, Strict(env), e, ValuePart(arg), "", rest[1..]);
    OptionFollowsPlan(env, log1, e, ValuePart(arg), opts + [rest[0]], skipped, "", rest[1..]);
    AfterFirst(env, log1, opts, skipped, rest, OptionRole, p);
    var q := First(OptionRole, p);
    AfterIgnoresFlag(env, log.(calls := log.calls + q.calls), false,
                     opts + Pick(rest, q.roles, OptionRole),
                     skipped + Pick(rest, q.roles, SkippedRole) + Pick(rest, q.roles, QuotedRole));
  }

  lemma {:induction false} OptionFollowsPlan(env: Env, log: Log, e: Entry, attached: Option<string>,
                                             opts: seq<string>, skipped: seq<string>, left: string, rest: seq<string>)
    requires Fits(env, log) && OptionsFirst(env, skipped) && AcceptsOptions(env, log) && e in env.table
    requires PlanOption(env.table, Strict(env), e, attached, left, rest).Plan?
    ensures Recognised(env, log, e, attached, opts, skipped, left, rest)
            == After(env, log, opts, skipped, rest, PlanOption(env.table, Strict(env), e, attached, left, rest))
    decreases |rest|, |left|, 2
  {
    var supply := SupplyFor(e.opt, attached, rest != []);
    var c := Call(e.group, User(e.opt.key), if supply == FromArgv then Some(rest[0]) else attached);
    var log1 := log.(calls := log.calls + [c]);
    if supply == FromArgv {
      var p := PlanOf(env.table, Strict(env), left, rest[1..]);
      ScanFollowsPlan(env, log1, opts + [rest[0]], skipped, left, rest[1..]);
      AfterFirst(env, log1, opts, skipped, rest, OptionRole, p);
      AfterCalling(env, log, opts, skipped, rest, c, First(OptionRole, p));
    } else {
      ScanFollowsPlan(env, log1, opts, skipped, left, rest);
      AfterCalling(env, log, opts, skipped, rest, c, PlanOf(env.table, Strict(env), left, rest));
    }
  }

  // --- delivering the arguments ---

  /** Group `g` is the first that has a parser, which takes every argument it is offered. */
  ghost predicate AcceptsArgs(env: Env, g: nat) {
    && g < |env.parsers| && env.parsers[g] && (forall h :: 0 <= h < g ==> !env.parsers[h])
    && forall calls, c: Call :: c.key == Arg ==> env.respond(calls, c).err == Ok
  }

  function ArgCalls(g: nat, args: seq<string>): seq<Call> {
    seq(|args|, i requires 0 <= i < |args| => Call(g, Arg, Some(args[i])))
  }

  /** Groups without a parser are passed over. */
  lemma {:induction false} TakenByFirst(env: Env, log: Log, h: nat, g: nat, val: string, left: nat)
    requires Fits(env, log) && AcceptsArgs(env, g) && h <= g
    ensures Deliver(env, log, h, val, left) ==
            Delivery(Credit(log.(calls := log.calls + [Call(g, Arg, Some(val))]), g, 1), Ok, false, 1)
    decreases g - h
  {
    if h < g {
      TakenByFirst(env, log, h + 1, g, val, left);
    }
  }

  lemma {:induction false} ArgsAreDelivered(env: Env, log: Log, g: nat, done: seq<string>, rest: seq<string>)
    requires Fits(env, log) && AcceptsArgs(env, g)
    ensures ArgsPhase(env, log, done, rest) ==
            Verdict(Log(log.calls + ArgCalls(g, rest), log.processed[g := log.processed[g] + |rest|], true),
                    Some(done + rest), |done| + |rest|, Unknown)
    decreases |rest|
  {
    if rest == [] {
      assert log.calls + ArgCalls(g, rest) == log.calls && done + rest == done;
    } else {
      var c := Call(g, Arg, Some(rest[0]));
      var log1 := Credit(log.(ebadkey := true, calls := log.calls + [c]), g, 1);
      TakenByFirst(env, log.(ebadkey := true), 0, g, rest[0], |rest|);
      ArgsAreDelivered(env, log1, g, done + [rest[0]], rest[1..]);
      assert ArgCalls(g, rest) == [c] + ArgCalls(g, rest[1..]);
      assert log.calls + ([c] + ArgCalls(g, rest[1..])) == (log.calls + [c]) + ArgCalls(g, rest[1..]);
      assert rest == [rest[0]] + rest[1..];
      assert done + [rest[0]] + rest[1..] == done + rest;
      assert log1.processed[g := log1.processed[g] + |rest[1..]|] == log.processed[g := log.processed[g] + |rest|];
    }
  }

  /** The arguments that are no options, in the order in which they are delivered. */
  function Others(args: seq<string>, p: Plan): seq<string>
    requires p.Plan? && |p.roles| == |args|
  {
    Pick(args, p.roles, SkippedRole) + Pick(args, p.roles, QuotedRole)
  }

  /** The plan carried out: its calls, then those for the other arguments, and the stable partition. */
  function Carried(log: Log, g: nat, prefix: seq<string>, args: seq<string>, p: Plan): Verdict
    requires p.Plan? && |p.roles| == |args| && g < |log.processed|
  {
    var others := Others(args, p);
    Verdict(Log(log.calls + p.calls + ArgCalls(g, others), log.processed[g := log.processed[g] + |others|], true),
            Some(prefix + Pick(args, p.roles, OptionRole) + others), |prefix| + |args|, Unknown)
  }

  lemma PlanIsDelivered(env: Env, log: Log, g: nat, prefix: seq<string>, args: seq<string>, p: Plan)
    requires Fits(env, log) && AcceptsArgs(env, g) && p.Plan? && |p.roles| == |args|
    ensures After(env, log, prefix, [], args, p) == Carried(log, g, prefix, args, p)
  {
    assert [] + Pick(args, p.roles, SkippedRole) == Pick(args, p.roles, SkippedRole);
    ArgsAreDelivered(env, log.(calls := log.calls + p.calls), g, prefix + Pick(args, p.roles, OptionRole),
                     Others(args, p));
    PartsAddUp(args, p.roles);
  }

  /**
   The whole of a parse of `args` behind `prefix`, parsers accepting: options with their values
   from left to right, then the arguments set aside in their order, then what follows the end of
   the options; argv is the stable partition into the same three parts.
   */
  lemma OptionsFirstParse(env: Env, log: Log, g: nat, prefix: seq<string>, args: seq<string>, p: Plan)
    requires Fits(env, log) && OptionsFirst(env, []) && AcceptsOptions(env, log) && AcceptsArgs(env, g)
    requires p == PlanOf(env.table, Strict(env), "", args) && p.Plan?
    ensures Scan(env, log, prefix, [], "", args) == Carried(log, g, prefix, args, p)
  {
    ScanFollowsPlan(env, log, prefix, [], "", args);
    PlanIsDelivered(env, log, g, prefix, args, p);
  }

  /** If the first other argument ends the options, none is set aside, and the partition is argv as it was. */
  lemma {:induction false} StrictPlanKeepsOrder(table: seq<Entry>, letters: string, rest: seq<string>)
    requires PlanOf(table, true, letters, rest).Plan?
    ensures var p := PlanOf(table, true, letters, rest);
            Pick(rest, p.roles, OptionRole) + Others(rest, p) == rest
    decreases |rest|, |letters|, 1
  {
    if letters != "" {
      var e := table[FindShort(table, letters[0] as int).value];
      StrictOptionKeepsOrder(table, e, if e.opt.hasArg && |letters| > 1 then Some(letters[1..]) else None,
                             if e.opt.hasArg then "" else letters[1..], rest);
    } else if rest != [] {
      var p := PlanOf(table, true, "", rest);
      match Classify(rest[0])
      case ArgKind => PickQuoted(rest, p.roles);
      case QuoteKind => QuotePicks(rest, p.roles);
      case ShortKind =>
        StrictPlanKeepsOrder(table, rest[0][1..], rest[1..]);
        OptionKeepsOrder(rest, PlanOf(table, true, rest[0][1..], rest[1..]));
      case LongKind =>
        var arg := rest[0][2..];
        var e := table[FindLong(table, arg).value];
        StrictOptionKeepsOrder(table, e, ValuePart(arg), "", rest[1..]);
        OptionKeepsOrder(rest, PlanOption(table, true, e, ValuePart(arg), "", rest[1..]));
    }
  }

  lemma {:induction false} StrictOptionKeepsOrder(table: seq<Entry>, e: Entry, attached: Option<string>, left: string,
                                                  rest: seq<string>)
    requires PlanOption(table, true, e, attached, left, rest).Plan?
    ensures var p := PlanOption(table, true, e, attached, left, rest);
            Pick(rest, p.roles, OptionRole) + Others(rest, p) == rest
    decreases |rest|, |left|, 2
  {
    if SupplyFor(e.opt, attached, rest != []) == FromArgv {
      StrictPlanKeepsOrder(table, left, rest[1..]);
      OptionKeepsOrder(rest, PlanOf(table, true, left, rest[1..]));
    } else {
      StrictPlanKeepsOrder(table, left, rest);
    }
  }

  lemma PickAfterOption(rest: seq<string>, roles: seq<Role>, role: Role)
    requires rest != [] && |roles| == |rest| - 1
    ensures role == OptionRole ==>
              Pick(rest, [OptionRole] + roles, role) == [rest[0]] + Pick(rest[1..], roles, role)
    ensures role != OptionRole ==> Pick(rest, [OptionRole] + roles, role) == Pick(rest[1..], roles, role)
  {
    assert ([OptionRole] + roles)[1..] == roles;
    assert [] + Pick(rest[1..], roles, role) == Pick(rest[1..], roles, role);
  }

  lemma PicksAfterOption(rest: seq<string>, p: Plan)
    requires rest != [] && p.Plan? && |p.roles| == |rest| - 1
    ensures var q := First(OptionRole, p);
            && Pick(rest, q.roles, OptionRole) == [rest[0]] + Pick(rest[1..], p.roles, OptionRole)
            && Others(rest, q) == Others(rest[1..], p)
  {
    PickAfterOption(rest, p.roles, OptionRole);
    PickAfterOption(rest, p.roles, SkippedRole);
    PickAfterOption(rest, p.roles, QuotedRole);
  }

  lemma OptionKeepsOrder(rest: seq<string>, p: Plan)
    requires rest != [] && p.Plan? && |p.roles| == |rest| - 1
    requires Pick(rest[1..], p.roles, OptionRole) + Others(rest[1..], p) == rest[1..]
    ensures var q := First(OptionRole, p); Pick(rest, q.roles, OptionRole) + Others(rest, q) == rest
  {
    PicksAfterOption(rest, p);
    OneAhead(rest, Pick(rest[1..], p.roles, OptionRole), Others(rest[1..], p));
  }

  lemma OneAhead(rest: seq<string>, x: seq<string>, y: seq<string>)
    requires rest != [] && x + y == rest[1..]
    ensures ([rest[0]] + x) + y == rest
  {
    assert ([rest[0]] + x) + y == [rest[0]] + (x + y);
  }

  lemma {:induction false} PartsAddUp(args: seq<string>, roles: seq<Role>)
    requires |args| == |roles|
    ensures |Pick(args, roles, OptionRole)| + |Pick(args, roles, SkippedRole)| + |Pick(args, roles, QuotedRole)| ==
            |args|
  {
    if args != [] {
      PartsAddUp(args[1..], roles[1..]);
    }
  }
}
