/**
 What a parse is meant to do, without any permuting: one pass from left to right that calls
 back for options and sets other arguments aside, then one pass over what was set aside and
 what follows a `--`.
 */
module ArgpSpec {

  import opened Wrappers
  import opened ArgpTable

  /** Keys with which a group's parser is called; `Arg` to `Fini` are the ARGP_KEY_ constants. */
  datatype Key = User(key: int) | Arg | Args | Init | NoArgs | End | Success | Error | Fini

  datatype Call = Call(group: nat, key: Key, arg: Option<string>)

  /** `Unknown` is ARGP_ERR_UNKNOWN (EBADKEY in the source). */
  datatype Err = Ok | Unknown | Fail(code: int)

  /** A parser's answer, and how far it moved `state->next` forward. */
  datatype Response = Response(err: Err, move: nat)

  datatype Ordering = RequireOrder | Permute | ReturnInOrder

  /** The groups of a parser and the behaviour of their functions, which may depend on all calls so far. */
  datatype Env = Env(
    table: seq<Entry>,
    parsers: seq<bool>,
    ordering: Ordering,
    respond: (seq<Call>, Call) -> Response)

  /** What a parse leaves behind besides argv; `ebadkey` is the source's `arg_ebadkey`. */
  datatype Log = Log(calls: seq<Call>, processed: seq<nat>, ebadkey: bool)

  predicate Fits(env: Env, log: Log) {
    |log.processed| == |env.parsers| && forall e <- env.table :: e.group < |env.parsers|
  }

  /** Parsers that leave `state->next` alone. */
  ghost predicate Still(env: Env) {
    forall calls, c :: env.respond(calls, c).move == 0
  }

  /** `group_parse`: a group without a parser does not know any key. */
  function Ask(env: Env, log: Log, c: Call): (r: (Log, Err))
    requires Fits(env, log) && c.group < |env.parsers|
    ensures Fits(env, r.0)
  {
    if env.parsers[c.group]
    then (log.(calls := log.calls + [c]), env.respond(log.calls, c).err)
    else (log, Unknown)
  }

  // --- non-option arguments ---

  /** `all` if a parser took every remaining argument; `used` is what `next` has grown by. */
  datatype Delivery = Delivery(log: Log, err: Err, all: bool, used: nat)

  function Credit(log: Log, g: nat, n: nat): (r: Log)
    requires g < |log.processed|
    ensures |r.processed| == |log.processed|
  {
    log.(processed := log.processed[g := log.processed[g] + n])
  }

  /** One argument is offered to the groups from `g` on, each time alone and then with all that follow. */
  function Deliver(env: Env, log: Log, g: nat, val: string, left: nat): (d: Delivery)
    requires Fits(env, log) && g <= |env.parsers|
    ensures Fits(env, d.log) && d.used <= 1 && (d.err == Ok && !d.all ==> d.used == 1)
    decreases |env.parsers| - g
  {
    if g == |env.parsers| then Delivery(log, Unknown, false, 0)
    else
      var (log1, err1) := Ask(env, log, Call(g, Arg, Some(val)));
      if err1 == Ok then Delivery(Credit(log1, g, 1), Ok, false, 1)
      else if err1.Fail? then Delivery(log1, err1, false, 1)
      else
        var (log2, err2) := Ask(env, log1, Call(g, Args, None));
        if err2 == Ok then Delivery(Credit(log2, g, left), Ok, true, 0)
        else if err2.Fail? then Delivery(log2, err2, false, 0)
        else Deliver(env, log2, g + 1, val, left)
  }

  /** The calls to the groups in [lo, hi), none of which knows the argument. */
  function Refusals(parsers: seq<bool>, val: string, lo: nat, hi: nat): seq<Call>
    requires lo <= hi <= |parsers|
    decreases hi - lo
  {
    if lo == hi then []
    else
      (if parsers[lo] then [Call(lo, Arg, Some(val)), Call(lo, Args, None)] else [])
      + Refusals(parsers, val, lo + 1, hi)
  }

  /**
   The first group whose parser knows the argument takes it, all groups ahead of it having refused it
   twice: alone, which uses it up, or with all that follow. That group alone is credited, on success.
   */
  ghost predicate DeliveredTo(env: Env, log: Log, g: nat, val: string, left: nat, d: Delivery, t: nat)
    requires Fits(env, log) && g <= t <= |env.parsers| && Fits(env, d.log)
  {
    var refused := log.calls + Refusals(env.parsers, val, g, t);
    var alone, all := Call(t, Arg, Some(val)), Call(t, Args, None);
    if t == |env.parsers| then
      d == Delivery(log.(calls := refused), Unknown, false, 0)
    else
      && env.parsers[t] && d.err != Unknown
      && d.log.ebadkey == log.ebadkey && (d.all ==> d.err == Ok)
      && (if d.used == 1 then d.log.calls == refused + [alone] && d.err == env.respond(refused, alone).err && !d.all
          else && d.log.calls == refused + [alone] + [all] && d.err == env.respond(refused + [alone], all).err
               && env.respond(refused, alone).err == Unknown && d.all == (d.err == Ok))
      && d.log.processed == if d.err != Ok then log.processed
                            else log.processed[t := log.processed[t] + (if d.all then left else 1)]
  }

  lemma {:induction false} DeliverMeans(env: Env, log: Log, g: nat, val: string, left: nat) returns (t: nat)
    requires Fits(env, log) && g <= |env.parsers|
    ensures g <= t <= |env.parsers| && DeliveredTo(env, log, g, val, left, Deliver(env, log, g, val, left), t)
    decreases |env.parsers| - g
  {
    if g == |env.parsers| {
      t := g;
      assert log.(calls := log.calls + []) == log;
    } else {
      var (log1, err1) := Ask(env, log, Call(g, Arg, Some(val)));
      var (log2, err2) := Ask(env, log1, Call(g, Args, None));
      assert log.calls + [] == log.calls;
      if err1 == Unknown && err2 == Unknown {
        t := DeliverMeans(env, log2, g + 1, val, left);
        RefusedFirst(env, log, log2, g, val, t);
      } else {
        t := g;
      }
    }
  }

  lemma RefusedFirst(env: Env, log: Log, log2: Log, g: nat, val: string, t: nat)
    requires Fits(env, log) && g < t <= |env.parsers|
    requires log2 == Ask(env, Ask(env, log, Call(g, Arg, Some(val))).0, Call(g, Args, None)).0
    ensures log2.calls + Refusals(env.parsers, val, g + 1, t) == log.calls + Refusals(env.parsers, val, g, t)
    ensures log2.processed == log.processed && log2.ebadkey == log.ebadkey
  {
    var more := Refusals(env.parsers, val, g + 1, t);
    if env.parsers[g] {
      assert log2.calls == log.calls + [Call(g, Arg, Some(val)), Call(g, Args, None)];
    } else {
      assert [] + more == more;
    }
  }

  /** The end of a parse: `argv` is given unless the scan for options stopped half-way. */
  datatype Verdict = Verdict(log: Log, argv: Option<seq<string>>, next: nat, err: Err)

  function ArgsPhase(env: Env, log: Log, done: seq<string>, rest: seq<string>): Verdict
    requires Fits(env, log)
    decreases |rest|
  {
    var log1 := log.(ebadkey := true);
    if rest == [] then Verdict(log1, Some(done), |done|, Unknown)
    else
      var d := Deliver(env, log1, 0, rest[0], |rest|);
      if d.err != Ok then Verdict(d.log, Some(done + rest), |done| + d.used, d.err)
      else if d.all then Verdict(d.log.(ebadkey := true), Some(done + rest), |done| + |rest|, Unknown)
      else ArgsPhase(env, d.log, done + [rest[0]], rest[1..])
  }

  // --- options ---

  datatype Kind = ArgKind | QuoteKind | LongKind | ShortKind

  /** `classify_arg` without ARGP_LONG_ONLY. */
  function Classify(arg: string): (k: Kind)
    ensures k == ShortKind ==> |arg| > 1
    ensures k == LongKind ==> |arg| > 2
  {
    if arg == "" || arg[0] != '-' || |arg| == 1 then ArgKind
    else if arg[1] != '-' then ShortKind
    else if |arg| == 2 then QuoteKind
    else LongKind
  }

  /** What follows the first '=' of a long option, if it has one. */
  function ValuePart(arg: string): Option<string> {
    var n := NamePart(arg);
    if n == arg then None else Some(arg[|n| + 1..])
  }

  /** How an option comes by its argument, given what is attached to it and whether argv has more. */
  datatype Supply = Attached | FromArgv | Nothing | Missing | Unwanted

  function SupplyFor(opt: Opt, attached: Option<string>, more: bool): Supply {
    if !opt.hasArg then (if attached.Some? then Unwanted else Nothing)
    else if attached.Some? then Attached
    else if opt.argOptional then Nothing
    else if more then FromArgv
    else Missing
  }

  /**
   The scan: `opts` are the arguments before `rest` that count as options, `skipped` the ones
   set aside, `letters` what is left of a cluster of short options.
   */
  function Scan(env: Env, log: Log, opts: seq<string>, skipped: seq<string>, letters: string,
                rest: seq<string>): Verdict
    requires Fits(env, log)
    decreases |rest|, |letters|, 1
  {
    if letters != "" then
      match FindShort(env.table, letters[0] as int)
      case None => Verdict(log.(ebadkey := false), None, |opts| + |skipped|, Unknown)
      case Some(k) =>
        var e := env.table[k];
        var attached := if e.opt.hasArg && |letters| > 1 then Some(letters[1..]) else None;
        var left := if e.opt.hasArg then "" else letters[1..];
        Recognised(env, log, e, attached, opts, skipped, left, rest)
    else if rest == [] then
      ArgsPhase(env, log, opts, skipped)
    else match Classify(rest[0])
      case ArgKind =>
        (match env.ordering
         case Permute => Scan(env, log, opts, skipped + [rest[0]], "", rest[1..])
         case RequireOrder => ArgsPhase(env, log, opts + skipped, rest)
         case ReturnInOrder =>
           var d := Deliver(env, log.(ebadkey := true), 0, rest[0], |rest|);
           if d.err != Ok then Verdict(d.log, None, |opts| + |skipped| + d.used, d.err)
           else if d.all then ArgsPhase(env, d.log, opts + rest, skipped)
           else Scan(env, d.log, opts + [rest[0]], skipped, "", rest[1..]))
      case QuoteKind => ArgsPhase(env, log, opts + [rest[0]], skipped + rest[1..])
      case ShortKind => Scan(env, log, opts + [rest[0]], skipped, rest[0][1..], rest[1..])
      case LongKind =>
        var arg := rest[0][2..];
        match FindLong(env.table, arg)
        case None => Verdict(log.(ebadkey := false), None, |opts| + |skipped| + 1, Unknown)
        case Some(k) =>
          Recognised(env, log.(ebadkey := false), env.table[k], ValuePart(arg),
                     opts + [rest[0]], skipped, "", rest[1..])
  }

  /** An option has been recognised; `left` is what follows it in its cluster. */
  function Recognised(env: Env, log: Log, e: Entry, attached: Option<string>, opts: seq<string>,
                      skipped: seq<string>, left: string, rest: seq<string>): Verdict
    requires Fits(env, log) && e in env.table
    decreases |rest|, |left|, 2
  {
    var at := |opts| + |skipped|;
    match SupplyFor(e.opt, attached, rest != [])
    case Unwanted => Verdict(log.(ebadkey := false), None, at, Unknown)
    case Missing => Verdict(log.(ebadkey := false), None, at, Unknown)
    case FromArgv =>
      var (log1, err) := Ask(env, log, Call(e.group, User(e.opt.key), Some(rest[0])));
      if err != Ok then Verdict(log1, None, at + 1, err)
      else Scan(env, log1, opts + [rest[0]], skipped, left, rest[1..])
    case _ =>
      var (log1, err) := Ask(env, log, Call(e.group, User(e.opt.key), attached));
      if err != Ok then Verdict(log1, None, at, err)
      else Scan(env, log1, opts, skipped, left, rest)
  }
}
