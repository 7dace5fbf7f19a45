/**
 The parser as the source runs it: one left-to-right pass over argv that rotates argv in place
 so that skipped arguments end up behind the options.
 */
module ArgpParser {

  import opened Wrappers
  import opened ArgpTable
  import opened ArgpSpec
  import opened ArgvRotate
  import opened ArgpSweep

  const EINVAL := 22

  // --- the three regions of argv behind the scan, and the one ahead of it ---

  /** What counts as options: all before `next` except the skipped segment [first, last). */
  function OptsOf(a: seq<string>, first: nat, last: nat, next: nat): (r: seq<string>)
    requires first <= last <= next <= |a|
    ensures |r| == next - (last - first)
  {
    a[..first] + a[last..next]
  }

  lemma OneMore(a: seq<string>, first: nat, last: nat, next: nat)
    requires first <= last <= next < |a|
    ensures OptsOf(a, first, last, next + 1) == OptsOf(a, first, last, next) + [a[next]]
    ensures a[next..][0] == a[next] && a[next..][1..] == a[next + 1..]
    ensures a[..next + 1] == a[..next] + [a[next]]
  {
    assert a[last..next + 1] == a[last..next] + [a[next]];
  }

  /** Rotating the skipped segment up to `next` changes neither what it holds nor what the options are. */
  lemma RotationKeepsRegions(a: seq<string>, b: seq<string>, first: nat, last: nat, next: nat)
    requires first <= last <= next <= |a| && b == BlocksSwapped(a, first, last, next)
    ensures var f := first + (next - last);
            && OptsOf(b, f, next, next) == OptsOf(a, first, last, next) == b[..f]
            && b[f..next] == a[first..last]
            && b[next..] == a[next..] && (next < |a| ==> b[next] == a[next])
            && multiset(b) == multiset(a)
  {
    SwappingKeepsElements(a, first, last, next);
  }

  lemma EmptySegment(a: seq<string>, first: nat, next: nat)
    requires first <= next <= |a|
    ensures OptsOf(a, first, first, next) == a[..next] && a[first..first] == []
  {
  }

  // --- what is left to do, as a function of argv and the scan position, and how it unfolds ---

  ghost function OutcomeOf(env: Env, log: Log, a: seq<string>, first: nat, last: nat, next: nat,
                           letters: string, argsOnly: bool): Verdict
    requires Fits(env, log) && first <= last <= next <= |a|
  {
    if argsOnly then ArgsPhase(env, log, a[..next], a[next..])
    else Scan(env, log, OptsOf(a, first, last, next), a[first..last], letters, a[next..])
  }

  lemma ArgsPhaseAt(env: Env, log: Log, a: seq<string>, n: nat)
    requires Fits(env, log) && n < |a|
    ensures var d := Deliver(env, log.(ebadkey := true), 0, a[n], |a| - n);
            var n' := if d.all then |a| else n + d.used;
            && n' <= |a|
            && ArgsPhase(env, log, a[..n], a[n..]) ==
               if d.err == Ok then ArgsPhase(env, d.log, a[..n'], a[n'..])
               else Verdict(d.log, Some(a), n + d.used, d.err)
  {
    assert a[..n] + a[n..] == a;
    assert a[n..][1..] == a[n + 1..] && a[..n] + [a[n]] == a[..n + 1];
    assert a[..|a|] == a && a[|a|..] == [];
  }

  lemma ArgsPhaseEnd(env: Env, log: Log, a: seq<string>)
    requires Fits(env, log)
    ensures ArgsPhase(env, log, a[..|a|], a[|a|..]) == Verdict(log.(ebadkey := true), Some(a), |a|, Unknown)
  {
    assert a[..|a|] == a && a[|a|..] == [];
  }

  /** States of the scan that agree on the options, the skipped arguments and the rest have the same outcome. */
  lemma SameRegions(env: Env, log: Log, a: seq<string>, f: nat, l: nat, b: seq<string>, f': nat, l': nat, n: nat)
    requires Fits(env, log) && f <= l <= n <= |a| && f' <= l' <= n <= |b|
    requires OptsOf(b, f', l', n) == OptsOf(a, f, l, n) && b[f'..l'] == a[f..l] && b[n..] == a[n..]
    ensures OutcomeOf(env, log, a, f, l, n, "", false) == OutcomeOf(env, log, b, f', l', n, "", false)
  {
  }

  /** At the end of argv, with the skipped segment last, that segment is what is left. */
  lemma EndAt(env: Env, log: Log, a: seq<string>, first: nat)
    requires Fits(env, log) && first <= |a|
    ensures OutcomeOf(env, log, a, first, |a|, |a|, "", false)
            == OutcomeOf(env, log.(ebadkey := true), a, 0, 0, first, "", true)
  {
    assert OptsOf(a, first, |a|, |a|) == a[..first];
    assert a[first..|a|] == a[first..];
  }

  /** At the end of argv, the skipped segment is rotated to the end and is what is left. */
  lemma SkippedAtEnd(env: Env, log: Log, a: seq<string>, f: nat, l: nat, b: seq<string>, f': nat)
    requires Fits(env, log) && f <= l <= |a| && f' <= |b| == |a|
    requires OptsOf(b, f', |b|, |b|) == OptsOf(a, f, l, |a|) && b[f'..|b|] == a[f..l]
    ensures OutcomeOf(env, log, a, f, l, |a|, "", false)
            == OutcomeOf(env, log.(ebadkey := true), b, 0, 0, f', "", true)
  {
    SameRegions(env, log, a, f, l, b, f', |b|, |a|);
    EndAt(env, log, b, f');
  }

  /** At the end of argv with nothing skipped, the parse is over. */
  lemma NothingSkipped(env: Env, log: Log, a: seq<string>, first: nat)
    requires Fits(env, log) && first <= |a|
    ensures OutcomeOf(env, log, a, first, first, |a|, "", false)
            == Verdict(log.(ebadkey := true), Some(a), |a|, Unknown)
  {
    EmptySegment(a, first, |a|);
    assert a[|a|..] == [] && a[..|a|] == a;
  }

  /** With the skipped segment rotated behind the `--`, it and all that follows are what is left. */
  lemma QuoteAt(env: Env, log: Log, a: seq<string>, first: nat, last: nat, n: nat, b: seq<string>, f: nat)
    requires Fits(env, log) && first <= last <= n < |a| && Classify(a[n]) == QuoteKind && f <= n + 1 <= |b|
    requires b[..f] == OptsOf(a, first, last, n + 1) && b[f..n + 1] == a[first..last] && b[n + 1..] == a[n + 1..]
    ensures OutcomeOf(env, log, a, first, last, n, "", false) == OutcomeOf(env, log, b, 0, 0, f, "", true)
  {
    OneMore(a, first, last, n);
    assert b[f..] == b[f..n + 1] + b[n + 1..];
  }

  /** With nothing skipped, all that follows the `--` is what is left. */
  lemma QuoteUnskipped(env: Env, log: Log, a: seq<string>, first: nat, n: nat)
    requires Fits(env, log) && first <= n < |a| && Classify(a[n]) == QuoteKind
    ensures OutcomeOf(env, log, a, first, first, n, "", false) == OutcomeOf(env, log, a, first, first, n + 1, "", true)
  {
    EmptySegment(a, first, n + 1);
    QuoteAt(env, log, a, first, first, n, a, n + 1);
  }

  /** The skipped segment ends at the scan and grows by the argument there. */
  lemma SkipAt(env: Env, log: Log, a: seq<string>, first: nat, n: nat)
    requires Fits(env, log) && first <= n < |a| && Classify(a[n]) == ArgKind && env.ordering == Permute
    ensures OutcomeOf(env, log, a, first, n, n, "", false) == OutcomeOf(env, log, a, first, n + 1, n + 1, "", false)
  {
    OneMore(a, first, n, n);
    assert OptsOf(a, first, n + 1, n + 1) == a[..first] == OptsOf(a, first, n, n);
    assert a[first..n + 1] == a[first..n] + [a[n]];
  }

  lemma RequireOrderAt(env: Env, log: Log, a: seq<string>, first: nat, n: nat)
    requires Fits(env, log) && first <= n < |a| && Classify(a[n]) == ArgKind && env.ordering == RequireOrder
    ensures OutcomeOf(env, log, a, first, first, n, "", false) == OutcomeOf(env, log, a, first, first, n, "", true)
  {
    EmptySegment(a, first, n);
    assert a[..n] + [] == a[..n];
  }

  /** The scan at position `n` with nothing skipped. */
  lemma ScanAt(env: Env, log: Log, a: seq<string>, first: nat, n: nat)
    requires Fits(env, log) && first <= n <= |a|
    ensures OutcomeOf(env, log, a, first, first, n, "", false) == Scan(env, log, a[..n], [], "", a[n..])
  {
    EmptySegment(a, first, n);
  }

  /** All that is left has been taken. */
  lemma AllTaken(env: Env, log: Log, a: seq<string>, n: nat)
    requires Fits(env, log) && n <= |a|
    ensures ArgsPhase(env, log, a[..n] + a[n..], []) == Scan(env, log, a[..|a|], [], "", a[|a|..])
  {
    assert a[..n] + a[n..] == a == a[..|a|] && a[|a|..] == [];
  }

  lemma ScanInOrder(env: Env, log: Log, a: seq<string>, n: nat, d: Delivery)
    requires Fits(env, log) && n < |a| && Classify(a[n]) == ArgKind && env.ordering == ReturnInOrder
    requires d == Deliver(env, log.(ebadkey := true), 0, a[n], |a| - n)
    ensures Scan(env, log, a[..n], [], "", a[n..]) ==
            if d.err != Ok then Verdict(d.log, None, n + d.used, d.err)
            else if d.all then ArgsPhase(env, d.log, a[..n] + a[n..], [])
            else Scan(env, d.log, a[..n + 1], [], "", a[n + 1..])
  {
    assert a[n..][0] == a[n] && a[n..][1..] == a[n + 1..] && a[..n] + [a[n]] == a[..n + 1];
  }

  lemma InOrderAt(env: Env, log: Log, a: seq<string>, first: nat, n: nat)
    requires Fits(env, log) && first <= n < |a| && Classify(a[n]) == ArgKind && env.ordering == ReturnInOrder
    ensures var d := Deliver(env, log.(ebadkey := true), 0, a[n], |a| - n);
            var n' := if d.all then |a| else n + d.used;
            && n' <= |a|
            && OutcomeOf(env, log, a, first, first, n, "", false) ==
               if d.err == Ok then OutcomeOf(env, d.log, a, first, first, n', "", false)
               else Verdict(d.log, None, n + d.used, d.err)
  {
    var d := Deliver(env, log.(ebadkey := true), 0, a[n], |a| - n);
    var n' := if d.all then |a| else n + d.used;
    ScanAt(env, log, a, first, n);
    ScanInOrder(env, log, a, n, d);
    ScanAt(env, d.log, a, first, n');
    AllTaken(env, d.log, a, n);
  }

  lemma ClusterAt(env: Env, log: Log, a: seq<string>, first: nat, last: nat, n: nat)
    requires Fits(env, log) && first <= last <= n < |a| && Classify(a[n]) == ShortKind
    ensures OutcomeOf(env, log, a, first, last, n, "", false)
            == OutcomeOf(env, log, a, first, last, n + 1, a[n][1..], false)
  {
    OneMore(a, first, last, n);
  }

  /** The outcome once entry `e` has been recognised with `attached` to it. */
  ghost function RecognisedOutcome(env: Env, log: Log, e: Entry, attached: Option<string>, a: seq<string>,
                                   first: nat, last: nat, n: nat, left: string): Verdict
    requires Fits(env, log) && e in env.table && first <= last <= n <= |a|
  {
    Recognised(env, log, e, attached, OptsOf(a, first, last, n), a[first..last], left, a[n..])
  }

  /** The argument an option is called back with, and where the scan goes on. */
  lemma RecognisedAt(env: Env, log: Log, e: Entry, attached: Option<string>, a: seq<string>,
                     first: nat, last: nat, n: nat, left: string)
    requires Fits(env, log) && e in env.table && first <= last <= n <= |a|
    ensures var v := RecognisedOutcome(env, log, e, attached, a, first, last, n, left);
            var supply := SupplyFor(e.opt, attached, n < |a|);
            if supply == Missing || supply == Unwanted then
              v == Verdict(log.(ebadkey := false), None, n, Unknown)
            else
              var value := if supply == FromArgv then Some(a[n]) else attached;
              var n' := if supply == FromArgv then n + 1 else n;
              var (log1, err) := Ask(env, log, Call(e.group, User(e.opt.key), value));
              v == if err != Ok then Verdict(log1, None, n', err)
                   else OutcomeOf(env, log1, a, first, last, n', left, false)
  {
    if n < |a| {
      OneMore(a, first, last, n);
    }
    assert a[n..] != [] <==> n < |a|;
  }

  /** A letter of a cluster, looked up. */
  lemma LetterAt(env: Env, log: Log, a: seq<string>, first: nat, last: nat, n: nat, letters: string)
    requires Fits(env, log) && first <= last <= n <= |a| && letters != ""
    ensures OutcomeOf(env, log, a, first, last, n, letters, false) ==
            match FindShort(env.table, letters[0] as int)
            case None => Verdict(log.(ebadkey := false), None, n, Unknown)
            case Some(k) =>
              var e := env.table[k];
              RecognisedOutcome(env, log, e, if e.opt.hasArg && |letters| > 1 then Some(letters[1..]) else None,
                                a, first, last, n, if e.opt.hasArg then "" else letters[1..])
  {
  }

  /** The whole handling of one letter whose entry is `e`. */
  lemma LetterStep(env: Env, log: Log, a: seq<string>, first: nat, last: nat, n: nat, letters: string, k: nat)
    requires Fits(env, log) && first <= last <= n <= |a| && letters != ""
    requires FindShort(env.table, letters[0] as int) == Some(k)
    ensures var v := OutcomeOf(env, log, a, first, last, n, letters, false);
            var e := env.table[k];
            var attached := if e.opt.hasArg && letters[1..] != "" then Some(letters[1..]) else None;
            var supply := SupplyFor(e.opt, attached, n < |a|);
            if supply == Missing || supply == Unwanted then
              v == Verdict(log.(ebadkey := false), None, n, Unknown)
            else
              var value := if supply == FromArgv then Some(a[n]) else attached;
              var n' := if supply == FromArgv then n + 1 else n;
              var (log1, err) := Ask(env, log, Call(e.group, User(e.opt.key), value));
              v == if err != Ok then Verdict(log1, None, n', err)
                   else OutcomeOf(env, log1, a, first, last, n', if e.opt.hasArg then "" else letters[1..], false)
  {
    LetterAt(env, log, a, first, last, n, letters);
    var e := env.table[k];
    RecognisedAt(env, log, e, if e.opt.hasArg && |letters| > 1 then Some(letters[1..]) else None,
                 a, first, last, n, if e.opt.hasArg then "" else letters[1..]);
  }

  /** A long option, looked up. */
  lemma LongAt(env: Env, log: Log, a: seq<string>, first: nat, last: nat, n: nat)
    requires Fits(env, log) && first <= last <= n < |a| && Classify(a[n]) == LongKind
    ensures OutcomeOf(env, log, a, first, last, n, "", false) ==
            match FindLong(env.table, a[n][2..])
            case None => Verdict(log.(ebadkey := false), None, n + 1, Unknown)
            case Some(k) =>
              RecognisedOutcome(env, log.(ebadkey := false), env.table[k], ValuePart(a[n][2..]),
                                a, first, last, n + 1, "")
  {
    OneMore(a, first, last, n);
  }

  /** The whole handling of a long option whose entry is number `k`. */
  lemma LongStep(env: Env, log: Log, a: seq<string>, first: nat, last: nat, n: nat, k: nat)
    requires Fits(env, log) && first <= last <= n < |a| && Classify(a[n]) == LongKind
    requires FindLong(env.table, a[n][2..]) == Some(k)
    ensures var v := OutcomeOf(env, log, a, first, last, n, "", false);
            var log0 := log.(ebadkey := false);
            var e := env.table[k];
            var attached := ValuePart(a[n][2..]);
            var supply := SupplyFor(e.opt, attached, n + 1 < |a|);
            if supply == Missing || supply == Unwanted then
              v == Verdict(log0, None, n + 1, Unknown)
            else
              var value := if supply == FromArgv then Some(a[n + 1]) else attached;
              var n' := if supply == FromArgv then n + 2 else n + 1;
              var (log1, err) := Ask(env, log0, Call(e.group, User(e.opt.key), value));
              v == if err != Ok then Verdict(log1, None, n', err)
                   else OutcomeOf(env, log1, a, first, last, n', "", false)
  {
    LongAt(env, log, a, first, last, n);
    RecognisedAt(env, log.(ebadkey := false), env.table[k], ValuePart(a[n][2..]), a, first, last, n + 1, "");
  }

  lemma FiveParts<T>(s: seq<T>, a: seq<T>, b: seq<T>, x: seq<T>, y: seq<T>)
    ensures s + a + b + x + y == s + (a + b + x + y)
  {
  }

  lemma ClosedBy(parsers: seq<bool>, processed: seq<nat>, c: Closing, start: seq<Call>, s0: seq<Call>, s1: seq<Call>,
                 end: seq<Call>)
    requires |processed| == |parsers| && ClosingOk(|parsers|, c)
    requires s0 == start + Up(Idle(parsers, processed), NoArgs, 0, c.noArgs) + Down(parsers, End, c.ends, |parsers|)
    requires s1 == s0 + Announced(parsers, c.failed, c.successes)
    requires end == s1 + Down(parsers, Fini, 0, |parsers|)
    ensures end == start + ClosingCalls(parsers, processed, c)
  {
    FiveParts(start, Up(Idle(parsers, processed), NoArgs, 0, c.noArgs), Down(parsers, End, c.ends, |parsers|),
              Announced(parsers, c.failed, c.successes), Down(parsers, Fini, 0, |parsers|));
  }

  /**
   How a parse with the final result `err` is closed: everyone hears NO_ARGS (if it took none) and
   END if the parse went well, all of argv was consumed and no parser objects; nobody does if the
   parse failed or something is left; a success is announced to everyone unless a parser objects.
   */
  ghost predicate ClosesAs(n: nat, well: bool, all: bool, err: Err, c: Closing) {
    && ClosingOk(n, c)
    && (if well && all then !c.failed ==> c.noArgs == n && c.ends == 0 else c.noArgs == 0 && c.ends == n)
    && (!well ==> c.failed)
    && (c.failed ==> err != Ok)
    && (err == Ok ==> c.successes == 0)
  }

  /** Group `g`, asked with `key` after all groups before it, answers with an error. */
  predicate Objects(env: Env, asked: seq<bool>, start: seq<Call>, key: Key, g: nat)
    requires g < |asked|
  {
    asked[g] && env.respond(start + Up(asked, key, 0, g), Call(g, key, None)).err.Fail?
  }

  /** The first `hi` groups have been asked, and none objected before the last of them, which did if `failed`. */
  ghost predicate StopsAt(env: Env, asked: seq<bool>, start: seq<Call>, key: Key, hi: nat, failed: bool) {
    && hi <= |asked| && (failed ==> hi > 0 && Objects(env, asked, start, key, hi - 1))
    && forall g: nat :: g < |asked| && g < (if failed then hi - 1 else hi) ==> !Objects(env, asked, start, key, g)
  }

  class Parser {
    const env: Env
    const argv: array<string>
    var next: nat
    var first: nat
    var last: nat
    var nextchar: Option<string>
    var argsOnly: bool
    var quoted: nat
    var calls: seq<Call>
    var processed: seq<nat>
    var ebadkey: bool

    function TheLog(): Log
      reads this
    {
      Log(calls, processed, ebadkey)
    }

    ghost predicate Valid()
      reads this
    {
      && Fits(env, TheLog())
      && first <= last <= next && last <= argv.Length
      && (next <= argv.Length || (next == argv.Length + 1 && first == last && nextchar.None?))
      && (argsOnly || env.ordering != Permute ==> first == last)
      && (nextchar.Some? ==> nextchar.value != "" && !argsOnly)
      && (quoted > 0 ==> argsOnly && quoted <= next)
    }

    /** What the rest of the parse is to come to, according to `ArgpSpec`. */
    ghost function Outcome(): Verdict
      requires Valid() && next <= argv.Length
      reads this, argv
    {
      OutcomeOf(env, TheLog(), argv[..], first, last, next, if nextchar.Some? then nextchar.value else "", argsOnly)
    }

    /** The parse has ended with `err`, as `v` says. */
    ghost predicate EndsAs(v: Verdict, err: Err)
      reads this, argv
    {
      v.log == TheLog() && v.next == next && v.err == err && (v.argv.Some? ==> v.argv.value == argv[..])
    }

    /** `group_parse`: a parser moves `next` forward or not at all, and does not itself move it past argc. */
    method GroupParse(g: nat, key: Key, arg: Option<string>) returns (err: Err)
      requires Fits(env, TheLog()) && g < |env.parsers|
      modifies this`calls, this`next
      ensures (TheLog(), err) == Ask(env, old(TheLog()), Call(g, key, arg))
      ensures old(next) <= next && (next == old(next) || next <= argv.Length)
      ensures Still(env) ==> next == old(next)
      ensures calls == old(calls) + (if env.parsers[g] then [Call(g, key, arg)] else [])
    {
      err := Unknown;
      if env.parsers[g] {
        var c := Call(g, key, arg);
        var r := env.respond(calls, c);
        calls := calls + [c];
        next := if next + r.move <= argv.Length then next + r.move
                else if next < argv.Length then argv.Length
                else next;
        err := r.err;
      }
    }

    method Exchange()
      requires first <= last <= next <= argv.Length
      modifies this`first, this`last, argv
      ensures argv[..] == BlocksSwapped(old(argv[..]), old(first), old(last), next)
      ensures first == old(first) + (next - old(last)) && last == next
    {
      Rotate(argv, first, last, next);
      first := first + (next - last);
      last := next;
    }

    /** `Exchange`, in terms of what the regions hold. */
    method MoveSkippedToScan()
      requires first <= last <= next <= argv.Length
      modifies this`first, this`last, argv
      ensures first <= last == next && last - first == old(last - first)
      ensures OptsOf(argv[..], first, last, next) == old(OptsOf(argv[..], first, last, next)) == argv[..][..first]
      ensures argv[..][first..last] == old(argv[..][first..last])
      ensures argv[..][next..] == old(argv[..][next..])
      ensures next < argv.Length ==> argv[next] == old(argv[next])
      ensures multiset(argv[..]) == old(multiset(argv[..]))
    {
      RotationKeepsRegions(argv[..], BlocksSwapped(argv[..], first, last, next), first, last, next);
      Exchange();
    }

    /** What `Deliver` says, once some group has answered other than unknown. */
    ghost predicate Answered(d: Delivery, g: nat, key: Key, err: Err, left: nat)
      reads this
      requires g < |processed|
    {
      if err == Ok then d == Delivery(Credit(TheLog(), g, if key == Args then left else 1), Ok, key == Args,
                                      if key == Args then 0 else 1)
      else d == Delivery(TheLog(), err, false, if key == Args then 0 else 1)
    }

    /**
     One turn of the loop of `parser_parse_arg`: a group is asked for one argument, then for all that follow.
     If groups before it moved `next` to argc but knew nothing, the one argument takes `next` past argc.
     */
    method AskGroup(g: nat, val: string, ghost index: nat) returns (err: Err, key: Key)
      requires Fits(env, TheLog()) && g < |env.parsers| && index <= next <= argv.Length && index < argv.Length
      modifies this`calls, this`next
      ensures Fits(env, TheLog()) && index <= next <= argv.Length + 1
      ensures err == Unknown || key == Args ==> next <= argv.Length
      ensures err == Ok && key != Args ==> next > index
      ensures OnlyWork(old(calls), calls)
      ensures Still(env) && old(next) == index ==>
                var left := argv.Length - index;
                var d := Deliver(env, old(TheLog()), g, val, left);
                && (err == Unknown ==> d == Deliver(env, TheLog(), g + 1, val, left) && next == index)
                && (err != Unknown ==>
                      Answered(d, g, key, err, left) && next == index + (if key == Args then 0 else 1))
    {
      next := next + 1;
      key := Arg;
      err := GroupParse(g, key, Some(val));
      if err == Unknown {
        next := next - 1;
        key := Args;
        err := GroupParse(g, key, None);
      }
    }

    /** The loop of `parser_parse_arg`: each group is asked in turn until one knows the argument. */
    method Offer(val: string) returns (err: Err, key: Key, taker: nat)
      requires Fits(env, TheLog()) && next < argv.Length
      modifies this`calls, this`next
      ensures Fits(env, TheLog()) && old(next) <= next <= argv.Length + 1
      ensures err != Unknown ==> taker < |env.parsers|
      ensures err == Ok && key != Args ==> next > old(next)
      ensures OnlyWork(old(calls), calls)
      ensures Still(env) ==>
                var left := argv.Length - old(next);
                var d := Deliver(env, old(TheLog()), 0, val, left);
                && (err == Unknown ==> d == Delivery(TheLog(), Unknown, false, 0) && next == old(next))
                && (err != Unknown ==>
                      Answered(d, taker, key, err, left) && next == old(next) + (if key == Args then 0 else 1))
    {
      ghost var index := next;
      ghost var left := argv.Length - index;
      ghost var d := Deliver(env, TheLog(), 0, val, left);
      err, key, taker := Unknown, Arg, 0;
      var g := 0;
      while g < |env.parsers| && err == Unknown
        invariant 0 <= g <= |env.parsers| && Fits(env, TheLog())
        invariant index <= next <= argv.Length + 1 && (err != Unknown ==> taker < |env.parsers|)
        invariant err == Unknown ==> next <= argv.Length
        invariant err == Ok && key != Args ==> next > index
        invariant OnlyWork(old(calls), calls)
        invariant Still(env) && err == Unknown ==> d == Deliver(env, TheLog(), g, val, left) && next == index
        invariant Still(env) && err != Unknown ==>
                    Answered(d, taker, key, err, left) && next == index + (if key == Args then 0 else 1)
      {
        taker := g;
        err, key := AskGroup(g, val, index);
        g := g + 1;
      }
    }

    /** `parser_parse_arg`. */
    method ParseArg(val: string) returns (err: Err)
      requires Fits(env, TheLog()) && next < argv.Length
      modifies this`calls, this`next, this`processed, this`argsOnly
      ensures Fits(env, TheLog()) && old(next) <= next <= argv.Length + 1
      ensures err == Ok ==> old(next) < next
      ensures argsOnly == old(argsOnly) && OnlyWork(old(calls), calls)
      ensures Still(env) ==>
                var d := Deliver(env, old(TheLog()), 0, val, argv.Length - old(next));
                && TheLog() == d.log && err == d.err
                && next == if err == Ok && d.all then argv.Length else old(next) + d.used
    {
      var index := next;
      var key, taker;
      err, key, taker := Offer(val);
      if err == Ok {
        if key == Args {
          next := argv.Length;
        }
        processed := if next > index then processed[taker := processed[taker] + (next - index)] else processed;
        argsOnly := if next > index then argsOnly else false;
      }
    }

    /** Lexicographic progress: options no longer looked for, arguments consumed, letters consumed. */
    static ghost predicate Progress(argsOnly0: bool, left0: nat, letters0: nat, argsOnly1: bool, left1: nat,
                                    letters1: nat) {
      || (!argsOnly0 && argsOnly1)
      || (argsOnly0 == argsOnly1 && left1 < left0)
      || (argsOnly0 == argsOnly1 && left1 == left0 && letters1 < letters0)
    }

    ghost function Letters(): nat
      reads this
    {
      if nextchar.Some? then |nextchar.value| else 0
    }

    /** Elements of argv not consumed yet. */
    ghost function Left(): nat
      reads this
    {
      if next <= argv.Length then argv.Length - next else 0
    }

    /** What every way through `parser_parse_next` guarantees. */
    twostate predicate StepOk(err: Err)
      requires old(Valid())
      reads this, argv
    {
      && multiset(argv[..]) == old(multiset(argv[..])) && Fits(env, TheLog())
      && OnlyWork(old(calls), calls) && next <= argv.Length + 1
      && (err == Ok ==>
            Valid() && Progress(old(argsOnly), old(Left()), old(Letters()), argsOnly, Left(), Letters()))
      && (Still(env) && old(next) <= argv.Length ==>
            if err == Ok then next <= argv.Length && Outcome() == old(Outcome()) else EndsAs(old(Outcome()), err))
    }

    /** Only arguments are left: the next one is delivered. */
    method NextArgument() returns (err: Err)
      requires Valid() && argsOnly
      modifies this
      ensures StepOk(err)
    {
      if next >= argv.Length {
        ArgsPhaseEnd(env, TheLog(), argv[..]);
        ebadkey := true;
        err := Unknown;
      } else {
        err := DeliverNext();
      }
    }

    method DeliverNext() returns (err: Err)
      requires Valid() && argsOnly && next < argv.Length
      modifies this
      ensures StepOk(err)
    {
      ArgsPhaseAt(env, TheLog(), argv[..], next);
      ebadkey := true;
      err := ParseArg(argv[next]);
    }

    /** All of argv has been scanned; arguments skipped on the way are next. */
    method EndOfArgv() returns (err: Err)
      requires Valid() && !argsOnly && nextchar.None? && next >= argv.Length
      modifies this, argv
      ensures StepOk(err)
    {
      if first != last {
        GoBackToSkipped();
        err := Ok;
      } else {
        NothingSkipped(env, TheLog(), argv[..], first);
        ebadkey := true;
        err := Unknown;
      }
    }

    /** The skipped arguments are rotated to the end, and are what is left to do. */
    method GoBackToSkipped()
      requires Valid() && !argsOnly && nextchar.None? && next == argv.Length && first != last
      modifies this, argv
      ensures StepOk(Ok)
    {
      ghost var a := argv[..];
      ghost var (f, l, log) := (first, last, TheLog());
      MoveSkippedToScan();
      SkippedAtEnd(env, log, a, f, l, argv[..], first);
      ebadkey := true;
      next := first;
      first, last := 0, 0;
      argsOnly := true;
    }

    /** A non-option argument in front of the scan. */
    method PassArgument() returns (err: Err)
      requires Valid() && !argsOnly && nextchar.None? && next < argv.Length && Classify(argv[next]) == ArgKind
      modifies this, argv
      ensures StepOk(err)
    {
      match env.ordering
      case Permute =>
        err := SkipArgument();
      case RequireOrder =>
        RequireOrderAt(env, TheLog(), argv[..], first, next);
        argsOnly := true;
        err := Ok;
      case ReturnInOrder =>
        err := DeliverInOrder();
    }

    method DeliverInOrder() returns (err: Err)
      requires Valid() && !argsOnly && nextchar.None? && next < argv.Length && Classify(argv[next]) == ArgKind
      requires env.ordering == ReturnInOrder
      modifies this
      ensures StepOk(err)
    {
      InOrderAt(env, TheLog(), argv[..], first, next);
      ebadkey := true;
      err := ParseArg(argv[next]);
    }

    method SkipArgument() returns (err: Err)
      requires Valid() && !argsOnly && nextchar.None? && next < argv.Length && Classify(argv[next]) == ArgKind
      requires env.ordering == Permute
      modifies this, argv
      ensures StepOk(err) && err == Ok
    {
      GatherSkipped();
      assert last == next;
      SkipAt(env, TheLog(), argv[..], first, next);
      next := next + 1;
      last := next;
      err := Ok;
    }

    /** The skipped segment is brought up to the scan; an empty one starts there. */
    method GatherSkipped()
      requires Valid() && !argsOnly && nextchar.None? && next < argv.Length
      modifies this`first, this`last, argv
      ensures first <= last == next && argv[next] == old(argv[next])
      ensures multiset(argv[..]) == old(multiset(argv[..]))
      ensures OutcomeOf(env, TheLog(), argv[..], first, last, next, "", false) == old(Outcome())
    {
      ghost var a := argv[..];
      ghost var (f, l) := (first, last);
      if first == last {
        EmptySegment(a, f, next);
        EmptySegment(a, next, next);
        first, last := next, next;
      } else if last != next {
        MoveSkippedToScan();
      }
      SameRegions(env, TheLog(), a, f, l, argv[..], first, last, next);
    }

    /** The argument `--`. */
    method Quote() returns (err: Err)
      requires Valid() && !argsOnly && nextchar.None? && next < argv.Length && Classify(argv[next]) == QuoteKind
      modifies this, argv
      ensures StepOk(err)
    {
      assert last != next + 1;
      if first != last {
        QuoteSkipped();
      } else {
        QuoteUnskipped(env, TheLog(), argv[..], first, next);
        next := next + 1;
        quoted := next;
        argsOnly := true;
      }
      err := Ok;
    }

    /** A `--` behind skipped arguments, which are moved behind it. */
    method QuoteSkipped()
      requires Valid() && !argsOnly && nextchar.None? && next < argv.Length && Classify(argv[next]) == QuoteKind
      requires first != last
      modifies this, argv
      ensures StepOk(Ok)
    {
      MoveBehindQuote();
      next := first;
      quoted := first;
      first, last := 0, 0;
      argsOnly := true;
    }

    method MoveBehindQuote()
      requires Valid() && !argsOnly && nextchar.None? && next < argv.Length && Classify(argv[next]) == QuoteKind
      modifies this`next, this`first, this`last, argv
      ensures first <= next <= argv.Length && multiset(argv[..]) == old(multiset(argv[..]))
      ensures OutcomeOf(env, TheLog(), argv[..], 0, 0, first, "", true) == old(Outcome())
    {
      ghost var a := argv[..];
      ghost var (f, l, n) := (first, last, next);
      next := next + 1;
      MoveSkippedToScan();
      QuoteAt(env, TheLog(), a, f, l, n, argv[..], first);
    }

    /** What the spec says is left if the parser of entry `e` is now called with `value`. */
    ghost function OutcomeOfCall(e: Entry, value: Option<string>): Verdict
      requires Valid() && e in env.table && next <= argv.Length
      reads this, argv
    {
      var (log1, err) := Ask(env, TheLog(), Call(e.group, User(e.opt.key), value));
      if err != Ok then Verdict(log1, None, next, err)
      else OutcomeOf(env, log1, argv[..], first, last, next, if nextchar.Some? then nextchar.value else "", argsOnly)
    }

    method CallBack(e: Entry, value: Option<string>, ghost v: Verdict) returns (err: Err)
      requires Valid() && e in env.table && !argsOnly && next <= argv.Length && v == OutcomeOfCall(e, value)
      modifies this`calls, this`next
      ensures Valid() && old(next) <= next <= argv.Length && OnlyWork(old(calls), calls)
      ensures err == Ok && Still(env) ==> Outcome() == v
      ensures err != Ok && Still(env) ==> EndsAs(v, err)
    {
      err := GroupParse(e.group, User(e.opt.key), value);
    }

    /** The argument of a short option: the rest of its cluster, or the next element of argv. */
    method TakeValue(opt: Opt) returns (supply: Supply, value: Option<string>)
      requires next <= argv.Length && nextchar.Some?
      modifies this`nextchar, this`next, this`ebadkey
      ensures var letters := old(nextchar).value;
              var attached := if opt.hasArg && letters != "" then Some(letters) else None;
              && supply == SupplyFor(opt, attached, old(next) < argv.Length)
              && supply != Unwanted
              && ebadkey == (if supply == Missing then false else old(ebadkey))
              && next == (if supply == FromArgv then old(next) + 1 else old(next)) <= argv.Length
              && (supply != Missing ==>
                    && value == (if supply == FromArgv then Some(argv[old(next)]) else attached)
                    && nextchar == if opt.hasArg || letters == "" then None else Some(letters))
    {
      if nextchar.value == "" {
        nextchar := None;
      }
      supply, value := Nothing, None;
      if opt.hasArg {
        value := nextchar;
        nextchar := None;
        supply := if value.Some? then Attached else Nothing;
        if value.None? && !opt.argOptional {
          if next == argv.Length {
            ebadkey := false;
            return Missing, None;
          }
          value := Some(argv[next]);
          next := next + 1;
          supply := FromArgv;
        }
      }
    }

    /** The next letter of a cluster of short options. */
    method ShortOption() returns (err: Err)
      requires Valid() && nextchar.Some?
      modifies this
      ensures StepOk(err)
    {
      var found := FindShort(env.table, nextchar.value[0] as int);
      if found.None? {
        LetterAt(env, TheLog(), argv[..], first, last, next, nextchar.value);
        nextchar := Some(nextchar.value[1..]);
        ebadkey := false;
        err := Unknown;
      } else {
        err := KnownLetter(found.value);
      }
    }

    method KnownLetter(k: nat) returns (err: Err)
      requires Valid() && nextchar.Some? && FindShort(env.table, nextchar.value[0] as int) == Some(k)
      modifies this
      ensures StepOk(err)
    {
      var letters := nextchar.value;
      nextchar := Some(letters[1..]);
      var e := env.table[k];
      LetterStep(env, TheLog(), argv[..], first, last, next, letters, k);
      var supply, value := TakeValue(e.opt);
      if supply == Missing {
        return Unknown;
      }
      err := CallBack(e, value, old(Outcome()));
    }

    /** The argument of a long option: what follows its '=', or the next element of argv. */
    method TakeLongValue(opt: Opt, arg: string) returns (supply: Supply, value: Option<string>)
      requires next <= argv.Length
      modifies this`next
      ensures supply == SupplyFor(opt, ValuePart(arg), old(next) < argv.Length)
      ensures next == (if supply == FromArgv then old(next) + 1 else old(next)) <= argv.Length
      ensures supply != Missing && supply != Unwanted ==>
                value == if supply == FromArgv then Some(argv[old(next)]) else ValuePart(arg)
    {
      value := ValuePart(arg);
      if value.Some? && !opt.hasArg {
        return Unwanted, None;
      }
      supply := if value.Some? then Attached else Nothing;
      if opt.hasArg && value.None? && !opt.argOptional {
        if next == argv.Length {
          return Missing, None;
        }
        value := Some(argv[next]);
        next := next + 1;
        supply := FromArgv;
      }
    }

    method LongOption() returns (err: Err)
      requires Valid() && !argsOnly && nextchar.None? && next < argv.Length && Classify(argv[next]) == LongKind
      modifies this
      ensures StepOk(err)
    {
      var found := FindLong(env.table, argv[next][2..]);
      if found.None? {
        LongAt(env, TheLog(), argv[..], first, last, next);
        next := next + 1;
        ebadkey := false;
        err := Unknown;
      } else {
        err := KnownLong(found.value);
      }
    }

    method KnownLong(k: nat) returns (err: Err)
      requires Valid() && !argsOnly && nextchar.None? && next < argv.Length && Classify(argv[next]) == LongKind
      requires FindLong(env.table, argv[next][2..]) == Some(k)
      modifies this
      ensures StepOk(err)
    {
      var arg := argv[next][2..];
      LongStep(env, TheLog(), argv[..], first, last, next, k);
      next := next + 1;
      ebadkey := false;
      var e := env.table[k];
      var supply, value := TakeLongValue(e.opt, arg);
      if supply == Missing || supply == Unwanted {
        return Unknown;
      }
      err := CallBack(e, value, old(Outcome()));
    }

    /** The argument in front of the scan, when it may be an option. */
    method LookForOption() returns (err: Err)
      requires Valid() && !argsOnly && nextchar.None? && next < argv.Length
      modifies this, argv
      ensures StepOk(err)
    {
      match Classify(argv[next])
      case ArgKind =>
        err := PassArgument();
      case QuoteKind =>
        err := Quote();
      case LongKind =>
        err := LongOption();
      case ShortKind =>
        ClusterAt(env, TheLog(), argv[..], first, last, next);
        nextchar := Some(argv[next][1..]);
        next := next + 1;
        err := Ok;
    }

    /** `parser_parse_next`; its first lines mend the indices after a parser has moved `next` back. */
    method ParseNext() returns (err: Err)
      requires Valid()
      modifies this, argv
      ensures StepOk(err)
    {
      Mend();
      if nextchar.Some? {
        assert !argsOnly;
        err := ShortOption();
      } else if argsOnly {
        err := NextArgument();
      } else if next >= argv.Length {
        err := EndOfArgv();
      } else {
        err := LookForOption();
      }
    }

    method Mend()
      modifies this`quoted, this`argsOnly, this`first, this`last
      ensures old(next < quoted) ==> quoted == 0 && !argsOnly
      ensures !old(next < quoted) ==> quoted == old(quoted) && argsOnly == old(argsOnly)
      ensures last == if old(last) > next then next else old(last)
      ensures first == if old(first) > next then next else old(first)
    {
      if next < quoted {
        quoted := 0;
        argsOnly := false;
      }
      if last > next {
        last := next;
      }
      if first > next {
        first := next;
      }
    }

    /**
     The parse loop of `__argp_parse`. It stops for any parsers that do not move `next` back, in all
     three orderings; with parsers that leave `next` alone it does what `ArgpSpec` says.
     */
    method ParseLoop() returns (err: Err)
      requires Valid() && next <= argv.Length
      modifies this, argv
      ensures err != Ok && multiset(argv[..]) == old(multiset(argv[..]))
      ensures Fits(env, TheLog()) && OnlyWork(old(calls), calls) && next <= argv.Length + 1
      ensures Still(env) ==> EndsAs(old(Outcome()), err)
    {
      ghost var v := Outcome();
      err := Ok;
      while err == Ok
        invariant Fits(env, TheLog()) && multiset(argv[..]) == old(multiset(argv[..]))
        invariant OnlyWork(old(calls), calls) && next <= argv.Length + 1
        invariant err == Ok ==> Valid() && (Still(env) ==> next <= argv.Length && Outcome() == v)
        invariant err != Ok && Still(env) ==> EndsAs(v, err)
        decreases err == Ok, if argsOnly then 0 else 1, Left(), Letters()
      {
        err := ParseNext();
      }
    }

    // --- the calls around the parse ---

    constructor (env: Env, argv: array<string>)
      requires forall e <- env.table :: e.group < |env.parsers|
      ensures this.env == env && this.argv == argv && Valid()
      ensures calls == [] && next == 0 && !argsOnly && nextchar.None? && first == last == 0
      ensures processed == seq(|env.parsers|, i => 0) && !ebadkey
    {
      this.env, this.argv := env, argv;
      next, first, last, nextchar, argsOnly, quoted := 0, 0, 0, None, false, 0;
      calls, processed, ebadkey := [], seq(|env.parsers|, i => 0), false;
    }

    /** A call to each group from the first on; with `stops`, until one answers with an error. */
    method SweepUp(key: Key, skipBusy: bool, stops: bool, err0: Err) returns (err: Err, ghost hi: nat)
      requires Fits(env, TheLog()) && next <= argv.Length + 1 && err0 == Ok
      modifies this`calls, this`next
      ensures Fits(env, TheLog()) && old(next) <= next <= argv.Length + 1 && hi <= |env.parsers|
      ensures calls == old(calls) + Up(if skipBusy then Idle(env.parsers, processed) else env.parsers, key, 0, hi)
      ensures !stops || !err.Fail? ==> hi == |env.parsers|
      ensures !stops ==> err == err0
      ensures Still(env) ==> next == old(next)
      ensures old(next) <= argv.Length ==> next <= argv.Length
      ensures stops ==>
                StopsAt(env, if skipBusy then Idle(env.parsers, processed) else env.parsers, old(calls), key, hi,
                        err.Fail?)
    {
      ghost var asked := if skipBusy then Idle(env.parsers, processed) else env.parsers;
      var g := 0;
      err := err0;
      while g < |env.parsers| && (!stops || !err.Fail?)
        invariant 0 <= g <= |env.parsers| && Fits(env, TheLog()) && old(next) <= next <= argv.Length + 1
        invariant calls == old(calls) + Up(asked, key, 0, g)
        invariant !stops ==> err == err0
        invariant old(next) <= argv.Length ==> next <= argv.Length
        invariant stops ==> StopsAt(env, asked, old(calls), key, g, err.Fail?)
        invariant Still(env) ==> next == old(next)
      {
        if !skipBusy || processed[g] == 0 {
          var e := GroupParse(g, key, None);
          err := if stops then e else err;
        }
        g := g + 1;
      }
      hi := g;
    }

    /** The same from the last group on. */
    method SweepDown(key: Key, stops: bool, err0: Err) returns (err: Err, ghost lo: nat)
      requires Fits(env, TheLog()) && next <= argv.Length + 1
      modifies this`calls, this`next
      ensures Fits(env, TheLog()) && old(next) <= next <= argv.Length + 1 && lo <= |env.parsers|
      ensures calls == old(calls) + Down(env.parsers, key, lo, |env.parsers|)
      ensures !stops || !err.Fail? ==> lo == 0
      ensures err0.Fail? && stops ==> lo == |env.parsers|
      ensures !stops ==> err == err0
      ensures Still(env) ==> next == old(next)
    {
      var g := |env.parsers|;
      err := err0;
      while g > 0 && (!stops || !err.Fail?)
        invariant 0 <= g <= |env.parsers| && Fits(env, TheLog()) && old(next) <= next <= argv.Length + 1
        invariant calls == old(calls) + Down(env.parsers, key, g, |env.parsers|)
        invariant err0.Fail? && stops ==> g == |env.parsers| && err == err0
        invariant !stops ==> err == err0
        invariant Still(env) ==> next == old(next)
      {
        g := g - 1;
        var e := GroupParse(g, key, None);
        err := if stops then e else err;
      }
      lo := g;
    }

    /** The calls of `parser_finalize` when the parse went well so far. */
    method CloseArguments(wantsEnd: bool) returns (err: Err, end: Option<nat>, ghost noArgs: nat, ghost ends: nat)
      requires Fits(env, TheLog()) && next <= argv.Length + 1
      modifies this`calls, this`next
      ensures Fits(env, TheLog()) && next <= argv.Length + 1 && noArgs <= |env.parsers| && ends <= |env.parsers|
      ensures calls == old(calls) + Up(Idle(env.parsers, processed), NoArgs, 0, noArgs)
                       + Down(env.parsers, End, ends, |env.parsers|)
      ensures old(next) != argv.Length ==> noArgs == 0 && ends == |env.parsers|
      ensures old(next) != argv.Length ==> err == (if wantsEnd then Ok else Unknown)
      ensures old(next) == argv.Length && !err.Fail? ==> err == Ok && noArgs == |env.parsers| && ends == 0
      ensures if wantsEnd then end == Some(next) else end.None?
      ensures Still(env) ==> next == old(next)
    {
      end, err := None, Ok;
      noArgs, ends := 0, |env.parsers|;
      if next == argv.Length {
        err, noArgs := SweepUp(NoArgs, true, true, Ok);
        err, ends := SweepDown(End, true, err);
        if err == Unknown {
          err := Ok;
        }
        if wantsEnd {
          end := Some(next);
        }
      } else if wantsEnd {
        end := Some(next);
      } else {
        err := Unknown;
      }
      assert calls == old(calls) + Up(Idle(env.parsers, processed), NoArgs, 0, noArgs)
                      + Down(env.parsers, End, ends, |env.parsers|);
    }

    /** Every group is told of the error, or of the success until one objects. */
    method Announce(err0: Err) returns (err: Err, ghost successes: nat)
      requires Fits(env, TheLog()) && next <= argv.Length + 1
      modifies this`calls, this`next
      ensures Fits(env, TheLog()) && next <= argv.Length + 1 && successes <= |env.parsers|
      ensures calls == old(calls) + Announced(env.parsers, err0 != Ok, successes)
      ensures err0 != Ok ==> err == err0
      ensures err0 == Ok ==> err == Ok || err.Fail?
      ensures err == Ok ==> successes == 0
      ensures Still(env) ==> next == old(next)
    {
      err, successes := err0, 0;
      if err != Ok {
        var _, _ := SweepUp(Error, false, false, Ok);
      } else {
        err, successes := SweepDown(Success, true, err);
        if err == Unknown {
          err := Ok;
        }
      }
    }

    /** `parser_finalize`. */
    method Finalize(err0: Err, wantsEnd: bool) returns (err: Err, end: Option<nat>, ghost closing: Closing)
      requires Fits(env, TheLog()) && next <= argv.Length + 1
      modifies this`calls, this`next
      ensures ClosesAs(|env.parsers|, err0 == Ok || (err0 == Unknown && ebadkey),
                       old(next) == argv.Length, err, closing)
      ensures |processed| == |env.parsers|
      ensures calls == old(calls) + ClosingCalls(env.parsers, processed, closing)
      ensures err != Unknown && (err0.Fail? ==> err == err0)
      ensures err0 == Unknown && !ebadkey ==> err == Fail(EINVAL)
      ensures !wantsEnd && old(next) != argv.Length ==> err != Ok
      ensures end.Some? <==> wantsEnd && (err0 == Ok || (err0 == Unknown && ebadkey))
      ensures end.Some? && Still(env) ==> end.value == old(next)
    {
      err, end := if err0 == Unknown && ebadkey then Ok else err0, None;
      ghost var noArgs, ends := 0, |env.parsers|;
      if err == Ok {
        err, end, noArgs, ends := CloseArguments(wantsEnd);
      }
      ghost var s0 := calls;
      ghost var failed, successes := err != Ok, 0;
      err, successes := Announce(err);
      ghost var s1 := calls;
      ghost var lo;
      err, lo := SweepDown(Fini, false, err);
      if err == Unknown {
        err := Fail(EINVAL);
      }
      closing := Closing(noArgs, ends, failed, successes);
      ClosedBy(env.parsers, processed, closing, old(calls), s0, s1, calls);
    }
  }

  /** Where the parse starts: argv[0] is skipped unless the caller asks for it. */
  function StartOf(argc: nat, parseArgv0: bool): (n: nat)
    ensures n <= argc
  {
    if argc > 0 && !parseArgv0 then 1 else 0
  }

  function LogAfterInit(env: Env): Log {
    Log(Up(env.parsers, Init, 0, |env.parsers|), seq(|env.parsers|, i => 0), false)
  }

  /**
   What happened in one `argp_parse`; `well` if the parse loop ended with nothing left, with an argument
   nobody knows, or with a short option that its parser does not know while `arg_ebadkey` is still set by an
   argument (`ArgpRefusal`).
   */
  datatype Trace =
    | InitFailed(upTo: nat)
    | Parsed(work: seq<Call>, processed: seq<nat>, next: nat, well: bool, closing: Closing)

  ghost predicate Traces(env: Env, calls: seq<Call>, t: Trace) {
    match t
    case InitFailed(k) => k <= |env.parsers| && calls == Up(env.parsers, Init, 0, k)
    case Parsed(work, processed, _, _, closing) =>
      && |processed| == |env.parsers| && ClosingOk(|env.parsers|, closing)
      && (forall i :: 0 <= i < |work| ==> IsWork(work[i].key))
      && calls == Up(env.parsers, Init, 0, |env.parsers|) + work + ClosingCalls(env.parsers, processed, closing)
  }

  /** How many groups, from the first on, were given their INIT. */
  ghost function Initialised(env: Env, t: Trace): nat {
    if t.InitFailed? then t.upTo else |env.parsers|
  }

  /** `parser_init`: a fresh parser, every group of which has been initialised. */
  method Begin(env: Env, argv: array<string>, parseArgv0: bool) returns (p: Parser, err: Err, ghost upTo: nat)
    requires forall e <- env.table :: e.group < |env.parsers|
    ensures fresh(p) && p.env == env && p.argv == argv && p.Valid()
    ensures upTo <= |env.parsers| && p.calls == Up(env.parsers, Init, 0, upTo)
    ensures !err.Fail? ==> upTo == |env.parsers|
    ensures StopsAt(env, env.parsers, [], Init, upTo, err.Fail?) && p.next <= argv.Length
    ensures !err.Fail? && Still(env) ==>
              p.Outcome() ==
              OutcomeOf(env, LogAfterInit(env), argv[..], 0, 0, StartOf(argv.Length, parseArgv0), "", false)
  {
    p := new Parser(env, argv);
    err, upTo := p.SweepUp(Init, false, true, Ok);
    if !err.Fail? && argv.Length > 0 && !parseArgv0 {
      p.next := 1;
    }
  }

  /**
   `__argp_parse`. Every group is initialised, then called for options and arguments, then told how
   the parse ended; with parsers that leave `next` alone, the middle part and argv are what
   `ArgpSpec` says.
   */
  method ArgpParse(env: Env, argv: array<string>, parseArgv0: bool, wantsEnd: bool)
    returns (err: Err, end: Option<nat>, calls: seq<Call>, ghost trace: Trace)
    requires forall e <- env.table :: e.group < |env.parsers|
    modifies argv
    ensures multiset(argv[..]) == old(multiset(argv[..]))
    ensures Traces(env, calls, trace)
    ensures trace.InitFailed? ==> err.Fail? && argv[..] == old(argv[..])
    ensures StopsAt(env, env.parsers, [], Init, Initialised(env, trace), trace.InitFailed?)
    ensures trace.Parsed? ==>
              && ClosesAs(|env.parsers|, trace.well, trace.next == argv.Length, err, trace.closing)
              && (!wantsEnd && trace.next != argv.Length ==> err != Ok)
    ensures end.Some? ==> wantsEnd && trace.Parsed? && (Still(env) ==> end.value == trace.next)
    ensures wantsEnd && err == Ok ==> end.Some?
    ensures trace.Parsed? && Still(env) ==>
              var start := StartOf(argv.Length, parseArgv0);
              var v := OutcomeOf(env, LogAfterInit(env), old(argv[..]), 0, 0, start, "", false);
              && v.log.calls == Up(env.parsers, Init, 0, |env.parsers|) + trace.work
              && v.log.processed == trace.processed && v.next == trace.next
              && (trace.well <==> v.err == Unknown && v.log.ebadkey)
              && (!trace.well ==> err == if v.err == Unknown then Fail(EINVAL) else v.err)
              && (v.argv.Some? ==> argv[..] == v.argv.value)
  {
    var p;
    ghost var upTo;
    p, err, upTo := Begin(env, argv, parseArgv0);
    if err.Fail? {
      return err, None, p.calls, InitFailed(upTo);
    }
    ghost var begun := p.calls;
    err := p.ParseLoop();
    ghost var (worked, next, well) := (p.calls, p.next, err == Unknown && p.ebadkey);
    ghost var closing;
    err, end, closing := p.Finalize(err, wantsEnd);
    calls := p.calls;
    trace := Parsed(worked[|begun|..], p.processed, next, well, closing);
    assert worked == begun + worked[|begun|..];
  }

  /** One group with a parser: INIT, its options and arguments, then NO_ARGS, END, the outcome, and FINI last. */
  lemma GroupSeesParse(env: Env, calls: seq<Call>, t: Trace, g: nat)
    requires Traces(env, calls, t) && t.Parsed? && g < |env.parsers| && env.parsers[g]
    ensures To(calls, g) ==
            [Call(g, Init, None)] + To(t.work, g)
            + (Maybe(g < t.closing.noArgs && t.processed[g] == 0, g, NoArgs)
               + Maybe(g >= t.closing.ends, g, End)
               + Maybe(t.closing.failed || g >= t.closing.successes, g, if t.closing.failed then Error else Success)
               + [Call(g, Fini, None)])
  {
    var n := |env.parsers|;
    var start, close := Up(env.parsers, Init, 0, n), ClosingCalls(env.parsers, t.processed, t.closing);
    ToOfParts(start + t.work, close, g);
    ToOfParts(start, t.work, g);
    ToUp(env.parsers, Init, 0, n, g);
    GroupSeesClosing(env.parsers, t.processed, t.closing, g);
  }
}
