/** Calls that go to one group after another: initialisation, the end of a parse, and clean-up. */
module ArgpSweep {

  import opened Wrappers
  import opened ArgpSpec

  function Maybe(b: bool, g: nat, key: Key): seq<Call> {
    if b then [Call(g, key, None)] else []
  }

  /** Calls with `key` to the groups in [lo, hi) that have a parser, from the first to the last. */
  function Up(parsers: seq<bool>, key: Key, lo: nat, hi: nat): seq<Call>
    requires lo <= hi <= |parsers|
    decreases hi - lo
  {
    if lo == hi then []
    else Up(parsers, key, lo, hi - 1) + Maybe(parsers[hi - 1], hi - 1, key)
  }

  /** The same from the last to the first, so that children come before their parents. */
  function Down(parsers: seq<bool>, key: Key, lo: nat, hi: nat): seq<Call>
    requires lo <= hi <= |parsers|
    decreases hi - lo
  {
    if lo == hi then []
    else Down(parsers, key, lo + 1, hi) + Maybe(parsers[lo], lo, key)
  }

  /** The groups that took no argument, of those that have a parser. */
  function Idle(parsers: seq<bool>, processed: seq<nat>): (r: seq<bool>)
    requires |processed| == |parsers|
    ensures |r| == |parsers|
  {
    seq(|parsers|, i requires 0 <= i < |parsers| => parsers[i] && processed[i] == 0)
  }

  /** The calls that one group gets. */
  function To(calls: seq<Call>, g: nat): seq<Call> {
    if calls == [] then []
    else To(calls[..|calls| - 1], g) + (if calls[|calls| - 1].group == g then [calls[|calls| - 1]] else [])
  }

  lemma {:induction false} ToOfParts(a: seq<Call>, b: seq<Call>, g: nat)
    ensures To(a + b, g) == To(a, g) + To(b, g)
    decreases |b|
  {
    if b == [] {
      assert a + b == a;
    } else {
      var b' := b[..|b| - 1];
      ToOfParts(a, b', g);
      assert (a + b)[..|a + b| - 1] == a + b';
    }
  }

  lemma ToMaybe(b: bool, h: nat, key: Key, g: nat)
    ensures To(Maybe(b, h, key), g) == Maybe(b && h == g, g, key)
  {
    assert Maybe(b, h, key) == [] || Maybe(b, h, key)[..0] == [];
  }

  lemma {:induction false} ToUp(parsers: seq<bool>, key: Key, lo: nat, hi: nat, g: nat)
    requires lo <= hi <= |parsers|
    ensures To(Up(parsers, key, lo, hi), g) == Maybe(lo <= g < hi && parsers[g], g, key)
    decreases hi - lo
  {
    if lo < hi {
      var m: nat := hi - 1;
      var most, last := Up(parsers, key, lo, m), Maybe(parsers[m], m, key);
      assert Up(parsers, key, lo, hi) == most + last;
      ToUp(parsers, key, lo, m, g);
      ToOfParts(most, last, g);
      ToMaybe(parsers[m], m, key, g);
    }
  }

  lemma {:induction false} ToDown(parsers: seq<bool>, key: Key, lo: nat, hi: nat, g: nat)
    requires lo <= hi <= |parsers|
    ensures To(Down(parsers, key, lo, hi), g) == Maybe(lo <= g < hi && parsers[g], g, key)
    decreases hi - lo
  {
    if lo < hi {
      var m: nat := lo + 1;
      var most, last := Down(parsers, key, m, hi), Maybe(parsers[lo], lo, key);
      assert Down(parsers, key, lo, hi) == most + last;
      ToDown(parsers, key, m, hi, g);
      ToOfParts(most, last, g);
      ToMaybe(parsers[lo], lo, key, g);
    }
  }

  ghost predicate Descending(r: seq<Call>, lo: nat) {
    && (forall i :: 0 <= i < |r| ==> r[i].group >= lo)
    && forall i, j :: 0 <= i < j < |r| ==> r[i].group > r[j].group
  }

  lemma Appended(most: seq<Call>, b: bool, lo: nat, key: Key)
    requires Descending(most, lo + 1)
    ensures Descending(most + Maybe(b, lo, key), lo)
  {
  }

  /** Going down, a group with a greater number is called before one with a smaller number. */
  lemma {:induction false} DownIsDescending(parsers: seq<bool>, key: Key, lo: nat, hi: nat)
    requires lo <= hi <= |parsers|
    ensures Descending(Down(parsers, key, lo, hi), lo)
    decreases hi - lo
  {
    if lo < hi {
      DownIsDescending(parsers, key, lo + 1, hi);
      Appended(Down(parsers, key, lo + 1, hi), parsers[lo], lo, key);
    }
  }

  ghost predicate Ascending(r: seq<Call>, hi: nat) {
    && (forall i :: 0 <= i < |r| ==> r[i].group < hi)
    && forall i, j :: 0 <= i < j < |r| ==> r[i].group < r[j].group
  }

  /** Going up, a group with a smaller number is called before one with a greater number. */
  lemma {:induction false} UpIsAscending(parsers: seq<bool>, key: Key, lo: nat, hi: nat)
    requires lo <= hi <= |parsers|
    ensures Ascending(Up(parsers, key, lo, hi), hi)
    decreases hi - lo
  {
    if lo < hi {
      UpIsAscending(parsers, key, lo, hi - 1);
      var most, last := Up(parsers, key, lo, hi - 1), Maybe(parsers[hi - 1], hi - 1, key);
      assert Up(parsers, key, lo, hi) == most + last;
    }
  }

  // --- a whole parse ---

  predicate IsWork(key: Key) {
    key.User? || key.Arg? || key.Args?
  }

  /** Options and arguments were called back since `before`, and nothing else. */
  ghost predicate OnlyWork(before: seq<Call>, after: seq<Call>) {
    before <= after && forall i :: |before| <= i < |after| ==> IsWork(after[i].key)
  }

  /**
   How a parse is closed: `noArgs` and `ends` groups were told so before a parser objected, the
   outcome is an error for all or a success for the groups from `successes` on, and clean-up
   reaches every group.
   */
  datatype Closing = Closing(noArgs: nat, ends: nat, failed: bool, successes: nat)

  predicate ClosingOk(n: nat, c: Closing) {
    c.noArgs <= n && c.ends <= n && c.successes <= n
  }

  function Announced(parsers: seq<bool>, failed: bool, successes: nat): seq<Call>
    requires successes <= |parsers|
  {
    if failed then Up(parsers, Error, 0, |parsers|) else Down(parsers, Success, successes, |parsers|)
  }

  function ClosingCalls(parsers: seq<bool>, processed: seq<nat>, c: Closing): seq<Call>
    requires |processed| == |parsers| && ClosingOk(|parsers|, c)
  {
    var n := |parsers|;
    Up(Idle(parsers, processed), NoArgs, 0, c.noArgs)
    + Down(parsers, End, c.ends, n)
    + Announced(parsers, c.failed, c.successes)
    + Down(parsers, Fini, 0, n)
  }

  /** What one group with a parser sees of the closing: each key at most once, and clean-up last. */
  lemma GroupSeesClosing(parsers: seq<bool>, processed: seq<nat>, c: Closing, g: nat)
    requires |processed| == |parsers| && ClosingOk(|parsers|, c) && g < |parsers| && parsers[g]
    ensures To(ClosingCalls(parsers, processed, c), g) ==
            Maybe(g < c.noArgs && processed[g] == 0, g, NoArgs)
            + Maybe(g >= c.ends, g, End)
            + Maybe(c.failed || g >= c.successes, g, if c.failed then Error else Success)
            + [Call(g, Fini, None)]
  {
    var n := |parsers|;
    var s1 := Up(Idle(parsers, processed), NoArgs, 0, c.noArgs);
    var s2 := Down(parsers, End, c.ends, n);
    var s3 := Announced(parsers, c.failed, c.successes);
    var s4 := Down(parsers, Fini, 0, n);
    ToOfParts(s1 + s2 + s3, s4, g);
    ToOfParts(s1 + s2, s3, g);
    ToOfParts(s1, s2, g);
    ToUp(Idle(parsers, processed), NoArgs, 0, c.noArgs, g);
    ToDown(parsers, End, c.ends, n, g);
    ToAnnounced(parsers, c, g);
    ToDown(parsers, Fini, 0, n, g);
  }

  lemma ToAnnounced(parsers: seq<bool>, c: Closing, g: nat)
    requires ClosingOk(|parsers|, c) && g < |parsers| && parsers[g]
    ensures To(Announced(parsers, c.failed, c.successes), g) ==
            Maybe(c.failed || g >= c.successes, g, if c.failed then Error else Success)
  {
    ToUp(parsers, Error, 0, |parsers|, g);
    ToDown(parsers, Success, c.successes, |parsers|, g);
  }
}
