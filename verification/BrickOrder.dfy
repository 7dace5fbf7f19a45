/**
 The check that no two bricks of a replica set are on one server, and the counts that volume
 creation lets through to it.
 */
module BrickOrder {

  import opened Wrappers

  /** One address of a host: its numeric form, or one that getnameinfo cannot give. */
  datatype Addr = Numeric(ip: int) | Unnamed

  type Info = seq<Addr>

  datatype Comparison = NoMatch | Match | Error

  datatype Verdict = Okay | BadOrder | CheckFailed

  ghost predicate Shared(a: Info, b: Info) {
    exists x :: x in a && x in b && x.Numeric?
  }

  predicate Named(a: Info) {
    forall x <- a :: x.Numeric?
  }

  /** `cli_cmd_compare_addrinfo`. */
  method CompareAddrinfo(first: Info, next: Info) returns (r: Comparison)
    ensures r == Match ==> Shared(first, next)
    ensures r == NoMatch ==> !Shared(first, next)
    ensures r == Error ==> !Named(first) || !Named(next)
  {
    for i := 0 to |first|
      invariant forall x :: x in first[..i] && x.Numeric? ==> x !in next
    {
      assert first[i] in first;
      if first[i].Unnamed? {
        return Error;
      }
      for j := 0 to |next|
        invariant first[i] !in next[..j]
      {
        assert next[j] in next;
        if next[j].Unnamed? {
          return Error;
        }
        if first[i] == next[j] {
          return Match;
        }
      }
      assert next[..|next|] == next;
      assert first[..i + 1] == first[..i] + [first[i]];
    }
    assert first[..|first|] == first;
    r := NoMatch;
  }

  // --- the list of bricks ---

  /**
   The list is a ring of `n` bricks and a head, which is at place `n` and has no addresses. This
   is the place that is reached from the first brick in `q` steps.
   */
  function Place(n: nat, q: nat): (p: nat)
    ensures p <= n
  {
    if q <= n then q else Place(n, q - n - 1)
  }

  function Next(n: nat, p: nat): nat {
    if p == n then 0 else p + 1
  }

  lemma {:induction false} NextPlace(n: nat, q: nat)
    ensures Place(n, q + 1) == Next(n, Place(n, q))
  {
    if q > n {
      NextPlace(n, q - n - 1);
    }
  }

  function InfoAt(infos: seq<Info>, p: nat): Info
    requires p <= |infos|
  {
    if p == |infos| then [] else infos[p]
  }

  lemma MultipleAbove(m: nat, d: int, e: int)
    requires d < e
    ensures m * d + m <= m * e
  {
    assert m * e == m * d + m * (e - d);
    assert m * (e - d) == m * (e - d - 1) + m;
  }

  lemma ModUnique(x: int, m: nat, q: int, r: nat)
    requires r < m && x == m * q + r
    ensures x / m == q && x % m == r
  {
    var p := x / m;
    assert x == m * p + x % m;
    if p < q {
      MultipleAbove(m, p, q);
      assert false;
    } else if q < p {
      MultipleAbove(m, q, p);
      assert false;
    }
  }

  /** The next brick is in the next place of its replica set, or in the first place of the next set. */
  lemma NextInSet(i: nat, sub: nat)
    requires sub > 0
    ensures (i + 1) % sub == if i % sub + 1 == sub then 0 else i % sub + 1
  {
    var q, r := i / sub, i % sub;
    if r + 1 == sub {
      assert i + 1 == sub * (q + 1);
      ModUnique(i + 1, sub, q + 1, 0);
    } else {
      ModUnique(i + 1, sub, q, r + 1);
    }
  }

  // --- the check ---

  /** The loops compare brick `a` with what is `t` steps further on. */
  predicate InReach(sub: nat, a: nat, t: nat)
    requires sub > 0
  {
    t > 0 && a % sub + t < sub
  }

  /** Brick `a` has an address in common with what is `t` steps further on. */
  ghost predicate Meets(infos: seq<Info>, a: nat, t: nat)
    requires a < |infos|
  {
    Shared(infos[a], InfoAt(infos, Place(|infos|, a + t)))
  }

  /** None of the first `m` bricks has an address in common with what it is compared with. */
  ghost predicate Clear(infos: seq<Info>, sub: nat, m: nat)
    requires sub > 0 && m <= |infos|
  {
    forall a: nat, t: nat :: a < m && InReach(sub, a, t) ==> !Meets(infos, a, t)
  }

  /** Two bricks of one replica set have an address in common. */
  ghost predicate OneServer(infos: seq<Info>, sub: nat)
    requires sub > 0
  {
    exists a: nat, b: nat :: a < b < |infos| && InReach(sub, a, b - a) && Shared(infos[a], infos[b])
  }

  /** The first loop: the addresses of all bricks, or a host that cannot be resolved. */
  method Resolve(hosts: seq<Option<Info>>) returns (infos: Option<seq<Info>>)
    ensures infos.None? <==> None in hosts
    ensures infos.Some? ==>
              |infos.value| == |hosts| && forall i :: 0 <= i < |hosts| ==> hosts[i] == Some(infos.value[i])
  {
    var list := [];
    for i := 0 to |hosts|
      invariant |list| == i && forall k :: 0 <= k < i ==> hosts[k] == Some(list[k])
    {
      if hosts[i].None? {
        return None;
      }
      list := list + [hosts[i].value];
    }
    infos := Some(list);
  }

  /** The inner loop: brick `a`, ahead of which come `j` bricks of its set, with those that follow in the set. */
  method CompareWithinSet(infos: seq<Info>, sub: nat, a: nat, j: nat) returns (r: Comparison)
    requires 0 < sub && a < |infos| && j == a % sub
    ensures r == Match ==> exists t: nat :: InReach(sub, a, t) && Meets(infos, a, t)
    ensures r == NoMatch ==> forall t: nat :: InReach(sub, a, t) ==> !Meets(infos, a, t)
    ensures r == Error ==> exists info <- infos :: !Named(info)
  {
    var n := |infos|;
    var k, cursor := j, a + 1;
    while k < sub - 1
      invariant j <= k <= sub - 1 && cursor == Place(n, a + (k - j + 1))
      invariant forall t: nat :: 0 < t <= k - j ==> !Meets(infos, a, t)
    {
      k := k + 1;
      ghost var t := k - j;
      assert InReach(sub, a, t) && cursor == Place(n, a + t);
      r := CompareAddrinfo(infos[a], InfoAt(infos, cursor));
      if r != NoMatch {
        assert infos[a] in infos;
        return;
      }
      NextPlace(n, a + t);
      cursor := Next(n, cursor);
    }
    r := NoMatch;
  }

  /** `cli_cmd_check_brick_order`. */
  method CheckBrickOrder(hosts: seq<Option<Info>>, sub: nat) returns (verdict: Verdict, ghost infos: seq<Info>)
    requires sub > 0
    ensures None in hosts ==> verdict == CheckFailed
    ensures None !in hosts ==>
              |infos| == |hosts| && (forall i :: 0 <= i < |hosts| ==> hosts[i] == Some(infos[i]))
              && (verdict == Okay ==> Clear(infos, sub, |infos|))
              && (verdict == BadOrder ==> !Clear(infos, sub, |infos|))
              && (verdict == CheckFailed ==> exists info <- infos :: !Named(info))
  {
    var resolved := Resolve(hosts);
    infos := [];
    if resolved.None? {
      return CheckFailed, infos;
    }
    var list := resolved.value;
    infos := list;
    var i, j := 0, 0;
    while i < |list|
      invariant 0 <= i <= |list| && j == i % sub && Clear(list, sub, i)
    {
      i := i + 1;
      NextInSet(i - 1, sub);
      if i % sub == 0 {
        j := 0;
        continue;
      }
      var r := CompareWithinSet(list, sub, i - 1, j);
      if r == Error {
        return CheckFailed, infos;
      }
      if r == Match {
        return BadOrder, infos;
      }
      j := j + 1;
    }
    verdict := Okay;
  }

  // --- when the check is right ---

  /** The check's answer is right for `infos`. */
  ghost predicate Right(infos: seq<Info>, sub: nat)
    requires sub > 0
  {
    Clear(infos, sub, |infos|) <==> !OneServer(infos, sub)
  }

  /** A set that begins among the first `n` bricks ends with them, unless it is the last and incomplete one. */
  lemma SetEnds(n: nat, sub: nat, a: nat)
    requires sub > 0 && a < n
    ensures a - a % sub + sub <= n || (n % sub > 0 && a - a % sub + sub == n - n % sub + sub)
  {
    var qa, qn := a / sub, n / sub;
    assert a == sub * qa + a % sub && n == sub * qn + n % sub;
    if qa < qn {
      MultipleAbove(sub, qa, qn);
    } else if qn < qa {
      MultipleAbove(sub, qn, qa);
    }
  }

  lemma RightWhenSetsEnd(infos: seq<Info>, sub: nat)
    requires sub > 0 && (|infos| % sub == 0 || |infos| % sub == sub - 1)
    ensures Right(infos, sub)
  {
    var n := |infos|;
    forall a: nat, t: nat | a < n && InReach(sub, a, t) ensures a + t <= n && Place(n, a + t) == a + t {
      SetEnds(n, sub, a);
    }
    if OneServer(infos, sub) {
      var a: nat, b: nat :| a < b < n && InReach(sub, a, b - a) && Shared(infos[a], infos[b]);
      var t := b - a;
      assert InReach(sub, a, t) && Meets(infos, a, t);
    } else {
      forall a: nat, t: nat | a < n && InReach(sub, a, t) ensures !Meets(infos, a, t) {
        var b := a + t;
        assert b < n ==> InReach(sub, a, b - a);
      }
    }
  }

  /** One address each, and brick `a` at that of the last. */
  function Hosts(n: nat, a: nat): (infos: seq<Info>)
    ensures |infos| == n && forall info <- infos :: Named(info)
  {
    seq(n, x requires 0 <= x < n => [Numeric(if x == a then n - 1 else x)])
  }

  lemma SharedHosts(n: nat, a: nat, x: nat, y: nat)
    requires x < n && y < n
    ensures Shared(Hosts(n, a)[x], Hosts(n, a)[y]) <==> (if x == a then n - 1 else x) == (if y == a then n - 1 else y)
  {
    var ax := Numeric(if x == a then n - 1 else x);
    assert Hosts(n, a)[x] == [ax] && ax in Hosts(n, a)[x];
  }

  /** A single set that lacks more than one brick: the first brick is compared with itself. */
  lemma WrongInSingleSet(n: nat, sub: nat)
    requires 0 < n && n + 1 < sub
    ensures !Right(Hosts(n, n), sub)
  {
    var infos := Hosts(n, n);
    ModUnique(0, sub, 0, 0);
    assert InReach(sub, 0, n + 1) && Place(n, 0 + (n + 1)) == 0;
    SharedHosts(n, n, 0, 0);
    assert Meets(infos, 0, n + 1);
    forall x: nat, y: nat | x < y < n ensures !Shared(infos[x], infos[y]) {
      SharedHosts(n, n, x, y);
    }
  }

  /** A last set that lacks more than one brick: the last brick is compared with the first. */
  lemma WrongAcrossSets(n: nat, sub: nat)
    requires 0 < sub < n && 0 < n % sub && n % sub + 1 < sub
    ensures !Right(Hosts(n, 0), sub)
  {
    var infos := Hosts(n, 0);
    NextInSet(n - 1, sub);
    assert InReach(sub, n - 1, 2) && Place(n, n - 1 + 2) == 0;
    SharedHosts(n, 0, n - 1, 0);
    assert Meets(infos, n - 1, 2);
    ModUnique(0, sub, 0, 0);
    forall x: nat, y: nat | x < y < n && InReach(sub, x, y - x) ensures !Shared(infos[x], infos[y]) {
      SharedHosts(n, 0, x, y);
    }
  }

  /** The check is right for all addresses if and only if the last replica set lacks at most one brick. */
  lemma RightIff(n: nat, sub: nat)
    requires sub > 0
    ensures (forall infos: seq<Info> :: |infos| == n && (forall info <- infos :: Named(info)) ==> Right(infos, sub))
            <==> n % sub == 0 || n % sub == sub - 1
  {
    if n % sub == 0 || n % sub == sub - 1 {
      forall infos: seq<Info> | |infos| == n ensures Right(infos, sub) {
        RightWhenSetsEnd(infos, sub);
      }
    } else {
      if n < sub {
        ModUnique(n, sub, 0, n);
        WrongInSingleSet(n, sub);
      } else {
        WrongAcrossSets(n, sub);
      }
    }
  }

  // --- what volume creation lets through ---

  /** A product as it is left in a 32-bit signed integer. */
  function Wrap32(x: int): int {
    (x + 0x8000_0000) % 0x1_0000_0000 - 0x8000_0000
  }

  datatype Counts = Accepted | Rejected | DividesByZero

  const INT32_MAX := 0x7fff_ffff

  /** A count as the command line gives it: at least 1, and kept in 32 bits. */
  predicate IsCount(n: nat) {
    1 <= n <= INT32_MAX
  }

  /** The test of the brick count in `cli_cmd_volume_create_parse`. */
  function CreateCounts(stripe: nat, replica: nat, bricks: nat): Counts {
    var sub := Wrap32(stripe * replica);
    if sub == 0 then DividesByZero else if bricks % sub == 0 then Accepted else Rejected
  }

  lemma WrapIsRemainder(x: nat)
    ensures -0x8000_0000 <= Wrap32(x) <= INT32_MAX
    ensures Wrap32(x) == 0 <==> x % 0x1_0000_0000 == 0
  {
    var q, r := x / 0x1_0000_0000, x % 0x1_0000_0000;
    if r < 0x8000_0000 {
      ModUnique(x + 0x8000_0000, 0x1_0000_0000, q, r + 0x8000_0000);
    } else {
      ModUnique(x + 0x8000_0000, 0x1_0000_0000, q + 1, r - 0x8000_0000);
    }
  }

  /** Creation divides by zero if and only if 2^32 divides the product, whatever the bricks. */
  lemma DividesByZeroIff(stripe: nat, replica: nat, bricks: nat)
    ensures CreateCounts(stripe, replica, bricks) == DividesByZero <==> stripe * replica % 0x1_0000_0000 == 0
    ensures CreateCounts(65536, 65536, bricks) == DividesByZero
  {
    WrapIsRemainder(stripe * replica);
    WrapIsRemainder(65536 * 65536);
  }

  lemma Whole(x: int, m: int)
    requires m != 0 && x % m == 0
    ensures x == m * (x / m)
  {
  }

  lemma Divides(x: int, m: int, d: nat)
    requires d > 0 && m != 0 && x % m == 0 && m % d == 0
    ensures x % d == 0
  {
    var k, l := x / m, m / d;
    Whole(x, m);
    Whole(m, d);
    assert d * (l * k) == (d * l) * k;
    ModUnique(x, d, l * k, 0);
  }

  /**
   Whole replica sets are all that gets through if and only if the product that is left is a multiple
   of the replica count, or is -2^31, which no brick count is a multiple of.
   */
  lemma WholeSetsIff(stripe: nat, replica: nat)
    requires IsCount(stripe) && IsCount(replica)
    ensures (forall bricks: nat :: IsCount(bricks) && CreateCounts(stripe, replica, bricks) == Accepted ==>
               bricks % replica == 0)
            <==> Wrap32(stripe * replica) % replica == 0 || Wrap32(stripe * replica) == -0x8000_0000
  {
    var sub := Wrap32(stripe * replica);
    WrapIsRemainder(stripe * replica);
    if sub % replica == 0 {
      forall bricks: nat | CreateCounts(stripe, replica, bricks) == Accepted ensures bricks % replica == 0 {
        Divides(bricks, sub, replica);
      }
    } else if sub == -0x8000_0000 {
      forall bricks: nat | IsCount(bricks) ensures CreateCounts(stripe, replica, bricks) != Accepted {
        TooFewForMinimum(bricks);
      }
    } else {
      var bricks := CutSet(sub, replica);
      assert CreateCounts(stripe, replica, bricks) == Accepted;
    }
  }

  lemma TooFewForMinimum(bricks: nat)
    requires IsCount(bricks)
    ensures bricks % -0x8000_0000 != 0
  {
  }

  lemma CutSet(sub: int, replica: nat) returns (bricks: nat)
    requires replica > 0 && sub % replica != 0 && -0x8000_0000 < sub <= INT32_MAX
    ensures sub != 0 && bricks % sub == 0 && bricks % replica != 0 && IsCount(bricks)
  {
    ModUnique(0, replica, 0, 0);
    bricks := if sub < 0 then -sub else sub;
    SameMultiples(sub, bricks);
    if bricks % replica == 0 {
      Divides(sub, bricks, replica);
      assert false;
    }
  }

  lemma SameMultiples(m: int, n: nat)
    requires m != 0 && n == if m < 0 then -m else m
    ensures n % m == 0 && m % n == 0
  {
    ModUnique(m, n, if m < 0 then -1 else 1, 0);
  }

  /** Which a product that fits 32 bits is. */
  lemma WholeSetsWithoutOverflow(stripe: nat, replica: nat, bricks: nat)
    requires IsCount(stripe) && IsCount(replica) && stripe * replica <= INT32_MAX
    requires IsCount(bricks) && CreateCounts(stripe, replica, bricks) == Accepted
    ensures bricks % replica == 0
  {
    var product := stripe * replica;
    ModUnique(product, replica, stripe, 0);
    ModUnique(product + 0x8000_0000, 0x1_0000_0000, 0, product + 0x8000_0000);
    WholeSetsIff(stripe, replica);
  }

  /** And which one that overflows need not be; it can also refuse every brick count. */
  lemma OverflowCutsSets(bricks: nat)
    requires IsCount(bricks)
    ensures CreateCounts(65537, 65537, 131073) == Accepted && 131073 % 65537 == 65536
    ensures CreateCounts(0x4000_0000, 6, bricks) == Rejected
  {
    assert 65537 * 65537 == 4295098369;
    assert 0x4000_0000 * 6 == 0x1_8000_0000 && Wrap32(0x1_8000_0000) == -0x8000_0000;
    TooFewForMinimum(bricks);
  }
}
