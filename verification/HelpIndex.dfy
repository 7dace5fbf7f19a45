/**
 The option index behind `--help` (`struct hol`): entries that point into one shared string of
 short options, which records by what it leaves out which options are shadowed.

 All options of an argp tree stand in one sequence, in the order in which the parser searches
 them; a pointer to an option is its position there.
 */
module HelpIndex {

  import opened Wrappers
  import opened ArgpTable
  import opened ArgpGroups

  /** Options [start, start + num), the first of them not an alias; `so` points into the string. */
  datatype HolEntry = HolEntry(start: nat, num: nat, so: nat)

  datatype Hol = Hol(entries: seq<HolEntry>, shorts: seq<int>)

  // --- which options keep their letter ---

  /** No short option in [lo, p) has the letter of option `p`. */
  ghost predicate Unshadowed(all: seq<Opt>, lo: nat, p: nat)
    requires lo <= p < |all|
  {
    forall q :: lo <= q < p ==> !(IsShort(all[q]) && all[q].key == all[p].key)
  }

  /** Option `p` is reached by its letter, among the options from `lo` on. */
  ghost predicate Effective(all: seq<Opt>, lo: nat, p: nat)
    requires lo <= p < |all|
  {
    IsShort(all[p]) && Unshadowed(all, lo, p)
  }

  /** The letters of the effective options in [lo, p), in order. */
  ghost function Keys(all: seq<Opt>, lo: nat, p: nat): seq<int>
    requires lo <= p <= |all|
    decreases p
  {
    if p == lo then []
    else Keys(all, lo, p - 1) + (if Effective(all, lo, p - 1) then [all[p - 1].key] else [])
  }

  lemma {:induction false} KeysMember(all: seq<Opt>, lo: nat, p: nat, k: int)
    requires lo <= p <= |all|
    ensures k in Keys(all, lo, p) <==> exists q :: lo <= q < p && IsShort(all[q]) && all[q].key == k
    decreases p
  {
    if lo < p {
      KeysMember(all, lo, p - 1, k);
      var r := p - 1;
      if IsShort(all[r]) && all[r].key == k && !Unshadowed(all, lo, r) {
        var q :| lo <= q < r && IsShort(all[q]) && all[q].key == all[r].key;
        assert k in Keys(all, lo, r);
      }
    }
  }

  lemma {:induction false} KeysDistinct(all: seq<Opt>, lo: nat, p: nat)
    requires lo <= p <= |all|
    ensures forall i, j :: 0 <= i < j < |Keys(all, lo, p)| ==> Keys(all, lo, p)[i] != Keys(all, lo, p)[j]
    decreases p
  {
    if lo < p {
      KeysDistinct(all, lo, p - 1);
      KeysMember(all, lo, p - 1, all[p - 1].key);
    }
  }

  lemma {:induction false} KeysPrefix(all: seq<Opt>, lo: nat, p: nat, hi: nat)
    requires lo <= p <= hi <= |all|
    ensures Keys(all, lo, p) <= Keys(all, lo, hi)
    decreases hi
  {
    if p < hi {
      KeysPrefix(all, lo, p, hi - 1);
    }
  }

  /** The character test that the code makes at its cursor tells effective options from shadowed ones. */
  lemma CursorTest(all: seq<Opt>, lo: nat, p: nat, hi: nat)
    requires lo <= p < hi <= |all|
    ensures var keys, at := Keys(all, lo, hi), |Keys(all, lo, p)|;
            at <= |keys| && (Effective(all, lo, p) <==> IsShort(all[p]) && at < |keys| && keys[at] == all[p].key)
  {
    var keys, before := Keys(all, lo, hi), Keys(all, lo, p);
    KeysPrefix(all, lo, p, hi);
    KeysPrefix(all, lo, p + 1, hi);
    if Effective(all, lo, p) {
      assert Keys(all, lo, p + 1) == before + [all[p].key];
    } else if IsShort(all[p]) && |before| < |keys| && keys[|before|] == all[p].key {
      KeysMember(all, lo, p, all[p].key);
      var i :| 0 <= i < |before| && before[i] == all[p].key;
      KeysDistinct(all, lo, hi);
      assert false;
    }
  }

  // --- an index over [lo, hi) ---

  /** The entries follow one another from `lo` to `hi`. */
  ghost predicate Consecutive(entries: seq<HolEntry>, lo: nat, hi: nat) {
    if entries == [] then lo == hi
    else entries[0].start == lo && entries[0].num > 0 && Consecutive(entries[1..], lo + entries[0].num, hi)
  }

  /** Every entry points at the letter that its first effective option would have. */
  ghost predicate Pointing(entries: seq<HolEntry>, all: seq<Opt>, lo: nat) {
    forall e <- entries :: lo <= e.start <= |all| && e.so == |Keys(all, lo, e.start)|
  }

  /** An entry is an option and its aliases. */
  ghost predicate IsFamily(e: HolEntry, all: seq<Opt>) {
    && e.num > 0 && e.start + e.num <= |all| && !all[e.start].isAlias
    && forall q :: e.start < q < e.start + e.num ==> all[q].isAlias
  }

  /** The entries cover [lo, hi), family by family, each pointing at its place in the string. */
  ghost predicate Laid(entries: seq<HolEntry>, all: seq<Opt>, lo: nat, hi: nat) {
    Consecutive(entries, lo, hi) && Pointing(entries, all, lo) && forall e <- entries :: IsFamily(e, all)
  }

  ghost predicate Indexes(hol: Hol, all: seq<Opt>, lo: nat, hi: nat) {
    lo <= hi <= |all| && hol.shorts == Keys(all, lo, hi) && Laid(hol.entries, all, lo, hi)
  }

  lemma {:induction false} ConsecutiveJoined(a: seq<HolEntry>, b: seq<HolEntry>, lo: nat, mid: nat, hi: nat)
    requires Consecutive(a, lo, mid) && Consecutive(b, mid, hi)
    ensures Consecutive(a + b, lo, hi)
    decreases |a|
  {
    if a == [] {
      assert a + b == b;
    } else {
      ConsecutiveJoined(a[1..], b, lo + a[0].num, mid, hi);
      assert (a + b)[1..] == a[1..] + b;
    }
  }

  lemma {:induction false} ConsecutiveWithin(entries: seq<HolEntry>, lo: nat, hi: nat)
    requires Consecutive(entries, lo, hi)
    ensures lo <= hi
    ensures forall e <- entries :: lo <= e.start && e.start + e.num <= hi
    decreases |entries|
  {
    if entries != [] {
      ConsecutiveWithin(entries[1..], lo + entries[0].num, hi);
      assert entries == [entries[0]] + entries[1..];
    }
  }

  lemma LaidOnto(entries: seq<HolEntry>, e: HolEntry, all: seq<Opt>, lo: nat, hi: nat)
    requires Laid(entries, all, lo, hi) && lo <= hi <= |all|
    requires e.start == hi && e.so == |Keys(all, lo, hi)| && IsFamily(e, all)
    ensures Laid(entries + [e], all, lo, hi + e.num)
  {
    assert [e][1..] == [];
    ConsecutiveJoined(entries, [e], lo, hi, hi + e.num);
  }

  // --- make_hol ---

  /** One entry: the option at `start` and the aliases that follow it. */
  method MakeEntry(all: seq<Opt>, lo: nat, start: nat, hi: nat, shorts0: seq<int>)
    returns (entry: HolEntry, shorts: seq<int>)
    requires lo <= start < hi <= |all| && shorts0 == Keys(all, lo, start)
    requires !all[start].isAlias
    ensures entry.start == start && start + entry.num <= hi && entry.so == |shorts0| && IsFamily(entry, all)
    ensures shorts == Keys(all, lo, start + entry.num)
    ensures start + entry.num < hi ==> !all[start + entry.num].isAlias
  {
    shorts := shorts0;
    var o := start;
    while o == start || (o < hi && all[o].isAlias)
      invariant start <= o <= hi && shorts == Keys(all, lo, o)
      invariant forall q :: start < q < o ==> all[q].isAlias
      decreases hi - o
    {
      KeysMember(all, lo, o, all[o].key);
      if IsShort(all[o]) && all[o].key !in shorts {
        shorts := shorts + [all[o].key];
      }
      o := o + 1;
    }
    entry := HolEntry(start, o - start, |shorts0|);
  }

  /** `make_hol` for the argp whose options are [lo, hi). */
  method MakeHol(all: seq<Opt>, lo: nat, hi: nat) returns (hol: Hol)
    requires lo <= hi <= |all|
    requires lo < hi ==> !all[lo].isAlias
    ensures Indexes(hol, all, lo, hi)
  {
    var entries, shorts := [], [];
    var o := lo;
    while o < hi
      invariant lo <= o <= hi && shorts == Keys(all, lo, o) && Laid(entries, all, lo, o)
      invariant o < hi ==> !all[o].isAlias
    {
      var entry, more := MakeEntry(all, lo, o, hi, shorts);
      LaidOnto(entries, entry, all, lo, o);
      entries := entries + [entry];
      shorts := more;
      o := o + entry.num;
    }
    hol := Hol(entries, shorts);
  }

  // --- hol_append ---

  /** An option keeps its letter in the whole if it does in the second part and the first part lacks it. */
  lemma EffectiveInBoth(all: seq<Opt>, lo: nat, mid: nat, p: nat)
    requires lo <= mid <= p < |all|
    ensures Effective(all, lo, p) <==> Effective(all, mid, p) && all[p].key !in Keys(all, lo, mid)
  {
    KeysMember(all, lo, mid, all[p].key);
  }

  /** The inner loop: the letters of entry `e` that the first part does not shadow are added. */
  method MergeEntry(all: seq<Opt>, e: HolEntry, holShorts: seq<int>, moreShorts: seq<int>, shorts0: seq<int>,
                    moreSo0: nat,
                    ghost lo: nat, ghost mid: nat, ghost hi: nat)
    returns (shorts: seq<int>, moreSo: nat)
    requires lo <= mid <= e.start && e.start + e.num <= hi <= |all|
    requires holShorts == Keys(all, lo, mid) && moreShorts == Keys(all, mid, hi)
    requires shorts0 == Keys(all, lo, e.start) && moreSo0 == |Keys(all, mid, e.start)|
    ensures shorts == Keys(all, lo, e.start + e.num) && moreSo == |Keys(all, mid, e.start + e.num)|
  {
    shorts, moreSo := shorts0, moreSo0;
    var o := e.start;
    while o < e.start + e.num
      invariant e.start <= o <= e.start + e.num
      invariant shorts == Keys(all, lo, o) && moreSo == |Keys(all, mid, o)|
    {
      CursorTest(all, mid, o, hi);
      EffectiveInBoth(all, lo, mid, o);
      if IsShort(all[o]) && moreSo < |moreShorts| && moreShorts[moreSo] == all[o].key {
        if all[o].key !in holShorts {
          shorts := shorts + [all[o].key];
        }
        moreSo := moreSo + 1;
      }
      o := o + 1;
    }
  }

  /** What the outer loop knows of the entry it comes to. */
  lemma NextEntry(entries: seq<HolEntry>, k: nat, all: seq<Opt>, mid: nat, at: nat, hi: nat)
    requires k < |entries| && Laid(entries, all, mid, hi) && Consecutive(entries[k..], at, hi)
    ensures var e := entries[k];
            e.start == at && at + e.num <= hi && Consecutive(entries[k + 1..], at + e.num, hi)
            && forall so: nat :: IsFamily(HolEntry(e.start, e.num, so), all)
  {
    var e := entries[k];
    ConsecutiveWithin(entries[k..], at, hi);
    assert entries[k..][0] == e && entries[k..][1..] == entries[k + 1..];
    assert e in entries && IsFamily(e, all);
  }

  /** `hol_append`: the options of `hol` shadow those of `more`. */
  method HolAppend(all: seq<Opt>, hol: Hol, more: Hol, ghost lo: nat, ghost mid: nat, ghost hi: nat) returns (r: Hol)
    requires Indexes(hol, all, lo, mid) && Indexes(more, all, mid, hi)
    ensures Indexes(r, all, lo, hi)
  {
    if more.entries == [] {
      return hol;
    }
    if hol.entries == [] {
      return more;
    }
    var entries, shorts, moreSo := hol.entries, hol.shorts, 0;
    var left := 0;
    ghost var at := mid;
    while left < |more.entries|
      invariant 0 <= left <= |more.entries| && mid <= at <= hi
      invariant Consecutive(more.entries[left..], at, hi)
      invariant shorts == Keys(all, lo, at) && moreSo == |Keys(all, mid, at)| && Laid(entries, all, lo, at)
    {
      var e := more.entries[left];
      NextEntry(more.entries, left, all, mid, at, hi);
      LaidOnto(entries, e.(so := |shorts|), all, lo, at);
      entries := entries + [e.(so := |shorts|)];
      shorts, moreSo := MergeEntry(all, e, hol.shorts, more.shorts, shorts, moreSo, lo, mid, hi);
      at := at + e.num;
      left := left + 1;
    }
    r := Hol(entries, shorts);
  }

  // --- argp_hol ---

  /** All options of a tree, an argp's own ahead of its children's. */
  function OptionsOf(a: Argp): seq<Opt>
    decreases a, 1
  {
    (if a.options.Some? then a.options.value else []) + OptionsOfAll(a.children)
  }

  function OptionsOfAll(kids: seq<Argp>): seq<Opt>
    decreases kids, 0
  {
    if kids == [] then [] else OptionsOf(kids[0]) + OptionsOfAll(kids[1..])
  }

  /** The source asserts that no option list begins with an alias. */
  ghost predicate StartsProperly(a: Argp)
    decreases a, 1
  {
    && (a.options.Some? && a.options.value != [] ==> !a.options.value[0].isAlias)
    && StartsProperlyAll(a.children)
  }

  ghost predicate StartsProperlyAll(kids: seq<Argp>)
    decreases kids, 0
  {
    kids == [] || (StartsProperly(kids[0]) && StartsProperlyAll(kids[1..]))
  }

  /** `xs` stands in `all` from `base` on. */
  predicate StandsAt(all: seq<Opt>, base: nat, xs: seq<Opt>) {
    base + |xs| <= |all| && all[base..base + |xs|] == xs
  }

  lemma StandsApart(all: seq<Opt>, base: nat, xs: seq<Opt>, ys: seq<Opt>)
    requires StandsAt(all, base, xs + ys)
    ensures StandsAt(all, base, xs) && StandsAt(all, base + |xs|, ys)
  {
    var zs := xs + ys;
    assert all[base..base + |xs|] == zs[..|xs|] == xs;
    assert all[base + |xs|..base + |zs|] == zs[|xs|..] == ys;
  }

  /** The options of `kids` stand in `all` from `at` to `end`. */
  ghost predicate Pending(all: seq<Opt>, at: nat, kids: seq<Argp>, end: nat) {
    at + |OptionsOfAll(kids)| == end && StandsAt(all, at, OptionsOfAll(kids)) && StartsProperlyAll(kids)
  }

  lemma PendingNext(all: seq<Opt>, at: nat, kids: seq<Argp>, k: nat, end: nat)
    requires k < |kids| && Pending(all, at, kids[k..], end)
    ensures StandsAt(all, at, OptionsOf(kids[k])) && StartsProperly(kids[k])
    ensures Pending(all, at + |OptionsOf(kids[k])|, kids[k + 1..], end)
  {
    assert kids[k..][1..] == kids[k + 1..];
    StandsApart(all, at, OptionsOf(kids[k]), OptionsOfAll(kids[k + 1..]));
  }

  /** `argp_hol`: the argp's own index, and then those of its children. */
  method ArgpHol(all: seq<Opt>, a: Argp, base: nat) returns (hol: Hol)
    requires StandsAt(all, base, OptionsOf(a)) && StartsProperly(a)
    ensures Indexes(hol, all, base, base + |OptionsOf(a)|)
    decreases a, 1
  {
    var own := if a.options.Some? then a.options.value else [];
    StandsApart(all, base, own, OptionsOfAll(a.children));
    assert own != [] ==> all[base..base + |own|][0] == own[0];
    hol := MakeHol(all, base, base + |own|);
    hol := AppendChildren(all, a.children, hol, base, base + |own|, base + |OptionsOf(a)|);
  }

  /** The loop over the children. */
  method AppendChildren(all: seq<Opt>, kids: seq<Argp>, hol0: Hol, ghost base: nat, at0: nat, ghost end: nat)
    returns (hol: Hol)
    requires base <= at0 && Pending(all, at0, kids, end) && Indexes(hol0, all, base, at0)
    ensures Indexes(hol, all, base, end)
    decreases kids, 0
  {
    hol := hol0;
    var at, k := at0, 0;
    assert kids[0..] == kids;
    while k < |kids|
      invariant 0 <= k <= |kids| && base <= at && Pending(all, at, kids[k..], end)
      invariant Indexes(hol, all, base, at)
    {
      PendingNext(all, at, kids, k, end);
      var more := ArgpHol(all, kids[k], at);
      var next := at + |OptionsOf(kids[k])|;
      hol := HolAppend(all, hol, more, base, at, next);
      at, k := next, k + 1;
    }
  }

  // --- hol_entry_short_iterate ---

  /** The entry has option `p`, by the letter that the string gives it. */
  ghost predicate Lists(e: HolEntry, all: seq<Opt>, p: nat) {
    e.start <= p < e.start + e.num && p < |all| && Effective(all, 0, p)
  }

  ghost predicate Increasing(s: seq<(nat, nat)>) {
    forall i, j :: 0 <= i < j < |s| ==> s[i].0 < s[j].0
  }

  /** The options that an entry's iteration hands on, each with the option that it is an alias of. */
  method ShortIterate(all: seq<Opt>, e: HolEntry, shorts: seq<int>) returns (calls: seq<(nat, nat)>)
    requires IsFamily(e, all)
    requires shorts == Keys(all, 0, |all|) && e.so == |Keys(all, 0, e.start)|
    ensures Increasing(calls)
    ensures forall p: nat, owner: nat :: (p, owner) in calls <==> Lists(e, all, p) && !all[p].hidden && owner == e.start
  {
    calls := [];
    var so, opt, owner := e.so, e.start, e.start;
    while opt < e.start + e.num
      invariant e.start <= opt <= e.start + e.num && owner == e.start
      invariant so == |Keys(all, 0, opt)| && Increasing(calls)
      invariant forall i :: 0 <= i < |calls| ==>
                  calls[i].1 == e.start && calls[i].0 < opt && Lists(e, all, calls[i].0) && !all[calls[i].0].hidden
      invariant forall p: nat :: p < opt && Lists(e, all, p) && !all[p].hidden ==> (p, owner) in calls
    {
      CursorTest(all, 0, opt, |all|);
      if IsShort(all[opt]) && so < |shorts| && shorts[so] == all[opt].key {
        if !all[opt].isAlias {
          owner := opt;
        }
        if !all[opt].hidden {
          calls := calls + [(opt, owner)];
        }
        so := so + 1;
      }
      opt := opt + 1;
    }
  }

  // --- hol_sort ---

  lemma {:induction false} EntriesCover(entries: seq<HolEntry>, lo: nat, hi: nat, p: nat)
    requires Consecutive(entries, lo, hi) && lo <= p < hi
    ensures exists e <- entries :: e.start <= p < e.start + e.num
    decreases |entries|
  {
    if p < lo + entries[0].num {
      assert entries[0] in entries;
    } else {
      EntriesCover(entries[1..], lo + entries[0].num, hi, p);
      var e :| e in entries[1..] && e.start <= p < e.start + e.num;
      assert e in entries;
    }
  }

  lemma {:induction false} EntriesApart(entries: seq<HolEntry>, lo: nat, hi: nat, d: HolEntry, e: HolEntry, p: nat)
    requires Consecutive(entries, lo, hi) && d in entries && e in entries
    requires d.start <= p < d.start + d.num && e.start <= p < e.start + e.num
    ensures d == e && multiset(entries)[d] == 1
    decreases |entries|
  {
    var rest := entries[1..];
    assert entries == [entries[0]] + rest;
    ConsecutiveWithin(rest, lo + entries[0].num, hi);
    if d != entries[0] && e != entries[0] {
      EntriesApart(rest, lo + entries[0].num, hi, d, e, p);
    }
  }

  lemma CountedTwice<T>(s: seq<T>, i: nat, j: nat)
    requires i < j < |s| && s[i] == s[j]
    ensures multiset(s)[s[i]] >= 2
  {
    assert s == s[..j] + s[j..];
    assert s[i] == s[..j][i] && s[j] == s[j..][0];
    assert multiset(s) == multiset(s[..j]) + multiset(s[j..]);
  }

  /** However the entries are sorted, every option lies in exactly one of them. */
  lemma SortedEntriesPartition(hol: Hol, all: seq<Opt>, sorted: seq<HolEntry>, p: nat)
    requires Indexes(hol, all, 0, |all|) && multiset(sorted) == multiset(hol.entries) && p < |all|
    ensures exists e <- sorted :: e.start <= p < e.start + e.num
    ensures forall i, j :: 0 <= i < j < |sorted| ==>
              !(sorted[i].start <= p < sorted[i].start + sorted[i].num
                && sorted[j].start <= p < sorted[j].start + sorted[j].num)
  {
    EntriesCover(hol.entries, 0, |all|, p);
    var e :| e in hol.entries && e.start <= p < e.start + e.num;
    assert e in multiset(sorted);
    forall i, j | 0 <= i < j < |sorted| && sorted[i].start <= p < sorted[i].start + sorted[i].num
                  && sorted[j].start <= p < sorted[j].start + sorted[j].num
      ensures false
    {
      assert sorted[i] in multiset(sorted) && sorted[j] in multiset(sorted);
      EntriesApart(hol.entries, 0, |all|, sorted[i], sorted[j], p);
      CountedTwice(sorted, i, j);
    }
  }

  ghost predicate Distinct<T>(s: seq<T>) {
    forall i, j :: 0 <= i < j < |s| ==> s[i] != s[j]
  }

  /** `listed` has the visible options that keep their letter. */
  ghost predicate Visible(listed: seq<nat>, all: seq<Opt>) {
    forall p: nat :: p in listed <==> p < |all| && Effective(all, 0, p) && !all[p].hidden
  }

  function Firsts(calls: seq<(nat, nat)>): (r: seq<nat>)
    ensures |r| == |calls|
  {
    seq(|calls|, i requires 0 <= i < |calls| => calls[i].0)
  }

  lemma FirstsHave(calls: seq<(nat, nat)>, e: HolEntry, all: seq<Opt>, p: nat)
    requires forall q: nat, owner: nat ::
               (q, owner) in calls <==> Lists(e, all, q) && !all[q].hidden && owner == e.start
    ensures p in Firsts(calls) <==> Lists(e, all, p) && !all[p].hidden
  {
    if p in Firsts(calls) {
      var i :| 0 <= i < |calls| && Firsts(calls)[i] == p;
      assert calls[i] == (p, calls[i].1) && calls[i] in calls;
    }
    if Lists(e, all, p) && !all[p].hidden {
      assert (p, e.start) in calls;
      var i :| 0 <= i < |calls| && calls[i] == (p, e.start);
      assert Firsts(calls)[i] == p;
    }
  }

  lemma DistinctJoined<T>(x: seq<T>, y: seq<T>)
    requires Distinct(x) && Distinct(y) && forall v <- y :: v !in x
    ensures Distinct(x + y)
  {
    forall i, j | 0 <= i < j < |x + y| ensures (x + y)[i] != (x + y)[j] {
      if i < |x| <= j {
        assert y[j - |x|] in y && x[i] in x;
      }
    }
  }

  /** The short options of the entries in `sorted`, each found through its entry's pointer into the shared string. */
  method ListShorts(all: seq<Opt>, sorted: seq<HolEntry>, hol: Hol) returns (listed: seq<nat>)
    requires Indexes(hol, all, 0, |all|) && multiset(sorted) == multiset(hol.entries)
    ensures Visible(listed, all) && Distinct(listed)
  {
    listed := [];
    var k := 0;
    while k < |sorted|
      invariant 0 <= k <= |sorted| && Distinct(listed)
      invariant forall p: nat :: p in listed <==> exists j :: 0 <= j < k && Lists(sorted[j], all, p) && !all[p].hidden
    {
      assert sorted[k] in multiset(hol.entries);
      var calls := ShortIterate(all, sorted[k], hol.shorts);
      forall p: nat ensures p in Firsts(calls) <==> Lists(sorted[k], all, p) && !all[p].hidden {
        FirstsHave(calls, sorted[k], all, p);
      }
      forall p <- Firsts(calls) ensures p !in listed {
        SortedEntriesPartition(hol, all, sorted, p);
      }
      DistinctJoined(listed, Firsts(calls));
      listed := listed + Firsts(calls);
      k := k + 1;
    }
    forall p: nat ensures p in listed <==> p < |all| && Effective(all, 0, p) && !all[p].hidden {
      if p < |all| {
        SortedEntriesPartition(hol, all, sorted, p);
      }
    }
  }

  /** Each letter that some option has stands in the string, and stands there once. */
  lemma ShortsHoldEachKeyOnce(hol: Hol, all: seq<Opt>, k: int)
    requires Indexes(hol, all, 0, |all|)
    ensures k in hol.shorts <==> exists o <- all :: IsShort(o) && o.key == k
    ensures forall i, j :: 0 <= i < j < |hol.shorts| ==> hol.shorts[i] != hol.shorts[j]
  {
    KeysMember(all, 0, |all|, k);
    KeysDistinct(all, 0, |all|);
    if o :| o in all && IsShort(o) && o.key == k {
      var q :| 0 <= q < |all| && all[q] == o;
    }
  }

  // --- agreement with the parser ---

  function OptsOf(table: seq<Entry>): (r: seq<Opt>)
    ensures |r| == |table|
  {
    seq(|table|, i requires 0 <= i < |table| => table[i].opt)
  }

  lemma {:induction false} TableOfJoined(a: seq<Argp>, b: seq<Argp>, first: nat)
    ensures TableOf(a + b, first) == TableOf(a, first) + TableOf(b, first + |a|)
    decreases |a|
  {
    if a == [] {
      assert a + b == b;
    } else {
      assert (a + b)[1..] == a[1..] + b;
      TableOfJoined(a[1..], b, first + 1);
    }
  }

  lemma OwnTable(a: Argp, first: nat)
    ensures OptsOf(TableOf(if NeedsGroup(a) then [a] else [], first)) ==
            if a.options.Some? then a.options.value else []
  {
    assert [a][1..] == [];
  }

  lemma OptsOfJoined(x: seq<Entry>, y: seq<Entry>)
    ensures OptsOf(x + y) == OptsOf(x) + OptsOf(y)
  {
  }

  /** The help index and the parser go through the same options in the same order. */
  lemma {:induction false} SameOptions(a: Argp, first: nat)
    ensures OptsOf(TableOf(Preorder(a), first)) == OptionsOf(a)
    decreases a, 1
  {
    var mine := if NeedsGroup(a) then [a] else [];
    TableOfJoined(mine, PreorderAll(a.children), first);
    OptsOfJoined(TableOf(mine, first), TableOf(PreorderAll(a.children), first + |mine|));
    OwnTable(a, first);
    SameOptionsAll(a.children, first + |mine|);
  }

  lemma {:induction false} SameOptionsAll(kids: seq<Argp>, first: nat)
    ensures OptsOf(TableOf(PreorderAll(kids), first)) == OptionsOfAll(kids)
    decreases kids, 0
  {
    if kids != [] {
      var mine, rest := Preorder(kids[0]), PreorderAll(kids[1..]);
      TableOfJoined(mine, rest, first);
      OptsOfJoined(TableOf(mine, first), TableOf(rest, first + |mine|));
      SameOptions(kids[0], first);
      SameOptionsAll(kids[1..], first + |mine|);
    }
  }

  /** Option `p` is what the parser finds for its letter. */
  predicate Dispatched(table: seq<Entry>, p: nat) {
    p < |table| && IsShort(table[p].opt) && FindShort(table, table[p].opt.key) == Some(p)
  }

  /** Each option listed once: the visible ones that the parser finds for their letter. */
  ghost predicate Agrees(listed: seq<nat>, all: seq<Opt>, table: seq<Entry>) {
    forall p: nat :: p in listed <==> Dispatched(table, p) && p < |all| && !all[p].hidden
  }

  /** If a documentation entry has the letter of a later, visible option, some option ahead of that one has it too. */
  ghost predicate DocsHarmless(all: seq<Opt>) {
    forall d, p :: 0 <= d < p < |all| && all[d].isDoc && IsShort(all[p]) && !all[p].hidden
                   && all[d].key == all[p].key ==>
      exists q :: 0 <= q < p && IsShort(all[q]) && all[q].key == all[p].key
  }

  lemma DispatchedIsEffective(all: seq<Opt>, table: seq<Entry>, p: nat)
    requires OptsOf(table) == all && p < |all|
    ensures Dispatched(table, p) <==> IsShort(all[p]) && forall q :: 0 <= q < p ==> all[q].key != all[p].key
  {
    assert forall i :: 0 <= i < |table| ==> table[i].opt == all[i];
    assert table[p] in table;
  }

  /**
   The visible options that keep their letter are the ones that the parser finds, if documentation entries are
   harmless.
   */
  lemma VisibleIsDispatchedIff(listed: seq<nat>, all: seq<Opt>, table: seq<Entry>)
    requires OptsOf(table) == all && Visible(listed, all)
    ensures Agrees(listed, all, table) <==> DocsHarmless(all)
  {
    if DocsHarmless(all) {
      forall p: nat ensures p in listed <==> Dispatched(table, p) && p < |all| && !all[p].hidden {
        if p < |all| {
          DispatchedIsEffective(all, table, p);
        }
      }
    } else {
      var d: nat, p: nat :| d < p < |all| && all[d].isDoc && IsShort(all[p]) && !all[p].hidden
                            && all[d].key == all[p].key && Unshadowed(all, 0, p);
      DispatchedIsEffective(all, table, p);
      assert p in listed && !Dispatched(table, p);
    }
  }

  /** The short options that the help of a tree shows, with its entries sorted by `sort`. */
  method HelpShorts(a: Argp, sort: seq<HolEntry> -> seq<HolEntry>) returns (listed: seq<nat>)
    requires StartsProperly(a) && forall es :: multiset(sort(es)) == multiset(es)
    ensures Distinct(listed)
    ensures Agrees(listed, OptionsOf(a), TableOf(Preorder(a), 0)) <==> DocsHarmless(OptionsOf(a))
  {
    var all := OptionsOf(a);
    assert all[0..0 + |all|] == all;
    var hol := ArgpHol(all, a, 0);
    listed := ListShorts(all, sort(hol.entries), hol);
    SameOptions(a, 0);
    VisibleIsDispatchedIff(listed, all, TableOf(Preorder(a), 0));
  }

  /** A documentation entry with a letter hides the option from the parser but not from the help. */
  lemma DocEntryBreaksAgreement()
    ensures exists all: seq<Opt> :: |all| == 2 && !DocsHarmless(all) && Effective(all, 0, 1)
                                    && forall table | OptsOf(table) == all :: !Dispatched(table, 1)
  {
    var doc := Opt(Some("x"), 'x' as int, false, false, false, false, true);
    var option := Opt(None, 'x' as int, false, false, false, false, false);
    var all := [doc, option];
    forall table | OptsOf(table) == all ensures !Dispatched(table, 1) {
      DispatchedIsEffective(all, table, 1);
      assert all[0].key == all[1].key;
    }
    assert all[0].isDoc && IsShort(all[1]) && all[0].key == all[1].key;
  }
}
