/**
 Reading a directory through the entry cache of an open fd: batches fetched from the backend,
 and positions told and sought, against a plain cursor over the directory.
 */
module DirCache {

  import opened Wrappers

  /** `dOff` is the offset at which the directory goes on after the entry. */
  datatype Dirent = Dirent(name: string, dOff: int)

  /** What the backend answers to one readdir: an error, or a batch of at most `n` entries. */
  datatype Reply = Fail | Batch(n: nat)

  datatype Op = Read(reply: Reply) | Tell | Seek(offset: int)

  datatype Outcome = Got(entry: Dirent) | End | Failed | Told(offset: int) | Sought

  // --- a fixed directory ---

  ghost predicate IsDir(dir: seq<Dirent>) {
    && (forall i :: 0 <= i < |dir| ==> dir[i].dOff != 0)
    && forall i, j :: 0 <= i < j < |dir| ==> dir[i].dOff != dir[j].dOff
  }

  /** The offset at which entry `pos` is the next one. */
  function OffsetOf(dir: seq<Dirent>, pos: nat): int
    requires pos <= |dir|
  {
    if pos == 0 then 0 else dir[pos - 1].dOff
  }

  lemma OffsetsDiffer(dir: seq<Dirent>, p: nat, q: nat)
    requires IsDir(dir) && p <= |dir| && q <= |dir| && OffsetOf(dir, p) == OffsetOf(dir, q)
    ensures p == q
  {
  }

  ghost predicate IsPosition(dir: seq<Dirent>, offset: int) {
    exists p: nat :: p <= |dir| && OffsetOf(dir, p) == offset
  }

  ghost function PositionOf(dir: seq<Dirent>, offset: int): (p: nat)
    requires IsPosition(dir, offset)
    ensures p <= |dir| && OffsetOf(dir, p) == offset
  {
    var p: nat :| p <= |dir| && OffsetOf(dir, p) == offset;
    p
  }

  /** The entries that follow `offset`. */
  function After(dir: seq<Dirent>, offset: int): seq<Dirent> {
    if offset == 0 then dir
    else if dir == [] then []
    else if dir[0].dOff == offset then dir[1..]
    else After(dir[1..], offset)
  }

  /** What the backend sends for a batch of at most `n` entries. */
  function Readdir(dir: seq<Dirent>, offset: int, n: nat): (r: seq<Dirent>)
    ensures |r| <= n && r <= After(dir, offset)
    ensures n > 0 && r == [] ==> After(dir, offset) == []
  {
    var rest := After(dir, offset);
    if n < |rest| then rest[..n] else rest
  }

  lemma {:induction false} AfterOffset(dir: seq<Dirent>, pos: nat)
    requires IsDir(dir) && pos <= |dir|
    ensures After(dir, OffsetOf(dir, pos)) == dir[pos..]
    decreases |dir|
  {
    if pos > 1 {
      AfterOffset(dir[1..], pos - 1);
      assert dir[1..][pos - 2] == dir[pos - 1];
    }
  }

  // --- the plain cursor ---

  /** One operation on a cursor at `pos`. A read may fail, but only when the backend does. */
  ghost predicate CursorStep(dir: seq<Dirent>, pos: nat, op: Op, outcome: Outcome, pos': nat) {
    match op
    case Read(reply) =>
      || (outcome == Failed && reply == Fail && pos' == pos)
      || (pos < |dir| && outcome == Got(dir[pos]) && pos' == pos + 1)
      || (pos == |dir| && outcome == End && pos' == pos)
    case Tell => pos <= |dir| && outcome == Told(OffsetOf(dir, pos)) && pos' == pos
    case Seek(offset) => pos' <= |dir| && OffsetOf(dir, pos') == offset && outcome == Sought
  }

  /** `trail` holds the cursor's positions ahead of every operation, and the last one. */
  ghost predicate CursorRun(dir: seq<Dirent>, ops: seq<Op>, outcomes: seq<Outcome>, trail: seq<nat>) {
    && |outcomes| == |ops| && |trail| == |ops| + 1
    && forall i :: 0 <= i < |ops| ==> CursorStep(dir, trail[i], ops[i], outcomes[i], trail[i + 1])
  }

  /** The entries read, in order. */
  function Entries(outcomes: seq<Outcome>): seq<Dirent> {
    if outcomes == [] then []
    else Entries(outcomes[..|outcomes| - 1]) +
         (if outcomes[|outcomes| - 1].Got? then [outcomes[|outcomes| - 1].entry] else [])
  }

  /** Operations that leave the cursor to the stream. */
  predicate NoSeek(ops: seq<Op>) {
    forall op <- ops :: !op.Seek?
  }

  /** Between seeks the entries read are the stream from where it was: none skipped, repeated or out of order. */
  lemma {:induction false} ReadsFollowTheStream(dir: seq<Dirent>, ops: seq<Op>, outcomes: seq<Outcome>, trail: seq<nat>)
    requires CursorRun(dir, ops, outcomes, trail) && NoSeek(ops) && trail[0] <= |dir|
    ensures trail[0] <= trail[|ops|] <= |dir|
    ensures Entries(outcomes) == dir[trail[0]..trail[|ops|]]
    ensures End in outcomes ==> trail[|ops|] == |dir|
    decreases |ops|
  {
    if ops != [] {
      var n := |ops| - 1;
      ReadsFollowTheStream(dir, ops[..n], outcomes[..n], trail[..n + 1]);
      assert CursorStep(dir, trail[n], ops[n], outcomes[n], trail[n + 1]);
      assert ops[n] in ops;
      assert outcomes == outcomes[..n] + [outcomes[n]];
      assert trail[..n + 1][0] == trail[0] && trail[..n + 1][n] == trail[n];
    }
  }

  /** Seeking to what was told takes the cursor back to where it was told. */
  lemma SeekUndoes(dir: seq<Dirent>, ops: seq<Op>, outcomes: seq<Outcome>, trail: seq<nat>, i: nat, j: nat)
    requires IsDir(dir) && CursorRun(dir, ops, outcomes, trail)
    requires i < j < |ops| && ops[i] == Tell && outcomes[i].Told? && ops[j] == Seek(outcomes[i].offset)
    ensures trail[j + 1] == trail[i]
  {
    assert CursorStep(dir, trail[i], ops[i], outcomes[i], trail[i + 1]);
    assert CursorStep(dir, trail[j], ops[j], outcomes[j], trail[j + 1]);
    OffsetsDiffer(dir, trail[i], trail[j + 1]);
  }

  // --- the cache ---

  class DirStream {
    const dir: seq<Dirent>
    var offset: int
    var entries: seq<Dirent>
    /** The place in `entries` of the entry to be handed out next. */
    var next: Option<nat>
    /** Where the plain cursor is, and where in the directory the cached entries begin. */
    ghost var pos: nat
    ghost var base: nat

    ghost predicate Valid()
      reads this
    {
      && IsDir(dir) && pos <= |dir| && offset == OffsetOf(dir, pos)
      && base + |entries| <= |dir| && entries == dir[base..base + |entries|]
      && (next.Some? ==> offset != 0 && next.value < |entries| && base + next.value == pos)
    }

    constructor (d: seq<Dirent>)
      requires IsDir(d)
      ensures Valid() && dir == d && pos == 0
    {
      dir := d;
      offset, entries, next := 0, [], None;
      pos, base := 0, 0;
    }

    /** `glfs_telldir`. */
    method Telldir() returns (r: int)
      requires Valid()
      ensures CursorStep(dir, pos, Tell, Told(r), pos)
    {
      r := offset;
    }

    /** `glfs_seekdir`, to a position of the directory. */
    method Seekdir(offset': int)
      requires Valid() && IsPosition(dir, offset')
      modifies this
      ensures Valid() && CursorStep(dir, old(pos), Seek(offset'), Sought, pos)
      ensures entries == old(entries) && (old(offset) == offset' ==> next == old(next))
      ensures old(offset) != offset' ==>
                (next.Some? <==> exists i :: 0 <= i < |entries| - 1 && entries[i].dOff == offset')
    {
      if offset == offset' {
        return;
      }
      offset, next := offset', None;
      pos := PositionOf(dir, offset');
      var i := 0;
      while i < |entries|
        invariant 0 <= i <= |entries| && next.None?
        invariant Valid() && pos == PositionOf(dir, offset') && offset == offset' && entries == old(entries)
        invariant forall k :: 0 <= k < i && k < |entries| - 1 ==> entries[k].dOff != offset'
      {
        if entries[i].dOff == offset && i + 1 < |entries| {
          next := Some(i + 1);
          assert entries[i] == dir[base + i];
          OffsetsDiffer(dir, base + i + 1, pos);
          return;
        }
        i := i + 1;
      }
    }

    /** `glfd_entry_refresh`: the cache is replaced by a batch that follows the current offset. */
    method EntryRefresh(reply: Reply) returns (ret: int)
      requires Valid() && (reply.Batch? ==> reply.n > 0)
      modifies this`entries, this`next, this`base
      ensures ret < 0 <==> reply.Fail?
      ensures ret < 0 ==> entries == old(entries) && next == old(next) && base == old(base)
      ensures ret == 0 ==> pos == |dir| && next == old(next) && entries == []
      ensures ret >= 0 ==> base == pos && |entries| == ret && pos + ret <= |dir| && entries == dir[pos..pos + ret]
      ensures ret > 0 ==> next == Some(0)
    {
      match reply
      case Fail => ret := -1;
      case Batch(n) =>
        AfterOffset(dir, pos);
        entries := Readdir(dir, offset, n);
        base := pos;
        ret := |entries|;
        if ret > 0 {
          next := Some(0);
        }
    }

    /** `glfd_entry_next`, with the errno that `glfs_readdirplus_r` turns into its result. */
    method EntryNext(reply: Reply) returns (outcome: Outcome)
      requires Valid() && (reply.Batch? ==> reply.n > 0)
      modifies this
      ensures Valid() && CursorStep(dir, old(pos), Read(reply), outcome, pos)
      ensures old(next).Some? ==> outcome.Got? && entries == old(entries)
      ensures outcome == Failed <==> old(next).None? && reply.Fail?
      ensures outcome.Got? ==> (next.Some? <==> pos < base + |entries|)
    {
      if offset == 0 || next.None? {
        var ret := EntryRefresh(reply);
        if ret < 0 {
          return Failed;
        }
      }
      if next.None? {
        return End;
      }
      var entry := entries[next.value];
      if next.value + 1 == |entries| {
        next := None;
      } else {
        next := Some(next.value + 1);
      }
      offset, pos := entry.dOff, pos + 1;
      outcome := Got(entry);
    }
  }

  /** What a caller may ask for: batches that are not empty, and positions of the directory. */
  ghost predicate MayAsk(dir: seq<Dirent>, op: Op) {
    match op
    case Read(Batch(n)) => n > 0
    case Seek(offset) => IsPosition(dir, offset)
    case _ => true
  }

  /** The outcomes are those of a plain cursor that begins at the start. */
  ghost predicate LikeCursor(dir: seq<Dirent>, ops: seq<Op>, outcomes: seq<Outcome>) {
    exists trail :: CursorRun(dir, ops, outcomes, trail) && trail[0] == 0
  }

  /** Any sequence of reads, tells and seeks behaves like the plain cursor. */
  method RunOps(dir: seq<Dirent>, ops: seq<Op>) returns (outcomes: seq<Outcome>)
    requires IsDir(dir) && forall op <- ops :: MayAsk(dir, op)
    ensures LikeCursor(dir, ops, outcomes)
  {
    var stream := new DirStream(dir);
    outcomes := [];
    ghost var trail: seq<nat> := [0];
    while |outcomes| < |ops|
      invariant |outcomes| <= |ops| && fresh(stream) && stream.Valid() && stream.dir == dir
      invariant CursorRun(dir, ops[..|outcomes|], outcomes, trail) && trail[0] == 0 && trail[|outcomes|] == stream.pos
      decreases |ops| - |outcomes|
    {
      var op := ops[|outcomes|];
      assert MayAsk(dir, op);
      ghost var pos := stream.pos;
      var outcome;
      match op {
        case Read(reply) =>
          outcome := stream.EntryNext(reply);
        case Tell =>
          var offset := stream.Telldir();
          outcome := Told(offset);
        case Seek(offset) =>
          stream.Seekdir(offset);
          outcome := Sought;
      }
      assert CursorStep(dir, pos, op, outcome, stream.pos);
      RunOneMore(dir, ops, outcomes, trail, outcome, stream.pos);
      outcomes, trail := outcomes + [outcome], trail + [stream.pos];
    }
    assert ops[..|outcomes|] == ops;
  }

  lemma RunOneMore(dir: seq<Dirent>, ops: seq<Op>, outcomes: seq<Outcome>, trail: seq<nat>, outcome: Outcome, pos: nat)
    requires |outcomes| < |ops| && CursorRun(dir, ops[..|outcomes|], outcomes, trail)
    requires CursorStep(dir, trail[|outcomes|], ops[|outcomes|], outcome, pos)
    ensures CursorRun(dir, ops[..|outcomes| + 1], outcomes + [outcome], trail + [pos])
  {
    var n := |outcomes|;
    assert ops[..n + 1] == ops[..n] + [ops[n]];
  }
}
