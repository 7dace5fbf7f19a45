/**
 The shared state of one libgfapi mount (`struct glfs`) and the atomic steps on it.

 A step is the code one thread runs between taking `fs->mutex` and giving it up, or the
 sending of PARENT_DOWN, which comes after the mutex was given up. A thread that is
 switching graphs (or refreshing an inode, or moving an fd) gives the mutex up around
 every network call, with `migration_in_progress` set; `flight` says where such a thread
 is. User threads enter through `glfs_lock`, which waits for that flag; the event thread
 takes the mutex directly.
 */
module GraphState {

  import opened Wrappers

  /** Identity of a top translator (`xlator_t *`) of one graph. */
  type Graph = nat

  /** A 16-byte file identifier; `NULL_GFID` is the all-zero one. */
  type Gfid = nat

  const NULL_GFID: Gfid := 0

  /** Identity of a `struct glfs_fd`. */
  type Handle = nat

  datatype Inode = Inode(graph: Graph, gfid: Gfid)

  datatype Fd = Fd(inode: Inode, flags: int)

  /** Where the thread that has given up the mutex in the middle of its work is. */
  datatype Flight =
    | Idle
    | FirstLookup(target: Graph)
    | CwdRefresh(target: Graph)
    | MigrateFd(target: Graph, newCwd: Option<Inode>, index: nat)
    | CwdReset(target: Graph, resetTo: Inode)
    | FdResolve(subvol: Graph, handle: Handle)
    | CwdSet(inode: Inode)
    | CwdGet
    | ObjectResolve(subvol: Graph, inode: Inode)
  {
    /** A switch that has not yet made its graph active. */
    predicate Switching() {
      FirstLookup? || CwdRefresh? || MigrateFd?
    }
  }

  /**
   The books kept about references, for the proofs. `holders` has one copy of a graph for each
   operation between `glfs_active_subvol` and `glfs_subvol_done`; `dropping` has one copy for each
   reference that was taken out of a slot and whose `glfs_subvol_done` has not run yet. `notifying`
   has one copy for each thread that took the last reference away and gave the mutex up, but has not
   sent PARENT_DOWN yet. `ups` and `downs` count, for each graph, how often it went from no reference
   to one, and how often it was sent PARENT_DOWN.
   */
  datatype Books = Books(
    holders: multiset<Graph>,
    dropping: multiset<Graph>,
    notifying: multiset<Graph>,
    ups: multiset<Graph>,
    downs: multiset<Graph>)

  datatype State = State(
    active: Option<Graph>,
    next: Option<Graph>,
    former: Option<Graph>,
    winds: map<Graph, int>,
    switched: set<Graph>,
    init: bool,
    migrating: bool,
    cwd: Option<Inode>,
    openfds: seq<Handle>,
    fds: map<Handle, Fd>,
    flight: Flight,
    books: Books)

  const START := State(None, None, None, map[], {}, false, false, None, [], map[],
                       Idle, Books(multiset{}, multiset{}, multiset{}, multiset{}, multiset{}))

  function Winds(s: State, g: Graph): int {
    if g in s.winds then s.winds[g] else 0
  }

  function AddWinds(s: State, g: Graph, delta: int): State {
    s.(winds := s.winds[g := Winds(s, g) + delta])
  }

  function Slot(o: Option<Graph>): multiset<Graph> {
    if o.Some? then multiset{o.value} else multiset{}
  }

  /** `glfs_lock` returns at once: initialised, and nobody is in flight. */
  predicate Lockable(s: State) {
    s.init && !s.migrating
  }

  /** The mutex is given up around a network call. */
  function Depart(s: State, flight: Flight): State {
    s.(migrating := true, flight := flight)
  }

  /** The mutex is taken back after the network call. */
  function Return(s: State): State {
    s.(migrating := false, flight := Idle)
  }

  // --- graphs coming up, and references going away ---

  /** A new graph takes the next slot; the one it supersedes there is to be dropped. */
  function Admit(s: State, g: Graph): State {
    AddWinds(s, g, 1).(
      next := Some(g),
      books := s.books.(
        dropping := s.books.dropping + Slot(s.next),
        ups := if Winds(s, g) == 0 then s.books.ups + multiset{g} else s.books.ups))
  }

  function Setup(s: State, g: Graph): State {
    if g in s.switched || s.active == Some(g) || s.next == Some(g) then s else Admit(s, g)
  }

  /** The decrement in `glfs_subvol_done`; whoever takes the last reference has PARENT_DOWN to send. */
  function Drop(s: State, g: Graph): State {
    var s' := AddWinds(s, g, -1);
    if Winds(s', g) == 0 then s'.(books := s'.books.(notifying := s'.books.notifying + multiset{g})) else s'
  }

  /** `glfs_subvol_done`, by an operation that holds `g` or for a reference taken out of a slot. */
  function Done(s: State, g: Graph, fromSlot: bool): State {
    Drop(s.(books := if fromSlot then s.books.(dropping := s.books.dropping - multiset{g})
                     else s.books.(holders := s.books.holders - multiset{g})), g)
  }

  /** PARENT_DOWN goes out, after the mutex was given up. */
  function Notify(s: State, g: Graph): State {
    s.(books := s.books.(notifying := s.books.notifying - multiset{g}, downs := s.books.downs + multiset{g}))
  }

  // --- glfs_active_subvol ---

  function Take(s: State, chosen: Option<Graph>): State {
    if chosen.Some?
    then AddWinds(s, chosen.value, 1).(books := s.books.(holders := s.books.holders + multiset{chosen.value}))
    else s
  }

  function Retire(s: State): State {
    if s.former.Some?
    then s.(former := None, switched := s.switched + {s.former.value},
             books := s.books.(dropping := s.books.dropping + Slot(s.former)))
    else s
  }

  /** What `glfs_active_subvol` does with the graph that the locked part chose. */
  function Finish(s: State, chosen: Option<Graph>): State {
    Retire(Take(s, chosen))
  }

  /** The first open handle at or after `k` that is moved; one with no gfid yet is skipped. */
  function NextToMigrate(s: State, k: nat): (j: nat)
    requires forall h <- s.openfds :: h in s.fds
    ensures k <= |s.openfds| ==> k <= j <= |s.openfds|
    ensures j < |s.openfds| ==> s.fds[s.openfds[j]].inode.gfid != NULL_GFID
    ensures forall i :: k <= i < j && i < |s.openfds| ==> s.fds[s.openfds[i]].inode.gfid == NULL_GFID
    decreases |s.openfds| - k
  {
    if k >= |s.openfds| || s.fds[s.openfds[k]].inode.gfid != NULL_GFID then k else NextToMigrate(s, k + 1)
  }

  function MigrateFrom(s: State, target: Graph, newCwd: Option<Inode>, k: nat): State
    requires forall h <- s.openfds :: h in s.fds
  {
    var j := NextToMigrate(s, k);
    if j < |s.openfds| then Depart(s, MigrateFd(target, newCwd, j)) else Commit(s, target, newCwd)
  }

  function SlotsMoved(s: State): State {
    s.(former := s.active, active := s.next, next := None)
  }

  /** The slots move; the working directory follows if it already lies in the new graph. */
  function Commit(s: State, target: Graph, newCwd: Option<Inode>): State {
    var s1 := SlotsMoved(s);
    if newCwd.None? then
      Finish(s1, Some(target))
    else if s1.active == Some(newCwd.value.graph) then
      Finish(s1.(cwd := newCwd), Some(target))
    else
      Depart(s1, CwdReset(target, newCwd.value))
  }

  // --- moving inodes and fds to another graph ---

  /** Results of the calls that `glfs_refresh_inode_safe` makes, in order. */
  datatype RefreshIo = RefreshIo(cached: bool, created: bool, lookupOk: bool, linked: bool)

  /**
   A lookup by gfid, in the cache or over the network, gives an inode with that gfid;
   this is the contract of the inode table and of the lookup call.
   */
  function RefreshInode(subvol: Graph, oldInode: Inode, io: RefreshIo): (r: Option<Inode>)
    ensures r.Some? ==> r.value == Inode(subvol, oldInode.gfid)
    ensures r.None? ==> oldInode.graph != subvol
  {
    if oldInode.graph == subvol then Some(oldInode)
    else if io.cached then Some(Inode(subvol, oldInode.gfid))
    else if !io.created || !io.lookupOk then None
    else if io.linked then Some(Inode(subvol, oldInode.gfid))
    else None
  }

  /**
   Results of the calls that `glfs_migrate_fd_safe` makes, in order. The fsync on the old
   graph is not among them: its failure is only logged.
   */
  datatype MigrateIo = MigrateIo(refresh: RefreshIo, created: bool,
                                 pathRet: int, openRet: int, locksRet: int)

  function MigrateFdSafe(target: Graph, fd: Fd, io: MigrateIo): (r: Option<Fd>)
    ensures r.Some? ==> r.value == Fd(Inode(target, fd.inode.gfid), fd.flags)
    ensures fd.inode.graph == target ==> r.Some?
  {
    if fd.inode.graph == target then Some(fd)
    else
      var newInode := RefreshInode(target, fd.inode, io.refresh);
      if newInode.None? || !io.created then None
      else
        var ret := if io.pathRet < 0 then io.pathRet
                   else if io.openRet != 0 then io.openRet
                   else io.locksRet;
        if ret != 0 then None else Some(Fd(newInode.value, fd.flags))
  }

  // --- the steps ---

  datatype Step =
    | StSetup(graph: Graph)
    | StInitDone
    | StAcquire
    | StBeginSwitch
    | StFirstLookupDone(ok: bool)
    | StCwdRefreshDone(refresh: RefreshIo)
    | StMigrateDone(io: MigrateIo)
    | StCwdResetDone(refresh: RefreshIo)
    | StRelease(graph: Graph)
    | StDrop(graph: Graph)
    | StNotify(graph: Graph)
    | StBind(handle: Handle, fd: Fd)
    | StDestroy(handle: Handle)
    | StFdResolve(subvol: Graph, handle: Handle)
    | StFdResolveDone(io: MigrateIo)
    | StCwdSet(subvol: Graph, inode: Inode)
    | StCwdSetDone(refresh: RefreshIo)
    | StCwdGet
    | StCwdGetDone(refresh: RefreshIo)
    | StObjectResolve(subvol: Graph, inode: Inode)
    | StObjectResolveDone(refresh: RefreshIo)

  /**
   Steps that do not wait for the flag: those of the event thread, which takes the mutex directly, and
   PARENT_DOWN, which is sent without the mutex.
   */
  predicate Unguarded(t: Step) {
    t.StSetup? || t.StInitDone? || t.StNotify?
  }

  /** Steps with which the thread in flight takes the mutex back. */
  predicate Resumes(t: Step) {
    t.StFirstLookupDone? || t.StCwdRefreshDone? || t.StMigrateDone? || t.StCwdResetDone? ||
    t.StFdResolveDone? || t.StCwdSetDone? || t.StCwdGetDone? || t.StObjectResolveDone?
  }

  predicate FdsKnown(s: State) {
    forall h <- s.openfds :: h in s.fds
  }

  predicate Enabled(s: State, t: Step) {
    && FdsKnown(s)
    && match t
       case StSetup(_) => true
       case StInitDone => true
       case StAcquire => Lockable(s) && s.next.None?
       case StBeginSwitch => Lockable(s) && s.next.Some?
       case StFirstLookupDone(_) => s.flight.FirstLookup?
       case StCwdRefreshDone(_) => s.flight.CwdRefresh? && s.cwd.Some?
       case StMigrateDone(_) => s.flight.MigrateFd? && s.flight.index < |s.openfds|
       case StCwdResetDone(_) => s.flight.CwdReset? && s.active.Some?
       case StRelease(g) => Lockable(s) && g in s.books.holders
       case StDrop(g) => Lockable(s) && g in s.books.dropping
       case StNotify(g) => g in s.books.notifying
       case StBind(h, _) => Lockable(s) && h !in s.fds
       case StDestroy(h) => Lockable(s) && h in s.fds
       case StFdResolve(g, h) => Lockable(s) && g in s.books.holders && h in s.fds
       case StFdResolveDone(_) => s.flight.FdResolve? && s.flight.handle in s.fds
       case StCwdSet(g, _) => Lockable(s) && g in s.books.holders
       case StCwdSetDone(_) => s.flight.CwdSet? && s.active.Some?
       case StCwdGet => Lockable(s)
       case StCwdGetDone(_) => s.flight.CwdGet? && s.cwd.Some? && s.active.Some?
       case StObjectResolve(g, _) => Lockable(s) && g in s.books.holders
       case StObjectResolveDone(_) => s.flight.ObjectResolve? && s.active.Some?
  }

  function Without(openfds: seq<Handle>, h: Handle): (r: seq<Handle>)
    ensures forall x :: x in r <==> x in openfds && x != h
  {
    if openfds == [] then []
    else (if openfds[0] == h then [] else [openfds[0]]) + Without(openfds[1..], h)
  }

  function Apply(s: State, t: Step): State
    requires Enabled(s, t)
  {
    match t
    case StSetup(g) => Setup(s, g)
    case StInitDone => s.(init := true)
    case StAcquire => Finish(s, s.active)
    case StBeginSwitch => Depart(s, FirstLookup(s.next.value))
    case StFirstLookupDone(ok) => AfterFirstLookup(s, ok)
    case StCwdRefreshDone(io) => AfterCwdRefresh(s, io)
    case StMigrateDone(io) => AfterMigrate(s, io)
    case StCwdResetDone(io) => AfterCwdReset(s, io)
    case StRelease(g) => Done(s, g, false)
    case StDrop(g) => Done(s, g, true)
    case StNotify(g) => Notify(s, g)
    case StBind(h, fd) => s.(openfds := s.openfds + [h], fds := s.fds[h := fd])
    case StDestroy(h) => s.(openfds := Without(s.openfds, h), fds := s.fds - {h})
    case StFdResolve(g, h) => if s.fds[h].inode.graph == g then s else Depart(s, FdResolve(g, h))
    case StFdResolveDone(io) => AfterFdResolve(s, io)
    case StCwdSet(_, inode) =>
      if s.active == Some(inode.graph) then s.(cwd := Some(inode)) else Depart(s, CwdSet(inode))
    case StCwdSetDone(io) => AfterCwdSet(s, s.flight.inode, io)
    case StCwdGet =>
      if s.cwd.None? || s.active == Some(s.cwd.value.graph) then s else Depart(s, CwdGet)
    case StCwdGetDone(_) => Return(s)
    case StObjectResolve(g, inode) => if inode.graph == g then s else Depart(s, ObjectResolve(g, inode))
    case StObjectResolveDone(_) => Return(s)
  }

  function AfterFirstLookup(s: State, ok: bool): State
    requires s.flight.FirstLookup? && FdsKnown(s)
  {
    var target := s.flight.target;
    if !ok then Finish(Return(s), None)
    else if s.cwd.Some? then Depart(s, CwdRefresh(target))
    else MigrateFrom(Return(s), target, None, 0)
  }

  function AfterCwdRefresh(s: State, io: RefreshIo): State
    requires s.flight.CwdRefresh? && s.cwd.Some? && FdsKnown(s)
  {
    var target := s.flight.target;
    var newCwd := RefreshInode(target, s.cwd.value, io);
    if newCwd.None? then Finish(Return(s), None) else MigrateFrom(Return(s), target, newCwd, 0)
  }

  function AfterMigrate(s: State, io: MigrateIo): State
    requires s.flight.MigrateFd? && s.flight.index < |s.openfds| && FdsKnown(s)
  {
    var MigrateFd(target, newCwd, k) := s.flight;
    MigrateFrom(Return(StoreMigrated(s, target, s.openfds[k], io)), target, newCwd, k + 1)
  }

  /** The handle is pointed at the new fd if there is one, and left alone otherwise. */
  function StoreMigrated(s: State, target: Graph, h: Handle, io: MigrateIo): State
    requires h in s.fds
  {
    var fd := MigrateFdSafe(target, s.fds[h], io);
    if fd.Some? then s.(fds := s.fds[h := fd.value]) else s
  }

  function AfterCwdReset(s: State, io: RefreshIo): State
    requires s.flight.CwdReset? && s.active.Some?
  {
    Finish(AfterCwdSet(s, s.flight.resetTo, io), Some(s.flight.target))
  }

  function AfterFdResolve(s: State, io: MigrateIo): State
    requires s.flight.FdResolve? && s.flight.handle in s.fds
  {
    var FdResolve(g, h) := s.flight;
    Return(if Some(g) == s.active then StoreMigrated(s, g, h, io) else s)
  }

  function AfterCwdSet(s: State, inode: Inode, io: RefreshIo): State
    requires s.active.Some?
  {
    var r := RefreshInode(s.active.value, inode, io);
    Return(if r.Some? then s.(cwd := r) else s)
  }

  // --- results handed to callers ---

  /** The fd that `glfs_resolve_fd` returns for graph `g`, when a step completes it. */
  function ResolvedFd(s: State, t: Step): Option<Fd>
    requires Enabled(s, t)
  {
    match t
    case StFdResolve(g, h) => if s.fds[h].inode.graph == g then Some(s.fds[h]) else None
    case StFdResolveDone(io) =>
      MigrateFdSafe(s.flight.subvol, s.fds[s.flight.handle], io)
    case _ => None
  }

  /** The inode that `glfs_cwd_get` returns, when a step completes it. */
  function GottenCwd(s: State, t: Step): Option<Inode>
    requires Enabled(s, t)
  {
    match t
    case StCwdGet => if s.cwd.Some? && s.active == Some(s.cwd.value.graph) then s.cwd else None
    case StCwdGetDone(io) => RefreshInode(s.active.value, s.cwd.value, io)
    case _ => None
  }

  /** The inode that `glfs_resolve_inode` returns, when a step completes it. */
  function ResolvedObject(s: State, t: Step): Option<Inode>
    requires Enabled(s, t)
  {
    match t
    case StObjectResolve(g, inode) => if inode.graph == g then Some(inode) else None
    case StObjectResolveDone(io) => RefreshInode(s.active.value, s.flight.inode, io)
    case _ => None
  }

  /**
   The inode that the object itself has afterwards: it follows only into the graph of a caller that holds the
   active one.
   */
  function ObjectAfter(s: State, t: Step, inode: Inode): Inode
    requires Enabled(s, t)
  {
    if t.StObjectResolveDone? && s.active == Some(s.flight.subvol) && ResolvedObject(s, t).Some?
    then ResolvedObject(s, t).value else inode
  }

  // --- runs ---

  ghost predicate ValidRun(s: State, run: seq<Step>)
    decreases |run|
  {
    run == [] || (Enabled(s, run[0]) && ValidRun(Apply(s, run[0]), run[1..]))
  }

  ghost function Exec(s: State, run: seq<Step>): State
    requires ValidRun(s, run)
    decreases |run|
  {
    if run == [] then s else Exec(Apply(s, run[0]), run[1..])
  }

  /** Some interleaving of the threads leads from the fresh mount to `s`. */
  ghost predicate Reachable(s: State) {
    exists run :: ValidRun(START, run) && Exec(START, run) == s
  }

  lemma {:induction false} RunThenStep(s: State, run: seq<Step>, t: Step)
    requires ValidRun(s, run) && Enabled(Exec(s, run), t)
    ensures ValidRun(s, run + [t]) && Exec(s, run + [t]) == Apply(Exec(s, run), t)
    decreases |run|
  {
    if run == [] {
      assert run + [t] == [t];
    } else {
      RunThenStep(Apply(s, run[0]), run[1..], t);
      assert (run + [t])[1..] == run[1..] + [t];
    }
  }

  lemma ReachableThenStep(s: State, t: Step)
    requires Reachable(s) && Enabled(s, t)
    ensures Reachable(Apply(s, t))
  {
    var run :| ValidRun(START, run) && Exec(START, run) == s;
    RunThenStep(START, run, t);
  }

  lemma StartIsReachable()
    ensures Reachable(START)
  {
    assert ValidRun(START, []) && Exec(START, []) == START;
  }

  ghost predicate Reaches(s: State, run: seq<Step>, s': State) {
    ValidRun(s, run) && Exec(s, run) == s'
  }

  lemma {:induction false} ReachesThrough(s: State, run: seq<Step>, s1: State, more: seq<Step>, s2: State)
    requires Reaches(s, run, s1) && Reaches(s1, more, s2)
    ensures Reaches(s, run + more, s2)
    decreases |run|
  {
    if run == [] {
      assert run + more == more;
    } else {
      ReachesThrough(Apply(s, run[0]), run[1..], s1, more, s2);
      assert (run + more)[1..] == run[1..] + more;
    }
  }
}
