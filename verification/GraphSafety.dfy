/**
 What every interleaving of the steps in `GraphState` keeps: the reference count of each
 graph, the handover of a graph to operations, and the state that a thread in flight relies on.
 */
module GraphSafety {

  import opened Wrappers
  import opened GraphState

  ghost function Names(o: Option<Graph>, g: Graph): nat {
    if o == Some(g) then 1 else 0
  }

  /** Every reference to a graph that anyone has: operations, pending drops, and slots. */
  ghost function RefCount(s: State, g: Graph): nat {
    s.books.holders[g] + s.books.dropping[g] + Names(s.active, g) + Names(s.next, g) + Names(s.former, g)
  }

  /**
   The counter of a graph is exact, and PARENT_DOWN was sent or is still to be sent once for each
   time the graph came alive, except the last time if it still is.
   */
  ghost predicate CountedAt(s: State, g: Graph) {
    && Winds(s, g) == RefCount(s, g)
    && s.books.ups[g] == s.books.downs[g] + s.books.notifying[g] + (if Winds(s, g) > 0 then 1 else 0)
  }

  ghost predicate Counted(s: State) {
    forall g :: CountedAt(s, g)
  }

  ghost predicate SlotsOk(s: State) {
    && (s.active.Some? ==> s.active != s.next && s.active != s.former)
    && (s.cwd.Some? ==> s.active.Some?)
    && (s.active.None? ==> Unheld(s))
  }

  ghost predicate Unheld(s: State) {
    forall g :: s.books.holders[g] == 0
  }

  /** What a switching thread may count on when it takes the mutex back. */
  ghost predicate SwitchOk(s: State) {
    && (s.flight.Switching() ==>
          && s.next.Some? && s.former.None?
          && (s.next == Some(s.flight.target) || s.books.dropping[s.flight.target] > 0))
    && (s.flight.CwdRefresh? ==> s.cwd.Some?)
    && (s.flight.MigrateFd? ==>
          && s.flight.index < |s.openfds|
          && (s.flight.newCwd.Some? ==> s.flight.newCwd.value.graph == s.flight.target))
    && (s.flight.CwdReset? ==>
          s.active.Some? && s.active != Some(s.flight.target) && s.books.dropping[s.flight.target] > 0)
    && (s.former.Some? ==> s.flight.CwdReset?)
  }

  /** What any other thread in flight may count on. */
  ghost predicate ResolveOk(s: State) {
    && (s.flight.FdResolve? ==> s.books.holders[s.flight.subvol] > 0 && s.flight.handle in s.fds)
    && (s.flight.CwdSet? ==> s.active.Some?)
    && (s.flight.CwdGet? ==> s.active.Some? && s.cwd.Some?)
    && (s.flight.ObjectResolve? ==> s.active.Some? && s.books.holders[s.flight.subvol] > 0)
  }

  ghost predicate Inv(s: State) {
    && Counted(s) && SlotsOk(s) && FdsKnown(s)
    && SwitchOk(s) && ResolveOk(s)
    && s.migrating == !s.flight.Idle?
    && (s.migrating ==> s.init)
  }

  // --- every step keeps the invariant ---

  /** Counting looks only at the slots, the two multisets and the counters. */
  lemma SameCounts(s: State, s': State)
    requires Counted(s)
    requires s.winds == s'.winds && s.books == s'.books
    requires s.active == s'.active && s.next == s'.next && s.former == s'.former
    ensures Counted(s')
  {
    forall x ensures CountedAt(s', x) {
      assert CountedAt(s, x);
    }
  }

  lemma SetupKeepsInv(s: State, g: Graph)
    requires Inv(s)
    ensures Inv(Setup(s, g))
  {
    var s' := Setup(s, g);
    if s' != s {
      forall x ensures CountedAt(s', x) {
        assert CountedAt(s, x);
      }
    }
  }

  lemma DropCounts(s: State, s0: State, g: Graph)
    requires Counted(s)
    requires s0 == s.(books := s.books.(holders := s0.books.holders, dropping := s0.books.dropping))
    requires forall x ::
               s0.books.holders[x] + s0.books.dropping[x] + Names(Some(g), x)
               == s.books.holders[x] + s.books.dropping[x]
    ensures Counted(Drop(s0, g))
  {
    var s' := Drop(s0, g);
    forall x ensures CountedAt(s', x) {
      assert CountedAt(s, x);
      assert s0.books.holders[x] + s0.books.dropping[x] + Names(Some(g), x) == s.books.holders[x] + s.books.dropping[x];
    }
  }

  lemma FinishCounts(s: State, chosen: Option<Graph>)
    requires Counted(s)
    requires chosen.Some? ==> Winds(s, chosen.value) > 0
    ensures Counted(Finish(s, chosen))
  {
    var s' := Finish(s, chosen);
    forall x ensures CountedAt(s', x) {
      assert CountedAt(s, x);
    }
  }

  /** The state just before `glfs_active_subvol` hands out its result. */
  ghost predicate ReadyToFinish(s: State, chosen: Option<Graph>) {
    && Counted(s) && SlotsOk(s) && FdsKnown(s)
    && s.flight.Idle? && !s.migrating && s.init
    && (chosen.Some? ==> Winds(s, chosen.value) > 0 && s.active.Some?)
  }

  lemma FinishKeepsInv(s: State, chosen: Option<Graph>)
    requires ReadyToFinish(s, chosen)
    ensures Inv(Finish(s, chosen))
  {
    FinishCounts(s, chosen);
  }

  /** The state of a switching thread that has just taken the mutex back. */
  ghost predicate ReadyToCommit(s: State, target: Graph, newCwd: Option<Inode>) {
    && Counted(s) && SlotsOk(s) && FdsKnown(s)
    && s.flight.Idle? && !s.migrating && s.init
    && s.former.None? && s.next.Some?
    && (s.next == Some(target) || s.books.dropping[target] > 0)
    && (newCwd.Some? ==> newCwd.value.graph == target)
  }

  /** Moving the slots moves no reference. */
  lemma MovingKeepsCounts(s: State)
    requires Counted(s) && s.former.None?
    ensures Counted(SlotsMoved(s))
  {
    var s1 := SlotsMoved(s);
    forall x ensures CountedAt(s1, x) {
      assert CountedAt(s, x);
    }
  }

  lemma CommitKeepsInv(s: State, target: Graph, newCwd: Option<Inode>)
    requires ReadyToCommit(s, target, newCwd)
    ensures Inv(Commit(s, target, newCwd))
  {
    var s1 := SlotsMoved(s);
    MovingKeepsCounts(s);
    assert CountedAt(s, target);
    if newCwd.None? {
      FinishKeepsInv(s1, Some(target));
    } else if s1.active == Some(newCwd.value.graph) {
      var s2 := s1.(cwd := newCwd);
      SameCounts(s1, s2);
      FinishKeepsInv(s2, Some(target));
    } else {
      SameCounts(s1, Commit(s, target, newCwd));
    }
  }

  lemma MigrateFromKeepsInv(s: State, target: Graph, newCwd: Option<Inode>, k: nat)
    requires ReadyToCommit(s, target, newCwd)
    ensures Inv(MigrateFrom(s, target, newCwd, k))
  {
    var j := NextToMigrate(s, k);
    if j < |s.openfds| {
      SameCounts(s, Depart(s, MigrateFd(target, newCwd, j)));
    } else {
      CommitKeepsInv(s, target, newCwd);
    }
  }

  lemma FirstLookupKeepsInv(s: State, ok: bool)
    requires Inv(s) && Enabled(s, StFirstLookupDone(ok))
    ensures Inv(AfterFirstLookup(s, ok))
  {
    SameCounts(s, Return(s));
    if !ok {
      FinishKeepsInv(Return(s), None);
    } else if s.cwd.Some? {
      SameCounts(s, AfterFirstLookup(s, ok));
    } else {
      MigrateFromKeepsInv(Return(s), s.flight.target, None, 0);
    }
  }

  lemma CwdRefreshKeepsInv(s: State, io: RefreshIo)
    requires Inv(s) && Enabled(s, StCwdRefreshDone(io))
    ensures Inv(AfterCwdRefresh(s, io))
  {
    SameCounts(s, Return(s));
    var newCwd := RefreshInode(s.flight.target, s.cwd.value, io);
    if newCwd.None? {
      FinishKeepsInv(Return(s), None);
    } else {
      MigrateFromKeepsInv(Return(s), s.flight.target, newCwd, 0);
    }
  }

  lemma MigrateKeepsInv(s: State, io: MigrateIo)
    requires Inv(s) && Enabled(s, StMigrateDone(io))
    ensures Inv(AfterMigrate(s, io))
  {
    var MigrateFd(target, newCwd, k) := s.flight;
    var s1 := Return(StoreMigrated(s, target, s.openfds[k], io));
    SameCounts(s, s1);
    MigrateFromKeepsInv(s1, target, newCwd, k + 1);
  }

  lemma CwdResetKeepsInv(s: State, io: RefreshIo)
    requires Inv(s) && Enabled(s, StCwdResetDone(io))
    ensures Inv(AfterCwdReset(s, io))
  {
    var s1 := AfterCwdSet(s, s.flight.resetTo, io);
    SameCounts(s, s1);
    assert CountedAt(s1, s.flight.target);
    FinishKeepsInv(s1, Some(s.flight.target));
  }

  lemma DropKeepsInv(s: State, s0: State, g: Graph)
    requires Inv(s) && Lockable(s)
    requires s0 == s.(books := s.books.(holders := s0.books.holders, dropping := s0.books.dropping))
    requires forall x :: s0.books.holders[x] <= s.books.holders[x]
    requires Counted(Drop(s0, g))
    ensures Inv(Drop(s0, g))
  {
  }

  lemma ReleaseKeepsInv(s: State, t: Step)
    requires Inv(s) && Enabled(s, t) && (t.StRelease? || t.StDrop?)
    ensures Inv(Apply(s, t))
  {
    var s0 := s.(books := if t.StRelease? then s.books.(holders := s.books.holders - multiset{t.graph})
                          else s.books.(dropping := s.books.dropping - multiset{t.graph}));
    DropCounts(s, s0, t.graph);
    DropKeepsInv(s, s0, t.graph);
  }

  lemma NotifyKeepsInv(s: State, g: Graph)
    requires Inv(s) && g in s.books.notifying
    ensures Inv(Notify(s, g))
  {
    var s' := Notify(s, g);
    forall x ensures CountedAt(s', x) {
      assert CountedAt(s, x);
    }
  }

  /** Steps that touch no slot and no counter. */
  lemma HandleStepKeepsInv(s: State, t: Step)
    requires Inv(s) && Enabled(s, t)
    requires t.StInitDone? || t.StBeginSwitch? || t.StBind? || t.StDestroy? || t.StFdResolve? || t.StFdResolveDone?
    ensures Inv(Apply(s, t))
  {
    SameCounts(s, Apply(s, t));
  }

  lemma CwdStepKeepsInv(s: State, t: Step)
    requires Inv(s) && Enabled(s, t)
    requires t.StCwdSet? || t.StCwdSetDone? || t.StCwdGet? || t.StCwdGetDone?
    ensures Inv(Apply(s, t))
  {
    SameCounts(s, Apply(s, t));
  }

  lemma ObjectStepKeepsInv(s: State, t: Step)
    requires Inv(s) && Enabled(s, t) && (t.StObjectResolve? || t.StObjectResolveDone?)
    ensures Inv(Apply(s, t))
  {
    SameCounts(s, Apply(s, t));
  }

  lemma ApplyKeepsInv(s: State, t: Step)
    requires Inv(s) && Enabled(s, t)
    ensures Inv(Apply(s, t))
  {
    match t
    case StSetup(g) => SetupKeepsInv(s, g);
    case StAcquire =>
      assert s.active.Some? ==> CountedAt(s, s.active.value);
      FinishKeepsInv(s, s.active);
    case StFirstLookupDone(ok) => FirstLookupKeepsInv(s, ok);
    case StCwdRefreshDone(io) => CwdRefreshKeepsInv(s, io);
    case StMigrateDone(io) => MigrateKeepsInv(s, io);
    case StCwdResetDone(io) => CwdResetKeepsInv(s, io);
    case StRelease(_) => ReleaseKeepsInv(s, t);
    case StDrop(_) => ReleaseKeepsInv(s, t);
    case StNotify(g) => NotifyKeepsInv(s, g);
    case StCwdSet(_, _) => CwdStepKeepsInv(s, t);
    case StCwdSetDone(_) => CwdStepKeepsInv(s, t);
    case StCwdGet => CwdStepKeepsInv(s, t);
    case StCwdGetDone(_) => CwdStepKeepsInv(s, t);
    case StObjectResolve(_, _) => ObjectStepKeepsInv(s, t);
    case StObjectResolveDone(_) => ObjectStepKeepsInv(s, t);
    case _ => HandleStepKeepsInv(s, t);
  }

  lemma {:induction false} RunKeepsInv(s: State, run: seq<Step>)
    requires Inv(s) && ValidRun(s, run)
    ensures Inv(Exec(s, run))
    decreases |run|
  {
    if run != [] {
      ApplyKeepsInv(s, run[0]);
      RunKeepsInv(Apply(s, run[0]), run[1..]);
    }
  }

  /** In every state that any interleaving reaches, the counters are exact. */
  lemma ReachableStatesAreCounted(s: State)
    requires Reachable(s)
    ensures Inv(s)
  {
    var run :| ValidRun(START, run) && Exec(START, run) == s;
    RunKeepsInv(START, run);
  }
}
