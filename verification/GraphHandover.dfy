/** Consequences of the invariant in `GraphSafety`, for single steps and for whole runs. */
module GraphHandover {

  import opened Wrappers
  import opened GraphState
  import opened GraphSafety

  // --- what a step of glfs_active_subvol can do ---

  /** Steps that run inside `glfs_active_subvol`. */
  predicate InActiveSubvol(t: Step) {
    t.StAcquire? || t.StFirstLookupDone? || t.StCwdRefreshDone? || t.StMigrateDone? || t.StCwdResetDone?
  }

  ghost predicate SlotsKept(s: State, s': State) {
    && s'.active == s.active && s'.next == s.next && s'.former == s.former
    && s'.books.dropping == s.books.dropping && s'.switched == s.switched
  }

  /** The new graph became active, the one it replaces is still in its slot. */
  ghost predicate SlotsMovedOn(s: State, s': State) {
    && s.former.None? && s'.active == s.next && s'.next.None? && s'.former == s.active
    && s'.books.dropping == s.books.dropping && s'.switched == s.switched
  }

  /** Graph `o` left the slots: it is marked switched, and its reference is to be dropped. */
  ghost predicate Retired(s: State, s': State, o: Option<Graph>) {
    match o
    case None => s'.books.dropping == s.books.dropping && s'.switched == s.switched
    case Some(g) => s'.books.dropping == s.books.dropping + multiset{g} && s'.switched == s.switched + {g}
  }

  ghost predicate SlotRetired(s: State, s': State) {
    s'.active == s.active && s'.next == s.next && s'.former.None? && Retired(s, s', s.former)
  }

  ghost predicate SlotsMovedAndRetired(s: State, s': State) {
    && s.former.None? && s'.active == s.next && s'.next.None? && s'.former.None?
    && Retired(s, s', s.active)
  }

  ghost predicate SameDirectory(a: Option<Inode>, b: Option<Inode>) {
    a.Some? == b.Some? && (a.Some? ==> a.value.gfid == b.value.gfid)
  }

  ghost predicate SameFiles(s: State, s': State) {
    && s'.openfds == s.openfds && s'.fds.Keys == s.fds.Keys
    && forall h <- s.fds ::
         s'.fds[h].inode.gfid == s.fds[h].inode.gfid && s'.fds[h].flags == s.fds[h].flags
  }

  ghost predicate Handed(s: State, s': State, handed: Option<Graph>) {
    && s'.books.ups == s.books.ups && s'.books.downs == s.books.downs && s'.books.notifying == s.books.notifying
    && match handed
       case None => s'.winds == s.winds && s'.books.holders == s.books.holders
       case Some(g) => s'.winds == s.winds[g := Winds(s, g) + 1] && s'.books.holders == s.books.holders + multiset{g}
  }

  ghost predicate Effect(s: State, s': State, handed: Option<Graph>) {
    && Handed(s, s', handed)
    && (SlotsKept(s, s') || SlotsMovedOn(s, s') || SlotRetired(s, s') || SlotsMovedAndRetired(s, s'))
    && SameFiles(s, s')
  }

  lemma FinishEffect(s: State, chosen: Option<Graph>)
    ensures Handed(s, Finish(s, chosen), chosen) && SlotRetired(s, Finish(s, chosen))
    ensures SameFiles(s, Finish(s, chosen)) && Finish(s, chosen).flight == s.flight
  {
  }

  lemma CommitEffect(s: State, target: Graph, newCwd: Option<Inode>) returns (handed: Option<Graph>)
    requires s.former.None?
    ensures Effect(s, Commit(s, target, newCwd), handed)
    ensures handed.Some? ==> handed.value == target && Commit(s, target, newCwd).active == s.next
  {
    var s1 := SlotsMoved(s);
    if newCwd.None? {
      FinishEffect(s1, Some(target));
      handed := Some(target);
    } else if s1.active == Some(newCwd.value.graph) {
      FinishEffect(s1.(cwd := newCwd), Some(target));
      handed := Some(target);
    } else {
      handed := None;
    }
  }

  lemma MigrateFromEffect(s: State, target: Graph, newCwd: Option<Inode>, k: nat) returns (handed: Option<Graph>)
    requires s.former.None? && FdsKnown(s)
    ensures Effect(s, MigrateFrom(s, target, newCwd, k), handed)
    ensures handed.Some? ==> handed.value == target && MigrateFrom(s, target, newCwd, k).active == s.next
  {
    if NextToMigrate(s, k) < |s.openfds| {
      handed := None;
    } else {
      handed := CommitEffect(s, target, newCwd);
    }
  }

  /** States that differ only in the flight, in where handles point, or in the working directory. */
  ghost predicate SameBooks(s: State, s': State) {
    && s'.winds == s.winds && s'.books == s.books
    && SlotsKept(s, s') && SameFiles(s, s')
  }

  lemma EffectFrom(s: State, s1: State, s': State, handed: Option<Graph>)
    requires SameBooks(s, s1) && Effect(s1, s', handed)
    ensures Effect(s, s', handed)
  {
  }

  lemma FirstLookupEffect(s: State, ok: bool) returns (handed: Option<Graph>)
    requires Inv(s) && Enabled(s, StFirstLookupDone(ok))
    ensures Effect(s, AfterFirstLookup(s, ok), handed)
    ensures handed.Some? ==> handed.value == s.flight.target && AfterFirstLookup(s, ok).active == s.next
  {
    handed := None;
    if ok && s.cwd.None? {
      handed := MigrateFromEffect(Return(s), s.flight.target, None, 0);
      EffectFrom(s, Return(s), AfterFirstLookup(s, ok), handed);
    } else if !ok {
      FinishEffect(Return(s), None);
      EffectFrom(s, Return(s), AfterFirstLookup(s, ok), handed);
    }
  }

  lemma CwdRefreshEffect(s: State, io: RefreshIo) returns (handed: Option<Graph>)
    requires Inv(s) && Enabled(s, StCwdRefreshDone(io))
    ensures Effect(s, AfterCwdRefresh(s, io), handed)
    ensures handed.Some? ==> handed.value == s.flight.target && AfterCwdRefresh(s, io).active == s.next
  {
    handed := None;
    var newCwd := RefreshInode(s.flight.target, s.cwd.value, io);
    if newCwd.Some? {
      handed := MigrateFromEffect(Return(s), s.flight.target, newCwd, 0);
    } else {
      FinishEffect(Return(s), None);
    }
    EffectFrom(s, Return(s), AfterCwdRefresh(s, io), handed);
  }

  lemma MigrateEffect(s: State, io: MigrateIo) returns (handed: Option<Graph>)
    requires Inv(s) && Enabled(s, StMigrateDone(io))
    ensures Effect(s, AfterMigrate(s, io), handed)
    ensures handed.Some? ==> handed.value == s.flight.target && AfterMigrate(s, io).active == s.next
  {
    var MigrateFd(target, newCwd, k) := s.flight;
    var s1 := Return(StoreMigrated(s, target, s.openfds[k], io));
    assert SameBooks(s, s1);
    handed := MigrateFromEffect(s1, target, newCwd, k + 1);
    EffectFrom(s, s1, AfterMigrate(s, io), handed);
  }

  lemma CwdResetEffect(s: State, io: RefreshIo)
    requires Inv(s) && Enabled(s, StCwdResetDone(io))
    ensures Effect(s, AfterCwdReset(s, io), Some(s.flight.target)) && AfterCwdReset(s, io).active == s.active
  {
    var s1 := AfterCwdSet(s, s.flight.resetTo, io);
    FinishEffect(s1, Some(s.flight.target));
    EffectFrom(s, s1, AfterCwdReset(s, io), Some(s.flight.target));
  }

  lemma ActiveSubvolEffect(s: State, t: Step) returns (handed: Option<Graph>)
    requires Inv(s) && Enabled(s, t) && InActiveSubvol(t)
    ensures Effect(s, Apply(s, t), handed)
    ensures handed.Some? ==> Winds(s, handed.value) > 0
    ensures handed.Some? && s.flight.Switching() ==>
              handed.value == s.flight.target && Apply(s, t).active == s.next
    ensures t.StAcquire? || t.StCwdResetDone? ==> Apply(s, t).active == s.active
    ensures t.StAcquire? ==> handed == s.active
    ensures t.StCwdResetDone? ==> handed == Some(s.flight.target)
  {
    match t
    case StAcquire =>
      handed := s.active;
      FinishEffect(s, s.active);
      assert s.active.Some? ==> CountedAt(s, s.active.value);
    case StFirstLookupDone(ok) =>
      handed := FirstLookupEffect(s, ok);
      assert CountedAt(s, s.flight.target);
    case StCwdRefreshDone(io) =>
      handed := CwdRefreshEffect(s, io);
      assert CountedAt(s, s.flight.target);
    case StMigrateDone(io) =>
      handed := MigrateEffect(s, io);
      assert CountedAt(s, s.flight.target);
    case StCwdResetDone(io) =>
      handed := Some(s.flight.target);
      CwdResetEffect(s, io);
      assert CountedAt(s, s.flight.target);
  }

  /** Every other step leaves the books alone, unless it sets up a graph, drops a reference or notifies. */
  lemma QuietStep(s: State, t: Step)
    requires Enabled(s, t) && !InActiveSubvol(t)
    requires !t.StSetup? && !t.StRelease? && !t.StDrop? && !t.StNotify?
    ensures var s' := Apply(s, t);
            && s'.winds == s.winds && s'.books == s.books
            && SlotsKept(s, s')
  {
  }

  // --- graphs alive and dead ---

  /** A graph that a step gives to one more operation has a reference already, and gains exactly one. */
  lemma HandedGraphIsAlive(s: State, t: Step, g: Graph)
    requires Inv(s) && Enabled(s, t)
    requires Apply(s, t).books.holders[g] > s.books.holders[g]
    ensures Winds(s, g) > 0 && Winds(Apply(s, t), g) == Winds(s, g) + 1
    ensures Apply(s, t).books.holders == s.books.holders + multiset{g}
  {
    if InActiveSubvol(t) {
      var handed := ActiveSubvolEffect(s, t);
    } else if !t.StSetup? && !t.StRelease? && !t.StDrop? && !t.StNotify? {
      QuietStep(s, t);
    }
  }

  /** How often PARENT_DOWN was sent to `g` or is decided on. */
  ghost function Downs(s: State, g: Graph): nat {
    s.books.downs[g] + s.books.notifying[g]
  }

  lemma DecidedByRelease(s: State, t: Step, g: Graph)
    requires Inv(s) && Enabled(s, t) && Downs(Apply(s, t), g) > Downs(s, g)
    ensures t == StRelease(g) || t == StDrop(g)
  {
    if InActiveSubvol(t) {
      var handed := ActiveSubvolEffect(s, t);
    } else if !t.StSetup? && !t.StRelease? && !t.StDrop? && !t.StNotify? {
      QuietStep(s, t);
    }
  }

  /**
   When a decrement decides on PARENT_DOWN, the assertion that follows it holds, and nobody else refers
   to the graph either; nothing but such a decrement decides on one.
   */
  lemma LastReferenceIsUnused(s: State, t: Step, g: Graph)
    requires Inv(s) && Enabled(s, t)
    requires Downs(Apply(s, t), g) > Downs(s, g)
    ensures Apply(s, t).active != Some(g) && RefCount(Apply(s, t), g) == 0 && Winds(s, g) == 1
    ensures t == StRelease(g) || t == StDrop(g)
  {
    DecidedByRelease(s, t, g);
    var s' := Apply(s, t);
    assert Winds(s', g) == 0 && Winds(s, g) == 1;
    ApplyKeepsInv(s, t);
    assert CountedAt(s', g);
  }

  /** PARENT_DOWN is sent exactly where a decrement left one to send. */
  lemma DownSentExactlyByNotify(s: State, t: Step, g: Graph)
    requires Inv(s) && Enabled(s, t)
    ensures Apply(s, t).books.downs[g] == s.books.downs[g] + (if t == StNotify(g) then 1 else 0)
    ensures t == StNotify(g) ==> s.books.notifying[g] > 0
  {
    if InActiveSubvol(t) {
      var handed := ActiveSubvolEffect(s, t);
    } else if !t.StSetup? && !t.StRelease? && !t.StDrop? && !t.StNotify? {
      QuietStep(s, t);
    }
  }

  lemma SetupRevives(s: State, h: Graph, g: Graph)
    requires Inv(s) && Winds(s, g) == 0
    ensures Winds(Setup(s, h), g) > 0 <==> h == g && g !in s.switched
    ensures Downs(Setup(s, h), g) == Downs(s, g) && Winds(Setup(s, h), g) >= 0
  {
    assert CountedAt(s, g);
  }

  lemma ActiveSubvolRevivesNone(s: State, t: Step, g: Graph)
    requires Inv(s) && Enabled(s, t) && InActiveSubvol(t) && Winds(s, g) == 0
    ensures Winds(Apply(s, t), g) == 0 && Downs(Apply(s, t), g) == Downs(s, g)
  {
    var handed := ActiveSubvolEffect(s, t);
  }

  /** A graph without references comes back only through a CHILD_UP, and only if it was never switched away from. */
  lemma RevivedExactlyBySetup(s: State, t: Step, g: Graph)
    requires Inv(s) && Enabled(s, t) && Winds(s, g) == 0
    ensures Winds(Apply(s, t), g) > 0 <==> t == StSetup(g) && g !in s.switched
    ensures Downs(Apply(s, t), g) == Downs(s, g) && Winds(Apply(s, t), g) >= 0
  {
    if t.StSetup? {
      SetupRevives(s, t.graph, g);
    } else if InActiveSubvol(t) {
      ActiveSubvolRevivesNone(s, t, g);
    } else if t.StRelease? || t.StDrop? {
      assert CountedAt(s, g);
      assert t.graph != g;
    } else if !t.StNotify? {
      QuietStep(s, t);
    }
  }

  lemma SwitchedOnlyGrows(s: State, t: Step)
    requires Inv(s) && Enabled(s, t)
    ensures s.switched <= Apply(s, t).switched
  {
    if InActiveSubvol(t) {
      var handed := ActiveSubvolEffect(s, t);
    } else if !t.StSetup? && !t.StRelease? && !t.StDrop? && !t.StNotify? {
      QuietStep(s, t);
    }
  }

  lemma RetiredGraphStepsDown(s: State, t: Step, g: Graph)
    requires Inv(s) && Enabled(s, t) && g in s.switched && Winds(s, g) == 0
    ensures var s' := Apply(s, t); g in s'.switched && Winds(s', g) == 0 && Downs(s', g) == Downs(s, g)
  {
    SwitchedOnlyGrows(s, t);
    RevivedExactlyBySetup(s, t, g);
  }

  /** Once a graph was switched away from and its last reference is gone, no run brings it back. */
  lemma {:induction false} RetiredGraphStaysDown(s: State, run: seq<Step>, g: Graph)
    requires Inv(s) && ValidRun(s, run)
    requires g in s.switched && Winds(s, g) == 0
    ensures g in Exec(s, run).switched && Winds(Exec(s, run), g) == 0
    ensures Downs(Exec(s, run), g) == Downs(s, g)
    decreases |run|
  {
    if run != [] {
      ApplyKeepsInv(s, run[0]);
      RetiredGraphStepsDown(s, run[0], g);
      RetiredGraphStaysDown(Apply(s, run[0]), run[1..], g);
    }
  }

  /** No run gives `g` a reference. */
  ghost predicate DownForGood(s: State, g: Graph) {
    forall run :: ValidRun(s, run) ==> Winds(Exec(s, run), g) == 0
  }

  /** Whenever in a run a PARENT_DOWN is still to be sent to `g`, the graph has no reference. */
  ghost predicate SentDownUnused(s: State, g: Graph) {
    forall run :: ValidRun(s, run) && g in Exec(s, run).books.notifying ==> Winds(Exec(s, run), g) == 0
  }

  /** A CHILD_UP alone brings back a graph that was never switched away from. */
  lemma RevivedInOneStep(s: State, g: Graph) returns (run: seq<Step>)
    requires Inv(s) && Winds(s, g) == 0 && g !in s.switched
    ensures ValidRun(s, run) && Winds(Exec(s, run), g) > 0
    ensures Exec(s, run).books.notifying == s.books.notifying
  {
    SetupRevives(s, g, g);
    run := [StSetup(g)];
    assert run[1..] == [];
    assert Exec(s, run) == Exec(Setup(s, g), []) == Setup(s, g);
  }

  /** A graph without references stays so in every run exactly if it was switched away from. */
  lemma DownForGoodIff(s: State, g: Graph)
    requires Inv(s) && Winds(s, g) == 0
    ensures DownForGood(s, g) <==> g in s.switched
  {
    if g in s.switched {
      forall run | ValidRun(s, run) ensures Winds(Exec(s, run), g) == 0 {
        RetiredGraphStaysDown(s, run, g);
      }
    } else {
      var run := RevivedInOneStep(s, g);
    }
  }

  /** A PARENT_DOWN that is decided on, but not sent yet, can reach the graph in use exactly if it was not. */
  lemma SentDownUnusedIff(s: State, g: Graph)
    requires Inv(s) && Winds(s, g) == 0 && g in s.books.notifying
    ensures SentDownUnused(s, g) <==> g in s.switched
  {
    if g in s.switched {
      DownForGoodIff(s, g);
    } else {
      var run := RevivedInOneStep(s, g);
    }
  }

  // --- no reference is ever overwritten ---

  /** A graph that leaves a slot goes to the next slot or to a pending drop. */
  lemma SlotsNeverLoseAReference(s: State, t: Step, g: Graph)
    requires Inv(s) && Enabled(s, t)
    ensures var s' := Apply(s, t);
            && (s.next == Some(g) ==>
                  s'.next == Some(g) || s'.active == Some(g) || s'.books.dropping[g] > s.books.dropping[g])
            && (s.active == Some(g) ==>
                  s'.active == Some(g) || s'.former == Some(g) || s'.books.dropping[g] > s.books.dropping[g])
            && (s.former == Some(g) ==> s'.former == Some(g) || s'.books.dropping[g] > s.books.dropping[g])
            && (s'.active != s.active ==> s.former.None? && s'.active == s.next)
  {
    if InActiveSubvol(t) {
      var handed := ActiveSubvolEffect(s, t);
    } else if !t.StSetup? && !t.StRelease? && !t.StDrop? && !t.StNotify? {
      QuietStep(s, t);
    }
  }

  // --- the thread in flight works on frozen state ---

  ghost predicate SameFrozen(s: State, s': State) {
    && s'.active == s.active && s'.former == s.former && s'.cwd == s.cwd
    && s'.openfds == s.openfds && s'.fds == s.fds && s'.switched == s.switched
    && s'.books.holders == s.books.holders && s'.flight == s.flight && s'.migrating == s.migrating
  }

  lemma StepInFlightIsUnguarded(s: State, t: Step)
    requires Inv(s) && !s.flight.Idle? && Enabled(s, t) && !Resumes(t)
    ensures Unguarded(t) && SameFrozen(s, Apply(s, t))
  {
  }

  /** Until it takes the mutex back, a thread in flight shares the mount only with the event thread. */
  lemma {:induction false} FrozenWhileInFlight(s: State, run: seq<Step>)
    requires Inv(s) && !s.flight.Idle? && ValidRun(s, run)
    requires forall t <- run :: !Resumes(t)
    ensures forall t <- run :: Unguarded(t)
    ensures SameFrozen(s, Exec(s, run))
    decreases |run|
  {
    if run != [] {
      assert !Resumes(run[0]);
      ApplyKeepsInv(s, run[0]);
      StepInFlightIsUnguarded(s, run[0]);
      FrozenWhileInFlight(Apply(s, run[0]), run[1..]);
      assert run == [run[0]] + run[1..];
    }
  }

  /** Taking the mutex back is always possible, and lets only the thread in flight go on. */
  lemma FlightCanResume(s: State, t: Step)
    requires Inv(s) && Resumes(t)
    ensures Enabled(s, t) <==>
      || (s.flight.FirstLookup? && t.StFirstLookupDone?)
      || (s.flight.CwdRefresh? && t.StCwdRefreshDone?)
      || (s.flight.MigrateFd? && t.StMigrateDone?)
      || (s.flight.CwdReset? && t.StCwdResetDone?)
      || (s.flight.FdResolve? && t.StFdResolveDone?)
      || (s.flight.CwdSet? && t.StCwdSetDone?)
      || (s.flight.CwdGet? && t.StCwdGetDone?)
      || (s.flight.ObjectResolve? && t.StObjectResolveDone?)
  {
  }

  // --- handles keep their identity ---

  lemma StepKeepsHandle(s: State, t: Step, h: Handle)
    requires Inv(s) && Enabled(s, t) && h in s.fds && t != StDestroy(h)
    ensures var s' := Apply(s, t);
            && h in s'.fds
            && s'.fds[h].inode.gfid == s.fds[h].inode.gfid
            && s'.fds[h].flags == s.fds[h].flags
  {
    if InActiveSubvol(t) {
      var handed := ActiveSubvolEffect(s, t);
    }
  }

  /** Whatever switches and moves succeed or fail, a handle keeps denoting the same file with the same flags. */
  lemma {:induction false} HandleKeepsIdentity(s: State, run: seq<Step>, h: Handle)
    requires Inv(s) && ValidRun(s, run) && h in s.fds && StDestroy(h) !in run
    ensures h in Exec(s, run).fds
    ensures Exec(s, run).fds[h].inode.gfid == s.fds[h].inode.gfid
    ensures Exec(s, run).fds[h].flags == s.fds[h].flags
    decreases |run|
  {
    if run != [] {
      ApplyKeepsInv(s, run[0]);
      StepKeepsHandle(s, run[0], h);
      HandleKeepsIdentity(Apply(s, run[0]), run[1..], h);
    }
  }

  /** The fd given to an operation lies in the graph that the operation holds, whatever became active meanwhile. */
  lemma ResolvedFdIsInHeldGraph(s: State, t: Step)
    requires Inv(s) && Enabled(s, t) && ResolvedFd(s, t).Some?
    ensures var fd := ResolvedFd(s, t).value;
            var (g, h) := if t.StFdResolve? then (t.subvol, t.handle) else (s.flight.subvol, s.flight.handle);
            && fd == Fd(Inode(g, s.fds[h].inode.gfid), s.fds[h].flags)
            && s.books.holders[g] > 0 && Winds(s, g) > 0
  {
    var g := if t.StFdResolve? then t.subvol else s.flight.subvol;
    assert CountedAt(s, g);
  }

  // --- the working directory ---

  lemma GottenCwdIsInActiveGraph(s: State, t: Step)
    requires Inv(s) && Enabled(s, t) && GottenCwd(s, t).Some?
    ensures s.cwd.Some? && s.active.Some?
    ensures GottenCwd(s, t).value == Inode(s.active.value, s.cwd.value.gfid)
    ensures Apply(s, t).active == s.active
  {
  }

  /** The inode a switch will install still names the working directory it started from. */
  ghost predicate FlightKeepsCwd(s: State) {
    && (s.flight.MigrateFd? && s.flight.newCwd.Some? ==> SameDirectory(s.flight.newCwd, s.cwd))
    && (s.flight.CwdReset? ==> SameDirectory(Some(s.flight.resetTo), s.cwd))
  }

  /** A step from one state to another that keeps the working directory. */
  ghost predicate KeepsCwd(s: State, s': State) {
    FlightKeepsCwd(s') && SameDirectory(s.cwd, s'.cwd)
  }

  lemma FinishKeepsCwd(s: State, chosen: Option<Graph>)
    requires s.flight.Idle?
    ensures KeepsCwd(s, Finish(s, chosen))
  {
  }

  lemma CommitKeepsCwd(s: State, target: Graph, newCwd: Option<Inode>)
    requires (newCwd.Some? ==> SameDirectory(newCwd, s.cwd)) && s.flight.Idle?
    ensures KeepsCwd(s, Commit(s, target, newCwd))
  {
    FinishKeepsCwd(SlotsMoved(s), Some(target));
    FinishKeepsCwd(SlotsMoved(s).(cwd := newCwd), Some(target));
  }

  lemma MigrateFromKeepsCwd(s: State, target: Graph, newCwd: Option<Inode>, k: nat)
    requires FdsKnown(s) && (newCwd.Some? ==> SameDirectory(newCwd, s.cwd)) && s.flight.Idle?
    ensures KeepsCwd(s, MigrateFrom(s, target, newCwd, k))
  {
    CommitKeepsCwd(s, target, newCwd);
  }

  lemma FirstLookupKeepsCwd(s: State, ok: bool)
    requires Enabled(s, StFirstLookupDone(ok))
    ensures KeepsCwd(s, AfterFirstLookup(s, ok))
  {
    FinishKeepsCwd(Return(s), None);
    MigrateFromKeepsCwd(Return(s), s.flight.target, None, 0);
  }

  lemma CwdRefreshKeepsCwd(s: State, io: RefreshIo)
    requires Enabled(s, StCwdRefreshDone(io))
    ensures KeepsCwd(s, AfterCwdRefresh(s, io))
  {
    var newCwd := RefreshInode(s.flight.target, s.cwd.value, io);
    FinishKeepsCwd(Return(s), None);
    if newCwd.Some? {
      MigrateFromKeepsCwd(Return(s), s.flight.target, newCwd, 0);
    }
  }

  lemma MigrateKeepsCwd(s: State, io: MigrateIo)
    requires FlightKeepsCwd(s) && Enabled(s, StMigrateDone(io))
    ensures KeepsCwd(s, AfterMigrate(s, io))
  {
    var MigrateFd(target, newCwd, k) := s.flight;
    MigrateFromKeepsCwd(Return(StoreMigrated(s, target, s.openfds[k], io)), target, newCwd, k + 1);
  }

  lemma CwdResetKeepsCwd(s: State, io: RefreshIo)
    requires FlightKeepsCwd(s) && Enabled(s, StCwdResetDone(io))
    ensures KeepsCwd(s, AfterCwdReset(s, io))
  {
    FinishKeepsCwd(AfterCwdSet(s, s.flight.resetTo, io), Some(s.flight.target));
  }

  lemma SwitchKeepsCwd(s: State, t: Step)
    requires Inv(s) && FlightKeepsCwd(s) && Enabled(s, t) && InActiveSubvol(t)
    ensures KeepsCwd(s, Apply(s, t))
  {
    match t
    case StAcquire => FinishKeepsCwd(s, s.active);
    case StFirstLookupDone(ok) => FirstLookupKeepsCwd(s, ok);
    case StCwdRefreshDone(io) => CwdRefreshKeepsCwd(s, io);
    case StMigrateDone(io) => MigrateKeepsCwd(s, io);
    case StCwdResetDone(io) => CwdResetKeepsCwd(s, io);
  }

  lemma StepKeepsCwd(s: State, t: Step)
    requires Inv(s) && FlightKeepsCwd(s) && Enabled(s, t)
    requires !t.StCwdSet? && !t.StCwdSetDone?
    ensures KeepsCwd(s, Apply(s, t))
  {
    if InActiveSubvol(t) {
      SwitchKeepsCwd(s, t);
    }
  }

  /** Only `glfs_cwd_set` changes which directory is the working directory; no run of switches does. */
  lemma {:induction false} SwitchesKeepCwd(s: State, run: seq<Step>)
    requires Inv(s) && FlightKeepsCwd(s) && ValidRun(s, run)
    requires forall t <- run :: !t.StCwdSet? && !t.StCwdSetDone?
    ensures SameDirectory(s.cwd, Exec(s, run).cwd)
    decreases |run|
  {
    if run != [] {
      ApplyKeepsInv(s, run[0]);
      StepKeepsCwd(s, run[0]);
      SwitchesKeepCwd(Apply(s, run[0]), run[1..]);
    }
  }

  lemma {:induction false} RunKeepsFlightCwd(s: State, run: seq<Step>)
    requires Inv(s) && FlightKeepsCwd(s) && ValidRun(s, run)
    ensures FlightKeepsCwd(Exec(s, run))
    decreases |run|
  {
    if run != [] {
      ApplyKeepsInv(s, run[0]);
      if !run[0].StCwdSet? && !run[0].StCwdSetDone? {
        StepKeepsCwd(s, run[0]);
      }
      RunKeepsFlightCwd(Apply(s, run[0]), run[1..]);
    }
  }

  /** The same from any state that the mount can be in, also in the middle of a switch. */
  lemma ReachableSwitchesKeepCwd(s: State, run: seq<Step>)
    requires Reachable(s) && ValidRun(s, run)
    requires forall t <- run :: !t.StCwdSet? && !t.StCwdSetDone?
    ensures SameDirectory(s.cwd, Exec(s, run).cwd)
  {
    ReachableStatesAreCounted(s);
    var early :| ValidRun(START, early) && Exec(START, early) == s;
    RunKeepsFlightCwd(START, early);
    SwitchesKeepCwd(s, run);
  }

  // --- what does not hold without a condition ---

  /**
   Whenever a graph is handed out, it is the active one exactly if no switch was needed, or if the
   next slot names the graph of the switch when the slots move.
   */
  lemma HandedIsActiveIff(s: State, t: Step, g: Graph)
    requires Inv(s) && Enabled(s, t) && Apply(s, t).books.holders[g] > s.books.holders[g]
    ensures Apply(s, t).active == Some(g) <==>
            t.StAcquire? || (s.flight.Switching() && s.next == Some(s.flight.target))
  {
    if InActiveSubvol(t) {
      var handed := ActiveSubvolEffect(s, t);
    } else if !t.StSetup? && !t.StRelease? && !t.StDrop? && !t.StNotify? {
      QuietStep(s, t);
    }
  }

  /**
   An object resolves into its caller's graph exactly if it was there already or that graph is the
   active one; the object itself is repointed exactly if it was looked up in the caller's graph.
   */
  lemma ObjectIsInCallersGraphIff(s: State, t: Step)
    requires Inv(s) && Enabled(s, t) && ResolvedObject(s, t).Some?
    ensures var g := if t.StObjectResolve? then t.subvol else s.flight.subvol;
            var inode := if t.StObjectResolve? then t.inode else s.flight.inode;
            var r := ResolvedObject(s, t).value;
            && r.gfid == inode.gfid && ObjectAfter(s, t, inode).gfid == inode.gfid
            && (r.graph == g <==> t.StObjectResolve? || s.active == Some(g))
            && ObjectAfter(s, t, inode) == (if r.graph == g then r else inode)
  {
  }

  // --- operations ---

  /** How often a run gives up a hold on `g`. */
  ghost function Releases(run: seq<Step>, g: Graph): nat {
    if run == [] then 0 else (if run[0] == StRelease(g) then 1 else 0) + Releases(run[1..], g)
  }

  lemma StepKeepsHolds(s: State, t: Step, g: Graph)
    requires Inv(s) && Enabled(s, t)
    ensures Apply(s, t).books.holders[g] >= s.books.holders[g] - (if t == StRelease(g) then 1 else 0)
  {
    if InActiveSubvol(t) {
      var handed := ActiveSubvolEffect(s, t);
    } else if !t.StSetup? && !t.StRelease? && !t.StDrop? && !t.StNotify? {
      QuietStep(s, t);
    }
  }

  /**
   As long as one hold is left, whatever all threads do, the graph is not without reference, and no
   PARENT_DOWN is decided on: only those still to be sent at the start can reach it.
   */
  lemma {:induction false} HeldGraphIsNotTornDown(s: State, run: seq<Step>, g: Graph)
    requires Inv(s) && ValidRun(s, run) && Releases(run, g) < s.books.holders[g]
    ensures Exec(s, run).books.holders[g] > 0 && Winds(Exec(s, run), g) > 0
    ensures Downs(Exec(s, run), g) <= Downs(s, g) && Exec(s, run).active.Some?
    decreases |run|
  {
    if run == [] {
      assert CountedAt(s, g);
    } else {
      var s' := Apply(s, run[0]);
      ApplyKeepsInv(s, run[0]);
      StepKeepsHolds(s, run[0], g);
      if Downs(s', g) > Downs(s, g) {
        LastReferenceIsUnused(s, run[0], g);
        assert false;
      }
      HeldGraphIsNotTornDown(s', run[1..], g);
    }
  }
}
