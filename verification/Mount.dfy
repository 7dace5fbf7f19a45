/**
 The mount object and its functions as the source writes them: fields updated under the
 mutex, with the mutex given up around network calls. The event thread's work during such
 a call is a parameter: the list of graphs it sets up. Each function comes with the run of
 `GraphState` steps that it performs.
 */
module Mount {

  import opened Wrappers
  import opened GraphState
  import opened GraphSafety
  import H = GraphHandover

  /** The same handles, each with the same file and flags. */
  ghost predicate SameHandles(fds: map<Handle, Fd>, fds': map<Handle, Fd>) {
    && fds'.Keys == fds.Keys
    && forall h <- fds :: fds'[h].inode.gfid == fds[h].inode.gfid && fds'[h].flags == fds[h].flags
  }

  /** What an operation may conclude from the counter that `glfs_subvol_done` leaves. */
  lemma LastReference(s: State, g: Graph, fromSlot: bool)
    requires Inv(s) && Lockable(s) && (if fromSlot then g in s.books.dropping else g in s.books.holders)
    ensures var s' := Done(s, g, fromSlot);
            && Inv(s') && Winds(s', g) == RefCount(s', g)
            && (Winds(s', g) == 0 ==> s'.active != Some(g) && g in s'.books.notifying)
  {
    ApplyKeepsInv(s, if fromSlot then StDrop(g) else StRelease(g));
    assert CountedAt(Done(s, g, fromSlot), g);
  }

  /** PARENT_DOWN goes out at the end of a run. */
  lemma ThenNotify(start: State, run: seq<Step>, s: State, g: Graph)
    requires Reaches(start, run, s) && Inv(s) && g in s.books.notifying
    ensures Reaches(start, run + [StNotify(g)], Notify(s, g)) && Inv(Notify(s, g))
  {
    RunThenStep(start, run, StNotify(g));
    NotifyKeepsInv(s, g);
  }

  lemma DoneStep(s: State, g: Graph, fromSlot: bool)
    requires Inv(s) && Lockable(s) && (if fromSlot then g in s.books.dropping else g in s.books.holders)
    ensures Reaches(s, [if fromSlot then StDrop(g) else StRelease(g)], Done(s, g, fromSlot))
  {
    OneStep(s, if fromSlot then StDrop(g) else StRelease(g));
  }

  /** What the network and the event thread do during one `glfs_active_subvol`, call by call. */
  datatype SwitchIo = SwitchIo(
    lookupOk: bool, lookupSetups: seq<Graph>,
    cwdIo: RefreshIo, cwdSetups: seq<Graph>,
    fdIo: nat -> MigrateIo, fdSetups: nat -> seq<Graph>,
    resetIo: RefreshIo, resetSetups: seq<Graph>,
    doneSetups: seq<Graph>)

  /** A call in flight at `at` has been made from `s0`; its thread takes the mutex back with step `t`. */
  lemma ResumeAfter(s0: State, run: seq<Step>, before: State, at: Flight, more: seq<Step>, after: State, t: Step)
    returns (run': seq<Step>)
    requires Reaches(s0, run, Depart(before, at)) && Reaches(Depart(before, at), more, Depart(after, at))
    requires Enabled(Depart(after, at), t)
    ensures Reaches(s0, run', Apply(Depart(after, at), t))
  {
    ReachesThrough(s0, run, Depart(before, at), more, Depart(after, at));
    RunThenStep(s0, run + more, t);
    run' := run + more + [t];
  }

  lemma ResumeMigrate(s: State, target: Graph, newCwd: Option<Inode>, k: nat, io: MigrateIo)
    requires s.flight.Idle? && !s.migrating && FdsKnown(s) && k < |s.openfds|
    ensures var d := Depart(s, MigrateFd(target, newCwd, k));
            && Enabled(d, StMigrateDone(io))
            && Apply(d, StMigrateDone(io))
               == MigrateFrom(StoreMigrated(s, target, s.openfds[k], io), target, newCwd, k + 1)
  {
    var d := Depart(s, MigrateFd(target, newCwd, k));
    assert Return(StoreMigrated(d, target, s.openfds[k], io)) == StoreMigrated(s, target, s.openfds[k], io);
  }

  /** A handle without gfid is passed over; any other is moved, at index `k` if the walk is there. */
  lemma WalkAt(s: State, target: Graph, newCwd: Option<Inode>, k: nat)
    requires FdsKnown(s) && k < |s.openfds|
    ensures MigrateFrom(s, target, newCwd, k) ==
            if s.fds[s.openfds[k]].inode.gfid == NULL_GFID then MigrateFrom(s, target, newCwd, k + 1)
            else Depart(s, MigrateFd(target, newCwd, k))
  {
  }

  lemma ResumeCwdReset(s: State, target: Graph, inode: Inode, io: RefreshIo)
    requires s.flight.Idle? && !s.migrating && FdsKnown(s) && s.active.Some?
    ensures var d := Depart(s, CwdReset(target, inode));
            && Enabled(d, StCwdResetDone(io))
            && Apply(d, StCwdResetDone(io)) == Finish(AfterCwdSet(s, inode, io), Some(target))
  {
    var d := Depart(s, CwdReset(target, inode));
    assert AfterCwdSet(d, inode, io) == AfterCwdSet(s, inode, io);
  }

  lemma SetupStep(start: State, run: seq<Step>, s: State, g: Graph)
    requires Reaches(start, run, s) && FdsKnown(s)
    ensures var s' := Setup(s, g);
            && Reaches(start, run + [StSetup(g)], s')
            && s' == s.(next := s'.next, winds := s'.winds, books := s'.books)
            && s'.books.holders == s.books.holders && s'.books.notifying == s.books.notifying
            && (s.next.Some? ==> s'.next.Some?)
  {
    RunThenStep(start, run, StSetup(g));
  }

  /** The steps of the event thread that sets up the given graphs. */
  ghost function Setups(graphs: seq<Graph>): seq<Step> {
    seq(|graphs|, i requires 0 <= i < |graphs| => StSetup(graphs[i]))
  }

  lemma ResumeFirstLookup(s: State, target: Graph, ok: bool)
    requires s.flight.Idle? && !s.migrating && FdsKnown(s)
    ensures var d := Depart(s, FirstLookup(target));
            && Enabled(d, StFirstLookupDone(ok))
            && Apply(d, StFirstLookupDone(ok)) ==
               if !ok then Finish(s, None)
               else if s.cwd.Some? then Depart(s, CwdRefresh(target))
               else MigrateFrom(s, target, None, 0)
  {
    assert Return(Depart(s, FirstLookup(target))) == s;
  }

  lemma ResumeCwdRefresh(s: State, target: Graph, io: RefreshIo)
    requires s.flight.Idle? && !s.migrating && FdsKnown(s) && s.cwd.Some?
    ensures var d := Depart(s, CwdRefresh(target));
            var newCwd := RefreshInode(target, s.cwd.value, io);
            && Enabled(d, StCwdRefreshDone(io))
            && Apply(d, StCwdRefreshDone(io)) ==
               if newCwd.None? then Finish(s, None) else MigrateFrom(s, target, newCwd, 0)
  {
    assert Return(Depart(s, CwdRefresh(target))) == s;
  }

  lemma CommitCases(s: State, moved: State, target: Graph, newCwd: Option<Inode>)
    requires moved == SlotsMoved(s)
    ensures newCwd.None? ==> Commit(s, target, newCwd) == Finish(moved, Some(target))
    ensures newCwd.Some? && moved.active == Some(newCwd.value.graph) ==>
              Commit(s, target, newCwd) == Finish(moved.(cwd := newCwd), Some(target))
    ensures newCwd.Some? && moved.active != Some(newCwd.value.graph) ==>
              Commit(s, target, newCwd) == Depart(moved, CwdReset(target, newCwd.value))
  {
  }

  lemma ResumeFdResolve(s: State, g: Graph, h: Handle, io: MigrateIo)
    requires s.flight.Idle? && !s.migrating && FdsKnown(s) && h in s.fds
    ensures var d := Depart(s, FdResolve(g, h));
            && Enabled(d, StFdResolveDone(io))
            && Apply(d, StFdResolveDone(io)) == if s.active == Some(g) then StoreMigrated(s, g, h, io) else s
  {
    assert Return(Depart(s, FdResolve(g, h))) == s;
  }

  lemma ResumeCwd(s: State, inode: Inode, io: RefreshIo)
    requires s.flight.Idle? && !s.migrating && FdsKnown(s) && s.active.Some?
    ensures var d := Depart(s, CwdSet(inode));
            Enabled(d, StCwdSetDone(io)) && Apply(d, StCwdSetDone(io)) == AfterCwdSet(s, inode, io)
    ensures var d := Depart(s, CwdGet);
            s.cwd.Some? ==> Enabled(d, StCwdGetDone(io)) && Apply(d, StCwdGetDone(io)) == s
  {
    assert AfterCwdSet(Depart(s, CwdSet(inode)), inode, io) == AfterCwdSet(s, inode, io);
    assert Return(Depart(s, CwdGet)) == s;
  }

  lemma ResumeObject(s: State, g: Graph, inode: Inode, io: RefreshIo)
    requires s.flight.Idle? && !s.migrating && FdsKnown(s) && s.active.Some?
    ensures var d := Depart(s, ObjectResolve(g, inode));
            Enabled(d, StObjectResolveDone(io)) && Apply(d, StObjectResolveDone(io)) == s
  {
    assert Return(Depart(s, ObjectResolve(g, inode))) == s;
  }

  lemma Then(s0: State, run: seq<Step>, more: seq<Step>, s: State) returns (all: seq<Step>)
    requires ValidRun(s0, run) && Reaches(Exec(s0, run), more, s)
    ensures Reaches(s0, all, s)
  {
    ReachesThrough(s0, run, Exec(s0, run), more, s);
    all := run + more;
  }

  lemma OneStep(s: State, t: Step)
    requires Enabled(s, t)
    ensures Reaches(s, [t], Apply(s, t))
  {
    assert Exec(Apply(s, t), []) == Apply(s, t);
  }

  lemma BeginsSwitch(s: State)
    requires FdsKnown(s) && Lockable(s) && s.next.Some?
    ensures Reaches(s, [StBeginSwitch], Depart(s, FirstLookup(s.next.value)))
  {
    OneStep(s, StBeginSwitch);
  }

  class Glfs {
    var active: Option<Graph>
    var next: Option<Graph>
    var former: Option<Graph>
    var winds: map<Graph, int>
    var switched: set<Graph>
    var init: bool
    var migrating: bool
    var cwd: Option<Inode>
    var openfds: seq<Handle>
    var fds: map<Handle, Fd>

    ghost var flight: Flight
    ghost var books: Books

    ghost function View(): State
      reads this
    {
      State(active, next, former, winds, switched, init, migrating, cwd, openfds, fds,
            flight, books)
    }

    constructor ()
      ensures View() == START
    {
      active, next, former, winds, switched := None, None, None, map[], {};
      init, migrating, cwd, openfds, fds := false, false, None, [], map[];
      flight, books := Idle, START.books;
    }

    function WindsOf(g: Graph): (n: int)
      reads this
      ensures n == Winds(View(), g)
    {
      if g in winds then winds[g] else 0
    }

    method AdmitGraph(g: Graph)
      modifies this
      ensures View() == Admit(old(View()), g)
    {
      var ref := WindsOf(g);
      books := books.(dropping := books.dropping + Slot(next),
                      ups := if ref == 0 then books.ups + multiset{g} else books.ups);
      next := Some(g);
      winds := winds[g := ref + 1];
    }

    /** The locked part of `glfs_graph_setup`; the superseded graph goes to `SubvolDone` afterwards. */
    method GraphSetup(g: Graph, tableOk: bool) returns (ret: int, superseded: Option<Graph>)
      modifies this
      ensures View() == (if ret == 0 then Setup(old(View()), g) else old(View()))
      ensures ret != 0 ==> !tableOk
      ensures superseded == if next == old(next) then None else old(next)
    {
      if g in switched || active == Some(g) || next == Some(g) {
        return 0, None;
      }
      if !tableOk {
        return -1, None;
      }
      superseded := next;
      AdmitGraph(g);
      ret := 0;
    }

    method DropRef(g: Graph) returns (ref: int)
      modifies this
      ensures View() == Drop(old(View()), g) && ref == Winds(View(), g)
    {
      winds := winds[g := WindsOf(g) - 1];
      ref := WindsOf(g);
      books := if ref == 0 then books.(notifying := books.notifying + multiset{g}) else books;
    }

    /** The locked part of `glfs_subvol_done`. */
    method LockedSubvolDone(g: Graph, ghost fromSlot: bool) returns (ref: int)
      requires Inv(View()) && Lockable(View())
      requires if fromSlot then g in books.dropping else g in books.holders
      modifies this
      ensures View() == Done(old(View()), g, fromSlot)
      ensures Inv(View())
      ensures ref == RefCount(View(), g) && (ref == 0 ==> active != Some(g) && g in books.notifying)
    {
      LastReference(View(), g, fromSlot);
      books := if fromSlot then books.(dropping := books.dropping - multiset{g})
               else books.(holders := books.holders - multiset{g});
      ref := DropRef(g);
    }

    /**
     `glfs_subvol_done`, by an operation that holds `g` or for a reference taken out of a slot. Between giving
     the mutex up and PARENT_DOWN the event thread sets up `setups`.
     */
    method SubvolDone(g: Graph, ghost fromSlot: bool, setups: seq<Graph>) returns (down: bool, ghost run: seq<Step>)
      requires Inv(View()) && Lockable(View())
      requires if fromSlot then g in books.dropping else g in books.holders
      modifies this
      ensures Reaches(old(View()), run, View()) && Inv(View()) && Lockable(View())
      ensures run == [if fromSlot then StDrop(g) else StRelease(g)]
                     + if down then Setups(setups) + [StNotify(g)] else []
      ensures down <==> RefCount(Done(old(View()), g, fromSlot), g) == 0
      ensures down ==> old(active) != Some(g)
      ensures books.holders == old(books.holders) - (if fromSlot then multiset{} else multiset{g})
      ensures View() == old(View()).(next := next, winds := winds, books := books)
    {
      ghost var s0 := View();
      DoneStep(s0, g, fromSlot);
      run := [if fromSlot then StDrop(g) else StRelease(g)];
      var ref := LockedSubvolDone(g, fromSlot);
      down := ref == 0;
      if down {
        ghost var more := SendDown(g, setups);
        ReachesThrough(s0, run, Done(s0, g, fromSlot), more, View());
        run := run + more;
      }
    }

    /** PARENT_DOWN, sent by the thread that took the last reference away. */
    method SendDown(g: Graph, setups: seq<Graph>) returns (ghost run: seq<Step>)
      requires Inv(View()) && Lockable(View()) && g in books.notifying
      modifies this
      ensures Reaches(old(View()), run, View()) && Inv(View()) && Lockable(View())
      ensures run == Setups(setups) + [StNotify(g)]
      ensures books.holders == old(books.holders)
      ensures View() == old(View()).(next := next, winds := winds, books := books)
    {
      ghost var s0 := View();
      run := Meanwhile(setups);
      ThenNotify(s0, run, View(), g);
      books := books.(notifying := books.notifying - multiset{g}, downs := books.downs + multiset{g});
      run := run + [StNotify(g)];
    }

    /** The event thread sets up the given graphs. */
    method SetUpAll(setups: seq<Graph>) returns (ghost run: seq<Step>)
      requires FdsKnown(View())
      modifies this
      ensures Reaches(old(View()), run, View()) && run == Setups(setups)
      ensures View() == old(View()).(next := next, winds := winds, books := books)
      ensures books.holders == old(books.holders) && books.notifying == old(books.notifying)
      ensures old(next).Some? ==> next.Some?
    {
      ghost var start := View();
      run := [];
      for i := 0 to |setups|
        invariant Reaches(start, run, View()) && run == Setups(setups[..i])
        invariant View() == start.(next := next, winds := winds, books := books)
        invariant books.holders == start.books.holders && books.notifying == start.books.notifying
        invariant start.next.Some? ==> next.Some?
      {
        SetupStep(start, run, View(), setups[i]);
        var _, _ := GraphSetup(setups[i], true);
        run := run + [StSetup(setups[i])];
        assert Setups(setups[..i + 1]) == Setups(setups[..i]) + [StSetup(setups[i])];
      }
      assert setups[..|setups|] == setups;
    }

    /** Time passes outside the mutex: the event thread sets up `setups`. */
    method Meanwhile(setups: seq<Graph>) returns (ghost run: seq<Step>)
      requires Inv(View()) && Lockable(View())
      modifies this
      ensures Reaches(old(View()), run, View()) && Inv(View()) && Lockable(View()) && run == Setups(setups)
      ensures View() == old(View()).(next := next, winds := winds, books := books)
      ensures books.holders == old(books.holders) && books.notifying == old(books.notifying)
    {
      run := SetUpAll(setups);
      RunKeepsInv(old(View()), run);
    }

    /** A network call: the mutex is free, and the event thread sets up `setups` meanwhile. */
    method Syncop(setups: seq<Graph>, ghost at: Flight) returns (ghost run: seq<Step>)
      requires !migrating && flight.Idle? && FdsKnown(View()) && !at.Idle?
      modifies this
      ensures Reaches(Depart(old(View()), at), run, Depart(View(), at))
      ensures View() == old(View()).(next := next, winds := winds, books := books)
      ensures books.holders == old(books.holders) && (old(next).Some? ==> next.Some?)
      ensures run == Setups(setups)
    {
      migrating := true;
      flight := at;
      run := SetUpAll(setups);
      migrating := false;
      flight := Idle;
    }

    /** One turn of the loop in `__glfs_migrate_openfds`. */
    method MigrateOne(target: Graph, io: SwitchIo, k: nat,
                      ghost s0: State, ghost newCwd: Option<Inode>, ghost soFar: seq<Step>)
      returns (ghost run: seq<Step>)
      requires !migrating && flight.Idle? && FdsKnown(View()) && k < |openfds|
      requires Reaches(s0, soFar, MigrateFrom(View(), target, newCwd, k))
      modifies this
      ensures View() == old(View()).(next := next, winds := winds, books := books, fds := fds)
      ensures books.holders == old(books.holders) && SameHandles(old(fds), fds) && (old(next).Some? ==> next.Some?)
      ensures FdsKnown(View())
      ensures Reaches(s0, run, MigrateFrom(View(), target, newCwd, k + 1))
    {
      run := soFar;
      ghost var before := View();
      WalkAt(before, target, newCwd, k);
      var h := openfds[k];
      if fds[h].inode.gfid != NULL_GFID {
        ghost var at := MigrateFd(target, newCwd, k);
        ghost var more := Syncop(io.fdSetups(k), at);
        ghost var after := View();
        ResumeMigrate(after, target, newCwd, k, io.fdIo(k));
        run := ResumeAfter(s0, run, before, at, more, after, StMigrateDone(io.fdIo(k)));
        var fd := MigrateFdSafe(target, fds[h], io.fdIo(k));
        if fd.Some? {
          fds := fds[h := fd.value];
        }
        assert View() == StoreMigrated(after, target, h, io.fdIo(k));
      }
    }

    /** `__glfs_migrate_openfds`: every open handle is moved, or left alone if the move fails. */
    method MigrateOpenfds(target: Graph, io: SwitchIo,
                          ghost s0: State, ghost newCwd: Option<Inode>, ghost soFar: seq<Step>)
      returns (ghost run: seq<Step>)
      requires !migrating && flight.Idle? && FdsKnown(View())
      requires Reaches(s0, soFar, MigrateFrom(View(), target, newCwd, 0))
      modifies this
      ensures View() == old(View()).(next := next, winds := winds, books := books, fds := fds)
      ensures books.holders == old(books.holders) && SameHandles(old(fds), fds) && (old(next).Some? ==> next.Some?)
      ensures FdsKnown(View())
      ensures Reaches(s0, run, Commit(View(), target, newCwd))
    {
      run := soFar;
      var k := 0;
      while k < |openfds|
        invariant 0 <= k <= |openfds| && FdsKnown(View())
        invariant View() == old(View()).(next := next, winds := winds, books := books, fds := fds)
        invariant books.holders == old(books.holders) && SameHandles(old(fds), fds) && (old(next).Some? ==> next.Some?)
        invariant Reaches(s0, run, MigrateFrom(View(), target, newCwd, k))
      {
        run := MigrateOne(target, io, k, s0, newCwd, run);
        k := k + 1;
      }
    }

    /** The refresh in `__glfs_cwd_set`, when the switch ended in another graph than it began with. */
    method ResetCwd(target: Graph, inode: Inode, io: SwitchIo, ghost s0: State, ghost soFar: seq<Step>)
      returns (ghost run: seq<Step>)
      requires !migrating && flight.Idle? && FdsKnown(View()) && active.Some?
      requires Reaches(s0, soFar, Depart(View(), CwdReset(target, inode))) && H.SameDirectory(Some(inode), cwd)
      modifies this
      ensures H.SameDirectory(old(cwd), cwd)
      ensures Reaches(s0, run, Finish(View(), Some(target)))
      ensures active == old(active) && former == old(former) && !migrating && flight.Idle?
      ensures books.holders == old(books.holders) && fds == old(fds) && init == old(init)
    {
      ghost var before := View();
      ghost var at := CwdReset(target, inode);
      ghost var more := Syncop(io.resetSetups, at);
      ghost var after := View();
      ResumeCwdReset(after, target, inode, io.resetIo);
      run := ResumeAfter(s0, soFar, before, at, more, after, StCwdResetDone(io.resetIo));
      var r := RefreshInode(active.value, inode, io.resetIo);
      if r.Some? {
        cwd := r;
      }
      assert View() == AfterCwdSet(after, inode, io.resetIo);
    }

    method MoveSlots()
      modifies this
      ensures View() == SlotsMoved(old(View()))
    {
      former := active;
      active := next;
      next := None;
    }

    /** The slots move, and the working directory with them. */
    method CommitSwitch(target: Graph, newCwd: Option<Inode>, io: SwitchIo, ghost s0: State, ghost soFar: seq<Step>)
      returns (ghost run: seq<Step>)
      requires !migrating && flight.Idle? && FdsKnown(View()) && next.Some?
      requires Reaches(s0, soFar, Commit(View(), target, newCwd))
      requires newCwd.Some? ==> H.SameDirectory(newCwd, cwd)
      modifies this
      ensures H.SameDirectory(old(cwd), cwd)
      ensures Reaches(s0, run, Finish(View(), Some(target)))
      ensures active == old(next) && former == old(active) && !migrating && flight.Idle?
      ensures books.holders == old(books.holders) && fds == old(fds) && init == old(init)
    {
      run := soFar;
      MoveSlots();
      ghost var moved := View();
      CommitCases(old(View()), moved, target, newCwd);
      if newCwd.Some? {
        if active == Some(newCwd.value.graph) {
          cwd := newCwd;
          assert View() == moved.(cwd := newCwd);
        } else {
          run := ResetCwd(target, newCwd.value, io, s0, run);
        }
      }
    }

    /** `__glfs_first_lookup` on the graph that is to become active. */
    method LookUpRoot(target: Graph, io: SwitchIo) returns (ghost run: seq<Step>)
      requires FdsKnown(View()) && Lockable(View()) && flight.Idle? && next == Some(target)
      modifies this
      ensures View() == old(View()).(next := next, winds := winds, books := books)
      ensures books.holders == old(books.holders) && next.Some?
      ensures Reaches(old(View()), run,
                      if !io.lookupOk then Finish(View(), None)
                      else if cwd.Some? then Depart(View(), CwdRefresh(target))
                      else MigrateFrom(View(), target, None, 0))
    {
      ghost var s0 := View();
      ghost var at := FirstLookup(target);
      BeginsSwitch(s0);
      ghost var more := Syncop(io.lookupSetups, at);
      ResumeFirstLookup(View(), target, io.lookupOk);
      run := ResumeAfter(s0, [StBeginSwitch], s0, at, more, View(), StFirstLookupDone(io.lookupOk));
    }

    /** `__glfs_refresh_inode` of the working directory, before the switch. */
    method RefreshCwd(target: Graph, io: SwitchIo, ghost s0: State, ghost soFar: seq<Step>)
      returns (newCwd: Option<Inode>, ghost run: seq<Step>)
      requires !migrating && flight.Idle? && FdsKnown(View()) && next.Some? && cwd.Some?
      requires Reaches(s0, soFar, Depart(View(), CwdRefresh(target)))
      modifies this
      ensures View() == old(View()).(next := next, winds := winds, books := books)
      ensures books.holders == old(books.holders) && next.Some?
      ensures newCwd.Some? ==> H.SameDirectory(newCwd, cwd)
      ensures Reaches(s0, run, if newCwd.None? then Finish(View(), None) else MigrateFrom(View(), target, newCwd, 0))
    {
      ghost var before := View();
      ghost var at := CwdRefresh(target);
      ghost var more := Syncop(io.cwdSetups, at);
      ResumeCwdRefresh(View(), target, io.cwdIo);
      run := ResumeAfter(s0, soFar, before, at, more, View(), StCwdRefreshDone(io.cwdIo));
      newCwd := RefreshInode(target, cwd.value, io.cwdIo);
    }

    /** `__glfs_active_subvol` with a graph waiting in the next slot. */
    method SwitchGraphs(io: SwitchIo) returns (subvol: Option<Graph>, ghost run: seq<Step>)
      requires FdsKnown(View()) && Lockable(View()) && flight.Idle? && next.Some?
      modifies this
      ensures Reaches(old(View()), run, Finish(View(), subvol))
      ensures subvol.None? || subvol == old(next)
      ensures books.holders == old(books.holders) && Lockable(View()) && flight.Idle?
      ensures SameHandles(old(fds), fds) && H.SameDirectory(old(cwd), cwd)
    {
      ghost var s0 := View();
      var target := next.value;
      run := LookUpRoot(target, io);
      if !io.lookupOk {
        return None, run;
      }
      var newCwd := None;
      if cwd.Some? {
        newCwd, run := RefreshCwd(target, io, s0, run);
        if newCwd.None? {
          return None, run;
        }
      }
      run := MigrateOpenfds(target, io, s0, newCwd, run);
      run := CommitSwitch(target, newCwd, io, s0, run);
      subvol := Some(target);
    }

    method TakeRef(subvol: Option<Graph>)
      modifies this
      ensures View() == Take(old(View()), subvol)
    {
      if subvol.Some? {
        winds := winds[subvol.value := WindsOf(subvol.value) + 1];
        books := books.(holders := books.holders + multiset{subvol.value});
      }
    }

    method RetireFormer() returns (retired: Option<Graph>)
      modifies this
      ensures View() == Retire(old(View())) && retired == old(former)
    {
      retired := former;
      if former.Some? {
        switched := switched + {former.value};
        books := books.(dropping := books.dropping + Slot(former));
        former := None;
      }
    }

    /** The locked part of `glfs_active_subvol`; `retired` is what it takes out of the old slot. */
    method LockedActiveSubvol(io: SwitchIo)
      returns (subvol: Option<Graph>, retired: Option<Graph>, ghost run: seq<Step>)
      requires Inv(View()) && Lockable(View())
      modifies this
      ensures Reaches(old(View()), run, View()) && Inv(View()) && Lockable(View())
      ensures subvol == if old(next).None? then old(active) else if subvol.None? then None else old(next)
      ensures books.holders == old(books.holders) + Slot(subvol)
      ensures SameHandles(old(fds), fds) && H.SameDirectory(old(cwd), cwd)
      ensures retired.Some? ==> retired.value in books.dropping
    {
      ghost var s0 := View();
      if next.None? {
        subvol := active;
        run := [StAcquire];
        OneStep(s0, StAcquire);
      } else {
        subvol, run := SwitchGraphs(io);
      }
      TakeRef(subvol);
      retired := RetireFormer();
      RunKeepsInv(s0, run);
    }

    /** `glfs_active_subvol`: the caller holds the graph, and the graph switched away from is released. */
    method ActiveSubvol(io: SwitchIo) returns (subvol: Option<Graph>, ghost run: seq<Step>)
      requires Inv(View()) && Lockable(View())
      modifies this
      ensures Reaches(old(View()), run, View()) && Inv(View()) && Lockable(View())
      ensures subvol == if old(next).None? then old(active) else if subvol.None? then None else old(next)
      ensures books.holders == old(books.holders) + Slot(subvol)
      ensures SameHandles(old(fds), fds) && H.SameDirectory(old(cwd), cwd)
    {
      ghost var s0 := View();
      var retired;
      subvol, retired, run := LockedActiveSubvol(io);
      if retired.Some? {
        var down;
        ghost var more;
        down, more := SubvolDone(retired.value, true, io.doneSetups);
        run := Then(s0, run, more, View());
      }
    }

    /** `glfs_resolve_fd`: the handle is pointed at the new fd only if the caller's graph is the active one. */
    method ResolveFd(subvol: Graph, h: Handle, setups: seq<Graph>, io: MigrateIo)
      returns (fd: Option<Fd>, ghost run: seq<Step>)
      requires Inv(View()) && Lockable(View()) && subvol in books.holders && h in fds
      modifies this
      ensures Reaches(old(View()), run, View()) && Inv(View())
      ensures fd.Some? ==> fd.value == Fd(Inode(subvol, old(fds)[h].inode.gfid), old(fds)[h].flags)
      ensures fd.None? ==> old(fds)[h].inode.graph != subvol
      ensures fds == if fd.Some? && active == Some(subvol) then old(fds)[h := fd.value] else old(fds)
      ensures active == old(active) && cwd == old(cwd) && Lockable(View()) && books.holders == old(books.holders)
    {
      ghost var s0 := View();
      ghost var t := StFdResolve(subvol, h);
      OneStep(s0, t);
      run := [t];
      if fds[h].inode.graph == subvol {
        fd := Some(fds[h]);
      } else {
        ghost var at := FdResolve(subvol, h);
        ghost var more := Syncop(setups, at);
        ResumeFdResolve(View(), subvol, h, io);
        run := ResumeAfter(s0, run, s0, at, more, View(), StFdResolveDone(io));
        fd := MigrateFdSafe(subvol, fds[h], io);
        if fd.Some? && active == Some(subvol) {
          fds := fds[h := fd.value];
        }
      }
      RunKeepsInv(s0, run);
    }

    /** `glfs_cwd_get`. */
    method GetCwd(setups: seq<Graph>, io: RefreshIo) returns (inode: Option<Inode>, ghost run: seq<Step>)
      requires Inv(View()) && Lockable(View())
      modifies this
      ensures Reaches(old(View()), run, View()) && Inv(View())
      ensures inode.Some? ==> cwd.Some? && active.Some? && inode.value == Inode(active.value, cwd.value.gfid)
      ensures active == old(active) && cwd == old(cwd) && Lockable(View()) && books.holders == old(books.holders)
    {
      ghost var s0 := View();
      OneStep(s0, StCwdGet);
      run := [StCwdGet];
      if cwd.None? || active == Some(cwd.value.graph) {
        inode := cwd;
      } else {
        ghost var more := Syncop(setups, CwdGet);
        ResumeCwd(View(), cwd.value, io);
        run := ResumeAfter(s0, run, s0, CwdGet, more, View(), StCwdGetDone(io));
        inode := RefreshInode(active.value, cwd.value, io);
      }
      RunKeepsInv(s0, run);
    }

    /** `glfs_cwd_set`, by an operation that holds `subvol`. */
    method SetCwd(ghost subvol: Graph, inode: Inode, setups: seq<Graph>, io: RefreshIo)
      returns (ret: int, ghost run: seq<Step>)
      requires Inv(View()) && Lockable(View()) && subvol in books.holders
      modifies this
      ensures Reaches(old(View()), run, View()) && Inv(View()) && Lockable(View())
      ensures active.Some? && active == old(active) && books.holders == old(books.holders) && fds == old(fds)
      ensures cwd == if ret == 0 then Some(Inode(active.value, inode.gfid)) else old(cwd)
      ensures ret != 0 ==> active != Some(inode.graph)
    {
      ghost var s0 := View();
      ghost var t := StCwdSet(subvol, inode);
      OneStep(s0, t);
      run := [t];
      ret := 0;
      if active == Some(inode.graph) {
        cwd := Some(inode);
      } else {
        ghost var more := Syncop(setups, CwdSet(inode));
        ResumeCwd(View(), inode, io);
        run := ResumeAfter(s0, run, s0, CwdSet(inode), more, View(), StCwdSetDone(io));
        var r := RefreshInode(active.value, inode, io);
        if r.None? {
          ret := -1;
        } else {
          cwd := r;
        }
      }
      RunKeepsInv(s0, run);
    }

    /** `glfs_resolve_inode`: an object of another graph is looked up in the active one, whichever the caller holds. */
    method ResolveInode(subvol: Graph, obj: Inode, setups: seq<Graph>, io: RefreshIo)
      returns (inode: Option<Inode>, obj': Inode, ghost run: seq<Step>)
      requires Inv(View()) && Lockable(View()) && subvol in books.holders
      modifies this
      ensures Reaches(old(View()), run, View()) && Inv(View()) && Lockable(View())
      ensures active.Some? && active == old(active) && books.holders == old(books.holders) && fds == old(fds)
      ensures inode.Some? ==>
                inode.value == Inode(if obj.graph == subvol then subvol else active.value, obj.gfid)
      ensures obj' == if inode.Some? && inode.value.graph == subvol then inode.value else obj
    {
      ghost var s0 := View();
      ghost var t := StObjectResolve(subvol, obj);
      OneStep(s0, t);
      run := [t];
      obj' := obj;
      if obj.graph == subvol {
        inode := Some(obj);
      } else {
        ghost var at := ObjectResolve(subvol, obj);
        ghost var more := Syncop(setups, at);
        ResumeObject(View(), subvol, obj, io);
        run := ResumeAfter(s0, run, s0, at, more, View(), StObjectResolveDone(io));
        inode := RefreshInode(active.value, obj, io);
        if inode.Some? && active == Some(subvol) {
          obj' := inode.value;
        }
      }
      RunKeepsInv(s0, run);
    }

    // --- operations ---

    /** `glfs_subvol_done` at the end of an operation, which may have got no graph. */
    method EndOperation(subvol: Option<Graph>, setups: seq<Graph>) returns (ghost run: seq<Step>)
      requires Inv(View()) && Lockable(View()) && (subvol.Some? ==> subvol.value in books.holders)
      modifies this
      ensures Reaches(old(View()), run, View()) && Inv(View()) && Lockable(View())
      ensures books.holders == old(books.holders) - Slot(subvol) && cwd == old(cwd) && fds == old(fds)
    {
      run := [];
      if subvol.Some? {
        var down;
        down, run := SubvolDone(subvol.value, false, setups);
      }
    }

    /** The part of an operation on an fd between taking the graph and giving it back. */
    method CallOnFd(subvol: Graph, h: Handle, setups: seq<Graph>, fdIo: MigrateIo, callRet: int, callSetups: seq<Graph>)
      returns (ret: int, sent: Option<Fd>, ghost run: seq<Step>)
      requires Inv(View()) && Lockable(View()) && subvol in books.holders && h in fds
      modifies this
      ensures Reaches(old(View()), run, View()) && Inv(View()) && Lockable(View())
      ensures books.holders == old(books.holders) && SameHandles(old(fds), fds)
      ensures ret == if sent.Some? then callRet else -1
      ensures sent.Some? ==> sent.value == Fd(Inode(subvol, old(fds)[h].inode.gfid), old(fds)[h].flags)
      ensures sent.None? ==> old(fds)[h].inode.graph != subvol
    {
      ghost var s0 := View();
      sent, run := ResolveFd(subvol, h, setups, fdIo);
      ret := -1;
      if sent.Some? {
        ret := callRet;
        ghost var more := Meanwhile(callSetups);
        run := Then(s0, run, more, View());
      }
    }

    /**
     `glfs_fsync`, for any operation on an fd: the call goes to the graph that is held and to an fd in
     that graph, and no hold is left over.
     */
    method Fsync(h: Handle, io: SwitchIo, setups: seq<Graph>, fdIo: MigrateIo, callRet: int, callSetups: seq<Graph>,
                 doneSetups: seq<Graph>)
      returns (ret: int, subvol: Option<Graph>, sent: Option<Fd>, ghost run: seq<Step>)
      requires Inv(View()) && Lockable(View()) && h in fds
      modifies this
      ensures Reaches(old(View()), run, View()) && Inv(View()) && Lockable(View())
      ensures books.holders == old(books.holders) && SameHandles(old(fds), fds)
      ensures ret == if sent.Some? then callRet else -1
      ensures sent.Some? ==>
                subvol.Some? && sent.value == Fd(Inode(subvol.value, old(fds)[h].inode.gfid), old(fds)[h].flags)
    {
      ghost var s0 := View();
      ret, sent := -1, None;
      ghost var more;
      subvol, run := ActiveSubvol(io);
      if subvol.Some? {
        ret, sent, more := CallOnFd(subvol.value, h, setups, fdIo, callRet, callSetups);
        run := Then(s0, run, more, View());
      }
      more := EndOperation(subvol, doneSetups);
      run := Then(s0, run, more, View());
    }

    /** The part of `glfs_fchdir` between taking the graph and giving it back. */
    method ChangeDirectory(subvol: Graph, h: Handle, isDir: bool, setups: seq<Graph>, fdIo: MigrateIo,
                           cwdSetups: seq<Graph>, cwdIo: RefreshIo)
      returns (ret: int, ghost found: bool, ghost moved: bool, ghost run: seq<Step>)
      requires Inv(View()) && Lockable(View()) && subvol in books.holders && h in fds
      modifies this
      ensures Reaches(old(View()), run, View()) && Inv(View()) && Lockable(View())
      ensures books.holders == old(books.holders) && SameHandles(old(fds), fds)
      ensures (ret == 0 <==> found && isDir) && (moved ==> ret == 0)
      ensures moved ==> cwd.Some? && cwd.value.gfid == old(fds)[h].inode.gfid
      ensures !moved ==> cwd == old(cwd)
    {
      ret, moved := -1, false;
      ghost var s0 := View();
      var fd;
      fd, run := ResolveFd(subvol, h, setups, fdIo);
      found := fd.Some?;
      if fd.Some? && isDir {
        var setRet;
        ghost var more;
        setRet, more := SetCwd(subvol, fd.value.inode, cwdSetups, cwdIo);
        run := Then(s0, run, more, View());
        moved := setRet == 0;
        ret := 0;
      }
    }

    /**
     `glfs_fchdir`. It reports success also when the directory cannot be looked up in the active
     graph and the working directory stays what it was.
     */
    method Fchdir(h: Handle, isDir: bool, io: SwitchIo, setups: seq<Graph>, fdIo: MigrateIo,
                  cwdSetups: seq<Graph>, cwdIo: RefreshIo, doneSetups: seq<Graph>)
      returns (ret: int, ghost found: bool, ghost moved: bool, ghost run: seq<Step>)
      requires Inv(View()) && Lockable(View()) && h in fds
      modifies this
      ensures Reaches(old(View()), run, View()) && Inv(View()) && Lockable(View())
      ensures books.holders == old(books.holders) && SameHandles(old(fds), fds)
      ensures (ret == 0 <==> found && isDir) && (moved ==> ret == 0)
      ensures moved ==> cwd.Some? && cwd.value.gfid == old(fds)[h].inode.gfid
      ensures !moved ==> H.SameDirectory(old(cwd), cwd)
    {
      ghost var s0 := View();
      ret, found, moved := -1, false, false;
      var subvol;
      ghost var more;
      subvol, run := ActiveSubvol(io);
      if subvol.Some? {
        ret, found, moved, more := ChangeDirectory(subvol.value, h, isDir, setups, fdIo, cwdSetups, cwdIo);
        run := Then(s0, run, more, View());
      }
      more := EndOperation(subvol, doneSetups);
      run := Then(s0, run, more, View());
    }
  }
}
