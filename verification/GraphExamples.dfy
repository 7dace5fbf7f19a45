/** Reachable states that show which stronger claims about graph switching are false of the code. */
module GraphExamples {

  import opened Wrappers
  import opened GraphState

  const FOUND := RefreshIo(true, true, true, true)

  lemma Up(s: State, g: Graph) returns (s': State)
    requires Reachable(s) && FdsKnown(s)
    ensures Reachable(s') && s' == Setup(s, g)
  {
    ReachableThenStep(s, StSetup(g));
    s' := Setup(s, g);
  }

  lemma Begin(s: State) returns (s': State)
    requires Reachable(s) && FdsKnown(s) && Lockable(s) && s.next.Some?
    ensures Reachable(s') && s' == Depart(s, FirstLookup(s.next.value))
  {
    ReachableThenStep(s, StBeginSwitch);
    s' := Depart(s, FirstLookup(s.next.value));
  }

  lemma LookedUp(s: State) returns (s': State)
    requires Reachable(s) && FdsKnown(s) && s.flight.FirstLookup?
    ensures Reachable(s') && s' == AfterFirstLookup(s, true)
  {
    ReachableThenStep(s, StFirstLookupDone(true));
    s' := AfterFirstLookup(s, true);
  }

  lemma GoneFrom(s: State, g: Graph, fromSlot: bool) returns (s': State)
    requires Reachable(s) && FdsKnown(s) && Lockable(s)
             && (if fromSlot then g in s.books.dropping else g in s.books.holders)
    ensures Reachable(s') && s' == Done(s, g, fromSlot)
  {
    ReachableThenStep(s, if fromSlot then StDrop(g) else StRelease(g));
    s' := Done(s, g, fromSlot);
  }

  /** The mount of an application that has made no call yet, with graph 1 up. */
  lemma FirstGraphUp() returns (s: State)
    ensures Reachable(s) && Lockable(s) && s.openfds == [] && s.cwd.None? && s.switched == {} && s.former.None?
    ensures s.active.None? && s.next == Some(1) && Winds(s, 1) == 1 && Winds(s, 2) == 0
    ensures s.books.holders == multiset{} && s.books.dropping == multiset{}
    ensures s.books.downs == multiset{} && s.books.notifying == multiset{}
  {
    StartIsReachable();
    ReachableThenStep(START, StInitDone);
    s := Up(START.(init := true), 1);
  }

  /** A CHILD_UP in the middle of a switch: the operation is handed graph 1, while graph 2 is active. */
  lemma HandedGraphNeedNotBeActive() returns (s: State)
    ensures Reachable(s) && Lockable(s) && s.openfds == [] && s.switched == {}
    ensures s.active == Some(2) && s.next.None? && s.books.holders[1] == 1 && s.books.dropping[1] == 1
    ensures Winds(s, 1) == 2 && s.books.downs[1] == 0 && s.books.notifying[1] == 0 && s.cwd.None? && s.former.None?
  {
    var s0 := FirstGraphUp();
    var s1 := Begin(s0);
    var s2 := Up(s1, 2);
    assert s2.flight == FirstLookup(1) && s2.next == Some(2) && s2.books.dropping[1] == 1 && s2.cwd.None?;
    s := LookedUp(s2);
    assert s == Finish(SlotsMoved(Return(s2)), Some(1));
  }

  lemma SupersededTwice() returns (s: State)
    ensures Reachable(s) && FdsKnown(s) && s.flight == FirstLookup(1) && s.next == Some(1) && s.openfds == []
    ensures s.active.None? && s.former.None? && s.cwd.None? && s.books.holders[1] == 0 && s.books.dropping[1] == 1
  {
    var s0 := FirstGraphUp();
    var s1 := Begin(s0);
    var s2 := Up(s1, 2);
    assert s2.next == Some(2) && s2.books.dropping[1] == 1 && s2.switched == {};
    s := Up(s2, 1);
  }

  /** A superseded graph that comes up again during the same switch: it is handed out, and active. */
  lemma SupersededAndReadmitted() returns (s: State)
    ensures Reachable(s) && s.active == Some(1) && s.books.holders[1] == 1 && s.books.dropping[1] == 1
  {
    var s0 := SupersededTwice();
    s := LookedUp(s0);
    assert s == Finish(SlotsMoved(Return(s0)), Some(1));
  }

  lemma Notified(s: State, g: Graph) returns (s': State)
    requires Reachable(s) && FdsKnown(s) && g in s.books.notifying
    ensures Reachable(s') && s' == Notify(s, g)
  {
    ReachableThenStep(s, StNotify(g));
    s' := Notify(s, g);
  }

  /** The superseded graph loses its last reference without ever being marked switched. */
  lemma SupersededGraphIsGone() returns (s: State)
    ensures Reachable(s) && Lockable(s) && s.openfds == [] && s.switched == {} && s.cwd.None? && s.former.None?
    ensures s.active == Some(2) && s.next.None? && Winds(s, 1) == 0 && s.books.holders[1] == 0
    ensures s.books.notifying[1] == 1 && s.books.downs[1] == 0
  {
    var s0 := HandedGraphNeedNotBeActive();
    var s1 := GoneFrom(s0, 1, true);
    assert Winds(s1, 1) == 1 && s1.books.holders[1] == 1 && s1.books.notifying[1] == 0;
    s := GoneFrom(s1, 1, false);
  }

  /** Another CHILD_UP on it then makes it the next graph after its PARENT_DOWN. */
  lemma SupersededGraphCanReturn() returns (s: State)
    ensures Reachable(s) && s.books.downs[1] == 1 && s.next == Some(1) && Winds(s, 1) == 1
  {
    var s0 := SupersededGraphIsGone();
    var s1 := Notified(s0, 1);
    s := Up(s1, 1);
  }

  /**
   If that CHILD_UP comes between the decrement and its PARENT_DOWN, and an operation switches to the graph,
   PARENT_DOWN reaches a graph that is active and held.
   */
  lemma ActiveGraphIsSentDown() returns (s: State, s': State)
    ensures Reachable(s) && s.active == Some(1) && s.books.holders[1] == 1 && s.books.notifying[1] == 1
    ensures Enabled(s, StNotify(1)) && s' == Apply(s, StNotify(1)) && Reachable(s')
    ensures s'.books.downs[1] == 1 && s'.active == Some(1) && s'.books.holders[1] == 1
  {
    var s0 := SupersededGraphIsGone();
    var s1 := Up(s0, 1);
    var s2 := Begin(s1);
    s := LookedUp(s2);
    assert s == Finish(SlotsMoved(Return(s2)), Some(1));
    s' := Notified(s, 1);
  }

  lemma WorkingDirectorySet() returns (s: State)
    ensures Reachable(s) && Lockable(s) && s.openfds == [] && s.switched == {}
    ensures s.active == Some(1) && s.next.None? && s.former.None? && s.cwd == Some(Inode(1, 9))
  {
    var s0 := FirstGraphUp();
    var s1 := Begin(s0);
    var s2 := LookedUp(s1);
    assert s2 == Finish(SlotsMoved(Return(s1)), Some(1));
    ReachableThenStep(s2, StCwdSet(1, Inode(1, 9)));
    s := s2.(cwd := Some(Inode(1, 9)));
  }

  lemma SecondGraphLookedUp() returns (s: State)
    ensures Reachable(s) && s.flight == FirstLookup(2) && s.cwd == Some(Inode(1, 9)) && s.openfds == []
    ensures s.active == Some(1) && s.next == Some(2) && s.former.None? && s.switched == {}
  {
    var s0 := WorkingDirectorySet();
    var s1 := Up(s0, 2);
    s := Begin(s1);
  }

  /** Graph 3 supersedes graph 2 while the working directory is being looked up in graph 2. */
  lemma CwdLookupSuperseded() returns (s: State)
    ensures Reachable(s) && s.flight == CwdRefresh(2) && s.cwd == Some(Inode(1, 9)) && s.openfds == []
    ensures s.active == Some(1) && s.next == Some(3) && s.former.None? && s.switched == {}
  {
    var s0 := SecondGraphLookedUp();
    var s1 := LookedUp(s0);
    assert s1 == Depart(s0, CwdRefresh(2));
    s := Up(s1, 3);
  }

  /** The switch makes graph 3 active; the working directory has to be looked up once more. */
  lemma CwdIsResetAfterSupersession() returns (s: State)
    ensures Reachable(s) && FdsKnown(s) && s.flight == CwdReset(2, Inode(2, 9))
    ensures s.active == Some(3) && s.next.None? && s.former == Some(1) && s.switched == {}
  {
    var s0 := CwdLookupSuperseded();
    ReachableThenStep(s0, StCwdRefreshDone(FOUND));
    s := Depart(SlotsMoved(Return(s0)), CwdReset(2, Inode(2, 9)));
    assert s == Apply(s0, StCwdRefreshDone(FOUND));
  }

  /**
   In that last lookup the graph being switched away from is not marked yet, and a CHILD_UP on
   it is not taken as spurious: it becomes the next graph and is marked switched afterwards.
   */
  lemma SwitchedGraphCanBeNext() returns (s: State)
    ensures Reachable(s) && s.next == Some(1) && 1 in s.switched
  {
    var s0 := CwdIsResetAfterSupersession();
    var s1 := Up(s0, 1);
    var s2 := AfterCwdSet(s1, Inode(2, 9), FOUND);
    assert s2.next == Some(1) && s2.former == Some(1);
    ReachableThenStep(s1, StCwdResetDone(FOUND));
    s := Finish(s2, Some(2));
  }
}
