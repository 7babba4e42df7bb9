/** Runs from init's first moment that fill the table, send a signal to a slot without a process, or let a process that
    was killed run on. */
module Orphans {
  import opened Scheduling
  import opened Processes
  import opened Waits
  import opened Mishaps

  // ----- A full table

  /** Init with its first `n` places taken. */
  function Nursery(n: nat): Table
    requires n <= 19
  {
    Table(seq(20, i => if i == 0 then Init(Running, false, [], n, FirstPlaces(n))
                       else if 0 < i <= n then Fresh(i + 1, 0, 18) else ZERO),
          n + 1, n + 2, 0, 1)
  }

  function FirstPlaces(n: nat): (r: seq<int>)
    ensures |r| == 19
  {
    seq(19, k => if 0 <= k < n then k + 1 else -1)
  }

  lemma NurseryGrows(n: nat)
    requires n < 19
    ensures CanSpawn(Nursery(n)) && Admitted(Nursery(n)) && HasZero(Nursery(n))
    ensures Spawned(Nursery(n)) == Nursery(n + 1)
  {
    var t := Nursery(n);
    assert forall j | 0 <= j <= n :: t.slots[j].pid == j + 1;
    assert t.slots[0].children == FirstPlaces(n) && t.slots[n + 1] == ZERO;
    SpawnIs(t, n + 1, n);
    ZeroAt(t.slots, 0, n + 1);
    assert FirstPlaces(n)[n := n + 1] == FirstPlaces(n + 1);
    assert Spawned(t).slots == Nursery(n + 1).slots;
  }

  lemma {:induction false} NurseryReached(events: seq<Event>) returns (h: History)
    requires |events| <= 19 && forall i | 0 <= i < |events| :: events[i] == Spawn
    ensures Reaches(events, Nursery(|events|), h) && h.leaked == 0
    decreases |events|
  {
    h := NothingYet();
    if events == [] {
      assert FirstPlaces(0) == seq(19, _ => -1);
      assert Nursery(0).slots == Initial().slots;
    } else {
      var n := |events| - 1;
      h := NurseryReached(events[..n]);
      NurseryGrows(n);
      assert events == events[..n] + [Spawn];
      Onward(events[..n], Nursery(n), h, Spawn, Nursery(n + 1), events);
      h := Noted(Nursery(n), h, Spawn);
    }
  }

  /** Nineteen spawns of init fill the table; the guard admits one more, which finds no slot and is counted for good. */
  lemma TableFills(events: seq<Event>)
    requires |events| == 19 && forall i | 0 <= i < |events| :: events[i] == Spawn
    ensures exists t, h ::
              && Reaches(events, t, h) && CanSpawn(t) && h.leaked == 0 && t.count == |t.slots| == Occupied(t.slots)
              && Spawned(t).slots == t.slots && Spawned(t).count == t.count + 1
  {
    var h := NurseryReached(events);
    var t := Nursery(19);
    InitialOk();
    RunKeeps(Initial(), NothingYet(), events, t, h);
    FullTableLeaks(t, h);
    assert Reaches(events, t, h);
  }

  // ----- A process A with a child B, which kills it

  /** Init in slot 0, A in slot 1 and B in slot 2, or fewer. */
  function Trio(init: Process, a: Process, b: Process, count: nat, current: nat): Table {
    Table(Slots(init, a, b, ZERO), count, 4, current, current)
  }

  /** A child of A with no children of its own. */
  function B(state: State, kernelMode: bool, exitCode: int, pending: seq<nat>): Process {
    Process(3, state, exitCode, kernelMode, pending, 1, 0, Fresh(3, 1, 17).children)
  }

  function Parent(state: State, pending: seq<nat>): Process {
    A(state, false, pending, 1, Places(18, 2, -1))
  }

  function BornB(current: nat, state: State): Table {
    Trio(InitWith([]), Parent(Running, []), B(state, false, 0, []), 3, current)
  }

  /** B has killed A, and runs on with a SIGHUP of its own. */
  function KilledA(): Table {
    Trio(InitWith([SIGCHLD]), Parent(Terminated, []), B(Running, false, 0, [SIGHUP]), 3, 2)
  }

  lemma SpawnsB()
    ensures Permitted(ChildRuns(), Spawn) && Step(ChildRuns(), Spawn) == BornB(1, Ready)
  {
    var t := ChildRuns();
    SpawnIs(t, 2, 0);
    assert Fresh(2, 0, 18).children[0 := 2] == Places(18, 2, -1);
    assert Spawned(t).slots == BornB(1, Ready).slots;
  }

  lemma SwitchToB()
    ensures Permitted(BornB(1, Ready), Switch) && Step(BornB(1, Ready), Switch) == BornB(2, Running)
    ensures Delivered(Chosen(BornB(1, Ready))) == -1
  {
    var t := BornB(1, Ready);
    PickOnly(t.slots, 1, 2);
    assert Step(t, Switch).slots == BornB(2, Running).slots;
  }

  lemma BKillsA()
    ensures Permitted(BornB(2, Running), Kill(2, SIGKILL)) && Step(BornB(2, Running), Kill(2, SIGKILL)) == KilledA()
  {
    var t := BornB(2, Running);
    PidAtSlot(t.slots, 2, 0, 1);
    var p := t.slots[1];
    var told := Notified(t.slots, 0, SIGCHLD);
    assert HungUp(told, p.children, 0) == told;
    assert HungUp(told, p.children, 1) == Notified(told, 2, SIGHUP);
    assert t.slots[0].pending + [SIGCHLD] == [SIGCHLD] && t.slots[2].pending + [SIGHUP] == [SIGHUP];
    assert Killed(t, 1).slots == KilledA().slots;
  }

  lemma AIsKilled(events: seq<Event>) returns (h: History)
    requires events == [Spawn, Switch, Spawn, Switch, Kill(2, SIGKILL)]
    ensures Reaches(events, KilledA(), h) && 2 in h.deaths
  {
    hide Permitted, Chosen, Spawned, Killed;
    SpawnsB();
    SwitchToB();
    BKillsA();
    h := ChildRunsSoon(events[..2]);
    Onward(events[..2], ChildRuns(), h, Spawn, BornB(1, Ready), events[..3]);
    h := Noted(ChildRuns(), h, Spawn);
    Onward(events[..3], BornB(1, Ready), h, Switch, BornB(2, Running), events[..4]);
    Onward(events[..4], BornB(2, Running), h, Kill(2, SIGKILL), KilledA(), events);
    h := Noted(BornB(2, Running), h, Kill(2, SIGKILL));
    PidAtSlot(BornB(2, Running).slots, 2, 0, 1);
  }

  // ----- A runs again

  /** B has exited, and init is still to take its SIGCHLD, or has. */
  function ExitedB(init: Process, a: Process, current: nat): Table {
    Trio(init, a, B(Terminated, true, 0, []), 3, current)
  }

  lemma BExits()
    ensures var t := KilledA();
            && Permitted(t, Exit(0))
            && Step(t, Exit(0)) == ExitedB(InitWith([SIGCHLD]), Parent(Terminated, [SIGCHLD]), 2)
  {
    var t := Entered(KilledA());
    ChildlessKilled(t.(slots := t.slots[2 := t.slots[2].(state := Terminated, exitCode := 0)]), 2);
    assert t.slots[1].pending + [SIGCHLD] == [SIGCHLD];
    assert Step(KilledA(), Exit(0)).slots == ExitedB(InitWith([SIGCHLD]), Parent(Terminated, [SIGCHLD]), 2).slots;
  }

  lemma InitThenA()
    ensures var t0, t1 := ExitedB(InitWith([SIGCHLD]), Parent(Terminated, [SIGCHLD]), 2),
                          ExitedB(InitWith([]), Parent(Terminated, [SIGCHLD]), 0);
            && Permitted(t0, Switch) && Step(t0, Switch) == t1
            && Permitted(t1, Switch) && Step(t1, Switch) == ExitedB(InitWith([]), Parent(Running, []), 1)
    ensures !Terminates(Delivered(Chosen(ExitedB(InitWith([SIGCHLD]), Parent(Terminated, [SIGCHLD]), 2))))
    ensures !Terminates(Delivered(Chosen(ExitedB(InitWith([]), Parent(Terminated, [SIGCHLD]), 0))))
  {
    var t0, t1 := ExitedB(InitWith([SIGCHLD]), Parent(Terminated, [SIGCHLD]), 2),
                  ExitedB(InitWith([]), Parent(Terminated, [SIGCHLD]), 0);
    PickZero(t0.slots, 2);
    assert Step(t0, Switch).slots == t1.slots;
    PickOnly(t1.slots, 0, 1);
    assert Step(t1, Switch).slots == ExitedB(InitWith([]), Parent(Running, []), 1).slots;
  }

  /** From slot 2 the search comes to slot 0 first when no slot behind slot 2 is eligible. */
  lemma PickZero(slots: seq<Process>, cursor: nat)
    requires |slots| == 20 && cursor == 2 && Eligible(slots[0])
    requires forall j | 3 <= j < 20 :: !Eligible(slots[j])
    ensures Pick(slots, cursor) == 0
  {
    PickIsNext(slots, cursor);
    assert Distance(20, 2, 0) == 18 && Distance(20, 2, 1) == 19 && Distance(20, 2, 2) == 20;
  }

  /** B kills its parent and exits; the signal about it is delivered to the parent, which had ended and now runs
      again. */
  lemma DeadParentRuns(events: seq<Event>)
    requires events == [Spawn, Switch, Spawn, Switch, Kill(2, SIGKILL), Exit(0), Switch, Switch]
    ensures exists t, h ::
              && Reaches(events, t, h) && t.current == 1 && |t.slots| == 20 && t.slots[1].pid == 2
              && t.slots[1].state == Running && 2 in h.deaths
  {
    hide Step, Permitted, Chosen;
    BExits();
    InitThenA();
    var t0, t1 := ExitedB(InitWith([SIGCHLD]), Parent(Terminated, [SIGCHLD]), 2),
                  ExitedB(InitWith([]), Parent(Terminated, [SIGCHLD]), 0);
    var h := AIsKilled(events[..5]);
    Onward(events[..5], KilledA(), h, Exit(0), t0, events[..6]);
    h := Noted(KilledA(), h, Exit(0));
    Onward(events[..6], t0, h, Switch, t1, events[..7]);
    Onward(events[..7], t1, h, Switch, ExitedB(InitWith([]), Parent(Running, []), 1), events);
    assert Reaches(events, ExitedB(InitWith([]), Parent(Running, []), 1), h);
  }

  // ----- A signal for nobody

  /** Init runs, has A still to collect, or has collected it. */
  function InitRuns(): Table {
    Trio(InitWith([]), Parent(Terminated, []), B(Running, false, 0, [SIGHUP]), 3, 0)
  }

  function OrphanB(): Table {
    Trio(Init(Running, false, [], 0, Places(19, -1, -1)), ZERO, B(Running, false, 0, [SIGHUP]), 2, 0)
  }

  lemma InitIsChosen()
    ensures Permitted(KilledA(), Switch) && Step(KilledA(), Switch) == InitRuns()
    ensures !Terminates(Delivered(Chosen(KilledA())))
  {
    var t := KilledA();
    PickZero(t.slots, 2);
    assert Chosen(t) == t.(current := 0, cursor := 0) && [SIGCHLD][1..] == [];
    assert Step(t, Switch).slots == InitRuns().slots;
  }

  lemma ACollected()
    ensures CanCollect(Waiting(InitRuns())) && Collected(Waiting(InitRuns())) == OrphanB()
  {
    var t := Waiting(InitRuns());
    assert IsZombie(t.slots, t.slots[0].children[0]);
    PidAtSlot(t.slots, 2, 0, 1);
    assert Places(19, 1, -1)[0 := -1] == Places(19, -1, -1);
    assert Collected(t).slots == OrphanB().slots;
  }

  lemma WaitsForA()
    ensures Permitted(InitRuns(), Wait) && Step(InitRuns(), Wait) == Waiting(InitRuns())
    ensures Permitted(Waiting(InitRuns()), Collect) && Step(Waiting(InitRuns()), Collect) == OrphanB()
  {
    ACollected();
  }

  lemma OrphanIsNext()
    ensures var t := OrphanB();
            Permitted(t, Switch) && Clean(t) && EndedBy(t, Switch) == 2 && t.slots[t.slots[2].parent].pid == 0
  {
    PickOnly(OrphanB().slots, 0, 2);
  }

  lemma Orphaned(events: seq<Event>) returns (h: History)
    requires events == [Spawn, Switch, Spawn, Switch, Kill(2, SIGKILL), Switch, Wait, Collect]
    ensures Reaches(events, OrphanB(), h)
  {
    hide Step, Permitted, Chosen, Collected, CanCollect;
    InitIsChosen();
    WaitsForA();
    h := AIsKilled(events[..5]);
    Onward(events[..5], KilledA(), h, Switch, InitRuns(), events[..6]);
    Onward(events[..6], InitRuns(), h, Wait, Waiting(InitRuns()), events[..7]);
    Onward(events[..7], Waiting(InitRuns()), h, Collect, OrphanB(), events);
    h := Noted(Waiting(InitRuns()), h, Collect);
  }

  /** B kills its parent, and init collects that; the next switch ends B by SIGHUP, and the slot its parent had gets
      SIGCHLD: a slot without a process that is chosen from now on, and that no spawn takes. */
  lemma SignalForNobody(events: seq<Event>)
    requires events == [Spawn, Switch, Spawn, Switch, Kill(2, SIGKILL), Switch, Wait, Collect]
    ensures exists t, h ::
              && Reaches(events, t, h) && Clean(t) && CanStep(t, Switch) && EndedBy(t, Switch) == 2
              && t.slots[2].parent == 1 && t.slots[1] == ZERO
              && Step(t, Switch).slots[1].pid == 0 && Eligible(Step(t, Switch).slots[1])
  {
    var t := OrphanB();
    var h := Orphaned(events);
    OrphanIsNext();
    InitialOk();
    RunKeeps(Initial(), NothingYet(), events, t, h);
    StrayIsEligible(t, h, Switch);
    assert Reaches(events, t, h);
  }
}
