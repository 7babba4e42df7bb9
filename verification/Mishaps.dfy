/** Runs from init's first moment in which a wait, an exit status or a SIGHUP goes wrong. */
module Mishaps {
  import opened Scheduling
  import opened Processes

  // ----- Tables of twenty slots

  /** Twenty slots whose first four are given. */
  function Slots(a: Process, b: Process, c: Process, d: Process): (r: seq<Process>)
    ensures |r| == 20 && r[0] == a && r[1] == b && r[2] == c && r[3] == d && forall i | 4 <= i < 20 :: r[i] == ZERO
  {
    [a, b, c, d] + seq(16, _ => ZERO)
  }

  /** `n` places whose first two are given. */
  function Places(n: nat, a: int, b: int): (r: seq<int>)
    requires n >= 2
    ensures |r| == n && r[0] == a && r[1] == b && forall i | 2 <= i < n :: r[i] == -1
  {
    [a, b] + seq(n - 2, _ => -1)
  }

  function Init(state: State, kernelMode: bool, pending: seq<nat>, count: nat, places: seq<int>): Process {
    Process(1, state, 0, kernelMode, pending, -1, count, places)
  }

  lemma {:induction false} ZeroAt(slots: seq<Process>, i: nat, z: nat)
    requires i <= z < |slots| && slots[z] == ZERO && forall j | i <= j < z :: slots[j] != ZERO
    ensures ZeroFrom(slots, i) == z
    decreases z - i
  {
    if i < z { ZeroAt(slots, i + 1, z); }
  }

  lemma {:induction false} NullAt(children: seq<int>, i: nat, k: nat)
    requires i <= k < |children| && children[k] < 0 && forall j | i <= j < k :: children[j] >= 0
    ensures NullFrom(children, i) == k
    decreases k - i
  {
    if i < k { NullAt(children, i + 1, k); }
  }

  lemma {:induction false} PidAtSlot(slots: seq<Process>, pid: nat, i: nat, s: nat)
    requires i <= s < |slots| && slots[s].pid == pid && forall j | i <= j < s :: slots[j].pid != pid
    ensures PidFrom(slots, pid, i) == s
    decreases s - i
  {
    if i < s { PidAtSlot(slots, pid, i + 1, s); }
  }

  /** Only one slot is eligible, and it is picked. */
  lemma PickOnly(slots: seq<Process>, cursor: nat, s: nat)
    requires cursor < |slots| && s < |slots| && Eligible(slots[s])
    requires forall j | 0 <= j < |slots| && j != s :: !Eligible(slots[j])
    ensures Pick(slots, cursor) == s
  {
    PickIsNext(slots, cursor);
  }

  /** A spawn into slot `z` that the parent notes in its place `k`. */
  lemma SpawnIs(t: Table, z: nat, k: nat)
    requires CanSpawn(t) && Admitted(t) && z < |t.slots| && t.slots[z] == ZERO
    requires forall j | 0 <= j < z :: t.slots[j] != ZERO
    requires var p := t.slots[t.current];
             k < |p.children| && p.children[k] < 0 && forall j | 0 <= j < k :: p.children[j] >= 0
    ensures var p := t.slots[t.current];
            var p' := p.(children := p.children[k := z], childrenCount := p.childrenCount + 1);
            Spawned(t) == t.(slots := t.slots[z := Fresh(t.nextPid, t.current, |p.children| - 1)][t.current := p'],
                             count := t.count + 1, nextPid := t.nextPid + 1)
    ensures z != t.current && Spawned(t).slots[z] == Process(t.nextPid, Ready, 0, false, [], t.current, 0,
                                                             seq(|t.slots[t.current].children| - 1, _ => -1))
  {
    ZeroAt(t.slots, 0, z);
    NullAt(t.slots[t.current].children, 0, k);
  }

  /** The end of a process without children: its parent gets SIGCHLD. */
  lemma ChildlessKilled(t: Table, s: nat)
    requires CanKill(t, s) && t.slots[s].childrenCount == 0 && t.slots[s].parent != s
    ensures var p, q := t.slots[s], t.slots[t.slots[s].parent];
            Killed(t, s).slots == t.slots[p.parent := q.(pending := q.pending + [SIGCHLD])]
                                         [s := p.(pending := [], state := Terminated)]
  {
  }

  // ----- Runs

  /** A run from init's first moment leads to this table with this history. */
  ghost predicate Reaches(events: seq<Event>, t: Table, h: History) {
    Runs(Initial(), NothingYet(), events, t, h)
  }

  lemma {:induction false} RunsOneMore(t0: Table, h0: History, events: seq<Event>, t: Table, h: History, e: Event)
    requires Runs(t0, h0, events, t, h) && t.cursor < |t.slots| && t.count > 0 && Permitted(t, e)
    ensures Runs(t0, h0, events + [e], Step(t, e), Noted(t, h, e))
    decreases |events|
  {
    if events == [] {
      assert [e][1..] == [];
      assert [] + [e] == [e];
    } else {
      RunsOneMore(Step(t0, events[0]), Noted(t0, h0, events[0]), events[1..], t, h, e);
      assert (events + [e])[1..] == events[1..] + [e];
    }
  }

  lemma Onward(before: seq<Event>, t: Table, h: History, e: Event, t': Table, after: seq<Event>)
    requires Reaches(before, t, h) && after == before + [e]
    requires t.cursor < |t.slots| && t.count > 0 && Permitted(t, e) && Step(t, e) == t'
    ensures Reaches(after, t', Noted(t, h, e))
  {
    RunsOneMore(Initial(), NothingYet(), before, t, h, e);
  }

  // ----- One or two children of init

  function OneChild(): Table {
    Table(Slots(Init(Running, false, [], 1, Places(19, 1, -1)), Fresh(2, 0, 18), ZERO, ZERO), 2, 3, 0, 1)
  }

  lemma FirstSpawn()
    ensures CanSpawn(Initial()) && Spawned(Initial()) == OneChild()
  {
    var t := Initial();
    SpawnIs(t, 1, 0);
    assert t.slots[0].children[0 := 1] == Places(19, 1, -1);
    assert Spawned(t).slots == OneChild().slots;
  }

  // ----- A SIGCHLD left over

  function AfterSpawns(): Table {
    Table(Slots(Init(Running, false, [], 2, Places(19, 1, 2)), Fresh(2, 0, 18), Fresh(3, 0, 18), ZERO), 3, 4, 0, 1)
  }

  /** The second child killed, and init running, or in sys_wait. */
  function AfterKill(waiting: bool): Table {
    var state := if waiting then WaitingForChildExit else Running;
    AfterSpawns().(slots := Slots(Init(state, waiting, [SIGCHLD], 2, Places(19, 1, 2)), Fresh(2, 0, 18),
                                  Fresh(3, 0, 18).(state := Terminated), ZERO))
  }

  /** The second child collected, and init running, or in sys_wait again. */
  function AfterCollect(waiting: bool): Table {
    var state := if waiting then WaitingForChildExit else Running;
    Table(Slots(Init(state, waiting, [SIGCHLD], 1, Places(19, 1, -1)), Fresh(2, 0, 18), ZERO, ZERO), 2, 4, 0, 1)
  }

  lemma SecondSpawn()
    ensures CanSpawn(OneChild()) && Spawned(OneChild()) == AfterSpawns()
  {
    var t := OneChild();
    SpawnIs(t, 2, 1);
    assert Places(19, 1, -1)[1 := 2] == Places(19, 1, 2);
    assert Spawned(t).slots == AfterSpawns().slots;
  }

  lemma KillSecond()
    ensures Permitted(AfterSpawns(), Kill(3, SIGKILL)) && Step(AfterSpawns(), Kill(3, SIGKILL)) == AfterKill(false)
    ensures Waiting(AfterKill(false)) == AfterKill(true)
  {
    var t := AfterSpawns();
    PidAtSlot(t.slots, 3, 0, 2);
    ChildlessKilled(t, 2);
    assert t.slots[0].pending + [SIGCHLD] == [SIGCHLD];
    assert Killed(t, 2).slots == AfterKill(false).slots;
    assert Waiting(AfterKill(false)).slots == AfterKill(true).slots;
  }

  lemma CollectSecond()
    ensures CanCollect(AfterKill(true)) && Collected(AfterKill(true)) == AfterCollect(false)
    ensures Waiting(AfterCollect(false)) == AfterCollect(true)
  {
    var t := AfterKill(true);
    assert IsZombie(t.slots, t.slots[0].children[1]);
    PidAtSlot(t.slots, 3, 0, 2);
    assert Places(19, 1, 2)[1 := -1] == Places(19, 1, -1);
    assert Collected(t).slots == AfterCollect(false).slots;
    assert Waiting(AfterCollect(false)).slots == AfterCollect(true).slots;
  }

  lemma StaleSwitch()
    ensures Permitted(AfterCollect(true), Switch) && Astray(Step(AfterCollect(true), Switch))
  {
    var t := AfterCollect(true);
    PickIsNext(t.slots, 1);
    assert Eligible(t.slots[0]) && Distance(20, 1, 0) == 19 && Eligible(t.slots[1]) && Distance(20, 1, 1) == 20;
    assert Pick(t.slots, 1) == 0;
    assert Step(t, Switch).slots[0].children == Places(19, 1, -1);
  }

  /** The waiter runs on in sys_wait, and there is nothing to collect. */
  predicate Astray(t: Table) {
    t.current == 0 && |t.slots| > 0 && t.slots[0].state == Ready && !CanCollect(t)
  }

  lemma StaleBegins(a: seq<Event>) returns (h: History)
    requires a == [Spawn, Spawn, Kill(3, SIGKILL), Wait]
    ensures Reaches(a, AfterKill(true), h)
  {
    FirstSpawn();
    SecondSpawn();
    KillSecond();
    h := NothingYet();
    Onward([], Initial(), h, Spawn, OneChild(), a[..1]);
    h := Noted(Initial(), h, Spawn);
    Onward(a[..1], OneChild(), h, Spawn, AfterSpawns(), a[..2]);
    h := Noted(OneChild(), h, Spawn);
    Onward(a[..2], AfterSpawns(), h, Kill(3, SIGKILL), AfterKill(false), a[..3]);
    h := Noted(AfterSpawns(), h, Kill(3, SIGKILL));
    Onward(a[..3], AfterKill(false), h, Wait, AfterKill(true), a);
  }

  lemma StaleGoesOn(a: seq<Event>, h: History, b: seq<Event>) returns (t: Table, h': History)
    requires Reaches(a, AfterKill(true), h) && b == a + [Collect, Wait, Switch]
    ensures Reaches(b, t, h') && Astray(t)
  {
    var h1 := WaitsAgain(a, h, b[..|a| + 2]);
    StaleSwitch();
    t, h' := Step(AfterCollect(true), Switch), Noted(AfterCollect(true), h1, Switch);
    Onward(b[..|a| + 2], AfterCollect(true), h1, Switch, t, b);
  }

  lemma WaitsAgain(a: seq<Event>, h: History, b: seq<Event>) returns (h': History)
    requires Reaches(a, AfterKill(true), h) && b == a + [Collect, Wait]
    ensures Reaches(b, AfterCollect(true), h')
  {
    CollectSecond();
    h' := Noted(AfterKill(true), h, Collect);
    Onward(a, AfterKill(true), h, Collect, AfterCollect(false), b[..|a| + 1]);
    Onward(b[..|a| + 1], AfterCollect(false), h', Wait, AfterCollect(true), b);
  }

  /**
   A SIGCHLD whose child has been collected already wakes the next wait: init kills the second of two
   children, collects it, waits again, and the switch resumes it although no child is TERMINATED.
   */
  lemma StaleSignal(events: seq<Event>)
    requires events == [Spawn, Spawn, Kill(3, SIGKILL), Wait, Collect, Wait, Switch]
    ensures exists t, h :: Reaches(events, t, h) && Astray(t)
  {
    var h := StaleBegins(events[..4]);
    var t, h' := StaleGoesOn(events[..4], h, events);
  }

  // ----- An exit status lost

  /** The child runs; it has exited with status 0; and init runs again. */
  function ChildRuns(): Table {
    Table(Slots(Init(Running, false, [], 1, Places(19, 1, -1)), Fresh(2, 0, 18).(state := Running), ZERO, ZERO),
          2, 3, 1, 1)
  }

  /** The child TERMINATED with this status and these signals, init with these. */
  function ChildDead(status: int, childPending: seq<nat>, init: Process, current: nat): Table {
    var child := Fresh(2, 0, 18).(state := Terminated, kernelMode := true, exitCode := status, pending := childPending);
    Table(Slots(init, child, ZERO, ZERO), 2, 3, current, current)
  }

  function InitWith(pending: seq<nat>): Process {
    Init(Running, false, pending, 1, Places(19, 1, -1))
  }

  lemma SwitchToChild()
    ensures Permitted(OneChild(), Switch) && Step(OneChild(), Switch) == ChildRuns()
    ensures Delivered(Chosen(OneChild())) == -1
  {
    PickOnly(OneChild().slots, 1, 1);
    assert Step(OneChild(), Switch).slots == ChildRuns().slots;
  }

  lemma ChildExits()
    ensures Permitted(ChildRuns(), Exit(0)) && Step(ChildRuns(), Exit(0)) == ChildDead(0, [], InitWith([SIGCHLD]), 1)
  {
    var t := Entered(ChildRuns());
    ChildlessKilled(t.(slots := t.slots[1 := t.slots[1].(state := Terminated, exitCode := 0)]), 1);
    assert t.slots[0].pending + [SIGCHLD] == [SIGCHLD];
    assert Step(ChildRuns(), Exit(0)).slots == ChildDead(0, [], InitWith([SIGCHLD]), 1).slots;
  }

  /** Init, which is not waiting, takes its SIGCHLD. */
  lemma SwitchToInit(status: int)
    ensures var t := ChildDead(status, [], InitWith([SIGCHLD]), 1);
            && Permitted(t, Switch) && Step(t, Switch) == ChildDead(status, [], InitWith([]), 0)
            && Delivered(Chosen(t)) == SIGCHLD
  {
    var t := ChildDead(status, [], InitWith([SIGCHLD]), 1);
    PickOnly(t.slots, 1, 0);
    assert Step(t, Switch).slots == ChildDead(status, [], InitWith([]), 0).slots;
  }

  lemma InitSendsTerm()
    ensures var t := ChildDead(0, [], InitWith([]), 0);
            Permitted(t, Kill(2, SIGTERM)) && Step(t, Kill(2, SIGTERM)) == ChildDead(0, [SIGTERM], InitWith([]), 0)
  {
    var t := ChildDead(0, [], InitWith([]), 0);
    PidAtSlot(t.slots, 2, 0, 1);
    assert t.slots[1].pending + [SIGTERM] == [SIGTERM];
    assert Step(t, Kill(2, SIGTERM)).slots == ChildDead(0, [SIGTERM], InitWith([]), 0).slots;
  }

  lemma DeadDiesAgain()
    ensures var t := ChildDead(0, [SIGTERM], InitWith([]), 0);
            Permitted(t, Switch) && Step(t, Switch) == ChildDead(143, [], InitWith([SIGCHLD]), 1)
    ensures Chosen(ChildDead(0, [SIGTERM], InitWith([]), 0)).current == 1
    ensures Delivered(Chosen(ChildDead(0, [SIGTERM], InitWith([]), 0))) == SIGTERM
  {
    var t := ChildDead(0, [SIGTERM], InitWith([]), 0);
    PickOnly(t.slots, 0, 1);
    var c := Chosen(t);
    var t1 := c.(slots := c.slots[1 := c.slots[1].(pending := [])]);
    ChildlessKilled(t1.(slots := t1.slots[1 := t1.slots[1].(state := Terminated, exitCode := 143)]), 1);
    assert t1.slots[0].pending + [SIGCHLD] == [SIGCHLD];
    assert Step(t, Switch).slots == ChildDead(143, [], InitWith([SIGCHLD]), 1).slots;
  }

  lemma InitCollects()
    ensures var t := Waiting(ChildDead(143, [], InitWith([]), 0));
            CanCollect(t) && DeadSlot(t) == 1 && t.slots[1].exitCode == 143
  {
    var t := Waiting(ChildDead(143, [], InitWith([]), 0));
    assert IsZombie(t.slots, t.slots[0].children[0]);
  }

  lemma ChildRunsSoon(a: seq<Event>) returns (h: History)
    requires a == [Spawn, Switch]
    ensures Reaches(a, ChildRuns(), h) && h.deaths == map[] && h.reaped == []
  {
    FirstSpawn();
    SwitchToChild();
    h := NothingYet();
    Onward([], Initial(), h, Spawn, OneChild(), a[..1]);
    h := Noted(Initial(), h, Spawn);
    Onward(a[..1], OneChild(), h, Switch, ChildRuns(), a);
  }

  lemma ExitNoted(a: seq<Event>, h0: History, b: seq<Event>) returns (h: History)
    requires Reaches(a, ChildRuns(), h0) && h0.deaths == map[] && h0.reaped == [] && b == a + [Exit(0)]
    ensures Reaches(b, ChildDead(0, [], InitWith([SIGCHLD]), 1), h)
    ensures h.deaths == map[2 := [0]] && h.reaped == []
  {
    ChildExits();
    Onward(a, ChildRuns(), h0, Exit(0), ChildDead(0, [], InitWith([SIGCHLD]), 1), b);
    h := Noted(ChildRuns(), h0, Exit(0));
    assert [] + [0] == [0];
    assert Died(map[], 2, 0) == map[2 := [0]];
  }

  lemma TermSent(a: seq<Event>, h: History, b: seq<Event>)
    requires Reaches(a, ChildDead(0, [], InitWith([SIGCHLD]), 1), h) && b == a + [Switch, Kill(2, SIGTERM)]
    ensures Reaches(b, ChildDead(0, [SIGTERM], InitWith([]), 0), h)
  {
    SwitchToInit(0);
    InitSendsTerm();
    var t1, t2 := ChildDead(0, [], InitWith([SIGCHLD]), 1), ChildDead(0, [], InitWith([]), 0);
    Onward(a, t1, h, Switch, t2, b[..|a| + 1]);
    Onward(b[..|a| + 1], t2, h, Kill(2, SIGTERM), ChildDead(0, [SIGTERM], InitWith([]), 0), b);
  }

  lemma TermNoted(a: seq<Event>, h0: History, b: seq<Event>) returns (h: History)
    requires Reaches(a, ChildDead(0, [SIGTERM], InitWith([]), 0), h0) && h0.deaths == map[2 := [0]] && h0.reaped == []
    requires b == a + [Switch]
    ensures Reaches(b, ChildDead(143, [], InitWith([SIGCHLD]), 1), h)
    ensures h.deaths == map[2 := [0, 143]] && h.reaped == []
  {
    DeadDiesAgain();
    var t := ChildDead(0, [SIGTERM], InitWith([]), 0);
    Onward(a, t, h0, Switch, ChildDead(143, [], InitWith([SIGCHLD]), 1), b);
    h := Noted(t, h0, Switch);
    assert [0] + [143] == [0, 143];
    assert Died(map[2 := [0]], 2, 143) == map[2 := [0, 143]];
  }

  lemma WaitReached(a: seq<Event>, h: History, b: seq<Event>)
    requires Reaches(a, ChildDead(143, [], InitWith([SIGCHLD]), 1), h) && b == a + [Switch, Wait]
    ensures Reaches(b, Waiting(ChildDead(143, [], InitWith([]), 0)), h)
  {
    SwitchToInit(143);
    var t1, t2 := ChildDead(143, [], InitWith([SIGCHLD]), 1), ChildDead(143, [], InitWith([]), 0);
    Onward(a, t1, h, Switch, t2, b[..|a| + 1]);
    Onward(b[..|a| + 1], t2, h, Wait, Waiting(t2), b);
  }

  lemma CollectNoted(a: seq<Event>, h0: History, b: seq<Event>) returns (t: Table, h: History)
    requires Reaches(a, Waiting(ChildDead(143, [], InitWith([]), 0)), h0) && h0.reaped == [] && b == a + [Collect]
    ensures Reaches(b, t, h) && h.deaths == h0.deaths && h.reaped == [Reaped(1, 2, 143)]
  {
    InitCollects();
    var w := Waiting(ChildDead(143, [], InitWith([]), 0));
    t := Collected(w);
    Onward(a, w, h0, Collect, t, b);
    h := Noted(w, h0, Collect);
    assert w.slots[1].pid == 2 && w.slots[0].pid == 1;
  }

  /**
   SIGTERM to a process that has exited already ends it once more: the child exits with status 0, init sends
   SIGTERM to it before waiting, the switch delivers it, and sys_wait returns status 143.
   */
  lemma StatusLost(events: seq<Event>)
    requires events == [Spawn, Switch, Exit(0), Switch, Kill(2, SIGTERM), Switch, Switch, Wait, Collect]
    ensures exists t, h :: Reaches(events, t, h) && h.deaths == map[2 := [0, 143]] && h.reaped == [Reaped(1, 2, 143)]
  {
    var h := ChildRunsSoon(events[..2]);
    h := ExitNoted(events[..2], h, events[..3]);
    TermSent(events[..3], h, events[..5]);
    h := TermNoted(events[..5], h, events[..6]);
    WaitReached(events[..6], h, events[..8]);
    var t, h' := CollectNoted(events[..8], h, events);
  }

  // ----- A child that is not told

  /** The tables of a process A that init spawned, with two children of its own in slots 2 and 3. */
  function Household(a: Process, b: Process, count: nat, initPending: seq<nat>): Table {
    Table(Slots(Init(Running, false, initPending, 1, Places(19, 1, -1)), a, b, Fresh(4, 1, 17)), count, 5, 1, 1)
  }

  function A(state: State, kernelMode: bool, pending: seq<nat>, count: nat, places: seq<int>): Process {
    Process(2, state, 0, kernelMode, pending, 0, count, places)
  }

  lemma GrandchildrenSpawn()
    ensures var one := Spawned(ChildRuns());
            CanSpawn(ChildRuns()) && CanSpawn(one)
            && Spawned(one) == Household(A(Running, false, [], 2, Places(18, 2, 3)), Fresh(3, 1, 17), 4, [])
  {
    var t, none := ChildRuns(), Fresh(2, 0, 18).children;
    SpawnIs(t, 2, 0);
    assert none[0 := 2] == Places(18, 2, -1);
    var one := Spawned(t);
    assert one.slots == Slots(t.slots[0], A(Running, false, [], 1, Places(18, 2, -1)), Fresh(3, 1, 17), ZERO);
    SpawnIs(one, 3, 1);
    assert Places(18, 2, -1)[1 := 3] == Places(18, 2, 3);
    assert Spawned(one).slots
        == Household(A(Running, false, [], 2, Places(18, 2, 3)), Fresh(3, 1, 17), 4, []).slots;
  }

  lemma GrandchildKilled()
    ensures var t := Household(A(Running, false, [], 2, Places(18, 2, 3)), Fresh(3, 1, 17), 4, []);
            Permitted(t, Kill(3, SIGKILL)) && Step(t, Kill(3, SIGKILL)) ==
              Household(A(Running, false, [SIGCHLD], 2, Places(18, 2, 3)), Fresh(3, 1, 17).(state := Terminated), 4, [])
  {
    var t := Household(A(Running, false, [], 2, Places(18, 2, 3)), Fresh(3, 1, 17), 4, []);
    PidAtSlot(t.slots, 3, 0, 2);
    ChildlessKilled(t, 2);
    assert t.slots[1].pending + [SIGCHLD] == [SIGCHLD];
    assert Step(t, Kill(3, SIGKILL)).slots ==
      Household(A(Running, false, [SIGCHLD], 2, Places(18, 2, 3)), Fresh(3, 1, 17).(state := Terminated), 4, []).slots;
  }

  /** A's first place is null, and its child C is in the second. */
  function WithHole(): Table {
    Household(A(Running, false, [SIGCHLD], 1, Places(18, -1, 3)), ZERO, 3, [])
  }

  lemma GrandchildCollected()
    ensures var t := Waiting(Household(A(Running, false, [SIGCHLD], 2, Places(18, 2, 3)),
                                    Fresh(3, 1, 17).(state := Terminated), 4, []));
            CanCollect(t) && Collected(t) == WithHole()
  {
    var t := Waiting(Household(A(Running, false, [SIGCHLD], 2, Places(18, 2, 3)),
                            Fresh(3, 1, 17).(state := Terminated), 4, []));
    assert IsZombie(t.slots, t.slots[1].children[0]);
    PidAtSlot(t.slots, 3, 0, 2);
    assert Places(18, 2, 3)[0 := -1] == Places(18, -1, 3);
    assert Collected(t).slots == WithHole().slots;
  }

  lemma HoleReached(events: seq<Event>) returns (h: History)
    requires events == [Spawn, Switch, Spawn, Spawn, Kill(3, SIGKILL), Wait, Collect]
    ensures Reaches(events, WithHole(), h)
  {
    h := ChildRunsSoon(events[..2]);
    h := GrandchildrenReached(events[..2], h, events[..4]);
    h := GrandchildGone(events[..4], h, events);
  }

  lemma GrandchildrenReached(a: seq<Event>, h0: History, b: seq<Event>) returns (h: History)
    requires Reaches(a, ChildRuns(), h0) && b == a + [Spawn, Spawn]
    ensures Reaches(b, Household(A(Running, false, [], 2, Places(18, 2, 3)), Fresh(3, 1, 17), 4, []), h)
  {
    GrandchildrenSpawn();
    var n := |a|;
    var one := Spawned(ChildRuns());
    Onward(a, ChildRuns(), h0, Spawn, one, b[..n + 1]);
    h := Noted(ChildRuns(), h0, Spawn);
    Onward(b[..n + 1], one, h, Spawn, Spawned(one), b);
    h := Noted(one, h, Spawn);
  }

  lemma GrandchildGone(a: seq<Event>, h0: History, b: seq<Event>) returns (h: History)
    requires Reaches(a, Household(A(Running, false, [], 2, Places(18, 2, 3)), Fresh(3, 1, 17), 4, []), h0)
    requires b == a + [Kill(3, SIGKILL), Wait, Collect]
    ensures Reaches(b, WithHole(), h)
  {
    GrandchildKilled();
    GrandchildCollected();
    var n := |a|;
    var t := Household(A(Running, false, [], 2, Places(18, 2, 3)), Fresh(3, 1, 17), 4, []);
    var t' := Step(t, Kill(3, SIGKILL));
    Onward(a, t, h0, Kill(3, SIGKILL), t', b[..n + 1]);
    h := Noted(t, h0, Kill(3, SIGKILL));
    Onward(b[..n + 1], t', h, Wait, Waiting(t'), b[..n + 2]);
    Onward(b[..n + 2], Waiting(t'), h, Collect, WithHole(), b);
    h := Noted(Waiting(t'), h, Collect);
  }

  /**
   A child behind a null is not told: a process spawns two children, kills and collects the first, and exits;
   the second, alive and in its parent's second place, gets no SIGHUP, and the null in the first place is met.
   */
  lemma ChildNotTold(events: seq<Event>)
    requires events == [Spawn, Switch, Spawn, Spawn, Kill(3, SIGKILL), Wait, Collect]
    ensures exists t, h ::
              && Reaches(events, t, h) && t.cursor < |t.slots| && t.count > 0 && Permitted(t, Exit(0))
              && t.current == 1 && |t.slots| == 20 && |t.slots[1].children| == 18 && t.slots[1].childrenCount == 1
              && t.slots[1].children[0] == -1 && t.slots[1].children[1] == 3
              && t.slots[3].state == Ready && t.slots[3].parent == 1
              && Step(t, Exit(0)).slots[3] == t.slots[3]
  {
    var h := HoleReached(events);
    var t1 := Entered(WithHole());
    KillSignals(t1.(slots := t1.slots[1 := t1.slots[1].(state := Terminated, exitCode := 0)]), 1, 3);
    HupsNone(Places(18, -1, 3), 1, 3);
    assert t1.slots[3].pending + [] + [] == [];
  }
}
