/** Who wakes whom: what ends a process's sleep, what sys_wait then finds, and which slots can be chosen. */
module Waits {
  import opened Scheduling
  import opened Processes

  // ----- What a step does to one slot

  /** The slot of the process that a step ends, or -1. */
  function EndedBy(t: Table, e: Event): (s: int)
    requires t.cursor < |t.slots| && Permitted(t, e)
    ensures -1 <= s < |t.slots| && (s >= 0 ==> 0 <= t.slots[s].parent < |t.slots|)
  {
    match e
    case Exit(_) => t.current
    case Kill(pid, sig) =>
      var s := PidFrom(t.slots, pid, 0);
      if sig == SIGTERM || s == |t.slots| then -1 else s
    case Switch => if Terminates(Delivered(Chosen(t))) then Chosen(t).current else -1
    case _ => -1
  }

  /** The slot that a step sends SIGTERM to, or -1. */
  function TermedBy(t: Table, e: Event): int {
    if e.Kill? && e.sig == SIGTERM && PidFrom(t.slots, e.pid, 0) < |t.slots| then PidFrom(t.slots, e.pid, 0) else -1
  }

  /** The signals that slot `q` gets when the process in slot `s` ends. */
  function SentBy(t: Table, s: nat, q: nat): seq<nat>
    requires s < |t.slots|
  {
    var p := t.slots[s];
    (if q == p.parent then [SIGCHLD] else []) +
    Hups(p.children, if p.childrenCount <= |p.children| then p.childrenCount else 0, q)
  }

  /** Whoever ends, another slot only gets signals. */
  lemma EndSends(t: Table, e: Event, q: nat)
    requires t.cursor < |t.slots| && t.count > 0 && Permitted(t, e) && q < |t.slots|
    requires EndedBy(t, e) >= 0 && q != EndedBy(t, e)
    ensures Step(t, e).slots[q] == t.slots[q].(pending := t.slots[q].pending + SentBy(t, EndedBy(t, e), q))
  {
    var s := EndedBy(t, e);
    match e
    case Exit(status) =>
      ExitSends(Entered(t), status, q);
    case Switch =>
      var c := Chosen(t);
      var p := c.slots[s].(pending := c.slots[s].pending[1..]);
      ExitSends(c.(slots := c.slots[s := p]), 128 + Delivered(c), q);
    case Kill(pid, sig) =>
      KillSignals(t, s, q);
      Appended(t.slots[q].pending, if q == t.slots[s].parent then [SIGCHLD] else [],
               Hups(t.slots[s].children, t.slots[s].childrenCount, q));
  }

  lemma ExitSends(t: Table, status: int, q: nat)
    requires CanKill(t, t.current) && q < |t.slots| && q != t.current
    ensures Exited(t, status).slots[q] == t.slots[q].(pending := t.slots[q].pending + SentBy(t, t.current, q))
  {
    var s := t.current;
    KillSignals(t.(slots := t.slots[s := t.slots[s].(state := Terminated, exitCode := status)]), s, q);
    Appended(t.slots[q].pending, if q == t.slots[s].parent then [SIGCHLD] else [],
             Hups(t.slots[s].children, t.slots[s].childrenCount, q));
  }

  lemma Appended(a: seq<nat>, b: seq<nat>, c: seq<nat>)
    ensures a + b + c == a + (b + c)
  {
  }

  /** The process that ends is TERMINATED, with nothing pending. */
  lemma EndEnds(t: Table, e: Event)
    requires t.cursor < |t.slots| && t.count > 0 && Permitted(t, e) && EndedBy(t, e) >= 0
    ensures Step(t, e).slots[EndedBy(t, e)].state == Terminated && Step(t, e).slots[EndedBy(t, e)].pending == []
  {
  }

  /** The other steps change the slots of the process that runs, of a new or a collected one, and of one that
      is sent SIGTERM; nothing else. */
  lemma OthersStay(t: Table, h: History, e: Event, q: nat)
    requires Inv(t, h) && Permitted(t, e) && q < |t.slots| && EndedBy(t, e) < 0
    requires q != t.current && !(e == Switch && Chosen(t).current == q)
    requires !(e == Spawn && t.slots[q] == ZERO) && !(e == Collect && DeadSlot(t) == q)
    ensures Step(t, e).slots[q] ==
              t.slots[q].(pending := t.slots[q].pending + if TermedBy(t, e) == q then [SIGTERM] else [])
  {
    assert t.slots[q].pending + [] == t.slots[q].pending;
    if e == Collect { DeadSlotIs(t, h); }
  }

  // ----- What makes a TERMINATED process eligible

  /** One of the places that a kill goes through names slot `q`. */
  ghost predicate Names(p: Process, q: int) {
    exists i :: 0 <= i < |p.children| && i < p.childrenCount && p.children[i] == q
  }

  lemma {:induction false} HupsIff(children: seq<int>, n: nat, j: nat)
    requires n <= |children|
    ensures Hups(children, n, j) != [] <==> exists i :: 0 <= i < n && children[i] == j
  {
    if n > 0 { HupsIff(children, n - 1, j); }
  }

  /** The step ends a process whose parent pointer is slot `q`, or one of whose first childrenCount places
      names it, or it sends SIGTERM to the slot. */
  ghost predicate Wakes(t: Table, e: Event, q: int)
    requires t.cursor < |t.slots| && Permitted(t, e)
  {
    || (EndedBy(t, e) >= 0 && EndedBy(t, e) != q
        && (t.slots[EndedBy(t, e)].parent == q || Names(t.slots[EndedBy(t, e)], q)))
    || TermedBy(t, e) == q
  }

  /** The end of a time slice while the process is current and in user mode: it has run on since it ended. */
  predicate Readied(t: Table, e: Event, q: int) {
    e == Preempt && t.current == q && 0 <= q < |t.slots| && !t.slots[q].kernelMode
  }

  /**
   A TERMINATED process with nothing pending is not looked at by the scheduler, and a step changes this
   exactly when it wakes the process, or when it ends a time slice of this very process in user mode.
   */
  lemma WakesIff(t: Table, h: History, e: Event, q: nat)
    requires Inv(t, h) && Permitted(t, e) && q < |t.slots|
    requires t.slots[q].state == Terminated && t.slots[q].pending == []
    ensures !Eligible(t.slots[q])
    ensures Eligible(Step(t, e).slots[q]) <==> Wakes(t, e, q) || Readied(t, e, q)
  {
    if EndedBy(t, e) == q {
      EndEnds(t, e);
      OneStep(t, e, q);
    } else if EndedBy(t, e) >= 0 {
      WakesByEnd(t, h, e, q);
    } else {
      WakesOtherwise(t, h, e, q);
    }
  }

  /** A step that ends a process sends no SIGTERM and ends no time slice. */
  lemma OneStep(t: Table, e: Event, q: int)
    requires t.cursor < |t.slots| && Permitted(t, e) && EndedBy(t, e) >= 0
    ensures TermedBy(t, e) == -1 && !Readied(t, e, q)
  {
  }

  lemma WakesByEnd(t: Table, h: History, e: Event, q: nat)
    requires Inv(t, h) && Permitted(t, e) && q < |t.slots| && EndedBy(t, e) >= 0 && EndedBy(t, e) != q
    requires t.slots[q].state == Terminated && t.slots[q].pending == []
    ensures Eligible(Step(t, e).slots[q]) <==> Wakes(t, e, q) || Readied(t, e, q)
  {
    var s := EndedBy(t, e);
    EndSends(t, e, q);
    EndedPlaces(t, h, e);
    OneStep(t, e, q);
    HupsIff(t.slots[s].children, t.slots[s].childrenCount, q);
    assert Names(t.slots[s], q) <==> Hups(t.slots[s].children, t.slots[s].childrenCount, q) != [];
    assert SentBy(t, s, q) != [] <==> t.slots[s].parent == q || Names(t.slots[s], q);
  }

  lemma WakesOtherwise(t: Table, h: History, e: Event, q: nat)
    requires Inv(t, h) && Permitted(t, e) && q < |t.slots| && EndedBy(t, e) < 0
    requires t.slots[q].state == Terminated && t.slots[q].pending == []
    ensures Eligible(Step(t, e).slots[q]) <==> TermedBy(t, e) == q || Readied(t, e, q)
  {
    hide DistinctPids, PidsBelow, Family, AllPlacesOk, ParentsOk, ZombiesRecorded, ReapsOk;
    if e == Switch && Chosen(t).current == q {
      ChosenAsleep(t, q);
    } else if e == Switch && q == t.current {
      SwitchSpares(t, q);
    } else if q == t.current {
      OwnSteps(t, h, e);
    } else if e == Collect && DeadSlot(t) == q {
      DeadSlotIs(t, h);
    } else {
      assert t.slots[q] != ZERO;
      OthersStay(t, h, e, q);
    }
  }

  /** A switch that ends no process leaves the slots alone that it does not choose. */
  lemma SwitchSpares(t: Table, q: nat)
    requires t.cursor < |t.slots| && t.count > 0 && Permitted(t, Switch) && EndedBy(t, Switch) < 0
    requires q < |t.slots| && Chosen(t).current != q
    ensures Step(t, Switch).slots[q] == t.slots[q]
  {
  }

  lemma EndedPlaces(t: Table, h: History, e: Event)
    requires Inv(t, h) && Permitted(t, e) && EndedBy(t, e) >= 0
    ensures var p := t.slots[EndedBy(t, e)]; p.childrenCount <= |p.children|
  {
    var p := t.slots[EndedBy(t, e)];
    assert PlacesOk(p);
    NonNullGrows(p.children, 0, |p.children|);
  }

  /** Only a process alone in the table is chosen without being eligible; it is not made eligible by it. */
  lemma ChosenAsleep(t: Table, q: nat)
    requires t.cursor < |t.slots| && t.count > 0 && q < |t.slots| && Chosen(t).current == q
    requires t.slots[q].pending == [] && t.slots[q].state != Ready
    ensures t.current == q && t.count == 1 && Delivered(Chosen(t)) == -1 && Permitted(t, Switch)
    ensures !Eligible(Step(t, Switch).slots[q])
    ensures Step(t, Switch) == if t.slots[q].kernelMode then t
                               else t.(slots := t.slots[q := t.slots[q].(state := Running)])
  {
    PickIsNext(t.slots, t.cursor);
    if t.slots[q].kernelMode {
      assert t.slots[q := t.slots[q]] == t.slots;
    }
  }

  /** What the current process does to its own slot other than ending and switching. */
  lemma OwnSteps(t: Table, h: History, e: Event)
    requires Inv(t, h) && Permitted(t, e) && 0 <= t.current < |t.slots| && EndedBy(t, e) < 0 && e != Switch
    ensures var p, p' := t.slots[t.current], Step(t, e).slots[t.current];
            && p'.pending == p.pending + (if TermedBy(t, e) == t.current then [SIGTERM] else [])
            && p'.state == (if e == Wait then WaitingForChildExit
                            else if e == Collect then Running
                            else if Readied(t, e, t.current) then Ready
                            else p.state)
            && (p'.exitCode == p.exitCode && p'.pid == p.pid)
  {
    var p := t.slots[t.current];
    assert p.pending + [] == p.pending;
    if e == Collect { DeadSlotIs(t, h); }
  }

  // ----- What sys_wait finds when it goes on

  predicate CanStep(t: Table, e: Event) {
    t.cursor < |t.slots| && t.count > 0 && Permitted(t, e)
  }

  /** The process in slot `c` goes on running by this step, and is not TERMINATED after it. */
  predicate RunsOn(t: Table, e: Event, c: int)
    requires t.cursor < |t.slots| && Permitted(t, e)
  {
    match e
    case Wait => t.current == c
    case Collect => t.current == c
    case Preempt => Readied(t, e, c)
    case Switch => 0 <= c < |t.slots| && Chosen(t).current == c && EndedBy(t, e) < 0 && !t.slots[c].kernelMode
    case _ => false
  }

  /** A slot holds a TERMINATED process after a step exactly when the step ends the process, or it was
      TERMINATED before, does not run on, and is not collected. */
  lemma TerminatedIff(t: Table, h: History, e: Event, c: nat)
    requires Inv(t, h) && Permitted(t, e) && c < |t.slots|
    ensures Step(t, e).slots[c].state == Terminated <==>
              EndedBy(t, e) == c
              || (t.slots[c].state == Terminated && !RunsOn(t, e, c) && !(e == Collect && DeadSlot(t) == c))
  {
    hide DistinctPids, PidsBelow, Family, AllPlacesOk, ParentsOk, ZombiesRecorded, ReapsOk;
    if EndedBy(t, e) == c {
      EndEnds(t, e);
    } else if EndedBy(t, e) >= 0 {
      EndSends(t, e, c);
    } else if e == Switch {
      if Chosen(t).current != c { SwitchSpares(t, c); }
    } else if e == Collect && DeadSlot(t) == c {
      DeadSlotIs(t, h);
    } else if c == t.current {
      OwnSteps(t, h, e);
    } else if !(e == Spawn && t.slots[c] == ZERO) {
      OthersStay(t, h, e, c);
    }
  }

  /** A step during which the process in slot `p` stays in sys_wait. */
  predicate Idles(t: Table, e: Event, p: nat)
    requires t.cursor < |t.slots| && Permitted(t, e) && p < |t.slots|
  {
    && t.slots[p].state == WaitingForChildExit && t.slots[p].kernelMode
    && EndedBy(t, e) != p && (t.current == p ==> e == Switch || e == Preempt)
    && (e == Switch ==> Chosen(t).current != p)
  }

  /** Meanwhile it only gets signals, and SIGCHLD only when a process ends whose parent pointer it is. */
  lemma IdleGets(t: Table, h: History, e: Event, p: nat)
    requires Inv(t, h) && Permitted(t, e) && p < |t.slots| && Idles(t, e, p)
    ensures Step(t, e).slots[p] == t.slots[p].(pending := Step(t, e).slots[p].pending)
    ensures SIGCHLD in Step(t, e).slots[p].pending ==>
              SIGCHLD in t.slots[p].pending || (EndedBy(t, e) >= 0 && t.slots[EndedBy(t, e)].parent == p)
  {
    if EndedBy(t, e) >= 0 {
      EndSends(t, e, p);
      var q := t.slots[EndedBy(t, e)];
      HupsOnly(q.children, if q.childrenCount <= |q.children| then q.childrenCount else 0, p);
    } else if e == Switch {
      SwitchSpares(t, p);
    } else if p == t.current {
    } else {
      if e == Collect { DeadSlotIs(t, h); }
      OthersStay(t, h, e, p);
    }
  }

  lemma {:induction false} HupsOnly(children: seq<int>, n: nat, j: nat)
    requires n <= |children|
    ensures SIGCHLD !in Hups(children, n, j)
  {
    if n > 0 { HupsOnly(children, n - 1, j); }
  }

  /** A run during which the process in slot `p` stays in sys_wait. */
  ghost predicate Sleeps(t: Table, events: seq<Event>, p: nat)
    decreases |events|
  {
    events == [] ||
    (CanStep(t, events[0]) && p < |t.slots| && Idles(t, events[0], p) && Sleeps(Step(t, events[0]), events[1..], p))
  }

  /** Whether, at the end of a run, the process in slot `c` has ended and not run on since; `down` tells
      whether it had at the beginning. */
  ghost predicate Down(t: Table, events: seq<Event>, c: int, down: bool)
    decreases |events|
  {
    if events == [] then down
    else
      && CanStep(t, events[0])
      && Down(Step(t, events[0]), events[1..], c, EndedBy(t, events[0]) == c || (down && !RunsOn(t, events[0], c)))
  }

  /** Place `i` of the process in slot `p` names slot `c`. */
  predicate ChildAt(t: Table, p: nat, i: nat, c: int) {
    p < |t.slots| && i < |t.slots[p].children| && t.slots[p].children[i] == c && 0 <= c < |t.slots|
  }

  /** The two tables differ in slot `p` by pending signals at most. */
  predicate SameButSignals(t: Table, t': Table, p: nat) {
    |t'.slots| == |t.slots| && p < |t.slots| && t'.slots[p] == t.slots[p].(pending := t'.slots[p].pending)
  }

  lemma IdleSame(t: Table, h: History, e: Event, p: nat)
    requires Inv(t, h) && Permitted(t, e) && p < |t.slots| && Idles(t, e, p)
    ensures Inv(Step(t, e), Noted(t, h, e)) && SameButSignals(t, Step(t, e), p)
  {
    hide DistinctPids, PidsBelow, Family, AllPlacesOk, ParentsOk, ZombiesRecorded, ReapsOk;
    StepKeeps(t, h, e);
    IdleGets(t, h, e, p);
  }

  /** A child of the process that waits keeps its place and its slot, and is TERMINATED after the step when it
      was, or ends, and does not run on. */
  lemma IdleChild(t: Table, h: History, e: Event, p: nat, i: nat, c: int)
    requires Inv(t, h) && Permitted(t, e) && ChildAt(t, p, i, c) && Idles(t, e, p)
    ensures Inv(Step(t, e), Noted(t, h, e)) && ChildAt(Step(t, e), p, i, c) && SameButSignals(t, Step(t, e), p)
    ensures Step(t, e).slots[c].state == Terminated <==>
              EndedBy(t, e) == c || (t.slots[c].state == Terminated && !RunsOn(t, e, c))
  {
    IdleSame(t, h, e, p);
    if e == Collect && DeadSlot(t) == c { DeadPlaceIs(t, h, p, i); }
    TerminatedIff(t, h, e, c);
  }

  lemma {:induction false} DownIs(t: Table, h: History, events: seq<Event>, p: nat, i: nat, c: int,
                                  t': Table, h': History)
    requires Inv(t, h) && Runs(t, h, events, t', h') && Sleeps(t, events, p) && ChildAt(t, p, i, c)
    ensures ChildAt(t', p, i, c) && SameButSignals(t, t', p)
    ensures t'.slots[c].state == Terminated <==> Down(t, events, c, t.slots[c].state == Terminated)
    decreases |events|
  {
    if events != [] {
      IdleChild(t, h, events[0], p, i, c);
      DownIs(Step(t, events[0]), Noted(t, h, events[0]), events[1..], p, i, c, t', h');
    }
  }

  lemma ResumedWaiter(t: Table, p: nat)
    requires CanStep(t, Switch) && p < |t.slots| && t.slots[p].state == WaitingForChildExit
    requires Chosen(t).current == p && Delivered(Chosen(t)) == SIGCHLD
    ensures Step(t, Switch).current == p
    ensures Step(t, Switch).slots == t.slots[p := t.slots[p].(pending := t.slots[p].pending[1..], state := Ready)]
  {
  }

  /** The process in slot `p` can return a child from sys_wait once it has been resumed in it, when it has a
      TERMINATED one. */
  lemma ResumedCollects(t: Table, h: History, p: nat)
    requires Inv(t, h) && CanStep(t, Switch) && p < |t.slots| && t.slots[p].state == WaitingForChildExit
    requires Chosen(t).current == p && Delivered(Chosen(t)) == SIGCHLD
    ensures Step(t, Switch).current == p
    ensures CanCollect(Step(t, Switch)) <==> exists i, c :: ZombieAt(t, p, i, c)
  {
    ResumedWaiter(t, p);
    StepKeeps(t, h, Switch);
    CollectIff(Step(t, Switch), Noted(t, h, Switch));
    ZombiesSeen(t.slots, Step(t, Switch).slots, t, p);
  }

  /** Place `i` names slot `c`, where there is a TERMINATED process. */
  predicate ZombieAt(t: Table, p: nat, i: nat, c: int) {
    ChildAt(t, p, i, c) && t.slots[c].state == Terminated
  }

  lemma ZombiesSeen(slots: seq<Process>, slots': seq<Process>, t: Table, p: nat)
    requires slots == t.slots && p < |slots| && slots[p].state != Terminated
    requires |slots'| == |slots| && slots' == slots[p := slots'[p]]
    requires slots'[p].children == slots[p].children && slots'[p].state != Terminated
    ensures (exists i, c :: ZombieAt(t, p, i, c)) <==>
            exists i :: 0 <= i < |slots'[p].children| && IsZombie(slots', slots'[p].children[i])
  {
    forall i: nat, c | ZombieAt(t, p, i, c) ensures IsZombie(slots', slots'[p].children[i]) {
    }
    forall i: nat | i < |slots'[p].children| && IsZombie(slots', slots'[p].children[i])
      ensures ZombieAt(t, p, i, slots[p].children[i])
    {
    }
  }

  /** Place `i` names slot `c`, and the process there is down at the end of the wait that begins in `t`. */
  ghost predicate DownAt(t: Table, events: seq<Event>, p: nat, i: nat, c: int)
    requires 0 <= t.current < |t.slots|
  {
    ChildAt(t, p, i, c) && Down(Waiting(t), events, c, t.slots[c].state == Terminated)
  }

  /**
   What a wait finds, over every run: from the moment a process enters sys_wait to the switch that delivers a
   SIGCHLD to it, whatever the others do, there is a child to return exactly when some child of its has ended
   (or had, when the wait began) and has not run on since.
   */
  lemma WaitFinds(t: Table, h: History, p: nat, events: seq<Event>, t': Table, h': History)
    requires Inv(t, h) && p == t.current && p < |t.slots|
    requires Runs(Waiting(t), h, events, t', h') && Sleeps(Waiting(t), events, p)
    requires CanStep(t', Switch) && Chosen(t').current == p && Delivered(Chosen(t')) == SIGCHLD
    ensures Step(t', Switch).current == p
    ensures CanCollect(Step(t', Switch)) <==>
              exists i, c :: DownAt(t, events, p, i, c)
  {
    hide DistinctPids, PidsBelow, Family, AllPlacesOk, ParentsOk, ZombiesRecorded, ReapsOk;
    WaitKeeps(t, h);
    RunKeeps(Waiting(t), h, events, t', h');
    SleptSame(Waiting(t), h, events, p, t', h');
    ResumedCollects(t', h', p);
    forall i: nat, c ensures ZombieAt(t', p, i, c) <==> DownAt(t, events, p, i, c) {
      if ChildAt(t, p, i, c) {
        OtherThanSelf(t, h, p, i, c);
        DownIs(Waiting(t), h, events, p, i, c, t', h');
      }
    }
  }

  lemma OtherThanSelf(t: Table, h: History, p: nat, i: nat, c: int)
    requires Inv(t, h) && ChildAt(t, p, i, c)
    ensures c != p
  {
    assert IsChild(t.slots, h.parentOf, p, i);
  }

  lemma {:induction false} SleptSame(t: Table, h: History, events: seq<Event>, p: nat, t': Table, h': History)
    requires Inv(t, h) && Runs(t, h, events, t', h') && Sleeps(t, events, p) && p < |t.slots|
    ensures SameButSignals(t, t', p)
    decreases |events|
  {
    if events != [] {
      IdleSame(t, h, events[0], p);
      SleptSame(Step(t, events[0]), Noted(t, h, events[0]), events[1..], p, t', h');
    }
  }

  // ----- When it finds nothing

  /** No place of the process in slot `p` names slot `s`. */
  ghost predicate Unnamed(t: Table, p: nat, s: int) {
    forall i: nat, c | ChildAt(t, p, i, c) :: c != s
  }

  /** The two ways for a wait to be left without a child: a process ends that has the waiting one for its
      parent pointer and no place among its children, or a TERMINATED child runs on. */
  ghost predicate Upsets(t: Table, e: Event, p: nat)
    requires t.cursor < |t.slots| && Permitted(t, e)
  {
    || (EndedBy(t, e) >= 0 && t.slots[EndedBy(t, e)].parent == p && Unnamed(t, p, EndedBy(t, e)))
    || exists i: nat, c :: ZombieAt(t, p, i, c) && RunsOn(t, e, c)
  }

  /** No step of the run does either. */
  ghost predicate Orderly(t: Table, events: seq<Event>, p: nat)
    decreases |events|
  {
    events == [] ||
    (CanStep(t, events[0]) && !Upsets(t, events[0], p) && Orderly(Step(t, events[0]), events[1..], p))
  }

  ghost predicate HasZombie(t: Table, p: nat) {
    exists i: nat, c :: ZombieAt(t, p, i, c)
  }

  /** With SIGCHLD pending there is a child to return. */
  ghost predicate SignalMeans(t: Table, p: nat) {
    p < |t.slots| && (SIGCHLD in t.slots[p].pending ==> HasZombie(t, p))
  }

  lemma ZombieStays(t: Table, h: History, e: Event, p: nat, i: nat, c: int)
    requires Inv(t, h) && Permitted(t, e) && p < |t.slots| && Idles(t, e, p) && !Upsets(t, e, p)
    requires ZombieAt(t, p, i, c)
    ensures ZombieAt(Step(t, e), p, i, c)
  {
    IdleChild(t, h, e, p, i, c);
  }

  lemma EndedIsZombie(t: Table, h: History, e: Event, p: nat)
    requires Inv(t, h) && Permitted(t, e) && p < |t.slots| && Idles(t, e, p) && !Upsets(t, e, p)
    requires EndedBy(t, e) >= 0 && t.slots[EndedBy(t, e)].parent == p
    ensures HasZombie(Step(t, e), p)
  {
    var i: nat, c :| ChildAt(t, p, i, c) && c == EndedBy(t, e);
    IdleChild(t, h, e, p, i, c);
    assert ZombieAt(Step(t, e), p, i, c);
  }

  lemma SignalStep(t: Table, h: History, e: Event, p: nat)
    requires Inv(t, h) && Permitted(t, e) && SignalMeans(t, p) && Idles(t, e, p) && !Upsets(t, e, p)
    ensures SignalMeans(Step(t, e), p)
  {
    IdleSame(t, h, e, p);
    IdleGets(t, h, e, p);
    if HasZombie(t, p) {
      var i: nat, c :| ZombieAt(t, p, i, c);
      ZombieStays(t, h, e, p, i, c);
    } else if EndedBy(t, e) >= 0 && t.slots[EndedBy(t, e)].parent == p {
      EndedIsZombie(t, h, e, p);
    }
  }

  lemma {:induction false} SignalRun(t: Table, h: History, events: seq<Event>, p: nat, t': Table, h': History)
    requires Inv(t, h) && Runs(t, h, events, t', h') && Sleeps(t, events, p) && Orderly(t, events, p)
    requires SignalMeans(t, p)
    ensures SignalMeans(t', p)
    decreases |events|
  {
    if events != [] {
      IdleSame(t, h, events[0], p);
      SignalStep(t, h, events[0], p);
      SignalRun(Step(t, events[0]), Noted(t, h, events[0]), events[1..], p, t', h');
    }
  }

  /**
   A process that begins to wait with no SIGCHLD left over has a child to return when the switch delivers one
   to it, after every run in which no TERMINATED child of its runs on and no process ends that has it for its
   parent pointer without being among its children.
   */
  lemma FreshWaitFinds(t: Table, h: History, p: nat, events: seq<Event>, t': Table, h': History)
    requires Inv(t, h) && p == t.current && p < |t.slots| && SIGCHLD !in t.slots[p].pending
    requires Runs(Waiting(t), h, events, t', h') && Sleeps(Waiting(t), events, p) && Orderly(Waiting(t), events, p)
    requires CanStep(t', Switch) && Chosen(t').current == p && Delivered(Chosen(t')) == SIGCHLD
    ensures Step(t', Switch).current == p && CanCollect(Step(t', Switch))
  {
    WaitKeeps(t, h);
    RunKeeps(Waiting(t), h, events, t', h');
    SleptSame(Waiting(t), h, events, p, t', h');
    SignalRun(Waiting(t), h, events, p, t', h');
    ResumedCollects(t', h', p);
    assert t'.slots[p].pending[0] == SIGCHLD;
  }

  /** A process that waits alone in the table is resumed by the next switch, without a signal and without a
      child. */
  lemma AloneGoesOn(t: Table, h: History)
    requires Inv(t, h) && 0 <= t.current < |t.slots| && t.slots[t.current].pid != 0
    requires t.slots[t.current].pending == [] && t.count == 1
    ensures Permitted(Waiting(t), Switch) && Step(Waiting(t), Switch) == Waiting(t) && !CanCollect(Waiting(t))
  {
    var w := Waiting(t);
    WaitKeeps(t, h);
    ChosenAsleep(w, t.current);
    if CanCollect(w) {
      DeadSlotIs(w, h);
      TwoOccupied(w.slots, w.current, DeadSlot(w), |w.slots|);
    }
  }

  lemma {:induction false} TwoOccupied(slots: seq<Process>, i: nat, j: nat, n: nat)
    requires i < n <= |slots| && j < n && i != j && slots[i].pid != 0 && slots[j].pid != 0
    ensures OccupiedTo(slots, n) >= 2
  {
    if i == n - 1 {
      OccupiedPositive(slots, j, n - 1);
    } else if j == n - 1 {
      OccupiedPositive(slots, i, n - 1);
    } else {
      TwoOccupied(slots, i, j, n - 1);
    }
  }

  // ----- Which processes are among their parent's children

  /** The process in slot `s` is in one of the places of its parent pointer exactly when the slot still holds
      the process that spawned it, and this had a free place then. */
  ghost predicate PlacedAt(slots: seq<Process>, h: History, s: nat)
    requires s < |slots|
  {
    var q, pid := slots[s].parent, slots[s].pid;
    && 0 <= q < |slots| && pid in h.parentOf
    && (s in slots[q].children <==> h.parentOf[pid] == slots[q].pid && pid !in h.unplaced)
  }

  ghost predicate Placed(t: Table, h: History) {
    && (forall s | 0 <= s < |t.slots| && t.slots[s].parent >= 0 :: PlacedAt(t.slots, h, s))
    && forall pid | pid in h.unplaced :: pid < t.nextPid
  }

  lemma SameFamilyPlaced(t: Table, t': Table, h: History, h': History)
    requires SameFamily(t.slots, t'.slots) && t'.nextPid == t.nextPid
    requires Placed(t, h) && h'.parentOf == h.parentOf && h'.unplaced == h.unplaced
    ensures Placed(t', h')
  {
    forall s | 0 <= s < |t'.slots| && t'.slots[s].parent >= 0 ensures PlacedAt(t'.slots, h', s) {
      assert PlacedAt(t.slots, h, s);
    }
  }

  lemma SpawnPlaced(t: Table, h: History)
    requires Inv(t, h) && CanSpawn(t) && Placed(t, h)
    ensures Placed(Spawned(t), Noted(t, h, Spawn))
  {
    if Admitted(t) && HasZero(t) {
      forall s | 0 <= s < |t.slots| && Spawned(t).slots[s].parent >= 0
        ensures PlacedAt(Spawned(t).slots, Noted(t, h, Spawn), s)
      {
        if s == ZeroFrom(t.slots, 0) { NewPlaced(t, h); } else { OldPlaced(t, h, s); }
      }
    }
  }

  lemma NewPlaced(t: Table, h: History)
    requires Inv(t, h) && CanSpawn(t) && Admitted(t) && HasZero(t) && Placed(t, h)
    ensures PlacedAt(Spawned(t).slots, Noted(t, h, Spawn), ZeroFrom(t.slots, 0))
  {
    var z, p, k := ZeroFrom(t.slots, 0), t.slots[t.current], NullFrom(t.slots[t.current].children, 0);
    forall i | 0 <= i < |p.children| ensures p.children[i] != z { FreeSlotUnnamed(t, h, z, t.current, i); }
    if HasPlace(t) {
      assert WithChild(p, z).children[k] == z;
    }
  }

  /** What a spawn does to the slots that were taken before. */
  lemma SpawnedAt(t: Table, s: nat)
    requires CanSpawn(t) && Admitted(t) && HasZero(t) && s < |t.slots| && s != ZeroFrom(t.slots, 0)
    ensures Spawned(t).slots[s] ==
              if s == t.current then WithChild(t.slots[s], ZeroFrom(t.slots, 0)) else t.slots[s]
  {
  }

  /** The children named before are named still, and the new slot is the only other one. */
  lemma WithChildNames(p: Process, z: nat, s: nat)
    requires s != z
    ensures s in WithChild(p, z).children <==> s in p.children
  {
    OneMore(p.children, NullFrom(p.children, 0), z, s);
  }

  lemma OldPlaced(t: Table, h: History, s: nat)
    requires Inv(t, h) && CanSpawn(t) && Admitted(t) && HasZero(t) && Placed(t, h)
    requires s < |t.slots| && s != ZeroFrom(t.slots, 0) && t.slots[s].parent >= 0
    ensures PlacedAt(Spawned(t).slots, Noted(t, h, Spawn), s)
  {
    var z, q := ZeroFrom(t.slots, 0), t.slots[s].parent;
    assert PlacedAt(t.slots, h, s) && t.slots[s].pid < t.nextPid;
    SpawnedAt(t, s);
    if q == z {
      OrphanPlaced(t, h, s);
    } else {
      SpawnedAt(t, q);
      WithChildNames(t.slots[q], z, s);
    }
  }

  /** The new process in a slot is not the parent of an old one that has the slot for its parent pointer. */
  lemma OrphanPlaced(t: Table, h: History, s: nat)
    requires Inv(t, h) && CanSpawn(t) && Admitted(t) && HasZero(t) && s < |t.slots|
    requires PlacedAt(t.slots, h, s) && s != ZeroFrom(t.slots, 0) && t.slots[s].parent == ZeroFrom(t.slots, 0)
    ensures PlacedAt(Spawned(t).slots, Noted(t, h, Spawn), s)
  {
    SpawnedAt(t, s);
    assert forall i | 0 <= i < |t.slots[t.current].children| - 1 ::
      Spawned(t).slots[ZeroFrom(t.slots, 0)].children[i] == -1;
    assert h.parentOf[t.slots[s].pid] < t.slots[s].pid < t.nextPid;
  }

  lemma OneMore(children: seq<int>, k: nat, z: int, s: int)
    requires k <= |children| && z != s && (k < |children| ==> children[k] != s)
    ensures k < |children| ==> (s in children[k := z] <==> s in children)
  {
    if k < |children| && s in children {
      var i :| 0 <= i < |children| && children[i] == s;
      assert children[k := z][i] == s;
    }
  }

  lemma CollectPlaced(t: Table, h: History)
    requires Inv(t, h) && CanCollect(t) && Placed(t, h)
    ensures Placed(Collected(t), Noted(t, h, Collect))
  {
    var slots', c := Collected(t).slots, DeadSlot(t);
    DeadSlotIs(t, h);
    forall s | 0 <= s < |slots'| && slots'[s].parent >= 0 ensures PlacedAt(slots', Noted(t, h, Collect), s) {
      assert PlacedAt(t.slots, h, s);
      if t.slots[s].parent == t.current {
        OneMore(t.slots[t.current].children, DeadPlace(t), -1, s);
      }
    }
  }

  lemma StepPlaced(t: Table, h: History, e: Event)
    requires Inv(t, h) && Permitted(t, e) && Placed(t, h)
    ensures Placed(Step(t, e), Noted(t, h, e))
  {
    hide DistinctPids, PidsBelow, Family, AllPlacesOk, ParentsOk, ZombiesRecorded, ReapsOk;
    match e
    case Spawn => SpawnPlaced(t, h);
    case Collect => CollectPlaced(t, h);
    case _ =>
      StepFamily(t, e);
      SameFamilyPlaced(t, Step(t, e), h, Noted(t, h, e));
  }

  /** Only spawning and collecting change the family. */
  lemma StepFamily(t: Table, e: Event)
    requires CanStep(t, e) && e != Spawn && e != Collect
    ensures SameFamily(t.slots, Step(t, e).slots)
  {
    match e
    case Exit(status) => ExitedIs(Entered(t), status);
    case Kill(pid, sig) => if EndedBy(t, e) >= 0 { KilledIs(t, EndedBy(t, e)); }
    case Switch => ResumedIs(Chosen(t));
    case _ =>
  }

  lemma {:induction false} RunPlaced(t: Table, h: History, events: seq<Event>, t': Table, h': History)
    requires Inv(t, h) && Placed(t, h) && Runs(t, h, events, t', h')
    ensures Placed(t', h')
    decreases |events|
  {
    if events != [] {
      StepKeeps(t, h, events[0]);
      StepPlaced(t, h, events[0]);
      RunPlaced(Step(t, events[0]), Noted(t, h, events[0]), events[1..], t', h');
    }
  }

  /** After every run: a process is no child of the slot that its parent pointer names exactly when this slot
      has another occupant (or none) by now, or when its parent spawned it without a free place. */
  lemma UnnamedIff(events: seq<Event>, t: Table, h: History, s: nat)
    requires Runs(Initial(), NothingYet(), events, t, h) && s < |t.slots| && t.slots[s].parent >= 0
    ensures t.slots[s].parent < |t.slots| && t.slots[s].pid in h.parentOf
    ensures Unnamed(t, t.slots[s].parent, s) <==>
              h.parentOf[t.slots[s].pid] != t.slots[t.slots[s].parent].pid || t.slots[s].pid in h.unplaced
  {
    hide DistinctPids, PidsBelow, Family, AllPlacesOk, ParentsOk, ZombiesRecorded, ReapsOk;
    InitialOk();
    RunPlaced(Initial(), NothingYet(), events, t, h);
    assert PlacedAt(t.slots, h, s);
    var children := t.slots[t.slots[s].parent].children;
    if s in children {
      var i :| 0 <= i < |children| && children[i] == s;
      assert ChildAt(t, t.slots[s].parent, i, s);
    }
  }

  // ----- What resumes a process that waits

  /** The signals that the kernel itself sends. */
  ghost predicate KnownSignals(slots: seq<Process>) {
    forall q, sig | 0 <= q < |slots| && sig in slots[q].pending :: sig == SIGHUP || sig == SIGTERM || sig == SIGCHLD
  }

  lemma {:induction false} HupsKnown(children: seq<int>, n: nat, j: nat)
    requires n <= |children|
    ensures forall sig | sig in Hups(children, n, j) :: sig == SIGHUP
  {
    if n > 0 { HupsKnown(children, n - 1, j); }
  }

  /** A switch takes the first signal from the one it chooses. */
  lemma SwitchTakes(t: Table, q: nat)
    requires CanStep(t, Switch) && EndedBy(t, Switch) < 0 && q < |t.slots| && Chosen(t).current == q
    ensures Step(t, Switch).slots[q].pending == if t.slots[q].pending == [] then [] else t.slots[q].pending[1..]
  {
  }

  lemma TailIn(pending: seq<nat>, sig: nat)
    requires sig in if pending == [] then [] else pending[1..]
    ensures sig in pending
  {
    var i :| 0 <= i < |pending[1..]| && pending[1..][i] == sig;
    assert pending[i + 1] == sig;
  }

  lemma EndKnown(t: Table, h: History, e: Event, q: nat, sig: nat)
    requires Inv(t, h) && Permitted(t, e) && KnownSignals(t.slots) && q < |t.slots| && EndedBy(t, e) >= 0
    requires sig in Step(t, e).slots[q].pending
    ensures sig == SIGHUP || sig == SIGTERM || sig == SIGCHLD
  {
    if EndedBy(t, e) == q {
      EndEnds(t, e);
    } else {
      EndSends(t, e, q);
      var p := t.slots[EndedBy(t, e)];
      HupsKnown(p.children, if p.childrenCount <= |p.children| then p.childrenCount else 0, q);
    }
  }

  lemma KnownAt(t: Table, h: History, e: Event, q: nat, sig: nat)
    requires Inv(t, h) && Permitted(t, e) && KnownSignals(t.slots) && q < |t.slots|
    requires sig in Step(t, e).slots[q].pending
    ensures sig == SIGHUP || sig == SIGTERM || sig == SIGCHLD
  {
    hide DistinctPids, PidsBelow, Family, AllPlacesOk, ParentsOk, ZombiesRecorded, ReapsOk;
    if EndedBy(t, e) >= 0 {
      EndKnown(t, h, e, q, sig);
    } else if e == Switch {
      if q != Chosen(t).current { SwitchSpares(t, q); } else { SwitchTakes(t, q); TailIn(t.slots[q].pending, sig); }
    } else if q == t.current {
      OwnSteps(t, h, e);
    } else if e == Collect && DeadSlot(t) == q {
      DeadSlotIs(t, h);
    } else if !(e == Spawn && t.slots[q] == ZERO) {
      OthersStay(t, h, e, q);
    }
  }

  lemma StepKnown(t: Table, h: History, e: Event)
    requires Inv(t, h) && Permitted(t, e) && KnownSignals(t.slots)
    ensures KnownSignals(Step(t, e).slots)
  {
    SameCount(t, e);
    forall q, sig | 0 <= q < |t.slots| && sig in Step(t, e).slots[q].pending
      ensures sig == SIGHUP || sig == SIGTERM || sig == SIGCHLD
    {
      KnownAt(t, h, e, q, sig);
    }
  }

  lemma {:induction false} RunKnown(t: Table, h: History, events: seq<Event>, t': Table, h': History)
    requires Inv(t, h) && KnownSignals(t.slots) && Runs(t, h, events, t', h')
    ensures KnownSignals(t'.slots)
    decreases |events|
  {
    if events != [] {
      StepKeeps(t, h, events[0]);
      StepKnown(t, h, events[0]);
      RunKnown(Step(t, events[0]), Noted(t, h, events[0]), events[1..], t', h');
    }
  }

  lemma SameCount(t: Table, e: Event)
    requires CanStep(t, e)
    ensures |Step(t, e).slots| == |t.slots|
  {
    if e != Spawn && e != Collect { StepFamily(t, e); }
  }

  /** After every run: a switch that chooses a process that waits for a child delivers SIGCHLD to it, or ends
      it by SIGHUP or SIGTERM, or finds it alone in the table with nothing pending. */
  lemma WaiterChosen(events: seq<Event>, t: Table, h: History, p: nat)
    requires Runs(Initial(), NothingYet(), events, t, h) && CanStep(t, Switch)
    requires Chosen(t).current == p && p < |t.slots| && t.slots[p].state == WaitingForChildExit
    ensures || Delivered(Chosen(t)) == SIGCHLD
            || EndedBy(t, Switch) == p
            || (t.current == p && t.count == 1 && t.slots[p].pending == [])
  {
    hide DistinctPids, PidsBelow, Family, AllPlacesOk, ParentsOk, ZombiesRecorded, ReapsOk;
    InitialOk();
    RunKnown(Initial(), NothingYet(), events, t, h);
    WaiterChosenNow(t, p);
  }

  lemma WaiterChosenNow(t: Table, p: nat)
    requires CanStep(t, Switch) && KnownSignals(t.slots)
    requires Chosen(t).current == p && p < |t.slots| && t.slots[p].state == WaitingForChildExit
    ensures || Delivered(Chosen(t)) == SIGCHLD
            || EndedBy(t, Switch) == p
            || (t.current == p && t.count == 1 && t.slots[p].pending == [])
  {
    if t.slots[p].pending == [] {
      ChosenAsleep(t, p);
    } else {
      assert t.slots[p].pending[0] in t.slots[p].pending;
    }
  }

  // ----- A process that has ended dies again only when it is woken

  /** A step that does nothing to the TERMINATED process in slot `c`. */
  ghost predicate LeavesAlone(t: Table, e: Event, c: nat)
    requires t.cursor < |t.slots| && Permitted(t, e)
  {
    !Wakes(t, e, c) && !RunsOn(t, e, c) && !(EndedBy(t, e) == c && t.current == c)
  }

  /** The process in slot `c` is TERMINATED, with nothing pending. */
  predicate Dead(t: Table, c: nat, pid: nat, status: int) {
    c < |t.slots| && t.slots[c].pid == pid > 0 && t.slots[c].state == Terminated && t.slots[c].exitCode == status
    && t.slots[c].pending == []
  }

  /** Nothing but its own steps and a switch that chooses it ends a TERMINATED process. */
  lemma DeadEnded(t: Table, h: History, e: Event, c: nat, pid: nat, status: int)
    requires Inv(t, h) && Permitted(t, e) && Dead(t, c, pid, status) && EndedBy(t, e) == c
    ensures t.current == c
  {
    if e == Switch { PickIsNext(t.slots, t.cursor); }
  }

  lemma DeadStays(t: Table, h: History, e: Event, c: nat, pid: nat, status: int)
    requires Inv(t, h) && Permitted(t, e) && Dead(t, c, pid, status) && LeavesAlone(t, e, c)
    requires !(e == Collect && DeadSlot(t) == c)
    ensures Dead(Step(t, e), c, pid, status)
    ensures pid in h.deaths ==> pid in Noted(t, h, e).deaths && Noted(t, h, e).deaths[pid] == h.deaths[pid]
  {
    hide DistinctPids, PidsBelow, Family, AllPlacesOk, ParentsOk, ZombiesRecorded, ReapsOk;
    if EndedBy(t, e) == c {
      DeadEnded(t, h, e, c, pid, status);
    } else if EndedBy(t, e) >= 0 {
      DeadSpared(t, h, e, c, pid, status);
    } else if e == Switch && Chosen(t).current == c {
      ChosenAsleep(t, c);
    } else if e == Switch {
      SwitchSpares(t, c);
    } else if c == t.current {
      OwnSteps(t, h, e);
    } else {
      OthersStay(t, h, e, c);
    }
  }

  /** A process dies once more exactly by a step that ends it, with the exit status that its slot has then. */
  lemma DeathsNoted(t: Table, h: History, e: Event)
    requires Inv(t, h) && Permitted(t, e)
    ensures |Step(t, e).slots| == |t.slots|
    ensures var s := EndedBy(t, e);
            Noted(t, h, e).deaths ==
              if s < 0 then h.deaths else Died(h.deaths, t.slots[s].pid, Step(t, e).slots[s].exitCode)
  {
    hide DistinctPids, PidsBelow, Family, AllPlacesOk, ParentsOk, ZombiesRecorded, ReapsOk, SameFamily;
    SameCount(t, e);
    match e
    case Exit(status) => ExitedIs(Entered(t), status);
    case Kill(pid, sig) => if EndedBy(t, e) >= 0 { KilledIs(t, EndedBy(t, e)); }
    case Switch => if EndedBy(t, e) >= 0 { SwitchDeath(t); }
    case _ =>
  }

  lemma SwitchDeath(t: Table)
    requires CanStep(t, Switch) && EndedBy(t, Switch) >= 0
    ensures EndedBy(t, Switch) < |Step(t, Switch).slots|
    ensures Step(t, Switch).slots[EndedBy(t, Switch)].exitCode == 128 + Delivered(Chosen(t))
  {
    SameCount(t, Switch);
    ResumedIs(Chosen(t));
  }

  /** The end of another process that sends no signal to it. */
  lemma DeadSpared(t: Table, h: History, e: Event, c: nat, pid: nat, status: int)
    requires Inv(t, h) && Permitted(t, e) && Dead(t, c, pid, status)
    requires EndedBy(t, e) >= 0 && EndedBy(t, e) != c && !Wakes(t, e, c)
    ensures Dead(Step(t, e), c, pid, status)
    ensures pid in h.deaths ==> pid in Noted(t, h, e).deaths && Noted(t, h, e).deaths[pid] == h.deaths[pid]
  {
    var s := EndedBy(t, e);
    SameCount(t, e);
    EndSends(t, e, c);
    EndedPlaces(t, h, e);
    HupsIff(t.slots[s].children, t.slots[s].childrenCount, c);
    assert !Names(t.slots[s], c);
    assert SentBy(t, s, c) == [];
    if pid in h.deaths { EndNoted(t, h, e, c); }
  }

  /** The history notes the death of the process that a step ends, and no other. */
  lemma EndNoted(t: Table, h: History, e: Event, c: nat)
    requires Inv(t, h) && Permitted(t, e) && EndedBy(t, e) >= 0 && EndedBy(t, e) != c && c < |t.slots|
    requires t.slots[c].pid > 0 && t.slots[c].pid in h.deaths
    ensures var pid := t.slots[c].pid; pid in Noted(t, h, e).deaths && Noted(t, h, e).deaths[pid] == h.deaths[pid]
  {
    assert t.slots[EndedBy(t, e)].pid != t.slots[c].pid;
  }

  ghost predicate LeftAlone(t: Table, events: seq<Event>, c: nat)
    decreases |events|
  {
    events == [] ||
    (CanStep(t, events[0]) && LeavesAlone(t, events[0], c) && !(events[0] == Collect && DeadSlot(t) == c)
     && LeftAlone(Step(t, events[0]), events[1..], c))
  }

  predicate DiedOnce(h: History, pid: nat, status: int) {
    pid in h.deaths && h.deaths[pid] == [status]
  }

  lemma {:induction false} DeadRun(t: Table, h: History, events: seq<Event>, c: nat, pid: nat, status: int,
                                   t': Table, h': History)
    requires Inv(t, h) && Runs(t, h, events, t', h') && LeftAlone(t, events, c)
    requires Dead(t, c, pid, status) && DiedOnce(h, pid, status)
    ensures Dead(t', c, pid, status) && DiedOnce(h', pid, status)
    decreases |events|
  {
    if events != [] {
      StepKeeps(t, h, events[0]);
      DeadStays(t, h, events[0], c, pid, status);
      DeadRun(Step(t, events[0]), Noted(t, h, events[0]), events[1..], c, pid, status, t', h');
    }
  }

  /** The status that sys_wait returns is that of the process's first death after every run that does not wake
      the dead process, nor end a time slice or a system call of its. */
  lemma FirstStatus(t: Table, h: History, events: seq<Event>, c: nat, pid: nat, status: int, t': Table, h': History)
    requires Inv(t, h) && Runs(t, h, events, t', h') && LeftAlone(t, events, c)
    requires Dead(t, c, pid, status) && DiedOnce(h, pid, status)
    requires CanCollect(t') && DeadSlot(t') == c
    ensures DiedOnce(h', pid, status)
    ensures t'.count > 0 && t'.cursor < |t'.slots|
    ensures Noted(t', h', Collect).reaped == h'.reaped + [Reaped(t'.slots[t'.current].pid, pid, status)]
  {
    DeadRun(t, h, events, c, pid, status, t', h');
    RunKeeps(t, h, events, t', h');
  }

  // ----- When the scheduler picks only slots that hold a process

  /** Slots without a process are zeroed, and whoever runs has one. */
  ghost predicate Clean(t: Table) {
    && (forall i | 0 <= i < |t.slots| && t.slots[i].pid == 0 :: t.slots[i] == ZERO)
    && (0 <= t.current < |t.slots| ==> t.slots[t.current].pid != 0)
  }

  /** A signal goes to a slot without a process: the end of an orphan whose parent was evaporated, or SIGTERM to
      pid 0. */
  ghost predicate Strays(t: Table, e: Event)
    requires t.cursor < |t.slots| && Permitted(t, e)
  {
    || (EndedBy(t, e) >= 0 && t.slots[t.slots[EndedBy(t, e)].parent].pid == 0)
    || (0 <= TermedBy(t, e) < |t.slots| && t.slots[TermedBy(t, e)].pid == 0)
  }

  /** In a clean table the scheduler picks a process, or the idle one. */
  lemma CleanPick(t: Table)
    requires t.cursor < |t.slots| && Clean(t)
    ensures 0 <= Chosen(t).current < |t.slots| ==> t.slots[Chosen(t).current].pid != 0
  {
    PickIsNext(t.slots, t.cursor);
  }

  lemma EndCleanAt(t: Table, h: History, e: Event, q: nat)
    requires Inv(t, h) && Permitted(t, e) && Clean(t) && EndedBy(t, e) >= 0 && q < |t.slots| && t.slots[q].pid == 0
    ensures Step(t, e).slots[q] == if t.slots[EndedBy(t, e)].parent == q then ZERO.(pending := [SIGCHLD]) else ZERO
  {
    var s := EndedBy(t, e);
    EndSends(t, e, q);
    EndedPlaces(t, h, e);
    var children, n := t.slots[s].children, t.slots[s].childrenCount;
    forall i | 0 <= i < |children| ensures children[i] != q { FreeSlotUnnamed(t, h, q, s, i); }
    HupsNone(children, n, q);
    assert SentBy(t, s, q) == if t.slots[s].parent == q then [SIGCHLD] else [];
  }

  lemma EndClean(t: Table, h: History, e: Event)
    requires Inv(t, h) && Permitted(t, e) && Clean(t) && EndedBy(t, e) >= 0
    ensures Clean(Step(t, e)) <==> t.slots[t.slots[EndedBy(t, e)].parent].pid != 0
  {
    StepFamily(t, e);
    forall q | 0 <= q < |t.slots| && t.slots[q].pid == 0
      ensures Step(t, e).slots[q] == ZERO <==> t.slots[EndedBy(t, e)].parent != q
    {
      EndCleanAt(t, h, e, q);
    }
    CleanPick(t);
    assert forall i | 0 <= i < |t.slots| :: Step(t, e).slots[i].pid == t.slots[i].pid;
  }

  lemma OtherClean(t: Table, h: History, e: Event)
    requires Inv(t, h) && Permitted(t, e) && Clean(t) && EndedBy(t, e) < 0 && !e.Kill?
    ensures Clean(Step(t, e))
  {
    if e == Switch {
      SwitchClean(t, h);
    } else if e == Collect {
      DeadSlotIs(t, h);
    }
  }

  lemma SwitchClean(t: Table, h: History)
    requires Inv(t, h) && Permitted(t, Switch) && Clean(t) && EndedBy(t, Switch) < 0
    ensures Clean(Step(t, Switch))
  {
    CleanPick(t);
    StepFamily(t, Switch);
    forall i | 0 <= i < |t.slots| && t.slots[i].pid == 0 ensures Step(t, Switch).slots[i] == ZERO {
      SwitchSpares(t, i);
    }
  }

  lemma KillClean(t: Table, h: History, e: Event)
    requires Inv(t, h) && Permitted(t, e) && Clean(t) && EndedBy(t, e) < 0 && e.Kill?
    ensures Clean(Step(t, e)) <==> !Strays(t, e)
  {
    var s := TermedBy(t, e);
    if 0 <= s < |t.slots| {
      assert Step(t, e).slots[s].pending != [];
    }
  }

  /** A step keeps the table clean exactly when it sends no signal astray. */
  lemma CleanIff(t: Table, h: History, e: Event)
    requires Inv(t, h) && Permitted(t, e) && Clean(t)
    ensures Clean(Step(t, e)) <==> !Strays(t, e)
  {
    if EndedBy(t, e) >= 0 {
      EndClean(t, h, e);
      OneStep(t, e, 0);
    } else if e.Kill? {
      KillClean(t, h, e);
    } else {
      OtherClean(t, h, e);
    }
  }

  /** A slot without a process that gets a signal is chosen like a process, and no spawn takes it any more. */
  lemma StrayIsEligible(t: Table, h: History, e: Event)
    requires Inv(t, h) && Permitted(t, e) && Clean(t)
    requires EndedBy(t, e) >= 0 && t.slots[t.slots[EndedBy(t, e)].parent].pid == 0
    ensures var q := t.slots[EndedBy(t, e)].parent;
            q < |Step(t, e).slots| && Step(t, e).slots[q].pid == 0 && Eligible(Step(t, e).slots[q])
            && Step(t, e).slots[q] != ZERO
  {
    SameCount(t, e);
    EndCleanAt(t, h, e, t.slots[EndedBy(t, e)].parent);
  }

  ghost predicate NeverStrays(t: Table, events: seq<Event>)
    decreases |events|
  {
    events == [] || (CanStep(t, events[0]) && !Strays(t, events[0]) && NeverStrays(Step(t, events[0]), events[1..]))
  }

  lemma {:induction false} CleanRun(t: Table, h: History, events: seq<Event>, t': Table, h': History)
    requires Inv(t, h) && Clean(t) && Runs(t, h, events, t', h') && NeverStrays(t, events)
    ensures Clean(t')
    decreases |events|
  {
    if events != [] {
      StepKeeps(t, h, events[0]);
      CleanIff(t, h, events[0]);
      CleanRun(Step(t, events[0]), Noted(t, h, events[0]), events[1..], t', h');
    }
  }

  /** After every run that sends no signal astray, the scheduler picks a slot that holds a process, or none. */
  lemma PicksProcesses(events: seq<Event>, t: Table, h: History)
    requires Runs(Initial(), NothingYet(), events, t, h) && NeverStrays(Initial(), events)
    ensures t.cursor < |t.slots|
    ensures 0 <= Chosen(t).current < |t.slots| ==> t.slots[Chosen(t).current].pid != 0
  {
    InitialOk();
    InitialClean();
    RunKeeps(Initial(), NothingYet(), events, t, h);
    CleanRun(Initial(), NothingYet(), events, t, h);
    CleanPick(t);
  }

  lemma InitialClean()
    ensures Clean(Initial())
  {
    assert forall i | 0 < i < 20 :: Initial().slots[i] == ZERO;
  }
}
