/** The process table in place: the scheduler's operations as the kernel runs them. */
module ProcessTable {
  import opened Scheduling
  import opened Processes

  class Scheduler {
    const processes: array<Process>
    var processesCount: nat
    var nextPid: nat
    /** The slot of the current process, -1 for the idle process. */
    var current: int
    /** The static index of scheduler_get_next_process. */
    var currentIndex: nat
    ghost var history: History

    function View(): Table
      reads this, processes
    {
      Table(processes[..], processesCount, nextPid, current, currentIndex)
    }

    ghost predicate Valid()
      reads this, processes
    {
      Inv(View(), history)
    }

    /** scheduler_init and create_process_init, at the moment init starts running. */
    constructor ()
      ensures View() == Initial() && history == NothingYet()
      ensures Valid() && fresh(processes)
    {
      processes := new Process[20](_ => ZERO);
      processesCount, nextPid, current, currentIndex := 1, 2, 0, 1;
      history := NothingYet();
      new;
      hide Inv, Initial, NothingYet;
      InitialOk();
      AdmitInit();
      assert View() == Initial();
    }

    /** The zeroed slots get their first process, init. */
    method AdmitInit()
      requires processes.Length == 20 && forall i | 0 <= i < 20 :: processes[i] == ZERO
      modifies processes
      ensures Table(processes[..], 1, 2, 0, 1) == Initial()
    {
      hide Initial;
      InitialSlots();
      processes[0] := Initial().slots[0];
      FirstOccupants(processes[..]);
    }

    /** scheduler_get_process_by_pid */
    method GetProcessByPid(pid: nat) returns (s: nat)
      ensures s == PidFrom(processes[..], pid, 0)
    {
      s := 0;
      while s < processes.Length && processes[s].pid != pid
        invariant s <= processes.Length
        invariant PidFrom(processes[..], pid, 0) == PidFrom(processes[..], pid, s)
      {
        s := s + 1;
      }
    }

    /** scheduler_populate_process: the process goes into the first free slot, if there is one; the count
        is raised either way. */
    method PopulateProcess(p: Process) returns (done: bool)
      modifies this`processesCount, processes
      ensures done == old(Admitted(View()))
      ensures processesCount == old(processesCount) + if done then 1 else 0
      ensures processes[..] ==
                if done && old(HasZero(View())) then old(processes[..])[old(ZeroFrom(processes[..], 0)) := p]
                else old(processes[..])
    {
      if processesCount > processes.Length {
        return false;
      }
      var i := 0;
      while i < processes.Length && processes[i] != ZERO
        invariant i <= processes.Length && processes[..] == old(processes[..]) && processesCount == old(processesCount)
        invariant ZeroFrom(processes[..], 0) == ZeroFrom(processes[..], i)
      {
        i := i + 1;
      }
      if i < processes.Length {
        processes[i] := p;
      }
      processesCount := processesCount + 1;
      done := true;
    }

    /** The loop of fill_process_and_spawn over the parent's places. */
    method AddChild(added: nat)
      requires 0 <= current < processes.Length
      modifies processes
      ensures processes[..] == old(processes[..])[current := WithChild(old(processes[current]), added)]
    {
      var parent, i := processes[current], 0;
      while i < |parent.children| && parent.children[i] >= 0
        invariant i <= |parent.children| && NullFrom(parent.children, 0) == NullFrom(parent.children, i)
        invariant processes[..] == old(processes[..])
      {
        i := i + 1;
      }
      if i < |parent.children| {
        processes[current] := parent.(children := parent.children[i := added],
                                      childrenCount := parent.childrenCount + 1);
      }
    }

    /** create_blank_process: the slot of the new process, or the number of slots when the guard refuses or
        no slot is free. */
    method Create() returns (added: nat)
      requires CanSpawn(View()) && PidsBelow(processes[..], nextPid) && nextPid > 0
      modifies this`processesCount, this`nextPid, processes
      ensures View() == Populated(old(View()))
      ensures added == if old(Admitted(View())) then old(ZeroFrom(processes[..], 0)) else processes.Length
    {
      ghost var t := View();
      var done := PopulateProcess(Fresh(nextPid, current, |processes[current].children| - 1));
      if !done {
        return processes.Length;
      }
      added := GetProcessByPid(nextPid);
      AddedSlot(t, processes[..], added);
      nextPid := nextPid + 1;
    }

    /** create_blank_process and fill_process_and_spawn: the new process's pid, or -1 when the guard
        refuses or no slot is free. */
    method Spawn() returns (pid: int)
      requires Valid() && CanSpawn(View())
      modifies this, processes
      ensures Valid() && View() == Spawned(old(View())) && history == Noted(old(View()), old(history), Event.Spawn)
      ensures pid == if old(Admitted(View()) && HasZero(View())) then old(nextPid) else -1
    {
      ghost var t := View();
      SpawnKeeps(t, history);
      SpawnedIs(t);
      history := Noted(t, history, Event.Spawn);
      var added := Create();
      if added == processes.Length {
        return -1;
      }
      AddChild(added);
      pid := nextPid - 1;
    }

    /** signal_notify */
    method SignalNotify(s: int, sig: nat)
      modifies processes
      ensures processes[..] == Notified(old(processes[..]), s, sig)
    {
      if 0 <= s < processes.Length {
        processes[s] := processes[s].(pending := processes[s].pending + [sig]);
      }
    }

    /** sys_kill of a process that is there, by a signal other than SIGTERM. */
    method Terminate(s: nat)
      requires CanKill(View(), s)
      modifies processes
      ensures View() == Killed(old(View()), s)
    {
      var process := processes[s];
      SignalNotify(process.parent, SIGCHLD);
      var i := 0;
      while i < process.childrenCount
        invariant i <= process.childrenCount
        invariant processes[..] == HungUp(Notified(old(processes[..]), process.parent, SIGCHLD), process.children, i)
      {
        SignalNotify(process.children[i], SIGHUP);
        i := i + 1;
      }
      processes[s] := processes[s].(pending := [], state := Terminated);
    }

    /** sys_kill */
    method Kill(pid: nat, sig: nat)
      requires Valid() && Permitted(View(), Event.Kill(pid, sig))
      modifies this`history, processes
      ensures Valid() && View() == Step(old(View()), Event.Kill(pid, sig))
      ensures history == Noted(old(View()), old(history), Event.Kill(pid, sig))
    {
      KillKeeps(View(), history, pid, sig);
      history := Noted(View(), history, Event.Kill(pid, sig));
      var s := GetProcessByPid(pid);
      if s == processes.Length {
        return;
      }
      if sig == SIGTERM {
        SignalNotify(s, SIGTERM);
        return;
      }
      Terminate(s);
    }

    /** sys_exit up to the switch, behind the entry of system calls, which sets the kernel mode flag. */
    method Exit(status: int)
      requires Valid() && CanKill(View(), current)
      modifies this`history, processes
      ensures Valid() && View() == Step(old(View()), Event.Exit(status))
      ensures history == Noted(old(View()), old(history), Event.Exit(status))
    {
      ExitKeeps(View(), history, status);
      FoundByPid(View(), history, current);
      history := Noted(View(), history, Event.Exit(status));
      processes[current] := processes[current].(kernelMode := true);
      assert View() == Entered(old(View()));
      FoundAlike(old(processes[..]), processes[..], processes[current].pid, 0);
      EndCurrent(status);
    }

    /** The body of sys_exit; also the default action for a signal that ends the process. */
    method EndCurrent(status: int)
      requires CanKill(View(), current)
      requires PidFrom(processes[..], processes[current].pid, 0) == current
      modifies processes
      ensures View() == Exited(old(View()), status)
    {
      processes[current] := processes[current].(state := Terminated, exitCode := status);
      var s := GetProcessByPid(processes[current].pid);
      Terminate(s);
    }
  
    /** sys_wait up to the switch: whether a child is terminated already. */
    method WaitBegin() returns (childTerminated: bool)
      requires Valid() && 0 <= current < processes.Length
      modifies processes
      ensures Valid() && View() == Waiting(old(View()))
      ensures childTerminated <==> CanCollect(View())
    {
      hide DistinctPids, PidsBelow, Family, AllPlacesOk, ParentsOk, ZombiesRecorded, ReapsOk;
      WaitKeeps(View(), history);
      processes[current] := processes[current].(state := WaitingForChildExit, kernelMode := true);
      assert View() == Waiting(old(View()));
      var children := processes[current].children;
      childTerminated := false;
      for i := 0 to |children|
        invariant childTerminated <==> LastTerminated(processes[..], children, i) >= 0
      {
        if children[i] >= 0 && IsZombieHere(children[i]) {
          childTerminated := true;
        }
      }
      CollectIff(View(), history);
    }

    /** Whether a child's slot holds a terminated process. */
    predicate IsZombieHere(c: int)
      reads processes
    {
      0 <= c < processes.Length && processes[c].state == Terminated
    }

    /** The second loop of sys_wait: the place of the last terminated child, or -1. */
    method FindTerminated() returns (k: int)
      requires 0 <= current < processes.Length
      ensures k == LastTerminated(processes[..], processes[current].children, |processes[current].children|)
    {
      var children := processes[current].children;
      k := -1;
      for i := 0 to |children|
        invariant k == LastTerminated(processes[..], children, i)
      {
        if children[i] >= 0 && IsZombieHere(children[i]) {
          k := i;
        }
      }
    }

    /** The rest of sys_wait. */
    method Reap(k: nat) returns (pid: nat, status: int)
      requires CanCollect(View()) && processesCount > 0 && k == DeadPlace(View())
      requires PidFrom(processes[..], processes[DeadSlot(View())].pid, 0) != current
      modifies this`processesCount, processes
      ensures View() == Collected(old(View()))
      ensures pid == old(processes[DeadSlot(View())].pid) && status == old(processes[DeadSlot(View())].exitCode)
    {
      var back := processes[current];
      status := processes[back.children[k]].exitCode;
      pid := processes[back.children[k]].pid;
      Evaporate(pid);
      processes[current] := back.(state := Running, kernelMode := false, childrenCount := back.childrenCount - 1,
                                  children := back.children[k := -1]);
    }

    /** sys_wait after the switch, with a terminated child to find: its pid and its exit status. */
    method WaitEnd() returns (pid: nat, status: int)
      requires Valid() && CanCollect(View())
      modifies this, processes
      ensures Valid() && View() == Collected(old(View())) && history == Noted(old(View()), old(history), Event.Collect)
      ensures history.reaped == old(history).reaped + [Reaped(old(processes[current].pid), pid, status)]
      ensures exists k: nat {:trigger HighestDead(old(processes[..]), old(processes[current].children), k)} ::
                && HighestDead(old(processes[..]), old(processes[current].children), k)
                && pid == old(processes[..])[old(processes[current].children)[k]].pid
                && status == old(processes[..])[old(processes[current].children)[k]].exitCode
    {
      DeadPlaceIsHighest(View());
      CollectKeeps(View(), history);
      DeadSlotIs(View(), history);
      history := Noted(View(), history, Event.Collect);
      var k := FindTerminated();
      pid, status := Reap(k);
    }

    /** scheduler_evaporate_process */
    method Evaporate(pid: nat)
      requires PidFrom(processes[..], pid, 0) < processes.Length && processesCount > 0
      modifies this`processesCount, processes
      ensures processes[..] == old(processes[..])[old(PidFrom(processes[..], pid, 0)) := ZERO]
      ensures processesCount == old(processesCount) - 1
    {
      var s := GetProcessByPid(pid);
      processes[s] := ZERO;
      processesCount := processesCount - 1;
    }

    /** scheduler_update_process at the end of a time slice. */
    method UpdateProcess()
      requires Valid()
      modifies processes
      ensures Valid() && View() == Preempted(old(View()))
    {
      PreemptKeeps(View(), history);
      if 0 <= current < processes.Length && !processes[current].kernelMode {
        processes[current] := processes[current].(state := Ready);
      }
    }

    /**
     scheduler_get_next_process with a process in the table: the current one when it is alone, otherwise
     the cyclically next eligible one, or the idle process (-1) when there is none; the index then comes
     back to where it was.
     */
    method GetNextProcess() returns (s: int)
      requires Valid()
      modifies this`currentIndex
      ensures s == Chosen(old(View())).current && currentIndex == Chosen(old(View())).cursor
    {
      if processesCount == 1 {
        return current;
      }
      ghost var start, slots := currentIndex, processes[..];
      ghost var base: int := currentIndex;
      var depth := 0;
      PickIsNext(slots, start);
      while true
        invariant 0 <= depth < 2 * processes.Length && currentIndex < processes.Length
        invariant base == start || base == start - processes.Length || base == start - 2 * processes.Length
        invariant currentIndex == base + depth
        invariant NoneWithin(slots, start, depth)
        decreases 2 * processes.Length - depth
      {
        currentIndex := currentIndex + 1;
        depth := depth + 1;
        if currentIndex == processes.Length {
          currentIndex := 0;
          base := base - processes.Length;
        }
        if depth == 2 * processes.Length {
          return -1;
        }
        if processes[currentIndex].pending != [] || processes[currentIndex].state == Ready {
          return currentIndex;
        }
      }
    }

    /** context_switch up to the restoring of registers. */
    method ContextSwitch()
      requires Valid() && Permitted(View(), Event.Switch)
      modifies this, processes
      ensures Valid() && View() == Step(old(View()), Event.Switch)
      ensures history == Noted(old(View()), old(history), Event.Switch)
    {
      hide DistinctPids, PidsBelow, Family, AllPlacesOk, ParentsOk, ZombiesRecorded, ReapsOk;
      ghost var t := View();
      SwitchKeeps(t, history);
      if Terminates(Delivered(Chosen(t))) { FoundByPid(t, history, Chosen(t).current); }
      current := GetNextProcess();
      assert View() == Chosen(t);
      history := Noted(t, history, Event.Switch);
      DeliverSignal();
    }

    /** The rest of context_switch: get_pending_signal, the default actions, and the new state. */
    method DeliverSignal()
      requires -1 <= current < processes.Length
      requires Terminates(Delivered(View())) ==> CanKill(View(), current)
      requires Terminates(Delivered(View())) ==> PidFrom(processes[..], processes[current].pid, 0) == current
      modifies processes
      ensures View() == Resumed(old(View()))
    {
      if current < 0 {
        return;
      }
      var sig := PopSignal();
      if sig == SIGCHLD && processes[current].state == WaitingForChildExit {
        processes[current] := processes[current].(state := Ready);
      } else if Terminates(sig) {
        EndCurrent(128 + sig);
      } else if !processes[current].kernelMode {
        processes[current] := processes[current].(state := Running);
      }
    }

    /** get_pending_signal: the signal taken from the queue, -1 when there is none. */
    method PopSignal() returns (sig: int)
      requires 0 <= current < processes.Length
      modifies processes
      ensures sig == old(Delivered(View()))
      ensures processes[..] == old(processes[..])[current := old(processes[current]).(pending :=
                if sig < 0 then old(processes[current]).pending else old(processes[current]).pending[1..])]
    {
      sig := -1;
      if processes[current].pending != [] {
        sig := processes[current].pending[0];
        processes[current] := processes[current].(pending := processes[current].pending[1..]);
      }
    }
  }

  /** The lookup by pid looks at pids only. */
  lemma {:induction false} FoundAlike(slots: seq<Process>, slots': seq<Process>, pid: nat, i: nat)
    requires SameFamily(slots, slots') && i <= |slots|
    ensures PidFrom(slots', pid, i) == PidFrom(slots, pid, i)
    decreases |slots| - i
  {
    if i < |slots| { FoundAlike(slots, slots', pid, i + 1); }
  }

  lemma InitialSlots()
    ensures |Initial().slots| == 20
  {
  }

  /** Twenty slots, zeroed but for init's. */
  lemma FirstOccupants(slots: seq<Process>)
    requires |slots| == 20 == |Initial().slots|
    requires slots[0] == Initial().slots[0] && forall i | 1 <= i < 20 :: slots[i] == ZERO
    ensures Table(slots, 1, 2, 0, 1) == Initial()
  {
    assert slots == Initial().slots;
  }

  /** The table with the new process in its slot, before the parent knows of it. */
  function Populated(t: Table): Table
    requires CanSpawn(t)
  {
    if !Admitted(t) then t
    else if !HasZero(t) then t.(count := t.count + 1, nextPid := t.nextPid + 1)
    else t.(slots := t.slots[ZeroFrom(t.slots, 0) := Fresh(t.nextPid, t.current, |t.slots[t.current].children| - 1)],
            count := t.count + 1, nextPid := t.nextPid + 1)
  }

  lemma SpawnedIs(t: Table)
    requires CanSpawn(t)
    ensures |Populated(t).slots| == |t.slots|
    ensures if Admitted(t) && HasZero(t) then
              && Populated(t).slots[t.current] == t.slots[t.current]
              && Spawned(t) == Populated(t).(slots :=
                   Populated(t).slots[t.current := WithChild(t.slots[t.current], ZeroFrom(t.slots, 0))])
            else Spawned(t) == Populated(t)
  {
    assert |t.slots[t.current].children| > 0;
  }

  /** The lookup by pid after populating finds the slot populated. */
  lemma AddedSlot(t: Table, slots: seq<Process>, added: nat)
    requires CanSpawn(t) && PidsBelow(t.slots, t.nextPid) && t.nextPid > 0
    requires var child := Fresh(t.nextPid, t.current, |t.slots[t.current].children| - 1);
             slots == if HasZero(t) then t.slots[ZeroFrom(t.slots, 0) := child] else t.slots
    requires added == PidFrom(slots, t.nextPid, 0)
    ensures added == ZeroFrom(t.slots, 0)
  {
    if HasZero(t) { assert slots[ZeroFrom(t.slots, 0)].pid == t.nextPid; }
  }
}
