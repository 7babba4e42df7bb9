/** The process table: what spawn, exit, kill, wait and the context switch make of it. */
module Processes {
  import opened Scheduling

  const SIGHUP: nat := 1
  const SIGINT: nat := 2
  const SIGKILL: nat := 9
  const SIGTERM: nat := 15
  const SIGCHLD: nat := 20

  /** A slot never used, or evaporated. */
  const ZERO: Process := Process(0, New, 0, false, [], -1, 0, [])

  /** The scheduler's state; `current` is -1 for the idle process. */
  datatype Table = Table(slots: seq<Process>, count: nat, nextPid: nat, current: int, cursor: nat)

  // ----- Searches

  function ZeroFrom(slots: seq<Process>, i: nat): (z: nat)
    requires i <= |slots|
    ensures i <= z <= |slots| && (z < |slots| ==> slots[z] == ZERO)
    decreases |slots| - i
  {
    if i == |slots| || slots[i] == ZERO then i else ZeroFrom(slots, i + 1)
  }

  function PidFrom(slots: seq<Process>, pid: nat, i: nat): (s: nat)
    requires i <= |slots|
    ensures i <= s <= |slots| && (s < |slots| ==> slots[s].pid == pid)
    ensures forall j | i <= j < s :: slots[j].pid != pid
    decreases |slots| - i
  {
    if i == |slots| || slots[i].pid == pid then i else PidFrom(slots, pid, i + 1)
  }

  function NullFrom(children: seq<int>, i: nat): (k: nat)
    requires i <= |children|
    ensures i <= k <= |children| && (k < |children| ==> children[k] < 0)
    decreases |children| - i
  {
    if i == |children| || children[i] < 0 then i else NullFrom(children, i + 1)
  }

  predicate IsZombie(slots: seq<Process>, c: int) {
    0 <= c < |slots| && slots[c].state == Terminated
  }

  /** The last of the first `n` children that is terminated, or -1. */
  function LastTerminated(slots: seq<Process>, children: seq<int>, n: nat): (k: int)
    requires n <= |children|
    ensures -1 <= k < n && (k >= 0 ==> IsZombie(slots, children[k]))
    ensures k < 0 ==> forall i | 0 <= i < n :: !IsZombie(slots, children[i])
  {
    if n == 0 then -1 else if IsZombie(slots, children[n - 1]) then n - 1 else LastTerminated(slots, children, n - 1)
  }

  /** The highest place whose child is terminated. */
  predicate HighestDead(slots: seq<Process>, children: seq<int>, k: int) {
    && 0 <= k < |children| && 0 <= children[k] < |slots| && slots[children[k]].state == Terminated
    && forall i | k < i < |children| && 0 <= children[i] < |slots| :: slots[children[i]].state != Terminated
  }

  lemma {:induction false} LastIsHighest(slots: seq<Process>, children: seq<int>, n: nat)
    requires n <= |children| && LastTerminated(slots, children, n) >= 0
    ensures HighestDead(slots, children[..n], LastTerminated(slots, children, n))
  {
    if n > 0 && !IsZombie(slots, children[n - 1]) { LastIsHighest(slots, children, n - 1); }
  }

  // ----- Steps

  /** signal_notify; nobody masks a signal. Null is passed over. */
  function Notified(slots: seq<Process>, s: int, sig: nat): (r: seq<Process>)
    ensures |r| == |slots|
  {
    if 0 <= s < |slots| then slots[s := slots[s].(pending := slots[s].pending + [sig])] else slots
  }

  /** SIGHUP to the first `n` children. */
  function HungUp(slots: seq<Process>, children: seq<int>, n: nat): (r: seq<Process>)
    requires n <= |children|
    ensures |r| == |slots|
  {
    if n == 0 then slots else Notified(HungUp(slots, children, n - 1), children[n - 1], SIGHUP)
  }

  function Fresh(pid: nat, parent: int, places: nat): Process {
    Process(pid, Ready, 0, false, [], parent, 0, seq(places, _ => -1))
  }

  /** A new child in the first free place, if there is one. */
  function WithChild(p: Process, c: nat): Process {
    var k := NullFrom(p.children, 0);
    if k < |p.children| then p.(children := p.children[k := c], childrenCount := p.childrenCount + 1) else p
  }

  /** Spawning: a real process is running and may have children. */
  predicate CanSpawn(t: Table) {
    0 <= t.current < |t.slots| && |t.slots[t.current].children| > 0
  }

  /** Whether the guard on the count lets a spawn through, and whether there is a slot for it. */
  predicate Admitted(t: Table) { t.count <= |t.slots| }
  predicate HasZero(t: Table) { ZeroFrom(t.slots, 0) < |t.slots| }

  /** The parent has a free place for a child. */
  predicate HasPlace(t: Table)
    requires CanSpawn(t)
  {
    NullFrom(t.slots[t.current].children, 0) < |t.slots[t.current].children|
  }

  function Spawned(t: Table): Table
    requires CanSpawn(t)
  {
    if !Admitted(t) then t
    else if !HasZero(t) then t.(count := t.count + 1, nextPid := t.nextPid + 1)
    else
      var z, parent := ZeroFrom(t.slots, 0), t.slots[t.current];
      t.(slots := t.slots[z := Fresh(t.nextPid, t.current, |parent.children| - 1)][t.current := WithChild(parent, z)],
         count := t.count + 1, nextPid := t.nextPid + 1)
  }

  /** sys_kill with a signal other than SIGTERM: the target is there and has a parent. */
  predicate CanKill(t: Table, s: int) {
    && 0 <= s < |t.slots| && 0 <= t.slots[s].parent < |t.slots|
    && t.slots[s].childrenCount <= |t.slots[s].children|
  }

  function Killed(t: Table, s: nat): Table
    requires CanKill(t, s)
  {
    var p := t.slots[s];
    var told := HungUp(Notified(t.slots, p.parent, SIGCHLD), p.children, p.childrenCount);
    t.(slots := told[s := told[s].(pending := [], state := Terminated)])
  }

  function Exited(t: Table, status: int): Table
    requires CanKill(t, t.current)
  {
    Killed(t.(slots := t.slots[t.current := t.slots[t.current].(state := Terminated, exitCode := status)]), t.current)
  }

  /** A system call sets the kernel mode flag; sys_exit never gets to the place that resets it. */
  function Entered(t: Table): Table
    requires 0 <= t.current < |t.slots|
  {
    t.(slots := t.slots[t.current := t.slots[t.current].(kernelMode := true)])
  }

  /** The first half of sys_wait. */
  function Waiting(t: Table): Table
    requires 0 <= t.current < |t.slots|
  {
    t.(slots := t.slots[t.current := t.slots[t.current].(state := WaitingForChildExit, kernelMode := true)])
  }

  /** What the second half of sys_wait needs. */
  predicate CanCollect(t: Table) {
    && 0 <= t.current < |t.slots|
    && LastTerminated(t.slots, t.slots[t.current].children, |t.slots[t.current].children|) >= 0
    && t.slots[t.current].childrenCount > 0
  }

  /** The place among its children, and the slot, of the process that sys_wait returns. */
  function DeadPlace(t: Table): (k: nat)
    requires CanCollect(t)
    ensures k < |t.slots[t.current].children|
  {
    LastTerminated(t.slots, t.slots[t.current].children, |t.slots[t.current].children|)
  }

  /** Of several terminated children the one in the highest place is taken. */
  lemma DeadPlaceIsHighest(t: Table)
    requires CanCollect(t)
    ensures HighestDead(t.slots, t.slots[t.current].children, DeadPlace(t))
  {
    var children := t.slots[t.current].children;
    LastIsHighest(t.slots, children, |children|);
    assert children[..|children|] == children;
  }

  function DeadSlot(t: Table): (c: nat)
    requires CanCollect(t)
    ensures c < |t.slots| && t.slots[c].state == Terminated
  {
    t.slots[t.current].children[DeadPlace(t)]
  }

  /** The second half of sys_wait: the child's slot is zeroed and its place freed. */
  function Collected(t: Table): Table
    requires CanCollect(t) && t.count > 0
  {
    var p := t.slots[t.current];
    var back := p.(state := Running, kernelMode := false, childrenCount := p.childrenCount - 1,
                   children := p.children[DeadPlace(t) := -1]);
    t.(slots := t.slots[PidFrom(t.slots, t.slots[DeadSlot(t)].pid, 0) := ZERO][t.current := back], count := t.count - 1)
  }

  /** The end of a time slice. */
  function Preempted(t: Table): Table {
    if 0 <= t.current < |t.slots| && !t.slots[t.current].kernelMode then
      t.(slots := t.slots[t.current := t.slots[t.current].(state := Ready)])
    else t
  }

  /** The choice of the next process; with one process in the table it is the current one again. */
  function Chosen(t: Table): Table
    requires t.cursor < |t.slots|
  {
    if t.count <= 1 then t else t.(current := Pick(t.slots, t.cursor), cursor := Advanced(t.slots, t.cursor))
  }

  /** Whether the default action for a signal ends the process. */
  predicate Terminates(sig: int) {
    sig == SIGHUP || sig == SIGINT || sig == SIGKILL || sig == SIGTERM
  }

  /** The first pending signal of the current process, or -1. */
  function Delivered(t: Table): int {
    if 0 <= t.current < |t.slots| && t.slots[t.current].pending != [] then t.slots[t.current].pending[0] else -1
  }

  /** Delivery of one pending signal to the chosen process, and its resumption. */
  function Resumed(t: Table): Table
    requires Terminates(Delivered(t)) ==> CanKill(t, t.current)
  {
    if !(0 <= t.current < |t.slots|) then t
    else
      var sig := Delivered(t);
      var pending := t.slots[t.current].pending;
      var p := t.slots[t.current].(pending := if sig < 0 then pending else pending[1..]);
      var t1 := t.(slots := t.slots[t.current := p]);
      if sig == SIGCHLD && p.state == WaitingForChildExit then t1.(slots := t1.slots[t.current := p.(state := Ready)])
      else if Terminates(sig) then Exited(t1, 128 + sig)
      else if p.kernelMode then t1
      else t1.(slots := t1.slots[t.current := p.(state := Running)])
  }

  // ----- Runs

  datatype Event = Spawn | Exit(status: int) | Kill(pid: nat, sig: nat) | Wait | Collect | Preempt | Switch

  /** What the callers of the steps owe. */
  predicate Permitted(t: Table, e: Event)
    requires t.cursor < |t.slots|
  {
    match e
    case Spawn => CanSpawn(t)
    case Exit(_) => CanKill(t, t.current)
    case Kill(pid, sig) =>
      var s := PidFrom(t.slots, pid, 0);
      s < |t.slots| && sig != SIGTERM ==> CanKill(t, s) && t.slots[s].state != Terminated
    case Wait => 0 <= t.current < |t.slots|
    case Collect => CanCollect(t)
    case Preempt => true
    case Switch => Terminates(Delivered(Chosen(t))) ==> CanKill(Chosen(t), Chosen(t).current)
  }

  function Step(t: Table, e: Event): Table
    requires t.cursor < |t.slots| && t.count > 0 && Permitted(t, e)
  {
    match e
    case Spawn => Spawned(t)
    case Exit(status) => Exited(Entered(t), status)
    case Kill(pid, sig) =>
      var s := PidFrom(t.slots, pid, 0);
      if s == |t.slots| then t
      else if sig == SIGTERM then t.(slots := Notified(t.slots, s, SIGTERM))
      else Killed(t, s)
    case Wait => Waiting(t)
    case Collect => Collected(t)
    case Preempt => Preempted(t)
    case Switch => Resumed(Chosen(t))
  }

  // ----- What every run keeps

  /** One return of sys_wait: who called it, the pid and the exit status. */
  datatype Reaped = Reaped(parent: nat, pid: nat, status: int)

  /** What happened so far: who spawned whom, with which exit statuses each process has become
      TERMINATED, in order, what sys_wait returned, how many spawns passed the guard and found no free slot, and which
      processes were spawned by one that had no free place for a child. */
  datatype History = History(parentOf: map<nat, nat>, deaths: map<nat, seq<int>>, reaped: seq<Reaped>, leaked: nat,
                             unplaced: set<nat>)

  /** One death more, with its exit status. */
  function Died(deaths: map<nat, seq<int>>, pid: nat, status: int): map<nat, seq<int>> {
    deaths[pid := (if pid in deaths then deaths[pid] else []) + [status]]
  }

  /** The process died, the last time with this status. */
  predicate LastDeath(deaths: map<nat, seq<int>>, pid: nat, status: int) {
    pid in deaths && deaths[pid] != [] && deaths[pid][|deaths[pid]| - 1] == status
  }

  function OccupiedTo(slots: seq<Process>, n: nat): nat
    requires n <= |slots|
  {
    if n == 0 then 0 else OccupiedTo(slots, n - 1) + (if slots[n - 1].pid != 0 then 1 else 0)
  }

  /** How many slots hold a process. */
  function Occupied(slots: seq<Process>): nat {
    OccupiedTo(slots, |slots|)
  }

  function NonNullTo(children: seq<int>, n: nat): nat
    requires n <= |children|
  {
    if n == 0 then 0 else NonNullTo(children, n - 1) + (if children[n - 1] >= 0 then 1 else 0)
  }

  /** No two processes have the same pid. */
  ghost predicate DistinctPids(slots: seq<Process>) {
    forall i, j | 0 <= i < j < |slots| && slots[i].pid != 0 :: slots[i].pid != slots[j].pid
  }

  /** A child's place names the slot of a process that this process spawned. */
  ghost predicate IsChild(slots: seq<Process>, parentOf: map<nat, nat>, q: nat, i: nat)
    requires q < |slots| && i < |slots[q].children|
  {
    var c := slots[q].children[i];
    c >= 0 ==> c < |slots| && slots[c].pid in parentOf && parentOf[slots[c].pid] == slots[q].pid
  }

  ghost predicate Family(slots: seq<Process>, parentOf: map<nat, nat>) {
    forall q, i | 0 <= q < |slots| && 0 <= i < |slots[q].children| :: IsChild(slots, parentOf, q, i)
  }

  /** The places of one process: no slot twice, null written as -1, and the count is right. */
  ghost predicate PlacesOk(p: Process) {
    && p.childrenCount == NonNullTo(p.children, |p.children|)
    && (forall i | 0 <= i < |p.children| :: p.children[i] >= -1)
    && forall i, j | 0 <= i < j < |p.children| && p.children[i] >= 0 :: p.children[i] != p.children[j]
  }

  ghost predicate AllPlacesOk(slots: seq<Process>) {
    forall q | 0 <= q < |slots| :: PlacesOk(slots[q])
  }

  /** Pids are below the next one, and a slot without a process has no children and no parent. */
  ghost predicate PidsBelow(slots: seq<Process>, nextPid: nat) {
    forall i | 0 <= i < |slots| ::
      slots[i].pid < nextPid && (slots[i].pid == 0 ==> slots[i].children == [] && slots[i].parent < 0)
  }

  ghost predicate ZombiesRecorded(slots: seq<Process>, deaths: map<nat, seq<int>>) {
    forall i | 0 <= i < |slots| && slots[i].pid != 0 && slots[i].state == Terminated ::
      LastDeath(deaths, slots[i].pid, slots[i].exitCode)
  }

  /** Pids grow from parent to child and stay below the next one. */
  ghost predicate ParentsOk(parentOf: map<nat, nat>, nextPid: nat) {
    forall c | c in parentOf :: 0 < parentOf[c] < c < nextPid
  }

  /** A pid that sys_wait returned is gone from the table, was TERMINATED with the status returned, and was
      returned to its parent. */
  ghost predicate ReapOk(h: History, slots: seq<Process>, r: Reaped) {
    && LastDeath(h.deaths, r.pid, r.status)
    && r.pid in h.parentOf && h.parentOf[r.pid] == r.parent
    && forall i | 0 <= i < |slots| :: slots[i].pid != r.pid
  }

  ghost predicate ReapsOk(h: History, slots: seq<Process>) {
    && (forall k | 0 <= k < |h.reaped| :: ReapOk(h, slots, h.reaped[k]))
    && forall j, k | 0 <= j < k < |h.reaped| :: h.reaped[j].pid != h.reaped[k].pid
  }

  ghost predicate Inv(t: Table, h: History) {
    && 2 <= |t.slots| && t.cursor < |t.slots| && -1 <= t.current < |t.slots| && t.count > 0
    && DistinctPids(t.slots) && PidsBelow(t.slots, t.nextPid)
    && Family(t.slots, h.parentOf) && AllPlacesOk(t.slots) && ParentsOk(h.parentOf, t.nextPid)
    && ZombiesRecorded(t.slots, h.deaths) && ReapsOk(h, t.slots)
    && t.count == Occupied(t.slots) + h.leaked
  }

  /** The pid of the process in a slot. */
  function PidAt(t: Table, s: int): nat {
    if 0 <= s < |t.slots| then t.slots[s].pid else 0
  }

  /** What a step adds to the history. */
  function Noted(t: Table, h: History, e: Event): History
    requires t.cursor < |t.slots| && t.count > 0 && Permitted(t, e)
  {
    match e
    case Spawn =>
      if !Admitted(t) then h
      else if !HasZero(t) then h.(leaked := h.leaked + 1)
      else
        h.(parentOf := h.parentOf[t.nextPid := PidAt(t, t.current)],
           unplaced := if HasPlace(t) then h.unplaced else h.unplaced + {t.nextPid})
    case Exit(status) => h.(deaths := Died(h.deaths, PidAt(t, t.current), status))
    case Kill(pid, sig) =>
      var s := PidFrom(t.slots, pid, 0);
      if sig == SIGTERM || s == |t.slots| then h else h.(deaths := Died(h.deaths, pid, t.slots[s].exitCode))
    case Collect =>
      var dead := t.slots[DeadSlot(t)];
      h.(reaped := h.reaped + [Reaped(PidAt(t, t.current), dead.pid, dead.exitCode)])
    case Switch =>
      var sig := Delivered(Chosen(t));
      if Terminates(sig) then h.(deaths := Died(h.deaths, PidAt(t, Chosen(t).current), 128 + sig)) else h
    case _ => h
  }

  // ----- Steps that leave the family alone

  /** The same processes with the same parents and children. */
  ghost predicate SameFamily(slots: seq<Process>, slots': seq<Process>) {
    |slots'| == |slots| && forall i | 0 <= i < |slots| ::
      && slots'[i].pid == slots[i].pid && slots'[i].parent == slots[i].parent
      && slots'[i].children == slots[i].children && slots'[i].childrenCount == slots[i].childrenCount
  }

  /** A process that has a parent is the one that its pid finds. */
  lemma FoundByPid(t: Table, h: History, s: nat)
    requires Inv(t, h) && CanKill(t, s)
    ensures t.slots[s].pid > 0 && PidFrom(t.slots, t.slots[s].pid, 0) == s
  {
    assert PidFrom(t.slots, t.slots[s].pid, 0) <= s;
  }

  lemma {:induction false} SameOccupied(slots: seq<Process>, slots': seq<Process>, n: nat)
    requires SameFamily(slots, slots') && n <= |slots|
    ensures OccupiedTo(slots', n) == OccupiedTo(slots, n)
  {
    if n > 0 { SameOccupied(slots, slots', n - 1); }
  }

  lemma SameFamilyIsFamily(slots: seq<Process>, slots': seq<Process>, parentOf: map<nat, nat>)
    requires SameFamily(slots, slots') && Family(slots, parentOf) && AllPlacesOk(slots)
    ensures Family(slots', parentOf) && AllPlacesOk(slots')
  {
    forall q, i | 0 <= q < |slots'| && 0 <= i < |slots'[q].children| ensures IsChild(slots', parentOf, q, i) {
      assert IsChild(slots, parentOf, q, i);
    }
    forall q | 0 <= q < |slots'| ensures PlacesOk(slots'[q]) {
      assert PlacesOk(slots[q]);
    }
  }

  /** The same processes, and none of them newly TERMINATED. */
  ghost predicate EndsNone(slots: seq<Process>, slots': seq<Process>) {
    && SameFamily(slots, slots')
    && forall i | 0 <= i < |slots| && slots'[i].state == Terminated ::
         slots[i].state == Terminated && slots'[i].exitCode == slots[i].exitCode
  }

  /** The same processes, and none of them newly TERMINATED but the one in slot `s`, with this status. */
  ghost predicate EndsOne(slots: seq<Process>, slots': seq<Process>, s: int, status: int) {
    && 0 <= s < |slots| && SameFamily(slots, slots') && slots'[s].exitCode == status
    && forall i | 0 <= i < |slots| && i != s && slots'[i].state == Terminated ::
         slots[i].state == Terminated && slots'[i].exitCode == slots[i].exitCode
  }

  lemma EndRecorded(slots: seq<Process>, slots': seq<Process>, deaths: map<nat, seq<int>>, s: nat, status: int)
    requires EndsOne(slots, slots', s, status) && DistinctPids(slots) && slots[s].pid != 0
    requires ZombiesRecorded(slots, deaths)
    ensures ZombiesRecorded(slots', Died(deaths, slots[s].pid, status))
  {
    forall i | 0 <= i < |slots'| && slots'[i].pid != 0 && slots'[i].state == Terminated
      ensures LastDeath(Died(deaths, slots[s].pid, status), slots'[i].pid, slots'[i].exitCode)
    {
      if i != s { assert slots[i].pid != slots[s].pid; }
    }
  }

  lemma EndReaps(h: History, slots: seq<Process>, slots': seq<Process>, s: nat, status: int)
    requires SameFamily(slots, slots') && s < |slots| && ReapsOk(h, slots)
    ensures ReapsOk(h.(deaths := Died(h.deaths, slots[s].pid, status)), slots')
  {
    var h' := h.(deaths := Died(h.deaths, slots[s].pid, status));
    forall k | 0 <= k < |h.reaped| ensures ReapOk(h', slots', h'.reaped[k]) {
      assert ReapOk(h, slots, h.reaped[k]);
    }
  }

  lemma SameReaps(h: History, slots: seq<Process>, slots': seq<Process>)
    requires SameFamily(slots, slots') && ReapsOk(h, slots)
    ensures ReapsOk(h, slots')
  {
    forall k | 0 <= k < |h.reaped| ensures ReapOk(h, slots', h.reaped[k]) {
      assert ReapOk(h, slots, h.reaped[k]);
    }
  }

  /** What else a step leaves alone. */
  predicate SameNumbers(t: Table, t': Table) {
    t'.count == t.count && t'.nextPid == t.nextPid && t'.cursor < |t.slots| && -1 <= t'.current < |t.slots|
  }

  /** Nothing about the family depends on states, signals or exit codes. */
  lemma NoEndKeeps(t: Table, h: History, t': Table)
    requires Inv(t, h) && EndsNone(t.slots, t'.slots) && SameNumbers(t, t')
    ensures Inv(t', h)
  {
    SameOccupied(t.slots, t'.slots, |t.slots|);
    SameFamilyIsFamily(t.slots, t'.slots, h.parentOf);
    SameReaps(h, t.slots, t'.slots);
  }

  lemma EndKeeps(t: Table, h: History, t': Table, s: nat, status: int)
    requires Inv(t, h) && EndsOne(t.slots, t'.slots, s, status) && t.slots[s].pid != 0 && SameNumbers(t, t')
    ensures Inv(t', h.(deaths := Died(h.deaths, t.slots[s].pid, status)))
  {
    SameOccupied(t.slots, t'.slots, |t.slots|);
    SameFamilyIsFamily(t.slots, t'.slots, h.parentOf);
    EndRecorded(t.slots, t'.slots, h.deaths, s, status);
    EndReaps(h, t.slots, t'.slots, s, status);
  }

  /** Notifying changes pending signals only. */
  ghost predicate OnlySignals(slots: seq<Process>, slots': seq<Process>) {
    |slots'| == |slots| && forall i | 0 <= i < |slots| :: slots'[i] == slots[i].(pending := slots'[i].pending)
  }

  lemma {:induction false} HungUpOnlySignals(slots: seq<Process>, children: seq<int>, n: nat)
    requires n <= |children|
    ensures OnlySignals(slots, HungUp(slots, children, n))
  {
    if n > 0 { HungUpOnlySignals(slots, children, n - 1); }
  }

  /** What a kill does to the slots: one process ends, and others get signals. */
  lemma KilledIs(t: Table, s: nat)
    requires CanKill(t, s)
    ensures var slots' := Killed(t, s).slots;
            && SameFamily(t.slots, slots')
            && slots'[s].state == Terminated && slots'[s].exitCode == t.slots[s].exitCode
            && slots'[s] == t.slots[s].(state := Terminated, pending := [])
            && (forall i | 0 <= i < |t.slots| && i != s :: slots'[i] == t.slots[i].(pending := slots'[i].pending))
    ensures EndsOne(t.slots, Killed(t, s).slots, s, t.slots[s].exitCode)
  {
    HungUpOnlySignals(Notified(t.slots, t.slots[s].parent, SIGCHLD), t.slots[s].children, t.slots[s].childrenCount);
  }

  lemma ExitedIs(t: Table, status: int)
    requires CanKill(t, t.current)
    ensures EndsOne(t.slots, Exited(t, status).slots, t.current, status)
    ensures Exited(t, status).slots[t.current].state == Terminated
  {
    var t1 := t.(slots := t.slots[t.current := t.slots[t.current].(state := Terminated, exitCode := status)]);
    KilledIs(t1, t.current);
    assert SameFamily(t.slots, t1.slots);
  }

  lemma KillKeeps(t: Table, h: History, pid: nat, sig: nat)
    requires Inv(t, h) && Permitted(t, Kill(pid, sig))
    ensures Inv(Step(t, Kill(pid, sig)), Noted(t, h, Kill(pid, sig)))
  {
    var s := PidFrom(t.slots, pid, 0);
    if s < |t.slots| && sig != SIGTERM {
      KilledIs(t, s);
      EndKeeps(t, h, Killed(t, s), s, t.slots[s].exitCode);
    } else {
      NoEndKeeps(t, h, Step(t, Kill(pid, sig)));
    }
  }

  lemma ExitKeeps(t: Table, h: History, status: int)
    requires Inv(t, h) && Permitted(t, Exit(status))
    ensures Inv(Step(t, Exit(status)), Noted(t, h, Exit(status)))
  {
    ExitedIs(Entered(t), status);
    EndKeeps(t, h, Exited(Entered(t), status), t.current, status);
  }

  /** What the delivery of a signal does to the slots: only the chosen process can end by it. */
  lemma ResumedIs(t: Table)
    requires Terminates(Delivered(t)) ==> CanKill(t, t.current)
    ensures if Terminates(Delivered(t)) then EndsOne(t.slots, Resumed(t).slots, t.current, 128 + Delivered(t))
            else EndsNone(t.slots, Resumed(t).slots)
  {
    if 0 <= t.current < |t.slots| && Terminates(Delivered(t)) {
      var p := t.slots[t.current];
      ExitedIs(t.(slots := t.slots[t.current := p.(pending := p.pending[1..])]), 128 + Delivered(t));
    }
  }

  /** What it does to the process that it is delivered to: 1, 2, 9 and 15 end the process, with
      128 more as its exit status. */
  lemma DeliveryEnds(t: Table)
    requires 0 <= t.current < |t.slots| && (Terminates(Delivered(t)) ==> CanKill(t, t.current))
    ensures Terminates(Delivered(t)) <==>
              Delivered(t) == 1 || Delivered(t) == 2 || Delivered(t) == 9 || Delivered(t) == 15
    ensures Terminates(Delivered(t)) ==>
              var p' := Resumed(t).slots[t.current];
              p'.state == Terminated && p'.exitCode == 128 + Delivered(t) && p'.pending == []
  {
    if Terminates(Delivered(t)) {
      var p, status := t.slots[t.current], 128 + Delivered(t);
      var t1 := t.(slots := t.slots[t.current := p.(pending := p.pending[1..])]);
      KilledIs(t1.(slots := t1.slots[t.current := t1.slots[t.current].(state := Terminated, exitCode := status)]),
               t.current);
    }
  }

  /** Any other signal is taken off the queue: SIGCHLD (20) ends a wait, a process in kernel mode stays what it was,
      and any other process runs on. */
  lemma DeliveryPasses(t: Table)
    requires 0 <= t.current < |t.slots| && !Terminates(Delivered(t))
    ensures var p := t.slots[t.current];
            Resumed(t).slots[t.current]
            == p.(pending := if p.pending == [] then [] else p.pending[1..],
                  state := if Delivered(t) == 20 && p.state == WaitingForChildExit then Ready
                           else if p.kernelMode then p.state else Running)
  {
  }

  /** A process that has exited is in kernel mode and has no signals: chosen right away, it does not run on. */
  lemma ExitStaysDown(t: Table, status: int)
    requires CanKill(t, t.current)
    ensures var p' := Exited(Entered(t), status).slots[t.current];
            p'.state == Terminated && p'.exitCode == status && p'.kernelMode && p'.pending == []
    ensures Resumed(Exited(Entered(t), status)).slots[t.current].state == Terminated
  {
    var t1 := Entered(t);
    KilledIs(t1.(slots := t1.slots[t.current := t1.slots[t.current].(state := Terminated, exitCode := status)]),
             t.current);
  }

  lemma SwitchKeeps(t: Table, h: History)
    requires Inv(t, h) && Permitted(t, Switch)
    ensures Inv(Step(t, Switch), Noted(t, h, Switch))
  {
    var c := Chosen(t);
    ResumedIs(c);
    if Terminates(Delivered(c)) {
      EndKeeps(t, h, Resumed(c), c.current, 128 + Delivered(c));
    } else {
      NoEndKeeps(t, h, Resumed(c));
    }
  }

  lemma WaitKeeps(t: Table, h: History)
    requires Inv(t, h) && Permitted(t, Wait)
    ensures Inv(Step(t, Wait), Noted(t, h, Wait))
  {
    NoEndKeeps(t, h, Waiting(t));
  }

  lemma PreemptKeeps(t: Table, h: History)
    requires Inv(t, h)
    ensures Inv(Step(t, Preempt), Noted(t, h, Preempt))
  {
    NoEndKeeps(t, h, Preempted(t));
  }

  // ----- Spawning

  lemma {:induction false} OccupiedUpdate(slots: seq<Process>, s: nat, p: Process, n: nat)
    requires s < |slots| && n <= |slots|
    ensures OccupiedTo(slots[s := p], n) == OccupiedTo(slots, n)
      + (if s < n then (if p.pid != 0 then 1 else 0) - (if slots[s].pid != 0 then 1 else 0) else 0)
  {
    if n > 0 { OccupiedUpdate(slots, s, p, n - 1); }
  }

  lemma {:induction false} OccupiedPositive(slots: seq<Process>, s: nat, n: nat)
    requires s < n <= |slots| && slots[s].pid != 0
    ensures OccupiedTo(slots, n) > 0
  {
    if s < n - 1 { OccupiedPositive(slots, s, n - 1); }
  }

  lemma {:induction false} NonNullUpdate(children: seq<int>, k: nat, c: int, n: nat)
    requires k < |children| && n <= |children|
    ensures NonNullTo(children[k := c], n) == NonNullTo(children, n)
      + (if k < n then (if c >= 0 then 1 else 0) - (if children[k] >= 0 then 1 else 0) else 0)
  {
    if n > 0 { NonNullUpdate(children, k, c, n - 1); }
  }

  lemma {:induction false} NonNullFresh(places: nat, n: nat)
    requires n <= places
    ensures NonNullTo(seq(places, _ => -1), n) == 0
  {
    if n > 0 { NonNullFresh(places, n - 1); }
  }

  /** No place names a free slot. */
  lemma FreeSlotUnnamed(t: Table, h: History, z: nat, q: nat, i: nat)
    requires Inv(t, h) && z < |t.slots| && t.slots[z].pid == 0 && q < |t.slots| && i < |t.slots[q].children|
    ensures t.slots[q].children[i] != z
  {
    assert IsChild(t.slots, h.parentOf, q, i);
  }

  lemma SpawnPlaces(t: Table, h: History, z: nat)
    requires Inv(t, h) && CanSpawn(t) && z < |t.slots| && t.slots[z].pid == 0
    ensures PlacesOk(WithChild(t.slots[t.current], z))
    ensures PlacesOk(Fresh(t.nextPid, t.current, |t.slots[t.current].children| - 1))
  {
    var p := t.slots[t.current];
    assert PlacesOk(p);
    NonNullFresh(|p.children| - 1, |p.children| - 1);
    var k := NullFrom(p.children, 0);
    if k < |p.children| {
      NonNullUpdate(p.children, k, z, |p.children|);
      forall i | 0 <= i < |p.children| ensures p.children[i] != z {
        FreeSlotUnnamed(t, h, z, t.current, i);
      }
    }
  }

  lemma SpawnFamily(t: Table, h: History)
    requires Inv(t, h) && CanSpawn(t) && Admitted(t) && HasZero(t)
    ensures Family(Spawned(t).slots, h.parentOf[t.nextPid := t.slots[t.current].pid])
  {
    var slots', parentOf' := Spawned(t).slots, h.parentOf[t.nextPid := t.slots[t.current].pid];
    var z := ZeroFrom(t.slots, 0);
    forall q, i | 0 <= q < |slots'| && 0 <= i < |slots'[q].children| ensures IsChild(slots', parentOf', q, i) {
      if q != z && slots'[q].children[i] != z {
        assert IsChild(t.slots, h.parentOf, q, i);
      }
      if q != z && q != t.current { FreeSlotUnnamed(t, h, z, q, i); }
    }
  }

  lemma SpawnKeeps(t: Table, h: History)
    requires Inv(t, h) && CanSpawn(t)
    ensures Inv(Step(t, Spawn), Noted(t, h, Spawn))
  {
    if Admitted(t) && HasZero(t) {
      SpawnCount(t);
      SpawnPids(t, h);
      SpawnAllPlaces(t, h);
      SpawnFamily(t, h);
      SpawnReaps(t, h);
    }
  }

  lemma SpawnCount(t: Table)
    requires CanSpawn(t) && Admitted(t) && HasZero(t) && t.slots[t.current].pid != 0 && t.nextPid > 0
    ensures Occupied(Spawned(t).slots) == Occupied(t.slots) + 1
  {
    var z, p := ZeroFrom(t.slots, 0), t.slots[t.current];
    var child := Fresh(t.nextPid, t.current, |p.children| - 1);
    OccupiedUpdate(t.slots, z, child, |t.slots|);
    OccupiedUpdate(t.slots[z := child], t.current, WithChild(p, z), |t.slots|);
  }

  lemma SpawnPids(t: Table, h: History)
    requires Inv(t, h) && CanSpawn(t) && Admitted(t) && HasZero(t)
    ensures DistinctPids(Spawned(t).slots) && PidsBelow(Spawned(t).slots, t.nextPid + 1)
    ensures ZombiesRecorded(Spawned(t).slots, h.deaths)
  {
    var slots' := Spawned(t).slots;
    forall i, j | 0 <= i < j < |slots'| && slots'[i].pid != 0 ensures slots'[i].pid != slots'[j].pid {
      assert t.slots[i].pid < t.nextPid && t.slots[j].pid < t.nextPid;
    }
  }

  lemma SpawnAllPlaces(t: Table, h: History)
    requires Inv(t, h) && CanSpawn(t) && Admitted(t) && HasZero(t)
    ensures AllPlacesOk(Spawned(t).slots)
  {
    SpawnPlaces(t, h, ZeroFrom(t.slots, 0));
    forall q | 0 <= q < |t.slots| ensures PlacesOk(Spawned(t).slots[q]) {
      assert PlacesOk(t.slots[q]);
    }
  }

  lemma SpawnReaps(t: Table, h: History)
    requires Inv(t, h) && CanSpawn(t) && Admitted(t) && HasZero(t)
    ensures ReapsOk(Noted(t, h, Spawn), Spawned(t).slots)
  {
    var h' := Noted(t, h, Spawn);
    forall k | 0 <= k < |h'.reaped| ensures ReapOk(h', Spawned(t).slots, h'.reaped[k]) {
      assert ReapOk(h, t.slots, h.reaped[k]) && h.reaped[k].pid < t.nextPid;
    }
  }

  // ----- Collecting

  /** The slot of the dead child: it is the one process of its pid, and a child of the current one. */
  lemma DeadSlotIs(t: Table, h: History)
    requires Inv(t, h) && CanCollect(t)
    ensures t.slots[DeadSlot(t)].pid > 0 && DeadSlot(t) != t.current
    ensures PidFrom(t.slots, t.slots[DeadSlot(t)].pid, 0) == DeadSlot(t)
    ensures t.slots[DeadSlot(t)].pid in h.parentOf && h.parentOf[t.slots[DeadSlot(t)].pid] == t.slots[t.current].pid
  {
    assert IsChild(t.slots, h.parentOf, t.current, DeadPlace(t));
    assert PidFrom(t.slots, t.slots[DeadSlot(t)].pid, 0) <= DeadSlot(t);
  }

  /** No other place names it. */
  lemma DeadPlaceIs(t: Table, h: History, q: nat, i: nat)
    requires Inv(t, h) && CanCollect(t) && q < |t.slots| && i < |t.slots[q].children|
    requires t.slots[q].children[i] == DeadSlot(t)
    ensures q == t.current && i == DeadPlace(t)
  {
    DeadSlotIs(t, h);
    assert IsChild(t.slots, h.parentOf, q, i);
    assert PlacesOk(t.slots[q]);
  }

  lemma CollectKeeps(t: Table, h: History)
    requires Inv(t, h) && CanCollect(t)
    ensures Inv(Step(t, Collect), Noted(t, h, Collect))
  {
    CollectCount(t, h);
    CollectPids(t, h);
    CollectFamily(t, h);
    CollectPlaces(t, h);
    CollectReaps(t, h);
  }

  lemma CollectCount(t: Table, h: History)
    requires Inv(t, h) && CanCollect(t)
    ensures Occupied(t.slots) == Occupied(Collected(t).slots) + 1 && Occupied(Collected(t).slots) > 0
  {
    var slots' := Collected(t).slots;
    DeadSlotIs(t, h);
    CurrentOccupied(t, h);
    OccupiedUpdate(t.slots, DeadSlot(t), ZERO, |t.slots|);
    OccupiedUpdate(t.slots[DeadSlot(t) := ZERO], t.current, slots'[t.current], |t.slots|);
    OccupiedPositive(slots', t.current, |slots'|);
  }

  lemma CurrentOccupied(t: Table, h: History)
    requires Inv(t, h) && CanCollect(t)
    ensures t.slots[t.current].pid != 0
  {
    assert t.slots[t.current].children != [];
  }

  lemma CollectPids(t: Table, h: History)
    requires Inv(t, h) && CanCollect(t)
    ensures DistinctPids(Collected(t).slots) && PidsBelow(Collected(t).slots, t.nextPid)
    ensures ZombiesRecorded(Collected(t).slots, h.deaths)
  {
    DeadSlotIs(t, h);
    CurrentOccupied(t, h);
  }

  lemma CollectFamily(t: Table, h: History)
    requires Inv(t, h) && CanCollect(t)
    ensures Family(Collected(t).slots, h.parentOf)
  {
    DeadSlotIs(t, h);
    forall q, i | 0 <= q < |t.slots| && 0 <= i < |Collected(t).slots[q].children|
      ensures IsChild(Collected(t).slots, h.parentOf, q, i)
    {
      if i < |t.slots[q].children| && t.slots[q].children[i] == DeadSlot(t) { DeadPlaceIs(t, h, q, i); }
      assert q != DeadSlot(t) ==> IsChild(t.slots, h.parentOf, q, i);
    }
  }

  lemma CollectPlaces(t: Table, h: History)
    requires Inv(t, h) && CanCollect(t)
    ensures AllPlacesOk(Collected(t).slots)
  {
    DeadSlotIs(t, h);
    var p := t.slots[t.current];
    NonNullUpdate(p.children, DeadPlace(t), -1, |p.children|);
    forall q | 0 <= q < |t.slots| ensures PlacesOk(Collected(t).slots[q]) {
      assert PlacesOk(t.slots[q]);
    }
  }

  lemma CollectReaps(t: Table, h: History)
    requires Inv(t, h) && CanCollect(t)
    ensures ReapsOk(Noted(t, h, Collect), Collected(t).slots)
  {
    DeadSlotIs(t, h);
    var h', c := Noted(t, h, Collect), DeadSlot(t);
    forall k | 0 <= k < |h'.reaped| ensures ReapOk(h', Collected(t).slots, h'.reaped[k]) {
      if k < |h.reaped| { assert ReapOk(h, t.slots, h.reaped[k]); }
    }
    forall j | 0 <= j < |h.reaped| ensures h.reaped[j].pid != t.slots[c].pid {
      assert ReapOk(h, t.slots, h.reaped[j]);
    }
  }

  // ----- Every run

  lemma StepKeeps(t: Table, h: History, e: Event)
    requires Inv(t, h) && Permitted(t, e)
    ensures Inv(Step(t, e), Noted(t, h, e))
  {
    match e
    case Spawn => SpawnKeeps(t, h);
    case Exit(status) => ExitKeeps(t, h, status);
    case Kill(pid, sig) => KillKeeps(t, h, pid, sig);
    case Wait => WaitKeeps(t, h);
    case Collect => CollectKeeps(t, h);
    case Preempt => PreemptKeeps(t, h);
    case Switch => SwitchKeeps(t, h);
  }

  /** The table as init finds it: itself in slot 0, with nineteen null places for children. */
  function Initial(): Table {
    Table([Process(1, Running, 0, false, [], -1, 0, seq(19, _ => -1))] + seq(19, _ => ZERO), 1, 2, 0, 1)
  }

  function NothingYet(): History {
    History(map[], map[], [], 0, {})
  }

  lemma InitialOk()
    ensures Inv(Initial(), NothingYet())
  {
    NoneOccupied(Initial().slots, 20);
    InitialPlaces();
  }

  lemma InitialPlaces()
    ensures AllPlacesOk(Initial().slots) && Family(Initial().slots, map[])
  {
    NonNullFresh(19, 19);
    forall q | 0 <= q < 20 ensures PlacesOk(Initial().slots[q]) {
      assert q > 0 ==> Initial().slots[q] == ZERO;
    }
    forall i | 0 <= i < 19 ensures IsChild(Initial().slots, map[], 0, i) {
    }
    assert forall q | 0 < q < 20 :: Initial().slots[q] == ZERO;
  }

  lemma {:induction false} NoneOccupied(slots: seq<Process>, n: nat)
    requires 0 < n <= |slots| && slots[0].pid != 0 && forall i | 0 < i < |slots| :: slots[i].pid == 0
    ensures OccupiedTo(slots, n) == 1
  {
    if n > 1 { NoneOccupied(slots, n - 1); } else { assert OccupiedTo(slots, 0) == 0; }
  }

  /** A run from a state: the states and histories it passes through, each step permitted. */
  ghost predicate Runs(t: Table, h: History, events: seq<Event>, t': Table, h': History)
    decreases |events|
  {
    if events == [] then t' == t && h' == h
    else
      && t.cursor < |t.slots| && t.count > 0 && Permitted(t, events[0])
      && Runs(Step(t, events[0]), Noted(t, h, events[0]), events[1..], t', h')
  }

  lemma {:induction false} RunKeeps(t: Table, h: History, events: seq<Event>, t': Table, h': History)
    requires Inv(t, h) && Runs(t, h, events, t', h')
    ensures Inv(t', h')
    decreases |events|
  {
    if events != [] {
      StepKeeps(t, h, events[0]);
      RunKeeps(Step(t, events[0]), Noted(t, h, events[0]), events[1..], t', h');
    }
  }

  /**
   After every run of spawns, exits, kills, waits, preemptions and switches from init's first moment: the
   processes have distinct pids; the count is the number of processes plus the number of spawns that found
   the table full behind the guard; sys_wait returned each pid at most once, to its own parent, after the
   process had become TERMINATED, with the status of its last death, and such a pid is no longer in the table.
   */
  lemma EveryRun(events: seq<Event>, t: Table, h: History)
    requires Runs(Initial(), NothingYet(), events, t, h)
    ensures forall i, j | 0 <= i < j < |t.slots| && t.slots[i].pid != 0 :: t.slots[i].pid != t.slots[j].pid
    ensures t.count == Occupied(t.slots) <==> h.leaked == 0
    ensures forall j, k | 0 <= j < k < |h.reaped| :: h.reaped[j].pid != h.reaped[k].pid
    ensures forall k | 0 <= k < |h.reaped| ::
              && LastDeath(h.deaths, h.reaped[k].pid, h.reaped[k].status)
              && h.reaped[k].pid in h.parentOf
              && h.parentOf[h.reaped[k].pid] == h.reaped[k].parent
    ensures forall k, i | 0 <= k < |h.reaped| && 0 <= i < |t.slots| :: t.slots[i].pid != h.reaped[k].pid
  {
    InitialOk();
    RunKeeps(Initial(), NothingYet(), events, t, h);
    forall k | 0 <= k < |h.reaped| ensures ReapOk(h, t.slots, h.reaped[k]) {
    }
  }

  // ----- Who gets which signal

  /** One SIGHUP for each place that names a slot. */
  function Hups(children: seq<int>, n: nat, j: nat): seq<nat>
    requires n <= |children|
  {
    if n == 0 then [] else Hups(children, n - 1, j) + (if children[n - 1] == j then [SIGHUP] else [])
  }

  lemma {:induction false} HungUpIs(slots: seq<Process>, children: seq<int>, n: nat, j: nat)
    requires n <= |children| && j < |slots|
    ensures HungUp(slots, children, n)[j] == slots[j].(pending := slots[j].pending + Hups(children, n, j))
  {
    if n == 0 {
      assert slots[j].pending + [] == slots[j].pending;
    } else {
      HungUpIs(slots, children, n - 1, j);
      assert slots[j].pending + Hups(children, n - 1, j) + [] == slots[j].pending + (Hups(children, n - 1, j) + []);
    }
  }

  /** A process that ends leaves the others as they are, but for a SIGCHLD to its parent and a SIGHUP to each
      child that the first childrenCount places name. */
  lemma KillSignals(t: Table, s: nat, j: nat)
    requires CanKill(t, s) && j < |t.slots| && j != s
    ensures Killed(t, s).slots[j] == t.slots[j].(pending := t.slots[j].pending
              + (if j == t.slots[s].parent then [SIGCHLD] else [])
              + Hups(t.slots[s].children, t.slots[s].childrenCount, j))
  {
    var p := t.slots[s];
    HungUpIs(Notified(t.slots, p.parent, SIGCHLD), p.children, p.childrenCount, j);
    assert t.slots[j].pending + [] == t.slots[j].pending;
  }

  /** No null lies in front of a child. */
  ghost predicate Packed(children: seq<int>) {
    forall i, k | 0 <= i < k < |children| && children[k] >= 0 :: children[i] >= 0
  }

  /** The first `n` places name children, so that a kill that goes through them meets no null. */
  ghost predicate NoNullWithin(children: seq<int>, n: nat) {
    forall i | 0 <= i < |children| && i < n :: children[i] >= 0
  }

  /** Each child gets its SIGHUP. */
  ghost predicate AllTold(children: seq<int>, n: nat)
    requires n <= |children|
  {
    forall k | 0 <= k < |children| && children[k] >= 0 :: Hups(children, n, children[k]) == [SIGHUP]
  }

  lemma PackedIff(children: seq<int>)
    ensures NonNullTo(children, |children|) <= |children|
    ensures Packed(children) <==> NoNullWithin(children, NonNullTo(children, |children|))
  {
    var n := NonNullTo(children, |children|);
    NonNullGrows(children, 0, |children|);
    if NoNullWithin(children, n) {
      NonNullAll(children, n);
      NoneBehind(children, n, |children|);
    } else {
      NonNullLess(children, n);
      var k := SomeBehind(children, n, |children|);
      var i :| 0 <= i < n && children[i] < 0;
      assert i < k;
    }
  }

  /** What the number of places that are told leaves out: every child gets its SIGHUP exactly when no null
      lies in front of a child, that is, when the kill meets no null. */
  lemma EveryChildTold(p: Process)
    requires PlacesOk(p)
    ensures p.childrenCount <= |p.children|
    ensures AllTold(p.children, p.childrenCount) <==> Packed(p.children)
    ensures Packed(p.children) <==> NoNullWithin(p.children, p.childrenCount)
  {
    var n := p.childrenCount;
    PackedIff(p.children);
    forall k | 0 <= k < |p.children| && p.children[k] >= 0
      ensures Hups(p.children, n, p.children[k]) == if k < n then [SIGHUP] else []
    {
      HupsAt(p.children, n, k);
    }
    if NoNullWithin(p.children, n) {
      NonNullAll(p.children, n);
      NoneBehind(p.children, n, |p.children|);
    } else {
      NonNullLess(p.children, n);
      var k := SomeBehind(p.children, n, |p.children|);
    }
  }

  lemma NonNullLess(children: seq<int>, n: nat)
    requires n <= |children| && !NoNullWithin(children, n)
    ensures NonNullTo(children, n) < n
  {
    var i :| 0 <= i < n && children[i] < 0;
    NonNullGrows(children, 0, i);
    NonNullGrows(children, i + 1, n);
  }

  lemma {:induction false} NonNullAll(children: seq<int>, n: nat)
    requires n <= |children| && forall i | 0 <= i < n :: children[i] >= 0
    ensures NonNullTo(children, n) == n
  {
    if n > 0 { NonNullAll(children, n - 1); }
  }

  /** When the first `n` places hold as many children as all of them, there is none behind. */
  lemma {:induction false} NoneBehind(children: seq<int>, n: nat, m: nat)
    requires n <= m <= |children| && NonNullTo(children, m) == NonNullTo(children, n)
    ensures forall k | n <= k < m :: children[k] < 0
  {
    if n < m {
      NonNullGrows(children, n, m - 1);
      NoneBehind(children, n, m - 1);
    }
  }

  lemma {:induction false} NonNullGrows(children: seq<int>, n: nat, m: nat)
    requires n <= m <= |children|
    ensures NonNullTo(children, n) <= NonNullTo(children, m) <= NonNullTo(children, n) + m - n
  {
    if n < m { NonNullGrows(children, n, m - 1); }
  }

  /** When all places hold more children than the first `n`, there is one behind these. */
  lemma {:induction false} SomeBehind(children: seq<int>, n: nat, m: nat) returns (k: nat)
    requires n <= m <= |children| && NonNullTo(children, n) < NonNullTo(children, m)
    ensures n <= k < m && children[k] >= 0
  {
    if children[m - 1] >= 0 { k := m - 1; } else { k := SomeBehind(children, n, m - 1); }
  }

  /** A child is told once when its place is among those told, and otherwise not at all. */
  lemma {:induction false} HupsAt(children: seq<int>, n: nat, k: nat)
    requires n <= |children| && k < |children| && children[k] >= 0
    requires forall i | 0 <= i < |children| && i != k :: children[i] != children[k]
    ensures Hups(children, n, children[k]) == if k < n then [SIGHUP] else []
  {
    if n > 0 {
      HupsAt(children, n - 1, k);
      if k == n - 1 { HupsNone(children, n - 1, children[k]); }
    }
  }

  lemma {:induction false} HupsNone(children: seq<int>, n: nat, j: nat)
    requires n <= |children| && forall i | 0 <= i < n :: children[i] != j
    ensures Hups(children, n, j) == []
  {
    if n > 0 { HupsNone(children, n - 1, j); }
  }

  /** A process is no child of its own child. */
  lemma NoCycle(t: Table, h: History, q: nat, c: nat, k: nat, i: nat)
    requires Inv(t, h) && q < |t.slots| && c < |t.slots| && k < |t.slots[q].children| && i < |t.slots[c].children|
    requires t.slots[q].children[k] == c
    ensures t.slots[c].children[i] != q && q != c
  {
    assert IsChild(t.slots, h.parentOf, q, k) && IsChild(t.slots, h.parentOf, c, i);
  }

  /**
   A waiting parent is not left waiting: when a child of its exits, the parent becomes eligible for the
   scheduler, and once chosen it gets SIGCHLD, goes on, and has a child to return.
   */
  lemma ExitWakesParent(t: Table, h: History, status: int, k: nat)
    requires Inv(t, h) && CanKill(t, t.current)
    requires var parent := t.slots[t.slots[t.current].parent];
             && k < |parent.children| && parent.children[k] == t.current
             && parent.state == WaitingForChildExit && parent.pending == []
    ensures var q, t' := t.slots[t.current].parent, Step(t, Exit(status));
            && Eligible(t'.slots[q]) && Delivered(t'.(current := q)) == SIGCHLD
            && Resumed(t'.(current := q)).slots[q].state == Ready && CanCollect(Resumed(t'.(current := q)))
  {
    var s, q := t.current, t.slots[t.current].parent;
    var t1 := Entered(t);
    var ended := t1.(slots := t1.slots[s := t1.slots[s].(state := Terminated, exitCode := status)]);
    var children, n := t.slots[s].children, t.slots[s].childrenCount;
    forall i | 0 <= i < |children| ensures children[i] != q { NoCycle(t, h, q, s, k, i); }
    assert IsChild(t.slots, h.parentOf, q, k);
    KillSignals(ended, s, q);
    HupsNone(children, n, q);
    KilledIs(ended, s);
    var t' := Step(t, Exit(status)).(current := q);
    var r := Resumed(t');
    assert t'.slots[q].pending == [SIGCHLD];
    assert r.slots[q].children == t.slots[q].children && r.slots[s].state == Terminated;
    assert IsZombie(r.slots, r.slots[q].children[k]);
    assert PlacesOk(t.slots[q]);
    NonNullPositive(t.slots[q].children, k, |t.slots[q].children|);
  }

  /**
   Spawn, exit and wait undo each other: a process that spawns a child, and waits after the child has
   exited, gets the child's pid and status, and the table is what it was, up to the signal and the states
   of the parent.
   */
  lemma SpawnExitCollect(t: Table, h: History, status: int)
    requires Inv(t, h) && CanSpawn(t) && Admitted(t) && HasZero(t)
    requires NullFrom(t.slots[t.current].children, 0) < |t.slots[t.current].children|
    requires forall i | 0 <= i < |t.slots[t.current].children| :: !IsZombie(t.slots, t.slots[t.current].children[i])
    ensures CanKill(Spawned(t), ZeroFrom(t.slots, 0)) && Spawned(t).count > 0
    ensures var p, z := t.slots[t.current], ZeroFrom(t.slots, 0);
            var t' := Step(Spawned(t).(current := z), Exit(status)).(current := t.current);
            && CanCollect(t') && t'.slots[DeadSlot(t')].pid == t.nextPid && t'.slots[DeadSlot(t')].exitCode == status
            && t'.count > 0 && Collected(t').count == t.count
            && Collected(t').slots ==
                 t.slots[t.current := p.(state := Running, kernelMode := false, pending := p.pending + [SIGCHLD])]
  {
    var p, z, k := t.slots[t.current], ZeroFrom(t.slots, 0), NullFrom(t.slots[t.current].children, 0);
    SpawnExits(t, status);
    var t' := Step(Spawned(t).(current := z), Exit(status)).(current := t.current);
    forall i | 0 <= i < |p.children| ensures p.children[i] != z { FreeSlotUnnamed(t, h, z, t.current, i); }
    assert p.children[k] == -1 by { assert PlacesOk(p); }
    UndoneByWait(t, t', z, k);
  }

  /** Collecting the one TERMINATED child, in slot `z` and place `k`, gives both back. */
  lemma UndoneByWait(t: Table, t': Table, z: nat, k: nat)
    requires 0 <= t.current < |t.slots| && z < |t.slots| && z != t.current && t.slots[z] == ZERO
    requires var p := t.slots[t.current];
             && k < |p.children| && p.children[k] == -1
             && forall i | 0 <= i < |p.children| :: !IsZombie(t.slots, p.children[i]) && p.children[i] != z
    requires PidsBelow(t.slots, t.nextPid) && t'.count == t.count + 1 > 1 && t'.current == t.current
    requires |t'.slots| == |t.slots| && t'.slots[z].pid == t.nextPid && t'.slots[z].state == Terminated
    requires var p := t.slots[t.current];
             t'.slots[t.current] == p.(children := p.children[k := z], childrenCount := p.childrenCount + 1,
                                       pending := p.pending + [SIGCHLD])
    requires t'.slots == t.slots[z := t'.slots[z]][t.current := t'.slots[t.current]]
    ensures CanCollect(t') && DeadSlot(t') == z
    ensures var p := t.slots[t.current];
            Collected(t').slots ==
              t.slots[t.current := p.(state := Running, kernelMode := false, pending := p.pending + [SIGCHLD])]
  {
    var p := t.slots[t.current];
    var places := p.children[k := z];
    ZombieIs(t.slots, t'.slots, p.children, places, z, k);
    assert PidFrom(t'.slots, t.nextPid, 0) <= z;
    assert places[k := -1] == p.children;
  }

  /** The new process exits: it is TERMINATED in its slot, and its parent has it in a place, and SIGCHLD. */
  lemma SpawnExits(t: Table, status: int)
    requires CanSpawn(t) && Admitted(t) && HasZero(t)
    ensures CanKill(Spawned(t), ZeroFrom(t.slots, 0))
    ensures var p, z := t.slots[t.current], ZeroFrom(t.slots, 0);
            var ended := Fresh(t.nextPid, t.current, |p.children| - 1)
                         .(state := Terminated, exitCode := status, kernelMode := true);
            Exited(Entered(Spawned(t).(current := z)), status).slots
              == t.slots[z := ended][t.current := WithChild(p, z).(pending := p.pending + [SIGCHLD])]
  {
    var p, z := t.slots[t.current], ZeroFrom(t.slots, 0);
    assert |p.children| > 0;
    var child := Fresh(t.nextPid, t.current, |p.children| - 1);
    var ended := child.(state := Terminated, exitCode := status, kernelMode := true);
    var t1 := Entered(Spawned(t).(current := z));
    var slots1 := t1.slots[z := t1.slots[z].(state := Terminated, exitCode := status)];
    assert slots1 == Spawned(t).slots[z := ended];
    assert HungUp(Notified(slots1, t.current, SIGCHLD), child.children, 0) == Notified(slots1, t.current, SIGCHLD);
  }

  /** The new child is the only terminated one among the places. */
  lemma ZombieIs(slots: seq<Process>, slots': seq<Process>, children: seq<int>, children': seq<int>, z: nat, k: nat)
    requires |slots'| == |slots| && k < |children| && z < |slots| && children' == children[k := z]
    requires forall i | 0 <= i < |children| :: !IsZombie(slots, children[i]) && children[i] != z
    requires forall j | 0 <= j < |slots| && j != z :: slots'[j].state == slots[j].state
    requires IsZombie(slots', z)
    ensures LastTerminated(slots', children', |children'|) == k
  {
    assert IsZombie(slots', children'[k]);
    forall i | 0 <= i < |children| && i != k ensures !IsZombie(slots', children'[i]) {
      assert children'[i] == children[i] && !IsZombie(slots, children[i]);
    }
  }

  // ----- Where the code falls short

  lemma {:induction false} AllOccupied(slots: seq<Process>, n: nat)
    requires n <= |slots|
    ensures OccupiedTo(slots, n) <= n
    ensures OccupiedTo(slots, n) == n ==> forall i | 0 <= i < n :: slots[i].pid != 0
  {
    if n > 0 { AllOccupied(slots, n - 1); }
  }

  /** The guard admits one spawn too many: with every slot taken and an exact count, a spawn puts no process
      into the table and still raises the count, which then is too large for good. */
  lemma FullTableLeaks(t: Table, h: History)
    requires Inv(t, h) && CanSpawn(t) && h.leaked == 0 && t.count == |t.slots|
    ensures Spawned(t).slots == t.slots && Spawned(t).count == t.count + 1
    ensures Noted(t, h, Spawn).leaked == 1 && !Admitted(Spawned(t))
  {
    AllOccupied(t.slots, |t.slots|);
  }

  /** How far the count is above the number of processes. */
  function Excess(t: Table): int {
    t.count - Occupied(t.slots)
  }

  /** The leak is never made good: a step leaves the count as far above the number of processes as it was,
      or, when a spawn finds the table full behind the guard, one further. */
  lemma LeakStays(t: Table, h: History, e: Event)
    requires Inv(t, h) && Permitted(t, e)
    ensures Excess(Step(t, e)) == Excess(t) + (if e == Spawn && Admitted(t) && !HasZero(t) then 1 else 0)
  {
    StepKeeps(t, h, e);
  }

  /** A parent that was killed itself and not collected yet is signalled too when its child exits, chosen for
      the signal, and runs again unless it was killed inside the kernel. */
  lemma KilledParentRuns(t: Table, h: History, status: int)
    requires Inv(t, h) && CanKill(t, t.current)
    requires var q := t.slots[t.current].parent;
             && q != t.current && t.slots[q].state == Terminated && t.slots[q].pending == []
             && forall i | 0 <= i < |t.slots[t.current].children| :: t.slots[t.current].children[i] != q
    ensures var q, t' := t.slots[t.current].parent, Step(t, Exit(status));
            && Eligible(t'.slots[q]) && Delivered(t'.(current := q)) == SIGCHLD
            && Resumed(t'.(current := q)).slots[q].state == if t.slots[q].kernelMode then Terminated else Running
  {
    var s, q := t.current, t.slots[t.current].parent;
    var t1 := Entered(t);
    var ended := t1.(slots := t1.slots[s := t1.slots[s].(state := Terminated, exitCode := status)]);
    KillSignals(ended, s, q);
    HupsNone(t.slots[s].children, t.slots[s].childrenCount, q);
    assert Step(t, Exit(status)).slots[q].pending == [SIGCHLD];
  }

  /** When sys_wait goes on, it finds a child to return exactly when one is TERMINATED; otherwise it indexes
      its children with -1. */
  lemma CollectIff(t: Table, h: History)
    requires Inv(t, h) && 0 <= t.current < |t.slots|
    ensures CanCollect(t) <==>
              exists i :: 0 <= i < |t.slots[t.current].children| && IsZombie(t.slots, t.slots[t.current].children[i])
  {
    var p := t.slots[t.current];
    assert PlacesOk(p);
    var k := LastTerminated(t.slots, p.children, |p.children|);
    if k >= 0 { NonNullPositive(p.children, k, |p.children|); }
  }

  lemma {:induction false} NonNullPositive(children: seq<int>, k: nat, n: nat)
    requires k < n <= |children| && children[k] >= 0
    ensures NonNullTo(children, n) > 0
  {
    if k < n - 1 { NonNullPositive(children, k, n - 1); }
  }
}
