/** The round-robin choice of the next process. */
module Scheduling {
  datatype State = New | Running | Ready | WaitingForResource | WaitingForChildExit | Terminated

  /** A slot of the process table. Pointers to processes are slot numbers, -1 for null; `children` has one
      place for each of the process's max_children_count. */
  datatype Process = Process(pid: nat, state: State, exitCode: int, kernelMode: bool, pending: seq<nat>,
                             parent: int, childrenCount: nat, children: seq<int>)

  /** What the scheduler looks at: a pending signal or the ready state. */
  predicate Eligible(p: Process) {
    p.pending != [] || p.state == Ready
  }

  // ----- Cyclic order

  /** The slot behind slot `c`. */
  function Next(n: nat, c: nat): nat {
    if c + 1 == n then 0 else c + 1
  }

  /** How many steps lead from slot `c` forward to slot `s`; a full round when they are the same. */
  function Distance(n: nat, c: nat, s: nat): int {
    if s > c then s - c else s - c + n
  }

  /** The first eligible slot among the `left` slots behind `c`, or -1. */
  function Search(slots: seq<Process>, c: nat, left: nat): (i: int)
    requires c < |slots|
    ensures -1 <= i < |slots|
    decreases left
  {
    if left == 0 then -1
    else if Eligible(slots[Next(|slots|, c)]) then Next(|slots|, c)
    else Search(slots, Next(|slots|, c), left - 1)
  }

  /** The slot that comes next in a round behind the cursor, or -1 when no slot is eligible. */
  function Pick(slots: seq<Process>, cursor: nat): (i: int)
    requires cursor < |slots|
    ensures -1 <= i < |slots|
  {
    Search(slots, cursor, |slots|)
  }

  /** No slot at most `d` steps behind `c` is eligible. */
  ghost predicate NoneWithin(slots: seq<Process>, c: nat, d: int)
    requires c < |slots|
  {
    forall j | 0 <= j < |slots| && Distance(|slots|, c, j) <= d :: !Eligible(slots[j])
  }

  /** `i` is eligible, and every slot between `c` and `i` in cyclic order is not. */
  ghost predicate IsNextEligible(slots: seq<Process>, c: nat, i: int)
    requires c < |slots|
  {
    0 <= i < |slots| && Eligible(slots[i]) && NoneWithin(slots, c, Distance(|slots|, c, i) - 1)
  }

  lemma {:induction false} SearchIs(slots: seq<Process>, c: nat, at: nat, left: nat)
    requires c < |slots| && at < |slots| && left <= |slots|
    requires if left == |slots| then at == c else Distance(|slots|, c, at) == |slots| - left
    requires NoneWithin(slots, c, |slots| - left)
    ensures var i := Search(slots, at, left);
            if i < 0 then NoneWithin(slots, c, |slots|) else IsNextEligible(slots, c, i)
    decreases left
  {
    if left > 0 {
      var next := Next(|slots|, at);
      assert Distance(|slots|, c, next) == |slots| - left + 1;
      if !Eligible(slots[next]) {
        forall j | 0 <= j < |slots| && Distance(|slots|, c, j) <= |slots| - left + 1 ensures !Eligible(slots[j]) {
          if Distance(|slots|, c, j) == |slots| - left + 1 { assert j == next; }
        }
        SearchIs(slots, c, next, left - 1);
      }
    }
  }

  /** Round robin: the pick is the cyclically next eligible slot, and -1 exactly when there is none. */
  lemma PickIsNext(slots: seq<Process>, cursor: nat)
    requires cursor < |slots|
    ensures Pick(slots, cursor) >= 0 ==> IsNextEligible(slots, cursor, Pick(slots, cursor))
    ensures Pick(slots, cursor) < 0 <==> forall j | 0 <= j < |slots| :: !Eligible(slots[j])
  {
    SearchIs(slots, cursor, cursor, |slots|);
  }

  /** The cursor after a call. */
  function Advanced(slots: seq<Process>, cursor: nat): (c: nat)
    requires cursor < |slots|
    ensures c < |slots|
  {
    var i := Pick(slots, cursor);
    if i < 0 then cursor else i
  }

  /** A call picks a slot that is eligible, or comes closer to it. */
  lemma PickOrCloser(slots: seq<Process>, cursor: nat, s: nat)
    requires cursor < |slots| && s < |slots| && Eligible(slots[s])
    ensures Pick(slots, cursor) == s ||
            (Pick(slots, cursor) >= 0
             && Distance(|slots|, Advanced(slots, cursor), s) < Distance(|slots|, cursor, s))
  {
    PickIsNext(slots, cursor);
  }

  /** The cursor after the first `k` calls on a sequence of tables. */
  function CursorAfter(tables: seq<seq<Process>>, cursor: nat, n: nat, k: nat): (c: nat)
    requires k <= |tables| && cursor < n && forall t | t in tables :: |t| == n
    ensures c < n
  {
    if k == 0 then cursor else Advanced(tables[k - 1], CursorAfter(tables, cursor, n, k - 1))
  }

  /** No starvation: whatever happens to the other processes between the calls, a slot that is eligible at
      every call is picked by one of any `n` calls in a row, for a table of `n` slots. */
  lemma {:induction false} Fair(tables: seq<seq<Process>>, cursor: nat, n: nat, s: nat)
    requires cursor < n && s < n && |tables| == n && forall t | t in tables :: |t| == n && Eligible(t[s])
    ensures exists k | 0 <= k < n :: Pick(tables[k], CursorAfter(tables, cursor, n, k)) == s
  {
    var k := 0;
    while k < n && Pick(tables[k], CursorAfter(tables, cursor, n, k)) != s
      invariant 0 <= k <= n
      invariant Distance(n, CursorAfter(tables, cursor, n, k), s) <= n - k
    {
      PickOrCloser(tables[k], CursorAfter(tables, cursor, n, k), s);
      k := k + 1;
    }
  }
}
