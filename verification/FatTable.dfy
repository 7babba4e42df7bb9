/**
 The file allocation table as an array of 16-bit links, and the cluster chains in it
 (Microsoft FAT specification v1.03, section "FAT Data Structure"). Entry 0 marks a free
 cluster; a link of 0xfff0 or more ends a chain.
 */
module FatTable {
  import opened Words

  const END_MARK: uint16 := 0xffff
  const FIRST_END_MARK: uint16 := 0xfff0

  type Fat = seq<uint16>

  /** The first zero entry at or after `from`, below `limit`; 0 when there is none. */
  function FirstFree(fat: Fat, from: nat, limit: nat): nat
    requires limit <= |fat|
    decreases limit - from
  {
    if from >= limit then 0
    else if fat[from] == 0 then from
    else FirstFree(fat, from + 1, limit)
  }

  lemma {:induction false} FirstFreeIsLowest(fat: Fat, from: nat, limit: nat)
    requires 0 < from && limit <= |fat|
    ensures var c := FirstFree(fat, from, limit);
            if c == 0 then forall k | from <= k < limit :: fat[k] != 0
            else from <= c < limit && fat[c] == 0 && forall k | from <= k < c :: fat[k] != 0
    decreases limit - from
  {
    if from < limit && fat[from] != 0 {
      FirstFreeIsLowest(fat, from + 1, limit);
    }
  }

  /** How many entries in `[from, limit)` are free. */
  function FreeCount(fat: Fat, from: nat, limit: nat): nat
    requires limit <= |fat|
    decreases limit - from
  {
    if from >= limit then 0 else (if fat[from] == 0 then 1 else 0) + FreeCount(fat, from + 1, limit)
  }

  /** `ch` lists, in order, the distinct clusters linked from `ch[0]` up to an end mark. */
  ghost predicate IsChain(fat: Fat, ch: seq<nat>) {
    && |ch| > 0
    && (forall i | 0 <= i < |ch| :: 2 <= ch[i] < |fat| && ch[i] < FIRST_END_MARK)
    && (forall i, j | 0 <= i < j < |ch| :: ch[i] != ch[j])
    && (forall i | 0 <= i < |ch| - 1 :: fat[ch[i]] == ch[i + 1])
    && fat[ch[|ch| - 1]] >= FIRST_END_MARK
  }

  ghost predicate Disjoint(a: seq<nat>, b: seq<nat>) {
    forall c | c in a :: c !in b
  }

  /** A chain is determined by its first cluster. */
  lemma {:induction false} ChainIsUnique(fat: Fat, a: seq<nat>, b: seq<nat>)
    requires IsChain(fat, a) && IsChain(fat, b) && a[0] == b[0]
    ensures a == b
    decreases |a|
  {
    hide IsChain;
    ChainTail(fat, a);
    ChainTail(fat, b);
    if |a| > 1 {
      ChainIsUnique(fat, a[1..], b[1..]);
      assert a == [a[0]] + a[1..] && b == [b[0]] + b[1..];
    }
  }

  /** The first entry tells whether the chain goes on, and where. */
  lemma ChainTail(fat: Fat, ch: seq<nat>)
    requires IsChain(fat, ch)
    ensures |ch| > 0 && ch[0] < |fat| && (|ch| > 1 <==> fat[ch[0]] < FIRST_END_MARK)
    ensures |ch| > 1 ==> fat[ch[0]] == ch[1] && IsChain(fat, ch[1..])
  {
    assert |ch| > 1 ==> fat[ch[0]] == ch[0 + 1];
    forall i | 0 <= i < |ch[1..]| - 1 ensures fat[ch[1..][i]] == ch[1..][i + 1] {
      assert fat[ch[i + 1]] == ch[i + 2];
    }
  }

  datatype Growth = Growth(fat: Fat, chain: seq<nat>, enough: bool)

  /** Append first-free clusters to `ch` until it has `target` clusters or none is left. */
  function Grow(fat: Fat, ch: seq<nat>, limit: nat, target: nat): Growth
    requires limit <= |fat| && |ch| > 0 && ch[|ch| - 1] < |fat| && limit <= FIRST_END_MARK
    decreases target - |ch|
  {
    if |ch| >= target then Growth(fat, ch, true)
    else
      var c := FirstFree(fat, 2, limit);
      if c == 0 then Growth(fat, ch, false)
      else
        FirstFreeIsLowest(fat, 2, limit);
        Grow(fat[ch[|ch| - 1] := c][c := END_MARK], ch + [c], limit, target)
  }

  /** One appended cluster: the longer list is a chain of the updated table. */
  lemma AppendKeepsChain(fat: Fat, ch: seq<nat>, c: nat)
    requires IsChain(fat, ch) && 2 <= c < |fat| && c < FIRST_END_MARK && fat[c] == 0
    ensures c !in ch
    ensures IsChain(fat[ch[|ch| - 1] := c][c := END_MARK], ch + [c])
  {
    var fat', ch' := fat[ch[|ch| - 1] := c][c := END_MARK], ch + [c];
    forall i | 0 <= i < |ch| ensures ch[i] != c {
      assert i < |ch| - 1 ==> fat[ch[i]] == ch[i + 1];
    }
    forall i | 0 <= i < |ch'| - 1 ensures fat'[ch'[i]] == ch'[i + 1] {
      if i < |ch| - 1 { assert fat[ch[i]] == ch[i + 1]; }
    }
  }

  /** `fat'` and `ch'` differ from `fat` and `ch` only by appended clusters that were free. */
  ghost predicate ExtendedBy(fat: Fat, ch: seq<nat>, fat': Fat, ch': seq<nat>, limit: nat) {
    && |fat'| == |fat| && ch <= ch'
    && (forall i | |ch| <= i < |ch'| :: 2 <= ch'[i] < limit && ch'[i] < |fat| && fat[ch'[i]] == 0)
    && (forall k | 0 <= k < |fat| && k !in ch' :: fat'[k] == fat[k])
  }

  lemma ExtendedByOneMore(fat: Fat, ch: seq<nat>, c: nat, fat': Fat, ch': seq<nat>, limit: nat)
    requires IsChain(fat, ch) && 2 <= c < limit <= |fat| && c < FIRST_END_MARK && fat[c] == 0
    requires ExtendedBy(fat[ch[|ch| - 1] := c][c := END_MARK], ch + [c], fat', ch', limit) && IsChain(fat', ch')
    ensures ExtendedBy(fat, ch, fat', ch', limit)
  {
    assert ch'[|ch|] == c && ch'[|ch| - 1] == ch[|ch| - 1];
    forall i | |ch| <= i < |ch'| ensures 2 <= ch'[i] < limit && fat[ch'[i]] == 0 {
      if i > |ch| { assert ch'[i] != ch'[|ch| - 1]; }
    }
  }

  /**
   Growing keeps the chain a chain, only appends free clusters of the scanned range, changes no
   other entry, and stops short only when every scanned entry is taken.
   */
  lemma {:induction false} GrowCorrect(fat: Fat, ch: seq<nat>, limit: nat, target: nat)
    requires limit <= |fat| && limit <= FIRST_END_MARK && IsChain(fat, ch)
    ensures var g := Grow(fat, ch, limit, target);
            && IsChain(g.fat, g.chain) && ExtendedBy(fat, ch, g.fat, g.chain, limit)
            && (g.enough <==> |g.chain| >= target)
            && |g.chain| <= (if |ch| >= target then |ch| else target)
            && (!g.enough ==> forall k | 2 <= k < limit :: g.fat[k] != 0)
    decreases target - |ch|
  {
    if |ch| < target {
      FirstFreeIsLowest(fat, 2, limit);
      var c := FirstFree(fat, 2, limit);
      if c != 0 {
        AppendKeepsChain(fat, ch, c);
        var fat', ch' := fat[ch[|ch| - 1] := c][c := END_MARK], ch + [c];
        GrowCorrect(fat', ch', limit, target);
        var g := Grow(fat', ch', limit, target);
        ExtendedByOneMore(fat, ch, c, g.fat, g.chain, limit);
      }
    }
  }

  /** Links from 0xfff0 on end a chain, no cluster has such a number, and cluster 1 and what is below it are none. */
  lemma OneCluster(fat: Fat, c: nat)
    ensures IsChain(fat, [c]) <==> 2 <= c < |fat| && c < 0xfff0 && fat[c] >= 0xfff0
  {
  }

  /** Whatever has grown ends in 0xffff. */
  lemma {:induction false} GrownEnd(fat: Fat, ch: seq<nat>, limit: nat, target: nat)
    requires limit <= |fat| && limit <= FIRST_END_MARK && IsChain(fat, ch)
    ensures var g := Grow(fat, ch, limit, target);
            |g.chain| > |ch| ==> g.chain[|g.chain| - 1] < |g.fat| && g.fat[g.chain[|g.chain| - 1]] == 0xffff
    decreases target - |ch|
  {
    var c := FirstFree(fat, 2, limit);
    FirstFreeIsLowest(fat, 2, limit);
    if |ch| < target && c != 0 {
      var fat', ch' := fat[ch[|ch| - 1] := c][c := END_MARK], ch + [c];
      AppendKeepsChain(fat, ch, c);
      GrownEnd(fat', ch', limit, target);
      GrowCorrect(fat', ch', limit, target);
      var g := Grow(fat', ch', limit, target);
      assert |g.chain| == |ch'| ==> g.chain == ch' && g.fat[c] == fat'[c] by {
        if |g.chain| == |ch'| { GrowSame(fat', ch', limit, target); }
      }
    }
  }

  lemma GrowSame(fat: Fat, ch: seq<nat>, limit: nat, target: nat)
    requires limit <= |fat| && limit <= FIRST_END_MARK && IsChain(fat, ch)
    requires |Grow(fat, ch, limit, target).chain| == |ch|
    ensures Grow(fat, ch, limit, target).fat == fat && Grow(fat, ch, limit, target).chain == ch
  {
    var c := FirstFree(fat, 2, limit);
    FirstFreeIsLowest(fat, 2, limit);
    if |ch| < target && c != 0 {
      AppendKeepsChain(fat, ch, c);
      GrowCorrect(fat[ch[|ch| - 1] := c][c := END_MARK], ch + [c], limit, target);
    }
  }

  /** A chain disjoint from the growing one stays a chain and stays disjoint. */
  lemma GrowSparesOthers(fat: Fat, ch: seq<nat>, limit: nat, target: nat, other: seq<nat>)
    requires limit <= |fat| && limit <= FIRST_END_MARK
    requires IsChain(fat, ch) && IsChain(fat, other) && Disjoint(other, ch)
    ensures var g := Grow(fat, ch, limit, target); IsChain(g.fat, other) && Disjoint(other, g.chain)
  {
    var g := Grow(fat, ch, limit, target);
    GrowCorrect(fat, ch, limit, target);
    forall c | c in other ensures c !in g.chain {
      var i :| 0 <= i < |other| && other[i] == c;
      assert fat[c] != 0 by {
        assert i < |other| - 1 ==> fat[other[i]] == other[i + 1];
      }
      forall j | 0 <= j < |g.chain| ensures g.chain[j] != c {
        if j < |ch| { assert g.chain[j] == ch[j] && ch[j] in ch; }
      }
    }
    forall i | 0 <= i < |other| ensures g.fat[other[i]] == fat[other[i]] {
      assert other[i] in other;
    }
  }

  /** Taking a free cluster lowers the number of free ones by exactly one. */
  lemma {:induction false} FreeCountAfterTake(fat: Fat, c: nat, last: nat, v: uint16, from: nat, limit: nat)
    requires limit <= |fat| && c < |fat| && last < |fat| && last != c
    requires fat[c] == 0 && fat[last] != 0 && v != 0
    ensures FreeCount(fat[last := v][c := END_MARK], from, limit)
            == FreeCount(fat, from, limit) - if from <= c < limit then 1 else 0
    decreases limit - from
  {
    if from < limit {
      FreeCountAfterTake(fat, c, last, v, from + 1, limit);
    }
  }

  lemma {:induction false} NoFreeMeansZero(fat: Fat, from: nat, limit: nat)
    requires limit <= |fat| && forall k | from <= k < limit :: fat[k] != 0
    ensures FreeCount(fat, from, limit) == 0
    decreases limit - from
  {
    if from < limit { NoFreeMeansZero(fat, from + 1, limit); }
  }

  /** Growth succeeds exactly when the scanned range holds as many free clusters as are missing. */
  lemma {:induction false} GrowEnoughIff(fat: Fat, ch: seq<nat>, limit: nat, target: nat)
    requires limit <= |fat| && limit <= FIRST_END_MARK && IsChain(fat, ch)
    ensures Grow(fat, ch, limit, target).enough
            <==> FreeCount(fat, 2, limit) >= target - |ch|
    decreases target - |ch|
  {
    if |ch| < target {
      FirstFreeIsLowest(fat, 2, limit);
      var c := FirstFree(fat, 2, limit);
      if c == 0 {
        NoFreeMeansZero(fat, 2, limit);
      } else {
        AppendKeepsChain(fat, ch, c);
        FreeCountAfterTake(fat, c, ch[|ch| - 1], c, 2, limit);
        GrowEnoughIff(fat[ch[|ch| - 1] := c][c := END_MARK], ch + [c], limit, target);
      }
    }
  }

  /** When it does not, it has taken every free cluster of that range. */
  lemma {:induction false} GrowTakesAll(fat: Fat, ch: seq<nat>, limit: nat, target: nat)
    requires limit <= |fat| && limit <= FIRST_END_MARK && IsChain(fat, ch)
    requires !Grow(fat, ch, limit, target).enough
    ensures |Grow(fat, ch, limit, target).chain| == |ch| + FreeCount(fat, 2, limit)
    decreases target - |ch|
  {
    FirstFreeIsLowest(fat, 2, limit);
    var c := FirstFree(fat, 2, limit);
    if c == 0 {
      NoFreeMeansZero(fat, 2, limit);
    } else {
      AppendKeepsChain(fat, ch, c);
      FreeCountAfterTake(fat, c, ch[|ch| - 1], c, 2, limit);
      GrowTakesAll(fat[ch[|ch| - 1] := c][c := END_MARK], ch + [c], limit, target);
    }
  }

  /** First fit from below: growth stays below `n` exactly when the clusters missing are no more than are free
      there, or none is free above. */
  lemma {:induction false} GrowStaysBelow(fat: Fat, ch: seq<nat>, limit: nat, target: nat, n: nat)
    requires 2 <= n <= limit <= |fat| && limit <= FIRST_END_MARK && IsChain(fat, ch)
    ensures AddedBelow(Grow(fat, ch, limit, target).chain, |ch|, n)
            <==> target - |ch| <= FreeCount(fat, 2, n) || FreeCount(fat, n, limit) == 0
    decreases target - |ch|
  {
    if |ch| < target {
      FirstFreeIsLowest(fat, 2, limit);
      var c := FirstFree(fat, 2, limit);
      if c == 0 {
        NoFreeMeansZero(fat, n, limit);
      } else {
        AppendKeepsChain(fat, ch, c);
        var fat', ch' := fat[ch[|ch| - 1] := c][c := END_MARK], ch + [c];
        var chain := Grow(fat, ch, limit, target).chain;
        GrowCorrect(fat', ch', limit, target);
        assert chain[|ch|] == ch'[|ch|] == c;
        if c < n {
          FreeCountAfterTake(fat, c, ch[|ch| - 1], c, 2, n);
          FreeCountAfterTake(fat, c, ch[|ch| - 1], c, n, limit);
          GrowStaysBelow(fat', ch', limit, target, n);
        } else {
          NoFreeMeansZero(fat, 2, n);
          FreeMeansPositive(fat, c, n, limit);
        }
      }
    }
  }

  /** The clusters of a chain from position `k` on are numbered below `n`. */
  ghost predicate AddedBelow(ch: seq<nat>, k: nat, n: nat) {
    forall i | k <= i < |ch| :: ch[i] < n
  }

  lemma {:induction false} FreeMeansPositive(fat: Fat, c: nat, from: nat, limit: nat)
    requires limit <= |fat| && from <= c < limit && fat[c] == 0
    ensures FreeCount(fat, from, limit) > 0
    decreases limit - from
  {
    if from != c { FreeMeansPositive(fat, c, from + 1, limit); }
  }

  /** `fat` with every cluster of `ch` marked free. */
  function Cleared(fat: Fat, ch: seq<nat>): (r: Fat)
    ensures |r| == |fat|
  {
    seq(|fat|, k requires 0 <= k < |fat| => if k in ch then 0 else fat[k])
  }

  /** A fresh chain: one first-free cluster, marked as an end, then grown. */
  function Allocate(fat: Fat, limit: nat, target: nat): (g: Growth)
    requires limit <= |fat| && limit <= FIRST_END_MARK
  {
    var c := FirstFree(fat, 2, limit);
    if c == 0 then Growth(fat, [], false)
    else
      FirstFreeIsLowest(fat, 2, limit);
      Grow(fat[c := END_MARK], [c], limit, target)
  }

  /** A fresh chain is a chain of clusters that were free, and nothing else changed. */
  lemma AllocateCorrect(fat: Fat, limit: nat, target: nat)
    requires limit <= |fat| && limit <= FIRST_END_MARK
    ensures var g := Allocate(fat, limit, target);
            && |g.fat| == |fat|
            && (g.chain != [] ==> IsChain(g.fat, g.chain) && g.chain[0] == FirstFree(fat, 2, limit))
            && (forall c | c in g.chain :: 2 <= c < limit && fat[c] == 0)
            && (forall k | 0 <= k < |fat| && k !in g.chain :: g.fat[k] == fat[k])
            && (g.enough ==> |g.chain| >= target && g.chain != [])
            && (!g.enough ==> forall k | 2 <= k < limit :: g.fat[k] != 0)
  {
    FirstFreeIsLowest(fat, 2, limit);
    var c := FirstFree(fat, 2, limit);
    if c != 0 {
      GrowCorrect(fat[c := END_MARK], [c], limit, target);
      var g := Grow(fat[c := END_MARK], [c], limit, target);
      assert g.chain[0] == [c][0];
      forall x | x in g.chain ensures 2 <= x < limit && fat[x] == 0 {
        var i :| 0 <= i < |g.chain| && g.chain[i] == x;
      }
    }
  }

  /** So does a fresh chain. */
  lemma AllocateStaysBelow(fat: Fat, limit: nat, target: nat, n: nat)
    requires 2 <= n <= limit <= |fat| && limit <= FIRST_END_MARK && target > 0
    ensures AddedBelow(Allocate(fat, limit, target).chain, 0, n)
            <==> target <= FreeCount(fat, 2, n) || FreeCount(fat, n, limit) == 0
  {
    FirstFreeIsLowest(fat, 2, limit);
    var c := FirstFree(fat, 2, limit);
    if c == 0 {
      NoFreeMeansZero(fat, n, limit);
    } else {
      var fat', g := fat[c := END_MARK], Allocate(fat, limit, target);
      GrowCorrect(fat', [c], limit, target);
      assert g.chain[0] == [c][0];
      if c < n {
        FreeCountAfterMark(fat, c, 2, n);
        FreeCountAfterMark(fat, c, n, limit);
        GrowStaysBelow(fat', [c], limit, target, n);
        assert AddedBelow(g.chain, 0, n) <==> AddedBelow(g.chain, 1, n);
      } else {
        NoFreeMeansZero(fat, 2, n);
        FreeMeansPositive(fat, c, n, limit);
      }
    }
  }

  /** It reaches its target exactly when there are enough free entries. */
  lemma AllocateEnoughIff(fat: Fat, limit: nat, target: nat)
    requires limit <= |fat| && limit <= FIRST_END_MARK && target > 0
    ensures Allocate(fat, limit, target).enough <==> FreeCount(fat, 2, limit) >= target
  {
    FirstFreeIsLowest(fat, 2, limit);
    var c := FirstFree(fat, 2, limit);
    if c == 0 {
      NoFreeMeansZero(fat, 2, limit);
    } else {
      FreeCountAfterMark(fat, c, 2, limit);
      GrowEnoughIff(fat[c := END_MARK], [c], limit, target);
    }
  }

  lemma {:induction false} FreeCountSplit(fat: Fat, from: nat, n: nat, limit: nat)
    requires from <= n <= limit <= |fat|
    ensures FreeCount(fat, from, limit) == FreeCount(fat, from, n) + FreeCount(fat, n, limit)
    decreases n - from
  {
    if from < n { FreeCountSplit(fat, from + 1, n, limit); }
  }

  lemma {:induction false} FreeCountAfterMark(fat: Fat, c: nat, from: nat, limit: nat)
    requires limit <= |fat| && c < |fat| && fat[c] == 0
    ensures FreeCount(fat[c := END_MARK], from, limit)
         == FreeCount(fat, from, limit) - if from <= c < limit then 1 else 0
    decreases limit - from
  {
    if from < limit { FreeCountAfterMark(fat, c, from + 1, limit); }
  }

  /** Allocating a fresh chain, whether or not space runs out, and freeing it restores the table. */
  lemma AllocateThenClear(fat: Fat, limit: nat, target: nat)
    requires limit <= |fat| && limit <= FIRST_END_MARK
    ensures var g := Allocate(fat, limit, target); Cleared(g.fat, g.chain) == fat
  {
    AllocateCorrect(fat, limit, target);
  }

  /** `chains` are disjoint chains that together hold every cluster in use outside `reserved`. */
  ghost predicate Consistent(fat: Fat, chains: set<seq<nat>>, reserved: set<nat>) {
    && (forall ch | ch in chains :: IsChain(fat, ch))
    && (forall a, b | a in chains && b in chains && a != b :: Disjoint(a, b))
    && (forall k | 0 <= k < |fat| && fat[k] != 0 && k !in reserved :: Held(chains, k))
  }

  ghost predicate Held(chains: set<seq<nat>>, k: nat) {
    exists ch | ch in chains :: k in ch
  }

  /** Growing one chain of a consistent table leaves it consistent, even when space runs out. */
  lemma GrowKeepsConsistent(fat: Fat, chains: set<seq<nat>>, reserved: set<nat>,
                            ch: seq<nat>, limit: nat, target: nat)
    requires limit <= |fat| && limit <= FIRST_END_MARK
    requires Consistent(fat, chains, reserved) && ch in chains
    ensures var g := Grow(fat, ch, limit, target);
            Consistent(g.fat, chains - {ch} + {g.chain}, reserved)
  {
    var g := Grow(fat, ch, limit, target);
    GrowCorrect(fat, ch, limit, target);
    forall other | other in chains - {ch}
      ensures IsChain(g.fat, other) && Disjoint(other, g.chain) && Disjoint(g.chain, other)
    {
      GrowSparesOthers(fat, ch, limit, target, other);
    }
    forall k | 0 <= k < |fat| && g.fat[k] != 0 && k !in reserved
      ensures Held(chains - {ch} + {g.chain}, k)
    {
      StillHeld(chains, ch, g.chain, k, fat, g.fat);
    }
  }

  lemma StillHeld(chains: set<seq<nat>>, ch: seq<nat>, ch': seq<nat>, k: nat, fat: Fat, fat': Fat)
    requires ch <= ch' && k < |fat| == |fat'|
    requires k !in ch' ==> fat'[k] == fat[k]
    requires fat'[k] != 0 && (fat[k] != 0 ==> Held(chains, k))
    ensures Held(chains - {ch} + {ch'}, k)
  {
    assert ch' in chains - {ch} + {ch'};
    if k !in ch' {
      var holder :| holder in chains && k in holder;
      assert k !in ch by {
        forall i | 0 <= i < |ch| ensures ch[i] != k { assert ch'[i] == ch[i]; }
      }
      assert holder in chains - {ch} + {ch'};
    }
  }

  /** So does starting a new chain. */
  lemma AllocateKeepsConsistent(fat: Fat, chains: set<seq<nat>>, reserved: set<nat>, limit: nat, target: nat)
    requires limit <= |fat| && limit <= FIRST_END_MARK && Consistent(fat, chains, reserved)
    ensures var g := Allocate(fat, limit, target);
            Consistent(g.fat, if g.chain == [] then chains else chains + {g.chain}, reserved)
  {
    var g := Allocate(fat, limit, target);
    AllocateCorrect(fat, limit, target);
    if g.chain != [] {
      forall other | other in chains
        ensures IsChain(g.fat, other) && Disjoint(other, g.chain) && Disjoint(g.chain, other)
      {
        forall i | 0 <= i < |other| ensures fat[other[i]] != 0 && g.fat[other[i]] == fat[other[i]] {
          assert i < |other| - 1 ==> fat[other[i]] == other[i + 1];
        }
      }
      var chains' := chains + {g.chain};
      forall k | 0 <= k < |fat| && g.fat[k] != 0 && k !in reserved ensures Held(chains', k) {
        assert g.chain in chains';
        if k !in g.chain {
          var ch :| ch in chains && k in ch;
          assert ch in chains';
        }
      }
    }
  }

  /** Freeing one chain of a consistent table leaves the others, and frees exactly its clusters. */
  lemma ClearKeepsConsistent(fat: Fat, chains: set<seq<nat>>, reserved: set<nat>, ch: seq<nat>)
    requires Consistent(fat, chains, reserved) && ch in chains
    ensures Consistent(Cleared(fat, ch), chains - {ch}, reserved)
    ensures forall k | 0 <= k < |fat| :: Cleared(fat, ch)[k] == 0 <==> fat[k] == 0 || k in ch
  {
    var fat' := Cleared(fat, ch);
    forall other | other in chains - {ch} ensures IsChain(fat', other) {
      forall i | 0 <= i < |other| ensures fat'[other[i]] == fat[other[i]] {
        assert other[i] in other;
      }
    }
    forall k | 0 <= k < |fat| && fat'[k] != 0 && k !in reserved ensures Held(chains - {ch}, k) {
      var holder :| holder in chains && k in holder;
      assert holder in chains - {ch};
    }
  }

  // ----- Runs

  /** A table with the chains it is made of, and what the driver does to them: a file's chain is extended, a
      new file gets one, or a chain is released. */
  datatype Files = Files(fat: Fat, chains: set<seq<nat>>)

  datatype Change = Extend(ch: seq<nat>, target: nat) | Start(target: nat) | Release(ch: seq<nat>)

  ghost predicate Possible(files: Files, change: Change) {
    !change.Start? ==> change.ch in files.chains && IsChain(files.fat, change.ch)
  }

  ghost function Changed(files: Files, change: Change, limit: nat): (r: Files)
    requires Possible(files, change) && limit <= |files.fat| && limit <= FIRST_END_MARK
    ensures |r.fat| == |files.fat|
  {
    match change
    case Extend(ch, target) =>
      GrowCorrect(files.fat, ch, limit, target);
      var g := Grow(files.fat, ch, limit, target);
      Files(g.fat, files.chains - {ch} + {g.chain})
    case Start(target) =>
      AllocateCorrect(files.fat, limit, target);
      var g := Allocate(files.fat, limit, target);
      Files(g.fat, if g.chain == [] then files.chains else files.chains + {g.chain})
    case Release(ch) => Files(Cleared(files.fat, ch), files.chains - {ch})
  }

  /** The state after a run of changes, each of a chain that is there at its turn. */
  ghost predicate RunsTo(files: Files, changes: seq<Change>, limit: nat, end: Files)
    requires limit <= |files.fat| && limit <= FIRST_END_MARK
    decreases |changes|
  {
    if changes == [] then end == files
    else Possible(files, changes[0]) && RunsTo(Changed(files, changes[0], limit), changes[1..], limit, end)
  }

  /** Over every run, whether or not space runs out, the table stays a set of disjoint chains, and the
      entries in use are exactly theirs and the reserved ones. */
  lemma {:induction false} RunStaysConsistent(files: Files, changes: seq<Change>, reserved: set<nat>, limit: nat,
                                              end: Files)
    requires limit <= |files.fat| && limit <= FIRST_END_MARK
    requires Consistent(files.fat, files.chains, reserved) && RunsTo(files, changes, limit, end)
    ensures Consistent(end.fat, end.chains, reserved)
    decreases |changes|
  {
    if changes != [] {
      match changes[0] {
        case Extend(ch, target) => GrowKeepsConsistent(files.fat, files.chains, reserved, ch, limit, target);
        case Start(target) => AllocateKeepsConsistent(files.fat, files.chains, reserved, limit, target);
        case Release(ch) => ClearKeepsConsistent(files.fat, files.chains, reserved, ch);
      }
      RunStaysConsistent(Changed(files, changes[0], limit), changes[1..], reserved, limit, end);
    }
  }
}
