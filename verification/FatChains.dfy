/** Cluster chains under the driver: growing, releasing, reading and writing them. */
module FatChains {
  import opened Words
  import opened Splices
  import opened FatTable
  import opened FatVolume
  import opened FatContents

  class Inode {
    var firstCluster: uint16
    var size: uint32
    const parent: Inode?
    const dentryIndex: uint16

    constructor (firstCluster: uint16, size: uint32, parent: Inode?, dentryIndex: uint16)
      ensures this.firstCluster == firstCluster && this.size == size
      ensures this.parent == parent && this.dentryIndex == dentryIndex
    {
      this.firstCluster, this.size, this.parent, this.dentryIndex := firstCluster, size, parent, dentryIndex;
    }
  }

  datatype ClusterResult = ClusterOk | InvalidCluster | NoAvailableClusters

  /** The chain a first-cluster field stands for: none for a value the driver does not follow. */
  ghost predicate Designates(fat: Fat, first: uint16, ch: seq<nat>) {
    if 3 <= first < FIRST_END_MARK then IsChain(fat, ch) && ch[0] == first else ch == []
  }

  datatype Adjustment = Adjustment(fat: Fat, first: uint16, chain: seq<nat>, result: ClusterResult)

  /** How many clusters make the chain strictly longer than `expectedSize` bytes. */
  function ClustersFor(expectedSize: nat, bytesPerCluster: nat): nat
    requires bytesPerCluster > 0
  {
    expectedSize / bytesPerCluster + 1
  }

  lemma QuotientIsBest(x: nat, b: nat, n: nat)
    requires b > 0
    ensures n * b <= x <==> n <= x / b
  {
    var q := x / b;
    assert x == q * b + x % b;
    if n <= q { assert n * b <= q * b; }
    if n > q { assert n * b >= (q + 1) * b == q * b + b; }
  }

  lemma ClustersForExceeds(expectedSize: nat, b: nat, depth: nat)
    requires b > 0
    ensures expectedSize >= depth * b <==> depth < ClustersFor(expectedSize, b)
  {
    QuotientIsBest(expectedSize, b, depth);
  }

  /** What adjusting the allocation of a file comes to, on the table as an array. */
  function Adjust(fat: Fat, first: uint16, ch: seq<nat>, limit: nat, target: nat): Adjustment
    requires limit <= |fat| && limit <= FIRST_END_MARK && |fat| > 2
    requires 3 <= first < FIRST_END_MARK ==> |ch| > 0 && ch[|ch| - 1] < |fat|
  {
    if first == 0 then
      var c := FirstFree(fat, 2, limit);
      if c == 0 then Adjustment(fat, 0, [], NoAvailableClusters)
      else if c == 2 then Adjustment(fat[2 := END_MARK], 2, [2], InvalidCluster)
      else
        FirstFreeIsLowest(fat, 2, limit);
        var g := Allocate(fat, limit, target);
        Adjustment(g.fat, c, g.chain, if g.enough then ClusterOk else NoAvailableClusters)
    else if first < 3 || first >= FIRST_END_MARK then Adjustment(fat, first, ch, InvalidCluster)
    else
      var g := Grow(fat, ch, limit, target);
      Adjustment(g.fat, first, g.chain, if g.enough then ClusterOk else NoAvailableClusters)
  }

  /**
   Adjusting appends to its own chain only: the result is a chain starting with the file's clusters,
   every added cluster was free, every other entry is as before, success means more than the expected
   number of bytes, and failure for want of space means no scanned entry is free.
   */
  lemma AdjustKeepsChain(fat: Fat, first: uint16, ch: seq<nat>, limit: nat, b: nat, expectedSize: nat)
    requires limit <= |fat| && limit <= FIRST_END_MARK && |fat| > 2 && b > 0
    requires Designates(fat, first, ch)
    ensures var a := Adjust(fat, first, ch, limit, ClustersFor(expectedSize, b));
            && (a.chain != [] ==> IsChain(a.fat, a.chain) && a.chain[0] == a.first)
            && ExtendedBy(fat, ch, a.fat, a.chain, limit)
            && (a.result == ClusterOk ==> |a.chain| * b > expectedSize && 3 <= a.first < FIRST_END_MARK)
            && (a.result == NoAvailableClusters ==> forall k | 2 <= k < limit :: a.fat[k] != 0)
  {
    var target := ClustersFor(expectedSize, b);
    ClustersForExceeds(expectedSize, b, |Adjust(fat, first, ch, limit, target).chain|);
    if first == 0 {
      FirstFreeIsLowest(fat, 2, limit);
      AllocateCorrect(fat, limit, target);
    } else if 3 <= first < FIRST_END_MARK {
      GrowCorrect(fat, ch, limit, target);
    }
  }

  /** How adjusting a file of `n` clusters comes out, from the table before it: an unusable first cluster is refused,
      and so is cluster 2 as the lowest free one for a new file; otherwise the free entries scanned decide. */
  function ResultFor(fat: Fat, first: uint16, n: nat, limit: nat, target: nat): ClusterResult
    requires limit <= |fat|
  {
    if first == 0 && 2 < limit && fat[2] == 0 then InvalidCluster
    else if first != 0 && !(3 <= first < FIRST_END_MARK) then InvalidCluster
    else if target - n <= FreeCount(fat, 2, limit) then ClusterOk
    else NoAvailableClusters
  }

  /** How many clusters the file has when it did not succeed: every free one scanned is added to an existing chain. */
  function ShortOf(fat: Fat, first: uint16, n: nat, limit: nat): nat
    requires limit <= |fat|
  {
    n + if 3 <= first < FIRST_END_MARK then FreeCount(fat, 2, limit) else 0
  }

  /** Adjusting comes out as the table before it says. */
  lemma AdjustResult(fat: Fat, first: uint16, ch: seq<nat>, limit: nat, target: nat)
    requires limit <= |fat| && limit <= FIRST_END_MARK && |fat| > 2 && target > 0
    requires Designates(fat, first, ch)
    ensures var a := Adjust(fat, first, ch, limit, target);
            && a.result == ResultFor(fat, first, |ch|, limit, target)
            && (a.result != ClusterOk && first != 0 ==> |a.chain| == ShortOf(fat, first, |ch|, limit))
  {
    FirstFreeIsLowest(fat, 2, limit);
    if first == 0 {
      if FirstFree(fat, 2, limit) == 0 { NoFreeMeansZero(fat, 2, limit); }
      AllocateEnoughIff(fat, limit, target);
    } else if 3 <= first < FIRST_END_MARK {
      GrowEnoughIff(fat, ch, limit, target);
      if !Grow(fat, ch, limit, target).enough { GrowTakesAll(fat, ch, limit, target); }
    }
  }

  /** When it succeeds, the clusters it adds are numbered below `n` exactly when no more are missing than are
      free there. */
  lemma AdjustStaysBelow(fat: Fat, first: uint16, ch: seq<nat>, limit: nat, target: nat, n: nat)
    requires 2 <= n <= limit <= |fat| && limit <= FIRST_END_MARK && |fat| > 2 && target > 0
    requires Designates(fat, first, ch)
    ensures var a := Adjust(fat, first, ch, limit, target);
            a.result == ClusterOk ==> (AddedBelow(a.chain, |ch|, n) <==> target - |ch| <= FreeCount(fat, 2, n))
  {
    var a := Adjust(fat, first, ch, limit, target);
    FreeCountSplit(fat, 2, n, limit);
    if first == 0 {
      AllocateStaysBelow(fat, limit, target, n);
      AllocateEnoughIff(fat, limit, target);
    } else if 3 <= first < FIRST_END_MARK {
      GrowStaysBelow(fat, ch, limit, target, n);
      GrowEnoughIff(fat, ch, limit, target);
    }
  }

  /** A chain disjoint from the file's stays a chain and stays disjoint, whatever the result. */
  lemma AdjustSparesOthers(fat: Fat, first: uint16, ch: seq<nat>, limit: nat, target: nat, other: seq<nat>)
    requires limit <= |fat| && limit <= FIRST_END_MARK && |fat| > 2
    requires Designates(fat, first, ch) && IsChain(fat, other) && Disjoint(other, ch)
    ensures var a := Adjust(fat, first, ch, limit, target); IsChain(a.fat, other) && Disjoint(other, a.chain)
  {
    var a := Adjust(fat, first, ch, limit, target);
    if first == 0 {
      FirstFreeIsLowest(fat, 2, limit);
      AllocateCorrect(fat, limit, target);
      forall i | 0 <= i < |other| ensures fat[other[i]] != 0 && other[i] !in a.chain {
        assert i < |other| - 1 ==> fat[other[i]] == other[i + 1];
      }
    } else if 3 <= first < FIRST_END_MARK {
      GrowSparesOthers(fat, ch, limit, target, other);
    }
  }

  /** Only table bytes differ. */
  ghost predicate SameOutsideTable(disk: seq<byte>, disk': seq<byte>, g: Geometry)
    requires g.Fits(|disk|)
  {
    && |disk'| == |disk| && disk'[..g.FatBase()] == disk[..g.FatBase()]
    && disk'[g.RootBase()..|disk|] == disk[g.RootBase()..|disk|]
  }

  lemma SameOutsideBoth(a: seq<byte>, b: seq<byte>, c: seq<byte>, g: Geometry)
    requires g.Fits(|a|) && SameOutsideTable(a, b, g) && SameOutsideTable(b, c, g)
    ensures SameOutsideTable(a, c, g)
  {
  }

  lemma MarkStaysInTable(disk: seq<byte>, disk0: seq<byte>, g: Geometry, c: nat, v: uint16)
    requires g.Fits(|disk|) && c < g.Entries() && |disk0| == |disk| && SameOutsideTable(disk0, disk, g)
    ensures g.FatBase() + 2 * c + 2 <= |disk|
    ensures SameOutsideTable(disk0, Splice(disk, g.FatBase() + 2 * c, Bytes16(v)), g)
  {
    SpliceApart(disk, g.FatBase() + 2 * c, Bytes16(v), 0, g.FatBase());
    SpliceApart(disk, g.FatBase() + 2 * c, Bytes16(v), g.RootBase(), |disk|);
  }

  /** One link further along a chain. */
  method NextInChain(sb: SuperBlock, cluster: uint16, ghost ch: seq<nat>, ghost k: nat) returns (next: uint16)
    requires sb.Valid() && IsChain(sb.Table(), ch) && k < |ch| && cluster == ch[k]
    modifies sb`cachedSector, sb.cache
    ensures sb.Valid()
    ensures if k + 1 < |ch| then next == ch[k + 1] && 2 <= next < FIRST_END_MARK else next >= FIRST_END_MARK
  {
    next := sb.FindNextCluster(cluster);
    assert k < |ch| - 1 ==> sb.Table()[ch[k]] == ch[k + 1];
  }

  /** The walk to the end of a chain with which adjusting begins. */
  method LastCluster(sb: SuperBlock, first: uint16, ghost ch: seq<nat>) returns (cluster: uint16, depth: nat)
    requires sb.Valid() && IsChain(sb.Table(), ch) && ch[0] == first
    modifies sb`cachedSector, sb.cache
    ensures sb.Valid() && depth == |ch| && cluster == ch[|ch| - 1]
  {
    cluster := first;
    var next := NextInChain(sb, cluster, ch, 0);
    depth := 1;
    while next < FIRST_END_MARK
      invariant sb.Valid() && 1 <= depth <= |ch| && cluster == ch[depth - 1]
      invariant if depth < |ch| then next == ch[depth] && next < FIRST_END_MARK else next >= FIRST_END_MARK
      decreases |ch| - depth
    {
      cluster := next;
      next := NextInChain(sb, cluster, ch, depth);
      depth := depth + 1;
    }
  }

  /** One round of the appending loop: link a free cluster behind the last one. */
  method AppendCluster(sb: SuperBlock, cluster: uint16, newCluster: uint16)
    requires sb.Valid() && cluster < sb.g.Entries() && newCluster < sb.g.Entries()
    modifies sb`disk, sb`cachedSector, sb.cache
    ensures sb.Valid() && SameOutsideTable(old(sb.disk), sb.disk, sb.g)
    ensures sb.Table() == old(sb.Table())[cluster := newCluster][newCluster := END_MARK]
  {
    MarkStaysInTable(sb.disk, sb.disk, sb.g, cluster, newCluster);
    sb.MarkCluster(cluster, newCluster);
    MarkStaysInTable(sb.disk, old(sb.disk), sb.g, newCluster, END_MARK);
    sb.MarkCluster(newCluster, END_MARK);
  }

  /** The appending loop of adjust_allocated_clusters. */
  method AppendClusters(sb: SuperBlock, last: uint16, depth: nat, expectedSize: nat, ghost ch: seq<nat>)
    returns (result: ClusterResult)
    requires sb.Valid() && IsChain(sb.Table(), ch) && ch[|ch| - 1] == last && |ch| == depth
    modifies sb`disk, sb`cachedSector, sb.cache
    ensures sb.Valid() && SameOutsideTable(old(sb.disk), sb.disk, sb.g)
    ensures var g := Grow(old(sb.Table()), ch, sb.g.ScanLimit(), ClustersFor(expectedSize, sb.g.BytesPerCluster()));
            sb.Table() == g.fat && result == if g.enough then ClusterOk else NoAvailableClusters
  {
    var cluster, chainDepth := last, depth;
    ghost var chain := ch;
    ghost var limit, target := sb.g.ScanLimit(), ClustersFor(expectedSize, sb.g.BytesPerCluster());
    ClustersForExceeds(expectedSize, sb.g.BytesPerCluster(), chainDepth);
    while expectedSize >= chainDepth * sb.g.BytesPerCluster()
      invariant sb.Valid() && SameOutsideTable(old(sb.disk), sb.disk, sb.g)
      invariant IsChain(sb.Table(), chain) && chain[|chain| - 1] == cluster && |chain| == chainDepth
      invariant Grow(sb.Table(), chain, limit, target) == Grow(old(sb.Table()), ch, limit, target)
      invariant expectedSize >= chainDepth * sb.g.BytesPerCluster() <==> chainDepth < target
      decreases target - chainDepth
    {
      FirstFreeIsLowest(sb.Table(), 2, limit);
      var newCluster := sb.FindNextFreeCluster();
      if newCluster == 0 {
        return NoAvailableClusters;
      }
      AppendKeepsChain(sb.Table(), chain, newCluster);
      label Before:
      AppendCluster(sb, cluster, newCluster);
      SameOutsideBoth(old(sb.disk), old@Before(sb.disk), sb.disk, sb.g);
      chain := chain + [newCluster as nat];
      cluster := newCluster;
      chainDepth := chainDepth + 1;
      ClustersForExceeds(expectedSize, sb.g.BytesPerCluster(), chainDepth);
    }
    result := ClusterOk;
  }

  /** The walk to the end of a chain and the appending loop behind it. */
  method GrowChain(sb: SuperBlock, first: uint16, expectedSize: nat, ghost ch: seq<nat>) returns (result: ClusterResult)
    requires sb.Valid() && IsChain(sb.Table(), ch) && ch[0] == first
    modifies sb`disk, sb`cachedSector, sb.cache
    ensures sb.Valid() && SameOutsideTable(old(sb.disk), sb.disk, sb.g)
    ensures var g := Grow(old(sb.Table()), ch, sb.g.ScanLimit(), ClustersFor(expectedSize, sb.g.BytesPerCluster()));
            sb.Table() == g.fat && result == if g.enough then ClusterOk else NoAvailableClusters
  {
    var last, depth := LastCluster(sb, first, ch);
    result := AppendClusters(sb, last, depth, expectedSize, ch);
  }

  /** adjust_allocated_clusters */
  method AdjustAllocatedClusters(sb: SuperBlock, inode: Inode, expectedSize: nat, ghost ch: seq<nat>)
    returns (result: ClusterResult)
    requires sb.Valid() && Designates(sb.Table(), inode.firstCluster, ch)
    modifies sb`disk, sb`cachedSector, sb.cache, inode`firstCluster
    ensures sb.Valid() && SameOutsideTable(old(sb.disk), sb.disk, sb.g)
    ensures var a := Adjust(old(sb.Table()), old(inode.firstCluster), ch, sb.g.ScanLimit(),
                            ClustersFor(expectedSize, sb.g.BytesPerCluster()));
            sb.Table() == a.fat && inode.firstCluster == a.first && result == a.result
  {
    hide FatOf, IsSector;
    ghost var chain := ch;
    if inode.firstCluster == 0x0000 {
      FirstFreeIsLowest(sb.Table(), 2, sb.g.ScanLimit());
      var cluster := sb.FindNextFreeCluster();
      if cluster == 0 {
        return NoAvailableClusters;
      }
      MarkStaysInTable(sb.disk, sb.disk, sb.g, cluster, END_MARK);
      sb.MarkCluster(cluster, END_MARK);
      inode.firstCluster := cluster;
      chain := [cluster as nat];
    }
    if inode.firstCluster < 3 || inode.firstCluster >= FIRST_END_MARK {
      return InvalidCluster;
    }
    label Walk:
    result := GrowChain(sb, inode.firstCluster, expectedSize, chain);
    SameOutsideBoth(old(sb.disk), old@Walk(sb.disk), sb.disk, sb.g);
  }

  /** invalidate_cluster_chain */
  method InvalidateClusterChain(sb: SuperBlock, first: uint16, ghost ch: seq<nat>)
    requires sb.Valid()
    requires if first == 0 then ch == [] else IsChain(sb.Table(), ch) && ch[0] == first
    modifies sb`disk, sb`cachedSector, sb.cache
    ensures sb.Valid() && SameOutsideTable(old(sb.disk), sb.disk, sb.g)
    ensures sb.Table() == Cleared(old(sb.Table()), ch)
  {
    if first == 0x0000 {
      assert sb.Table() == Cleared(sb.Table(), []);
      return;
    }
    var cluster, more := first, true;
    ghost var i := 0;
    assert sb.Table() == Cleared(old(sb.Table()), ch[..0]);
    while more
      invariant sb.Valid() && SameOutsideTable(old(sb.disk), sb.disk, sb.g)
      invariant 0 <= i <= |ch| && (more <==> i < |ch|) && (more ==> cluster == ch[i])
      invariant sb.Table() == Cleared(old(sb.Table()), ch[..i])
      decreases |ch| - i
    {
      ClearedStep(old(sb.Table()), ch, i);
      var next := sb.FindNextCluster(cluster);
      MarkStaysInTable(sb.disk, old(sb.disk), sb.g, cluster, 0);
      sb.MarkCluster(cluster, 0);
      cluster := next;
      more := next < FIRST_END_MARK;
      i := i + 1;
    }
    assert ch[..i] == ch;
  }

  lemma ClearedStep(fat: Fat, ch: seq<nat>, i: nat)
    requires IsChain(fat, ch) && i < |ch|
    ensures Cleared(fat, ch[..i])[ch[i]] == fat[ch[i]]
    ensures Cleared(fat, ch[..i])[ch[i] := 0] == Cleared(fat, ch[..i + 1])
    ensures fat[ch[i]] < FIRST_END_MARK <==> i + 1 < |ch|
    ensures i + 1 < |ch| ==> fat[ch[i]] == ch[i + 1]
  {
    assert ch[..i + 1] == ch[..i] + [ch[i]];
    assert i < |ch| - 1 ==> fat[ch[i]] == ch[i + 1];
    assert ch[i] !in ch[..i];
  }
}
