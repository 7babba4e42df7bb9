/** The byte string a cluster chain holds, and what writing one cluster does to it. */
module FatContents {
  import opened Words
  import opened Splices
  import opened FatTable
  import opened FatVolume

  /** Clusters that have sectors of the volume. */
  ghost predicate OnVolume(g: Geometry, ch: seq<nat>) {
    forall i | 0 <= i < |ch| :: 2 <= ch[i] < g.clusters
  }

  function ClusterBytes(disk: seq<byte>, g: Geometry, c: nat): (r: seq<byte>)
    requires g.Fits(|disk|) && 2 <= c < g.clusters
    ensures |r| == g.BytesPerCluster()
  {
    ClustersDisjoint(g, |disk|, c, c);
    disk[g.ClusterOffset(c)..g.ClusterOffset(c) + g.BytesPerCluster()]
  }

  /** The size of `n` stretches of `b` bytes. */
  function Span(n: nat, b: nat): nat {
    if n == 0 then 0 else Span(n - 1, b) + b
  }

  lemma {:induction false} SpanIsProduct(n: nat, b: nat)
    ensures Span(n, b) == n * b
  {
    if n > 0 {
      SpanIsProduct(n - 1, b);
      assert n * b == (n - 1) * b + b;
    }
  }

  lemma {:induction false} SpanMonotone(k: nat, n: nat, b: nat)
    requires k <= n
    ensures Span(k, b) <= Span(n, b)
    ensures k < n ==> Span(k, b) + b <= Span(n, b)
    decreases n
  {
    if k < n { SpanMonotone(k, n - 1, b); }
  }

  /** The clusters of the chain, one after the other. */
  function ChainBytes(disk: seq<byte>, g: Geometry, ch: seq<nat>): (r: seq<byte>)
    requires g.Fits(|disk|) && OnVolume(g, ch)
    ensures |r| == Span(|ch|, g.BytesPerCluster())
  {
    if ch == [] then []
    else
      ClusterBytes(disk, g, ch[0]) + ChainBytes(disk, g, ch[1..])
  }

  lemma {:induction false} ChainSlice(disk: seq<byte>, g: Geometry, ch: seq<nat>, k: nat)
    requires g.Fits(|disk|) && OnVolume(g, ch) && k < |ch|
    ensures Span(k, g.BytesPerCluster()) + g.BytesPerCluster() <= Span(|ch|, g.BytesPerCluster())
    ensures ChainBytes(disk, g, ch)[Span(k, g.BytesPerCluster())..Span(k, g.BytesPerCluster()) + g.BytesPerCluster()]
            == ClusterBytes(disk, g, ch[k])
    decreases k
  {
    var b := g.BytesPerCluster();
    SpanMonotone(k, |ch|, b);
    if k > 0 {
      ChainSlice(disk, g, ch[1..], k - 1);
      SliceShift(ClusterBytes(disk, g, ch[0]), ChainBytes(disk, g, ch[1..]), Span(k - 1, b), b);
    }
  }

  lemma SliceShift<T>(a: seq<T>, s: seq<T>, from: nat, n: nat)
    requires from + n <= |s|
    ensures (a + s)[|a| + from..|a| + from + n] == s[from..from + n]
  {
  }

  /** Two disks that agree on every cluster of a chain hold the same byte string in it. */
  lemma {:induction false} ChainFrame(disk: seq<byte>, disk': seq<byte>, g: Geometry, ch: seq<nat>)
    requires g.Fits(|disk|) && |disk'| == |disk| && OnVolume(g, ch)
    requires forall i | 0 <= i < |ch| :: ClusterBytes(disk', g, ch[i]) == ClusterBytes(disk, g, ch[i])
    ensures ChainBytes(disk', g, ch) == ChainBytes(disk, g, ch)
    decreases |ch|
  {
    if ch != [] {
      ChainFrame(disk, disk', g, ch[1..]);
    }
  }

  /** A longer chain holds the byte string of its beginning first. */
  lemma {:induction false} ChainPrefix(disk: seq<byte>, g: Geometry, ch: seq<nat>, longer: seq<nat>)
    requires g.Fits(|disk|) && OnVolume(g, longer) && ch <= longer
    ensures OnVolume(g, ch) && ChainBytes(disk, g, ch) <= ChainBytes(disk, g, longer)
    decreases |ch|
  {
    assert forall i | 0 <= i < |ch| :: ch[i] == longer[i];
    if ch != [] {
      ChainPrefix(disk, g, ch[1..], longer[1..]);
    }
  }

  /** `disk'` differs from `disk` only inside the clusters of `ch`. */
  ghost predicate SameOutside(disk: seq<byte>, disk': seq<byte>, g: Geometry, ch: seq<nat>)
    requires g.Fits(|disk|) && |disk'| == |disk|
  {
    && disk'[..g.DataBase()] == disk[..g.DataBase()]
    && (forall c | 2 <= c < g.clusters && c !in ch :: ClusterBytes(disk', g, c) == ClusterBytes(disk, g, c))
  }

  /** Writing one cluster leaves everything in front of the data area. */
  lemma WriteBehindTable(disk: seq<byte>, g: Geometry, c: nat, data: seq<byte>)
    requires g.Fits(|disk|) && 2 <= c < g.clusters && |data| == g.BytesPerCluster()
    ensures g.DataBase() <= g.ClusterOffset(c) && g.ClusterOffset(c) + |data| <= |disk|
    ensures Splice(disk, g.ClusterOffset(c), data)[..g.DataBase()] == disk[..g.DataBase()]
  {
    ClustersDisjoint(g, |disk|, c, c);
    SpliceApart(disk, g.ClusterOffset(c), data, 0, g.DataBase());
  }

  /** Writing one cluster replaces its bytes. */
  lemma WrittenCluster(disk: seq<byte>, g: Geometry, c: nat, data: seq<byte>)
    requires g.Fits(|disk|) && 2 <= c < g.clusters && |data| == g.BytesPerCluster()
    ensures g.ClusterOffset(c) + |data| <= |disk|
    ensures ClusterBytes(Splice(disk, g.ClusterOffset(c), data), g, c) == data
  {
    ClustersDisjoint(g, |disk|, c, c);
    SpliceSelf(disk, g.ClusterOffset(c), data);
  }

  lemma ClusterIs(disk: seq<byte>, g: Geometry, c: nat)
    requires g.Fits(|disk|) && 2 <= c < g.clusters
    ensures g.ClusterOffset(c) + g.BytesPerCluster() <= |disk|
    ensures ClusterBytes(disk, g, c) == disk[g.ClusterOffset(c)..g.ClusterOffset(c) + g.BytesPerCluster()]
  {
    ClustersDisjoint(g, |disk|, c, c);
  }

  /** It changes no other cluster. */
  lemma OtherCluster(disk: seq<byte>, g: Geometry, c: nat, data: seq<byte>, d: nat)
    requires g.Fits(|disk|) && 2 <= c < g.clusters && 2 <= d < g.clusters && |data| == g.BytesPerCluster() && d != c
    requires g.ClusterOffset(c) + |data| <= |disk|
    ensures ClusterBytes(Splice(disk, g.ClusterOffset(c), data), g, d) == ClusterBytes(disk, g, d)
  {
    hide Splice, ClusterBytes, Geometry.SectorOf, Geometry.ClusterOffset;
    ClustersApart(g, |disk|, c, d);
    ClusterIs(disk, g, d);
    ClusterIs(Splice(disk, g.ClusterOffset(c), data), g, d);
    SpliceApart(disk, g.ClusterOffset(c), data, g.ClusterOffset(d), g.ClusterOffset(d) + g.BytesPerCluster());
  }

  lemma ClustersApart(g: Geometry, diskSize: nat, c: nat, d: nat)
    requires g.Fits(diskSize) && 2 <= c < g.clusters && 2 <= d < g.clusters && d != c
    ensures g.ClusterOffset(c) + g.BytesPerCluster() <= diskSize && g.ClusterOffset(d) + g.BytesPerCluster() <= diskSize
    ensures g.ClusterOffset(d) + g.BytesPerCluster() <= g.ClusterOffset(c)
            || g.ClusterOffset(c) + g.BytesPerCluster() <= g.ClusterOffset(d)
  {
    ClustersDisjoint(g, diskSize, c, d);
    ClustersDisjoint(g, diskSize, d, c);
  }

  /** Patching the k-th cluster of a chain patches the byte string at the corresponding place. */
  lemma {:induction false} PatchedChain(disk: seq<byte>, disk': seq<byte>, g: Geometry, ch: seq<nat>,
                                        k: nat, at: nat, patch: seq<byte>)
    requires g.Fits(|disk|) && |disk'| == |disk| && OnVolume(g, ch) && k < |ch|
    requires at + |patch| <= g.BytesPerCluster()
    requires forall i | 0 <= i < |ch| && i != k :: ClusterBytes(disk', g, ch[i]) == ClusterBytes(disk, g, ch[i])
    requires ClusterBytes(disk', g, ch[k]) == Splice(ClusterBytes(disk, g, ch[k]), at, patch)
    ensures Span(k, g.BytesPerCluster()) + at + |patch| <= |ChainBytes(disk, g, ch)|
    ensures ChainBytes(disk', g, ch) == Splice(ChainBytes(disk, g, ch), Span(k, g.BytesPerCluster()) + at, patch)
    decreases |ch|
  {
    hide ClusterBytes, Splice;
    var b, rest := g.BytesPerCluster(), ch[1..];
    SpanMonotone(k, |ch|, b);
    if k == 0 {
      forall i | 0 <= i < |rest| ensures ClusterBytes(disk', g, rest[i]) == ClusterBytes(disk, g, rest[i]) {
        assert rest[i] == ch[i + 1];
      }
      ChainFrame(disk, disk', g, rest);
      SpliceHead(ClusterBytes(disk, g, ch[0]), ChainBytes(disk, g, rest), at, patch);
    } else {
      forall i | 0 <= i < |rest| && i != k - 1
        ensures ClusterBytes(disk', g, rest[i]) == ClusterBytes(disk, g, rest[i])
      {
        assert rest[i] == ch[i + 1];
      }
      PatchedChain(disk, disk', g, rest, k - 1, at, patch);
      SpliceTail(ClusterBytes(disk, g, ch[0]), ChainBytes(disk, g, rest), Span(k - 1, b) + at, patch);
    }
  }

  /** Writing back the k-th cluster of a chain with some of its bytes patched. */
  lemma PatchInChain(disk: seq<byte>, g: Geometry, ch: seq<nat>, k: nat, data: seq<byte>, at: nat, patch: seq<byte>)
    requires g.Fits(|disk|) && OnVolume(g, ch) && k < |ch| && at + |patch| <= g.BytesPerCluster()
    requires forall i, j | 0 <= i < j < |ch| :: ch[i] != ch[j]
    requires data == Splice(ClusterBytes(disk, g, ch[k]), at, patch)
    ensures g.ClusterOffset(ch[k]) + |data| <= |disk|
    ensures Span(k, g.BytesPerCluster()) + at + |patch| <= |ChainBytes(disk, g, ch)|
    ensures ChainBytes(Splice(disk, g.ClusterOffset(ch[k]), data), g, ch)
            == Splice(ChainBytes(disk, g, ch), Span(k, g.BytesPerCluster()) + at, patch)
  {
    WrittenCluster(disk, g, ch[k], data);
    var disk' := Splice(disk, g.ClusterOffset(ch[k]), data);
    forall i | 0 <= i < |ch| && i != k ensures ClusterBytes(disk', g, ch[i]) == ClusterBytes(disk, g, ch[i]) {
      OtherCluster(disk, g, ch[k], data, ch[i]);
    }
    PatchedChain(disk, disk', g, ch, k, at, patch);
  }

  /** It leaves everything outside the chain alone. */
  lemma PatchSpares(disk: seq<byte>, g: Geometry, ch: seq<nat>, k: nat, data: seq<byte>)
    requires g.Fits(|disk|) && OnVolume(g, ch) && k < |ch| && |data| == g.BytesPerCluster()
    ensures g.ClusterOffset(ch[k]) + |data| <= |disk|
    ensures SameOutside(disk, Splice(disk, g.ClusterOffset(ch[k]), data), g, ch)
  {
    WriteBehindTable(disk, g, ch[k], data);
    forall c | 2 <= c < g.clusters && c !in ch
      ensures ClusterBytes(Splice(disk, g.ClusterOffset(ch[k]), data), g, c) == ClusterBytes(disk, g, c)
    {
      OtherCluster(disk, g, ch[k], data, c);
    }
  }

  lemma SameOutsideTransitive(a: seq<byte>, b: seq<byte>, c: seq<byte>, g: Geometry, ch: seq<nat>)
    requires g.Fits(|a|) && |a| == |b| == |c| && SameOutside(a, b, g, ch) && SameOutside(b, c, g, ch)
    ensures SameOutside(a, c, g, ch)
  {
  }

  /** A chain disjoint from the written one keeps its byte string, and the table keeps its links. */
  lemma OthersUntouched(disk: seq<byte>, disk': seq<byte>, g: Geometry, ch: seq<nat>, other: seq<nat>)
    requires g.Fits(|disk|) && |disk'| == |disk| && SameOutside(disk, disk', g, ch)
    requires OnVolume(g, other) && Disjoint(other, ch)
    ensures ChainBytes(disk', g, other) == ChainBytes(disk, g, other)
    ensures FatOf(disk', g) == FatOf(disk, g)
  {
    ChainFrame(disk, disk', g, other);
    SameTable(disk, disk', g);
  }

  lemma SameTable(disk: seq<byte>, disk': seq<byte>, g: Geometry)
    requires g.Fits(|disk|) && |disk'| == |disk| && disk'[..g.DataBase()] == disk[..g.DataBase()]
    ensures FatOf(disk', g) == FatOf(disk, g)
  {
    forall k | 0 <= k < g.RootBase() ensures disk'[k] == disk[k] {
      SameInside(disk, disk', 0, g.DataBase(), k, k + 1);
      assert disk'[k] == disk'[k..k + 1][0] == disk[k..k + 1][0];
    }
    FatFrame(disk, disk', g);
  }
}
