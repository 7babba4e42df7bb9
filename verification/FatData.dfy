/** Reading and writing byte ranges of a cluster chain. */
module FatData {
  import opened Words
  import opened Splices
  import opened FatTable
  import opened FatVolume
  import opened FatContents
  import opened FatChains

  /** The sector the driver computes for a cluster, that its 16-bit variable can hold it, and that
      the cluster's bytes start there. */
  lemma PhysicalSector(disk: seq<byte>, g: Geometry, c: nat)
    requires g.Fits(|disk|) && 2 <= c < g.clusters
    ensures 0 <= g.dataStart + (c - 2) * g.sectorsPerCluster == ToU16(g.dataStart + (c - 2) * g.sectorsPerCluster)
    ensures ToU16(g.dataStart + (c - 2) * g.sectorsPerCluster) * SECTOR_SIZE == g.ClusterOffset(c)
    ensures g.ClusterOffset(c) + g.BytesPerCluster() <= |disk|
  {
    g.SectorFormula(c);
    SectorsAscend(g, c + 1, g.clusters);
    ClustersDisjoint(g, |disk|, c, c);
  }

  /** read_block of one cluster, as the reading loop does it: the sector number is a uint16_t. */
  method LoadCluster(sb: SuperBlock, cluster: uint16) returns (data: seq<byte>)
    requires sb.g.Fits(|sb.disk|) && 2 <= cluster < sb.g.clusters
    ensures data == ClusterBytes(sb.disk, sb.g, cluster)
  {
    PhysicalSector(sb.disk, sb.g, cluster);
    var physicalSector := ToU16(sb.g.dataStart + (cluster - 2) * sb.g.sectorsPerCluster);
    data := sb.ReadBlock(physicalSector, sb.g.BytesPerCluster());
  }

  /** Everything that writing back a patched cluster of a chain does. */
  lemma StoreEffect(disk: seq<byte>, disk': seq<byte>, g: Geometry, words: seq<uint16>, sector: nat,
                    data: seq<byte>, ch: seq<nat>, k: nat, at: nat, patch: seq<byte>)
    requires g.Fits(|disk|) && IsSector(words, disk, g, sector) && IsChain(FatOf(disk, g), ch) && k < |ch|
    requires OnVolume(g, ch)
    requires at + |patch| <= g.BytesPerCluster() && data == Splice(ClusterBytes(disk, g, ch[k]), at, patch)
    requires g.ClusterOffset(ch[k]) + |data| <= |disk| && disk' == Splice(disk, g.ClusterOffset(ch[k]), data)
    ensures IsSector(words, disk', g, sector) && SameOutside(disk, disk', g, ch) && FatOf(disk', g) == FatOf(disk, g)
    ensures Span(k, g.BytesPerCluster()) + at + |patch| <= |ChainBytes(disk, g, ch)|
    ensures ChainBytes(disk', g, ch) == Splice(ChainBytes(disk, g, ch), Span(k, g.BytesPerCluster()) + at, patch)
  {
    PatchInChain(disk, g, ch, k, data, at, patch);
    PatchSpares(disk, g, ch, k, data);
    SameTable(disk, disk', g);
    SectorsUnchanged(disk, disk', g, words, sector);
  }

  /** write_block of one cluster whose k-th chain position held `data` before it was patched. */
  method StoreCluster(sb: SuperBlock, cluster: uint16, data: seq<byte>,
                      ghost ch: seq<nat>, ghost k: nat, ghost at: nat, ghost patch: seq<byte>, ghost position: nat)
    requires sb.Valid() && IsChain(sb.Table(), ch) && OnVolume(sb.g, ch) && k < |ch| && cluster == ch[k]
    requires at + |patch| <= sb.g.BytesPerCluster() && position == Span(k, sb.g.BytesPerCluster()) + at
    requires data == Splice(ClusterBytes(sb.disk, sb.g, cluster), at, patch)
    modifies sb`disk
    ensures sb.Valid() && |sb.disk| == |old(sb.disk)| && SameOutside(old(sb.disk), sb.disk, sb.g, ch)
    ensures sb.Table() == old(sb.Table())
    ensures position + |patch| <= |ChainBytes(old(sb.disk), sb.g, ch)|
    ensures ChainBytes(sb.disk, sb.g, ch) == Splice(ChainBytes(old(sb.disk), sb.g, ch), position, patch)
  {
    hide SameOutside, FatOf, IsSector, ChainBytes, ClusterBytes, IsChain;
    PhysicalSector(sb.disk, sb.g, cluster);
    var physicalSector := sb.g.dataStart + (cluster - 2) * sb.g.sectorsPerCluster;
    sb.WriteBlock(physicalSector, data);
    StoreEffect(old(sb.disk), sb.disk, sb.g, sb.cache[..], sb.cachedSector, data, ch, k, at, patch);
  }

  /** Equal bytes in front of the data area mean an equally coherent cache. */
  lemma SectorsUnchanged(disk: seq<byte>, disk': seq<byte>, g: Geometry, words: seq<uint16>, sector: nat)
    requires g.Fits(|disk|) && |disk'| == |disk| && disk'[..g.DataBase()] == disk[..g.DataBase()]
    requires IsSector(words, disk, g, sector)
    ensures IsSector(words, disk', g, sector)
  {
    var base := g.FatBase() + sector * SECTOR_SIZE;
    SameInside(disk, disk', 0, g.DataBase(), base, base + SECTOR_SIZE);
  }

  /** Follow the table `steps` links from the start of a chain. */
  method SkipClusters(sb: SuperBlock, first: uint16, steps: nat, ghost ch: seq<nat>) returns (cluster: uint16)
    requires sb.Valid() && IsChain(sb.Table(), ch) && ch[0] == first && steps < |ch|
    modifies sb`cachedSector, sb.cache
    ensures sb.Valid() && cluster == ch[steps]
  {
    cluster := first;
    var i := 0;
    while i < steps
      invariant 0 <= i <= steps && sb.Valid() && cluster == ch[i]
    {
      cluster := NextInChain(sb, cluster, ch, i);
      i := i + 1;
    }
  }

  /** A piece of one cluster is the corresponding piece of the chain's byte string. */
  lemma PieceOfChain(disk: seq<byte>, g: Geometry, ch: seq<nat>, k: nat, skip: nat, n: nat)
    requires g.Fits(|disk|) && OnVolume(g, ch) && k < |ch| && skip + n <= g.BytesPerCluster()
    ensures Span(k, g.BytesPerCluster()) + g.BytesPerCluster() <= |ChainBytes(disk, g, ch)|
    ensures ClusterBytes(disk, g, ch[k])[skip..skip + n]
            == ChainBytes(disk, g, ch)[Span(k, g.BytesPerCluster()) + skip..Span(k, g.BytesPerCluster()) + skip + n]
  {
    ChainSlice(disk, g, ch, k);
    SlicePart(ChainBytes(disk, g, ch), ClusterBytes(disk, g, ch[k]), Span(k, g.BytesPerCluster()), skip, n);
  }

  /** The first position from `k` on at which a chain holds cluster 2, or the chain's length. */
  function ReadStop(ch: seq<nat>, k: nat): (stop: nat)
    ensures k <= |ch| ==> k <= stop <= |ch| && forall i | k <= i < stop :: ch[i] != 2
    ensures stop < |ch| ==> ch[stop] == 2
    decreases |ch| - k
  {
    if k >= |ch| then |ch| else if ch[k] == 2 then k else ReadStop(ch, k + 1)
  }

  /** What a read of `count` bytes at `offset` comes to: `n` bytes of the chain's byte string in front
      of the buffer, fewer than asked for exactly when the driver's walk ends before. */
  ghost predicate ReadResult(disk: seq<byte>, g: Geometry, ch: seq<nat>, offset: nat, count: nat, n: nat,
                             buf: seq<byte>, buf0: seq<byte>)
    requires g.Fits(|disk|) && OnVolume(g, ch)
  {
    var end := Span(ReadStop(ch, Quotient(offset, g.BytesPerCluster()) + 1), g.BytesPerCluster());
    && offset < end && n == (if offset + count <= end then count else end - offset)
    && offset + n <= |ChainBytes(disk, g, ch)| && n <= |buf0|
    && Copied(buf, buf0, ChainBytes(disk, g, ch), offset, offset + n)
  }

  /**
   FAT16_read_cluster_chain. Past the end of the file it stores a 0 and reads nothing; otherwise it
   copies the chain's bytes from `offset` on, `count` of them or as many as there are. The loop does
   not follow a link to cluster 2, so the bytes end where the chain goes on to that cluster.
   */
  method ReadClusterChain(sb: SuperBlock, inode: Inode, buf: array<byte>, count: nat, offset: nat, ghost ch: seq<nat>)
    returns (n: nat)
    requires sb.Valid() && buf != sb.cache as object
    requires if offset < inode.size then count <= buf.Length else 0 < buf.Length
    requires offset < inode.size ==> IsChain(sb.Table(), ch) && OnVolume(sb.g, ch) && ch[0] == inode.firstCluster
    requires offset < inode.size <= Span(|ch|, sb.g.BytesPerCluster()) || offset >= inode.size
    modifies sb`cachedSector, sb.cache, buf
    ensures sb.Valid()
    ensures offset >= inode.size ==> n == 0 && buf[..] == old(buf[..])[0 := 0]
    ensures offset < inode.size ==> ReadResult(sb.disk, sb.g, ch, offset, count, n, buf[..], old(buf[..]))
  {
    hide SameOutside, FatOf, IsSector, ChainBytes, ClusterBytes, IsChain, OnVolume;
    if offset >= inode.size {
      buf[0] := 0;
      return 0;
    }
    var bytesPerCluster := sb.g.BytesPerCluster();
    var clusterStart, offsetInCluster := StartCluster(offset, bytesPerCluster, |ch|);
    var cluster := SkipClusters(sb, inode.firstCluster, clusterStart, ch);
    NothingRead(sb.disk, sb.g, ch, clusterStart, offsetInCluster, buf[..]);
    SpanMonotone(ReadStop(ch, clusterStart + 1), |ch|, bytesPerCluster);
    n := ReadFrom(sb, cluster, offsetInCluster, buf, count, ch, clusterStart, ReadStop(ch, clusterStart + 1), offset);
  }

  /** The first bytes of `buf` are those of `content` between the two offsets; the rest is `buf0`. */
  ghost predicate Copied(buf: seq<byte>, buf0: seq<byte>, content: seq<byte>, from: nat, to: nat)
    requires from <= to <= |content| && to - from <= |buf0|
  {
    buf == Splice(buf0, 0, content[from..to])
  }

  /** Where the reading loop stands before (`more`) or after its last round: the bytes from `offset`
      to `position` are in the buffer, and any others begin at the chain's cluster number `k`; the
      loop goes no further than position `stop` of the chain. */
  ghost predicate Reading(sb: SuperBlock, buf: array<byte>, buf0: seq<byte>, ch: seq<nat>, k: nat, cluster: uint16,
                          stop: nat, skip: nat, offset: nat, position: nat, count: nat, more: bool)
    reads sb, sb.cache, buf
  {
    && sb.Valid() && buf != sb.cache as object && count <= buf.Length == |buf0|
    && IsChain(sb.Table(), ch) && OnVolume(sb.g, ch)
    && ReadState(ch, k, cluster, stop, skip, offset, position, count, more, sb.g.BytesPerCluster())
    && position <= |ChainBytes(sb.disk, sb.g, ch)|
    && Copied(buf[..], buf0, ChainBytes(sb.disk, sb.g, ch), offset, position)
  }

  /** The numbers of it; a cluster has `b` bytes. */
  ghost predicate ReadState(ch: seq<nat>, k: nat, cluster: uint16, stop: nat, skip: nat, offset: nat, position: nat,
                            count: nat, more: bool, b: nat)
  {
    && k <= stop <= |ch| && skip < b
    && (forall i | k < i < stop :: ch[i] != 2) && (stop < |ch| ==> ch[stop] == 2)
    && offset <= position <= Span(stop, b) <= Span(|ch|, b) && position - offset <= count
    && (more ==> k < stop && cluster == ch[k] && position == Span(k, b) + skip)
    && (!more ==> position - offset == count || position == Span(stop, b))
  }

  /** After a round. */
  lemma ReadOn(ch: seq<nat>, k: nat, cluster: uint16, stop: nat, skip: nat, offset: nat, position: nat, count: nat,
               b: nat, toCopy: nat, next: uint16)
    requires ReadState(ch, k, cluster, stop, skip, offset, position, count, true, b)
    requires toCopy == if offset + count - position > b - skip then b - skip else offset + count - position
    requires if k + 1 < |ch| then next == ch[k + 1] && 2 <= next < FIRST_END_MARK else next >= FIRST_END_MARK
    ensures ReadState(ch, k + 1, next, stop, 0, offset, position + toCopy, count,
                      position + toCopy != offset + count && next >= 3 && next < FIRST_END_MARK, b)
  {
    SpanMonotone(k + 1, stop, b);
    SpanMonotone(stop, |ch|, b);
  }

  /** After the last one. */
  lemma ReadEnd(ch: seq<nat>, k: nat, cluster: uint16, stop: nat, skip: nat, offset: nat, position: nat, count: nat,
                b: nat)
    requires ReadState(ch, k, cluster, stop, skip, offset, position, count, false, b)
    ensures position - offset == if offset + count <= Span(stop, b) then count else Span(stop, b) - offset
  {
  }

  lemma NothingRead(disk: seq<byte>, g: Geometry, ch: seq<nat>, start: nat, skip: nat, buf: seq<byte>)
    requires g.Fits(|disk|) && OnVolume(g, ch) && start < |ch| && skip < g.BytesPerCluster()
    ensures var offset, end := Span(start, g.BytesPerCluster()) + skip,
                               Span(ReadStop(ch, start + 1), g.BytesPerCluster());
            offset < end <= |ChainBytes(disk, g, ch)| && Copied(buf, buf, ChainBytes(disk, g, ch), offset, offset)
  {
    SpanMonotone(start, ReadStop(ch, start + 1), g.BytesPerCluster());
    SpanMonotone(ReadStop(ch, start + 1), |ch|, g.BytesPerCluster());
    var offset := Span(start, g.BytesPerCluster()) + skip;
    assert ChainBytes(disk, g, ch)[offset..offset] == [];
  }

  /** One round of the reading loop: copy what is wanted of one cluster, then step to the next. */
  method ReadNext(sb: SuperBlock, cluster: uint16, buf: array<byte>, remaining: nat, skip: nat, count: nat,
                  ghost ch: seq<nat>, ghost k: nat, ghost stop: nat, ghost offset: nat, ghost buf0: seq<byte>)
    returns (next: uint16, left: nat, more: bool)
    requires remaining <= count
    requires Reading(sb, buf, buf0, ch, k, cluster, stop, skip, offset, offset + count - remaining, count, true)
    modifies sb`cachedSector, sb.cache, buf
    ensures left <= remaining && k < |ch|
    ensures Reading(sb, buf, buf0, ch, k + 1, next, stop, 0, offset, offset + count - left, count, more)
  {
    hide SameOutside, FatOf, IsSector, ChainBytes, ClusterBytes, IsChain, OnVolume;
    var toCopy := ReadPiece(sb, cluster, buf, count - remaining, remaining, skip, ch, k,
                            offset, offset + count - remaining, buf0);
    left := remaining - toCopy;
    ghost var filled := buf[..];
    next := NextInChain(sb, cluster, ch, k);
    assert buf[..] == filled;
    ReadOn(ch, k, cluster, stop, skip, offset, offset + count - remaining, count, sb.g.BytesPerCluster(), toCopy, next);
    more := left != 0 && next >= 3 && next < FIRST_END_MARK;
  }

  /** The reading loop, from offset `inCluster` of the chain's cluster number `start` on. */
  method ReadFrom(sb: SuperBlock, first: uint16, inCluster: nat, buf: array<byte>, count: nat,
                  ghost ch: seq<nat>, ghost start: nat, ghost stop: nat, ghost offset: nat)
    returns (n: nat)
    requires Reading(sb, buf, buf[..], ch, start, first, stop, inCluster, offset, offset, count, true)
    modifies sb`cachedSector, sb.cache, buf
    ensures sb.Valid()
    ensures var end := Span(stop, sb.g.BytesPerCluster());
            && n == (if offset + count <= end then count else end - offset)
            && offset + n <= |ChainBytes(sb.disk, sb.g, ch)|
            && Copied(buf[..], old(buf[..]), ChainBytes(sb.disk, sb.g, ch), offset, offset + n)
  {
    hide SameOutside, FatOf, IsSector, ChainBytes, ClusterBytes, IsChain, OnVolume;
    var cluster, i, remaining, more := first, 0, count, true;
    ghost var buf0, k, at := buf[..], start, inCluster;
    while more
      invariant i >= 0 && remaining <= count && k <= |ch| && at == if i == 0 then inCluster else 0
      invariant Reading(sb, buf, buf0, ch, k, cluster, stop, at, offset, offset + count - remaining, count, more)
      decreases |ch| - k
    {
      var skip := if i == 0 && inCluster > 0 then inCluster else 0;
      cluster, remaining, more := ReadNext(sb, cluster, buf, remaining, skip, count, ch, k, stop, offset, buf0);
      i := i + 1;
      k, at := k + 1, 0;
    }
    ReadEnd(ch, k, cluster, stop, at, offset, offset + count - remaining, count, sb.g.BytesPerCluster());
    n := count - remaining;
  }

  /** Copy what is wanted of one cluster behind the bytes already copied. */
  method ReadPiece(sb: SuperBlock, cluster: uint16, buf: array<byte>, done: nat, remaining: nat, skip: nat,
                   ghost ch: seq<nat>, ghost k: nat, ghost offset: nat, ghost position: nat, ghost buf0: seq<byte>)
    returns (toCopy: nat)
    requires sb.g.Fits(|sb.disk|) && OnVolume(sb.g, ch) && k < |ch| && cluster == ch[k]
    requires skip < sb.g.BytesPerCluster() && done + remaining <= buf.Length == |buf0|
    requires position == offset + done == Span(k, sb.g.BytesPerCluster()) + skip <= |ChainBytes(sb.disk, sb.g, ch)|
    requires Copied(buf[..], buf0, ChainBytes(sb.disk, sb.g, ch), offset, position)
    modifies buf
    ensures toCopy == if remaining > sb.g.BytesPerCluster() - skip then sb.g.BytesPerCluster() - skip else remaining
    ensures position + toCopy <= Span(k + 1, sb.g.BytesPerCluster()) <= |ChainBytes(sb.disk, sb.g, ch)|
    ensures toCopy < remaining ==> position + toCopy == Span(k + 1, sb.g.BytesPerCluster())
    ensures Copied(buf[..], buf0, ChainBytes(sb.disk, sb.g, ch), offset, position + toCopy)
  {
    SpanMonotone(k, |ch|, sb.g.BytesPerCluster());
    var tempBuf := LoadCluster(sb, cluster);
    var validDataLen := sb.g.BytesPerCluster() - skip;
    toCopy := if remaining > validDataLen then validDataLen else remaining;
    CopiedMore(sb.disk, sb.g, ch, k, skip, toCopy, buf[..], buf0, offset, position);
    CopyInto(buf, done, tempBuf[skip..skip + toCopy]);
  }

  lemma CopiedMore(disk: seq<byte>, g: Geometry, ch: seq<nat>, k: nat, skip: nat, n: nat,
                   buf: seq<byte>, buf0: seq<byte>, offset: nat, position: nat)
    requires g.Fits(|disk|) && OnVolume(g, ch) && k < |ch| && skip + n <= g.BytesPerCluster()
    requires offset <= position == Span(k, g.BytesPerCluster()) + skip <= |ChainBytes(disk, g, ch)|
    requires position - offset + n <= |buf0| && Copied(buf, buf0, ChainBytes(disk, g, ch), offset, position)
    ensures position + n <= |ChainBytes(disk, g, ch)|
    ensures Copied(Splice(buf, position - offset, ClusterBytes(disk, g, ch[k])[skip..skip + n]), buf0,
                   ChainBytes(disk, g, ch), offset, position + n)
  {
    PieceOfChain(disk, g, ch, k, skip, n);
    GrowPrefix(buf0, ChainBytes(disk, g, ch), offset, position - offset, n);
  }

  /** The first cluster of a read, as a position in the chain, and the offset in it. */
  method StartCluster(offset: nat, b: nat, ghost n: nat) returns (start: nat, inCluster: nat)
    requires b > 0 && offset < Span(n, b)
    ensures start == Quotient(offset, b) && start < n && inCluster < b && offset == Span(start, b) + inCluster
  {
    start := offset / b;
    inCluster := offset - start * b;
    QuotientIsDivision(offset, b);
    SpanIsProduct(start, b);
    assert offset == start * b + offset % b;
    if start >= n { SpanMonotone(n, start, b); }
  }

  /** memcpy into the caller's buffer. */
  method CopyInto(buf: array<byte>, at: nat, data: seq<byte>)
    requires at + |data| <= buf.Length
    modifies buf
    ensures buf[..] == Splice(old(buf[..]), at, data)
  {
    forall j | 0 <= j < |data| {
      buf[at + j] := data[j];
    }
    SpliceAt(old(buf[..]), at, data);
  }

  lemma GrowPrefix(buf: seq<byte>, content: seq<byte>, offset: nat, done: nat, n: nat)
    requires done + n <= |buf| && offset + done + n <= |content|
    ensures Splice(Splice(buf, 0, content[offset..offset + done]), done, content[offset + done..offset + done + n])
            == Splice(buf, 0, content[offset..offset + done + n])
  {
    assert content[offset..offset + done + n]
           == content[offset..offset + done] + content[offset + done..offset + done + n];
    SpliceAppend(buf, 0, content[offset..offset + done], content[offset + done..offset + done + n]);
  }

  /**
   FAT16_write_cluster_chain: the byte string of the chain has the range replaced by `buf`, and
   nothing outside the chain's clusters changes. An offset on a cluster boundary starts in the
   cluster before it, which is then written back unchanged.
   */
  method WriteClusterChain(sb: SuperBlock, inode: Inode, buf: seq<byte>, offset: nat, ghost ch: seq<nat>)
    returns (written: nat)
    requires sb.Valid() && IsChain(sb.Table(), ch) && OnVolume(sb.g, ch) && ch[0] == inode.firstCluster
    requires offset + |buf| <= Span(|ch|, sb.g.BytesPerCluster())
    modifies sb`disk, sb`cachedSector, sb.cache
    ensures sb.Valid() && |sb.disk| == |old(sb.disk)| && written == |buf|
    ensures SameOutside(old(sb.disk), sb.disk, sb.g, ch) && sb.Table() == old(sb.Table())
    ensures ChainBytes(sb.disk, sb.g, ch) == Splice(ChainBytes(old(sb.disk), sb.g, ch), offset, buf)
  {
    var bytesPerCluster := sb.g.BytesPerCluster();
    var currentCluster, clusterOffset := inode.firstCluster, offset;
    ghost var content := ChainBytes(sb.disk, sb.g, ch);
    ghost var k := 0;
    while clusterOffset > bytesPerCluster
      invariant sb.Valid() && sb.disk == old(sb.disk) && 0 <= k < |ch| && currentCluster == ch[k]
      invariant 0 <= clusterOffset && offset == Span(k, bytesPerCluster) + clusterOffset
      decreases clusterOffset
    {
      SkippedCluster(k, |ch|, bytesPerCluster, clusterOffset);
      currentCluster := NextInChain(sb, currentCluster, ch, k);
      clusterOffset := clusterOffset - bytesPerCluster;
      k := k + 1;
    }

    var available := bytesPerCluster - clusterOffset;
    var toWrite := if |buf| > available then available else |buf|;
    var clusterBuf := new byte[bytesPerCluster];
    assert Splice(content, offset, buf[..0]) == content;
    WritePiece(sb, currentCluster, clusterBuf, clusterOffset, buf[..toWrite],
               clusterOffset != 0 || clusterOffset + |buf| < bytesPerCluster, ch, k, content, offset, buf, 0, toWrite);
    ghost var before := sb.disk;
    written := WriteRest(sb, currentCluster, clusterBuf, buf, offset, toWrite, ch, k, content);
    SameOutsideTransitive(old(sb.disk), before, sb.disk, sb.g, ch);
  }

  /** The chain's byte string is `content` with `patch` written over it at `offset`. */
  ghost predicate HoldsPatched(disk: seq<byte>, g: Geometry, ch: seq<nat>, content: seq<byte>, offset: nat,
                               patch: seq<byte>)
    requires g.Fits(|disk|) && OnVolume(g, ch) && offset + |patch| <= |content|
  {
    ChainBytes(disk, g, ch) == Splice(content, offset, patch)
  }

  /** Where the second writing loop stands: `written` bytes are in place, the last of them in the
      chain's cluster number `k`, and any others begin at the next cluster. */
  ghost predicate Writing(sb: SuperBlock, clusterBuf: array<byte>, ch: seq<nat>, k: nat, cluster: uint16,
                          content: seq<byte>, offset: nat, buf: seq<byte>, written: nat)
    reads sb, sb.cache, clusterBuf
  {
    && sb.Valid() && IsChain(sb.Table(), ch) && OnVolume(sb.g, ch)
    && clusterBuf.Length == sb.g.BytesPerCluster() && clusterBuf != sb.cache as object
    && WriteState(|ch|, k, offset, |buf|, written, sb.g.BytesPerCluster()) && cluster == ch[k]
    && |content| == Span(|ch|, sb.g.BytesPerCluster())
    && HoldsPatched(sb.disk, sb.g, ch, content, offset, buf[..written])
  }

  /** The numbers of it: a chain of `n` clusters of `b` bytes, and `size` bytes to write. */
  predicate WriteState(n: nat, k: nat, offset: nat, size: nat, written: nat, b: nat) {
    && k < n && offset + size <= Span(n, b) && written <= size
    && (written < size ==> offset + written == Span(k + 1, b))
  }

  /** What a round writes, into the next cluster. */
  function NextPiece(size: nat, written: nat, b: nat): nat
    requires written <= size
  {
    if size - written < b then size - written else b
  }

  lemma WriteOn(n: nat, k: nat, offset: nat, size: nat, written: nat, b: nat)
    requires WriteState(n, k, offset, size, written, b) && written < size && b > 0
    ensures k + 1 < n && WriteState(n, k + 1, offset, size, written + NextPiece(size, written, b), b)
    ensures 0 < NextPiece(size, written, b) <= b && Span(k + 1, b) == offset + written
  {
    assert k + 1 == n ==> offset + written == Span(n, b);
  }

  /** One round of the second writing loop. */
  method WriteNext(sb: SuperBlock, cluster: uint16, clusterBuf: array<byte>, buf: seq<byte>, ghost offset: nat,
                   before: nat, ghost ch: seq<nat>, ghost k: nat, ghost content: seq<byte>)
    returns (next: uint16, written: nat)
    requires Writing(sb, clusterBuf, ch, k, cluster, content, offset, buf, before) && before < |buf|
    modifies sb`disk, sb`cachedSector, sb.cache, clusterBuf
    ensures Writing(sb, clusterBuf, ch, k + 1, next, content, offset, buf, written) && before < written
    ensures |sb.disk| == |old(sb.disk)| && SameOutside(old(sb.disk), sb.disk, sb.g, ch)
    ensures sb.Table() == old(sb.Table())
  {
    hide SameOutside, FatOf, IsSector, ChainBytes, ClusterBytes, IsChain, OnVolume;
    var bytesPerCluster := sb.g.BytesPerCluster();
    WriteOn(|ch|, k, offset, |buf|, before, bytesPerCluster);
    next := NextInChain(sb, cluster, ch, k);
    var toWrite := if |buf| - before < bytesPerCluster then |buf| - before else bytesPerCluster;
    WritePiece(sb, next, clusterBuf, 0, buf[before..before + toWrite], toWrite < bytesPerCluster,
               ch, k + 1, content, offset, buf, before, toWrite);
    written := before + toWrite;
  }

  /** The second writing loop: whole clusters, and a last piece merged with what its cluster held. */
  method WriteRest(sb: SuperBlock, cluster: uint16, clusterBuf: array<byte>, buf: seq<byte>, ghost offset: nat,
                   first: nat, ghost ch: seq<nat>, ghost at: nat, ghost content: seq<byte>)
    returns (written: nat)
    requires Writing(sb, clusterBuf, ch, at, cluster, content, offset, buf, first)
    modifies sb`disk, sb`cachedSector, sb.cache, clusterBuf
    ensures sb.Valid() && |sb.disk| == |old(sb.disk)| && written == |buf|
    ensures SameOutside(old(sb.disk), sb.disk, sb.g, ch) && sb.Table() == old(sb.Table())
    ensures HoldsPatched(sb.disk, sb.g, ch, content, offset, buf)
  {
    hide FatOf, IsSector, ChainBytes, ClusterBytes, IsChain, OnVolume;
    var currentCluster := cluster;
    ghost var k := at;
    written := first;
    while written < |buf|
      invariant Writing(sb, clusterBuf, ch, k, currentCluster, content, offset, buf, written)
      invariant |sb.disk| == |old(sb.disk)| && SameOutside(old(sb.disk), sb.disk, sb.g, ch)
      invariant sb.Table() == old(sb.Table())
    {
      ghost var before := sb.disk;
      currentCluster, written := WriteNext(sb, currentCluster, clusterBuf, buf, offset, written, ch, k, content);
      SameOutsideTransitive(old(sb.disk), before, sb.disk, sb.g, ch);
      k := k + 1;
    }
    assert buf[..written] == buf;
  }

  /** An offset more than one cluster past the start of cluster `k` lies in a later cluster. */
  lemma SkippedCluster(k: nat, n: nat, b: nat, rest: int)
    requires k < n && rest > b && Span(k, b) + rest <= Span(n, b)
    ensures k + 1 < n
  {
    assert k + 1 == n ==> Span(n, b) == Span(k, b) + b;
  }

  /** Write some bytes into one cluster of the chain. */
  method WritePiece(sb: SuperBlock, cluster: uint16, clusterBuf: array<byte>, at: nat, data: seq<byte>, readFirst: bool,
                    ghost ch: seq<nat>, ghost k: nat,
                    ghost content: seq<byte>, ghost offset: nat, ghost buf: seq<byte>, ghost written: nat, ghost n: nat)
    requires sb.Valid() && IsChain(sb.Table(), ch) && OnVolume(sb.g, ch) && k < |ch| && cluster == ch[k]
    requires clusterBuf != sb.cache as object
    requires clusterBuf.Length == sb.g.BytesPerCluster() && at + |data| <= clusterBuf.Length
    requires readFirst || |data| == clusterBuf.Length
    requires offset + |buf| <= |content| && written + n <= |buf| && data == buf[written..written + n]
    requires Span(k, sb.g.BytesPerCluster()) + at == offset + written
    requires HoldsPatched(sb.disk, sb.g, ch, content, offset, buf[..written])
    modifies sb`disk, clusterBuf
    ensures sb.Valid() && |sb.disk| == |old(sb.disk)| && SameOutside(old(sb.disk), sb.disk, sb.g, ch)
    ensures sb.Table() == old(sb.Table())
    ensures HoldsPatched(sb.disk, sb.g, ch, content, offset, buf[..written + n])
  {
    hide SameOutside, FatOf, IsSector, ChainBytes, ClusterBytes, IsChain;
    GrowPatch(content, offset, buf, written, n, data, ChainBytes(sb.disk, sb.g, ch));
    PatchCluster(sb, cluster, clusterBuf, at, data, readFirst);
    StoreCluster(sb, cluster, clusterBuf[..], ch, k, at, data, offset + written);
  }

  /** A piece written behind what is in place already. */
  lemma GrowPatch(content: seq<byte>, offset: nat, buf: seq<byte>, written: nat, n: nat, data: seq<byte>,
                  was: seq<byte>)
    requires written + n <= |buf| && offset + |buf| <= |content| && data == buf[written..written + n]
    requires was == Splice(content, offset, buf[..written])
    ensures Splice(was, offset + written, data) == Splice(content, offset, buf[..written + n])
  {
    assert buf[..written + n] == buf[..written] + data;
    SpliceAppend(content, offset, buf[..written], data);
  }

  /** Fill the cluster buffer: read the cluster first unless the new bytes cover all of it. */
  method PatchCluster(sb: SuperBlock, cluster: uint16, clusterBuf: array<byte>, at: nat, data: seq<byte>,
                      readFirst: bool)
    requires sb.Valid() && clusterBuf != sb.cache as object && 2 <= cluster < sb.g.clusters
    requires clusterBuf.Length == sb.g.BytesPerCluster() && at + |data| <= clusterBuf.Length
    requires readFirst || |data| == clusterBuf.Length
    modifies clusterBuf
    ensures sb.Valid() && clusterBuf[..] == Splice(ClusterBytes(sb.disk, sb.g, cluster), at, data)
  {
    if readFirst {
      var oldData := LoadCluster(sb, cluster);
      CopyInto(clusterBuf, 0, oldData);
      SpliceAll(old(clusterBuf[..]), oldData);
    } else {
      SpliceAll(clusterBuf[..], data);
      SpliceAll(ClusterBytes(sb.disk, sb.g, cluster), data);
    }
    CopyInto(clusterBuf, at, data);
  }
}
