/**
 Files of the root directory: the read and write entry points of the driver, with the directory
 entry they keep on the disk.
 */
module FatFiles {
  import opened Words
  import opened Splices
  import opened FatTable
  import opened FatVolume
  import opened FatContents
  import opened FatChains
  import opened FatData

  datatype Outcome = Done(bytes: nat) | InvalidArgument | NoEntry | QuotaExceeded | AlreadyExists

  /** Offsets of the two fields of a 32-byte directory entry that writing updates. */
  const FIRST_CLUSTER_FIELD: nat := 26
  const FILE_SIZE_FIELD: nat := 28

  /** The widths of the fields of a directory entry: name, extension, attributes, a reserved byte, the tenths of a
      second, time and date of creation, date of access, a reserved word, time and date of the last change, first
      cluster, and size. */
  const FIELD_WIDTHS: seq<nat> := [8, 3, 1, 1, 1, 2, 2, 2, 2, 2, 2, 2, 4]

  function FieldStart(k: nat): nat
    requires k <= |FIELD_WIDTHS|
  {
    if k == 0 then 0 else FieldStart(k - 1) + FIELD_WIDTHS[k - 1]
  }

  /** First cluster and size are the last two fields, little-endian, of an entry. */
  lemma DentryFields(dir: seq<byte>, i: nat)
    requires (i + 1) * DENTRY_SIZE <= |dir|
    ensures DENTRY_SIZE == FieldStart(13)
    ensures var at, size := i * DENTRY_SIZE + FieldStart(11), i * DENTRY_SIZE + FieldStart(12);
            && at <= size == at + 2 && size + 4 <= |dir|
            && DentryFirst(dir, i) == LittleEndian(dir[at..at + 2])
            && DentrySize(dir, i) == LittleEndian(dir[size..size + 4])
  {
    assert FieldStart(5) == 14;
    assert FieldStart(9) == 22;
    assert FieldStart(11) == 26 && FieldStart(12) == 28 && FieldStart(13) == 32;
    WordsAreLittleEndian(dir, i * DENTRY_SIZE + 26);
    WordsAreLittleEndian(dir, i * DENTRY_SIZE + 28);
  }

  function DentryFirst(dir: seq<byte>, i: nat): uint16
    requires (i + 1) * DENTRY_SIZE <= |dir|
  {
    Word16At(dir, i * DENTRY_SIZE + FIRST_CLUSTER_FIELD)
  }

  function DentrySize(dir: seq<byte>, i: nat): uint32
    requires (i + 1) * DENTRY_SIZE <= |dir|
  {
    Word32At(dir, i * DENTRY_SIZE + FILE_SIZE_FIELD)
  }

  function SetFirst(dir: seq<byte>, i: nat, first: uint16): (r: seq<byte>)
    requires (i + 1) * DENTRY_SIZE <= |dir|
    ensures |r| == |dir|
  {
    Splice(dir, i * DENTRY_SIZE + FIRST_CLUSTER_FIELD, Bytes16(first))
  }

  function SetSize(dir: seq<byte>, i: nat, size: uint32): (r: seq<byte>)
    requires (i + 1) * DENTRY_SIZE <= |dir|
    ensures |r| == |dir|
  {
    Splice(dir, i * DENTRY_SIZE + FILE_SIZE_FIELD, Bytes32(size))
  }

  /** Setting the first cluster of one entry changes that field only, in any entry. */
  lemma SetFirstFields(dir: seq<byte>, i: nat, first: uint16, j: nat)
    requires (i + 1) * DENTRY_SIZE <= |dir| && (j + 1) * DENTRY_SIZE <= |dir|
    ensures DentryFirst(SetFirst(dir, i, first), j) == if j == i then first else DentryFirst(dir, j)
    ensures DentrySize(SetFirst(dir, i, first), j) == DentrySize(dir, j)
  {
    SpliceAt(dir, i * DENTRY_SIZE + FIRST_CLUSTER_FIELD, Bytes16(first));
  }

  lemma SetSizeFields(dir: seq<byte>, i: nat, size: uint32, j: nat)
    requires (i + 1) * DENTRY_SIZE <= |dir| && (j + 1) * DENTRY_SIZE <= |dir|
    ensures DentryFirst(SetSize(dir, i, size), j) == DentryFirst(dir, j)
    ensures DentrySize(SetSize(dir, i, size), j) == if j == i then size else DentrySize(dir, j)
  {
    SpliceAt(dir, i * DENTRY_SIZE + FILE_SIZE_FIELD, Bytes32(size));
  }

  function Max(a: nat, b: nat): nat {
    if a > b then a else b
  }

  // ----- write_consecutive_sectors

  /** How much of the data the first sector takes. */
  function FirstPiece(count: nat, offset: nat): nat {
    if offset % SECTOR_SIZE + count > SECTOR_SIZE then SECTOR_SIZE - offset % SECTOR_SIZE else count
  }

  /** What write_consecutive_sectors leaves on the disk: the first sector receives the buffer's first
      512 bytes whatever the offset, the sectors after it the rest of the data. */
  function Consecutive(disk: seq<byte>, sector: nat, buf: seq<byte>, count: nat, offset: nat): (r: seq<byte>)
    requires count <= |buf| && SECTOR_SIZE <= |buf|
    requires (sector + offset / SECTOR_SIZE + 1) * SECTOR_SIZE + (count - FirstPiece(count, offset)) <= |disk|
    ensures |r| == |disk|
  {
    var at := (sector + offset / SECTOR_SIZE) * SECTOR_SIZE;
    Splice(Splice(disk, at, buf[..SECTOR_SIZE]), at + SECTOR_SIZE, buf[FirstPiece(count, offset)..count])
  }

  /** Byte by byte: a whole sector's worth from the beginning of the buffer, and behind it the buffer from the place
      at which the first sector would be full. */
  lemma ConsecutiveBytes(disk: seq<byte>, sector: nat, buf: seq<byte>, count: nat, offset: nat, p: nat)
    requires count <= |buf| && SECTOR_SIZE <= |buf| && p < |disk|
    requires (sector + offset / SECTOR_SIZE + 1) * SECTOR_SIZE + (count - FirstPiece(count, offset)) <= |disk|
    ensures var from, skip := 512 * (sector + offset / 512), 512 - offset % 512;
            Consecutive(disk, sector, buf, count, offset)[p]
            == if from <= p < from + 512 then buf[p - from]
               else if from + 512 <= p && p - from - 512 + skip < count then buf[p - from - 512 + skip]
               else disk[p]
  {
    var at := (sector + offset / SECTOR_SIZE) * SECTOR_SIZE;
    SpliceAt(disk, at, buf[..SECTOR_SIZE]);
    SpliceAt(Splice(disk, at, buf[..SECTOR_SIZE]), at + SECTOR_SIZE, buf[FirstPiece(count, offset)..count]);
  }

  /** It is the write the caller asked for when that starts on a sector boundary and fills a sector. */
  lemma ConsecutiveRight(disk: seq<byte>, sector: nat, buf: seq<byte>, count: nat, offset: nat)
    requires count <= |buf| && SECTOR_SIZE <= |buf|
    requires (sector + offset / SECTOR_SIZE + 1) * SECTOR_SIZE + (count - FirstPiece(count, offset)) <= |disk|
    requires offset % SECTOR_SIZE == 0 && count >= SECTOR_SIZE
    ensures sector * SECTOR_SIZE + offset + count <= |disk|
    ensures Consecutive(disk, sector, buf, count, offset)
            == Splice(disk, sector * SECTOR_SIZE + offset, buf[..count])
  {
    var at := sector * SECTOR_SIZE + offset;
    assert (sector + offset / SECTOR_SIZE) * SECTOR_SIZE == at;
    SpliceAppend(disk, at, buf[..SECTOR_SIZE], buf[SECTOR_SIZE..count]);
    assert buf[..SECTOR_SIZE] + buf[SECTOR_SIZE..count] == buf[..count];
  }

  /** For every other offset and size there are a disk and a buffer for which it is not. */
  lemma ConsecutiveWrong(sector: nat, count: nat, offset: nat)
    requires count > 0 && !(offset % SECTOR_SIZE == 0 && count >= SECTOR_SIZE)
    ensures exists disk: seq<byte>, buf: seq<byte> ::
              && count <= |buf| && SECTOR_SIZE <= |buf|
              && (sector + offset / SECTOR_SIZE + 1) * SECTOR_SIZE + (count - FirstPiece(count, offset)) <= |disk|
              && sector * SECTOR_SIZE + offset + count <= |disk|
              && Consecutive(disk, sector, buf, count, offset)
                 != Splice(disk, sector * SECTOR_SIZE + offset, buf[..count])
  {
    var at := (sector + offset / SECTOR_SIZE) * SECTOR_SIZE;
    var disk: seq<byte> := seq(at + SECTOR_SIZE + offset + count, _ => 0);
    var buf: seq<byte> := seq(SECTOR_SIZE + count, _ => 1);
    var k := if offset % SECTOR_SIZE == 0 then at + count else at;
    SpliceAt(disk, at, buf[..SECTOR_SIZE]);
    SpliceAt(Splice(disk, at, buf[..SECTOR_SIZE]), at + SECTOR_SIZE, buf[FirstPiece(count, offset)..count]);
    SpliceAt(disk, sector * SECTOR_SIZE + offset, buf[..count]);
    assert sector * SECTOR_SIZE + offset == at + offset % SECTOR_SIZE;
    assert Consecutive(disk, sector, buf, count, offset)[k] == 1;
    assert Splice(disk, sector * SECTOR_SIZE + offset, buf[..count])[k] == 0;
  }

  /** write_consecutive_sectors; `buf` is read for a whole sector even when `count` is less. */
  method WriteConsecutiveSectors(sb: SuperBlock, sector: nat, buf: seq<byte>, count: nat, offset: nat)
    returns (written: nat)
    requires count <= |buf| && SECTOR_SIZE <= |buf|
    requires (sector + offset / SECTOR_SIZE + 1) * SECTOR_SIZE
             + (count - FirstPiece(count, offset) + SECTOR_SIZE - 1) / SECTOR_SIZE * SECTOR_SIZE <= |sb.disk|
    modifies sb`disk
    ensures written == count
    ensures (sector + offset / SECTOR_SIZE + 1) * SECTOR_SIZE + (count - FirstPiece(count, offset)) <= |old(sb.disk)|
    ensures sb.disk == Consecutive(old(sb.disk), sector, buf, count, offset)
  {
    var physicalSector, rest := sector, offset;
    while rest >= SECTOR_SIZE
      invariant 0 <= rest && offset == (physicalSector - sector) * SECTOR_SIZE + rest && physicalSector >= sector
    {
      physicalSector := physicalSector + 1;
      rest := rest - SECTOR_SIZE;
    }
    var toWrite := if rest + count > SECTOR_SIZE then SECTOR_SIZE - rest else count;
    sb.WriteBlock(physicalSector, buf[..SECTOR_SIZE]);
    var total := WriteLaterSectors(sb, physicalSector + 1, buf, toWrite, count);
    written := if total > count then count else total;
  }

  /** The loop over the sectors after the first. */
  method WriteLaterSectors(sb: SuperBlock, sector: nat, buf: seq<byte>, from: nat, count: nat) returns (total: nat)
    requires from <= count <= |buf|
    requires sector * SECTOR_SIZE + (count - from + SECTOR_SIZE - 1) / SECTOR_SIZE * SECTOR_SIZE <= |sb.disk|
    modifies sb`disk
    ensures total >= count
    ensures sector * SECTOR_SIZE + (count - from) <= |old(sb.disk)|
    ensures sb.disk == Splice(old(sb.disk), sector * SECTOR_SIZE, buf[from..count])
  {
    total := from;
    ghost var i := 0;
    var physicalSector := sector;
    assert Splice(sb.disk, sector * SECTOR_SIZE, buf[from..from]) == sb.disk;
    while total < count
      invariant total == from + i * SECTOR_SIZE && physicalSector == sector + i && |sb.disk| == |old(sb.disk)|
      invariant sector * SECTOR_SIZE + (count - from) <= |old(sb.disk)|
      invariant sb.disk == Splice(old(sb.disk), sector * SECTOR_SIZE, buf[from..if total < count then total else count])
    {
      var piece := if count - total < SECTOR_SIZE then count - total else SECTOR_SIZE;
      WriteSectorPiece(sb, physicalSector, buf[total..total + piece]);
      SpliceAppend(old(sb.disk), sector * SECTOR_SIZE, buf[from..total], buf[total..total + piece]);
      assert buf[from..total] + buf[total..total + piece] == buf[from..total + piece];
      total := total + SECTOR_SIZE;
      physicalSector := physicalSector + 1;
      i := i + 1;
    }
  }

  /** One later sector: read first unless it is written whole. */
  method WriteSectorPiece(sb: SuperBlock, sector: nat, data: seq<byte>)
    requires |data| <= SECTOR_SIZE && sector * SECTOR_SIZE + SECTOR_SIZE <= |sb.disk|
    modifies sb`disk
    ensures sb.disk == Splice(old(sb.disk), sector * SECTOR_SIZE, data)
  {
    var sectorBuf := new byte[SECTOR_SIZE];
    ghost var blank := sectorBuf[..];
    if |data| < SECTOR_SIZE {
      var oldData := sb.ReadBlock(sector, SECTOR_SIZE);
      CopyInto(sectorBuf, 0, oldData);
      SpliceAll(blank, oldData);
      CopyInto(sectorBuf, 0, data);
      SplicePart(sb.disk, oldData, sector * SECTOR_SIZE, 0, data);
    } else {
      CopyInto(sectorBuf, 0, data);
      SpliceAll(blank, data);
    }
    sb.WriteBlock(sector, sectorBuf[..]);
  }

  // ----- FAT16_write and FAT16_read

  /** Outside the table only clusters of `ch` differ. */
  ghost predicate OnlyTableAndChain(disk: seq<byte>, disk': seq<byte>, g: Geometry, ch: seq<nat>)
    requires g.Fits(|disk|)
  {
    && |disk'| == |disk| && disk'[..g.FatBase()] == disk[..g.FatBase()]
    && disk'[g.RootBase()..g.DataBase()] == disk[g.RootBase()..g.DataBase()]
    && (forall c | 2 <= c < g.clusters && c !in ch :: ClusterBytes(disk', g, c) == ClusterBytes(disk, g, c))
  }

  lemma ClusterBehindTable(disk: seq<byte>, disk': seq<byte>, g: Geometry, c: nat)
    requires g.Fits(|disk|) && |disk'| == |disk| && 2 <= c < g.clusters
    requires disk'[g.DataBase()..|disk|] == disk[g.DataBase()..|disk|]
    ensures ClusterBytes(disk', g, c) == ClusterBytes(disk, g, c)
  {
    ClustersDisjoint(g, |disk|, c, c);
    var from, to, base := g.ClusterOffset(c), g.ClusterOffset(c) + g.BytesPerCluster(), g.DataBase();
    SameInside(disk, disk', base, |disk|, from, to);
  }

  lemma TableOnly(disk: seq<byte>, disk': seq<byte>, g: Geometry, ch: seq<nat>)
    requires g.Fits(|disk|) && SameOutsideTable(disk, disk', g)
    ensures OnlyTableAndChain(disk, disk', g, ch)
    ensures OnVolume(g, ch) ==> ChainBytes(disk', g, ch) == ChainBytes(disk, g, ch)
  {
    var r, d := g.RootBase(), g.DataBase();
    SameInside(disk, disk', r, |disk|, d, |disk|);
    SameInside(disk, disk', r, |disk|, r, d);
    forall c | 2 <= c < g.clusters ensures ClusterBytes(disk', g, c) == ClusterBytes(disk, g, c) {
      ClusterBehindTable(disk, disk', g, c);
    }
    if OnVolume(g, ch) { ChainFrame(disk, disk', g, ch); }
  }

  lemma TableThenChain(disk: seq<byte>, mid: seq<byte>, disk': seq<byte>, g: Geometry, ch: seq<nat>)
    requires g.Fits(|disk|) && |mid| == |disk| == |disk'|
    requires OnlyTableAndChain(disk, mid, g, ch) && SameOutside(mid, disk', g, ch)
    ensures OnlyTableAndChain(disk, disk', g, ch)
  {
    var f, r, d := g.FatBase(), g.RootBase(), g.DataBase();
    SameInside(mid, disk', 0, d, 0, f);
    SameInside(mid, disk', 0, d, r, d);
  }

  /** The outcome FAT16_write reports for an allocation result. */
  function OutcomeOf(result: ClusterResult, count: nat): Outcome {
    match result
    case ClusterOk => Done(count)
    case InvalidCluster => NoEntry
    case NoAvailableClusters => QuotaExceeded
  }

  /** How the allocation of the file comes out. */
  ghost function Plan(disk: seq<byte>, g: Geometry, first: uint16, ch: seq<nat>, size: nat): Adjustment
    requires g.Fits(|disk|) && g.ScanLimit() <= g.Entries() && Designates(FatOf(disk, g), first, ch)
  {
    Adjust(FatOf(disk, g), first, ch, g.ScanLimit(), ClustersFor(size, g.BytesPerCluster()))
  }

  lemma PlanCorrect(disk: seq<byte>, g: Geometry, first: uint16, ch: seq<nat>, size: nat)
    requires g.Fits(|disk|) && g.ScanLimit() <= g.Entries() && Designates(FatOf(disk, g), first, ch)
    ensures var a := Plan(disk, g, first, ch, size);
            && |a.fat| == g.Entries()
            && (a.chain != [] ==> IsChain(a.fat, a.chain) && a.chain[0] == a.first)
            && ExtendedBy(FatOf(disk, g), ch, a.fat, a.chain, g.ScanLimit())
            && (a.result == ClusterOk ==> size < Span(|a.chain|, g.BytesPerCluster()) && a.chain != [])
  {
    var a, b := Plan(disk, g, first, ch, size), g.BytesPerCluster();
    AdjustKeepsChain(FatOf(disk, g), first, ch, g.ScanLimit(), b, size);
    SpanIsProduct(|a.chain|, b);
  }

  /** What a write of `count` bytes to entry `i`, with a chain of `n` clusters, reports, in terms of the table and the
      directory before it. */
  ghost function OutcomeFor(disk: seq<byte>, g: Geometry, i: nat, n: nat, offset: nat, count: nat): Outcome
    requires g.Fits(|disk|) && g.ScanLimit() <= g.Entries() && (i + 1) * DENTRY_SIZE <= g.RootSize()
  {
    OutcomeOf(ResultFor(FatOf(disk, g), DentryFirst(Directory(disk, g), i), n, g.ScanLimit(),
                        ClustersFor(offset + count, g.BytesPerCluster())), count)
  }

  /** No cluster can be had: the first cluster is one that the driver does not follow, or an empty file would get
      number 2. */
  predicate NoCluster(fat: Fat, first: uint16, limit: nat)
    requires limit <= |fat|
  {
    if first == 0 then 2 < limit && fat[2] == 0 else first < 3 || first >= 0xfff0
  }

  /** Which of the three outcomes a write of `count` bytes has, for a file of `n` clusters that needs `target`. */
  predicate Reports(outcome: Outcome, fat: Fat, first: uint16, n: nat, limit: nat, target: nat, count: nat)
    requires limit <= |fat|
  {
    && (outcome == NoEntry <==> NoCluster(fat, first, limit))
    && (outcome == QuotaExceeded <==> !NoCluster(fat, first, limit) && target > n + FreeCount(fat, 2, limit))
    && (outcome == Done(count) <==> !NoCluster(fat, first, limit) && target <= n + FreeCount(fat, 2, limit))
  }

  lemma ResultReports(fat: Fat, first: uint16, n: nat, limit: nat, target: nat, count: nat)
    requires limit <= |fat|
    ensures Reports(OutcomeOf(ResultFor(fat, first, n, limit, target), count), fat, first, n, limit, target, count)
  {
  }

  /** The allocation comes out as the table before it says. */
  lemma PlanResult(disk: seq<byte>, g: Geometry, first: uint16, ch: seq<nat>, size: nat)
    requires g.Fits(|disk|) && g.ScanLimit() <= g.Entries() && Designates(FatOf(disk, g), first, ch)
    ensures var a, fat, limit := Plan(disk, g, first, ch, size), FatOf(disk, g), g.ScanLimit();
            && a.result == ResultFor(fat, first, |ch|, limit, ClustersFor(size, g.BytesPerCluster()))
            && (a.result != ClusterOk && first != 0 ==> |a.chain| == ShortOf(fat, first, |ch|, limit))
  {
    AdjustResult(FatOf(disk, g), first, ch, g.ScanLimit(), ClustersFor(size, g.BytesPerCluster()));
  }

  lemma PlanReports(disk: seq<byte>, g: Geometry, first: uint16, ch: seq<nat>, size: nat, count: nat)
    requires g.Fits(|disk|) && g.ScanLimit() <= g.Entries() && Designates(FatOf(disk, g), first, ch)
    ensures Reports(OutcomeOf(Plan(disk, g, first, ch, size).result, count), FatOf(disk, g), first, |ch|, g.ScanLimit(),
                    ClustersFor(size, g.BytesPerCluster()), count)
  {
    PlanResult(disk, g, first, ch, size);
    ResultReports(FatOf(disk, g), first, |ch|, g.ScanLimit(), ClustersFor(size, g.BytesPerCluster()), count);
  }

  /** Whether the volume has room for what a write of so many bytes allocates: either the clusters missing are no
      more than are free in the volume, or they are more than are free in all that is scanned, and then nothing
      is written. */
  ghost predicate Housed(disk: seq<byte>, g: Geometry, first: uint16, ch: seq<nat>, size: nat)
    requires g.Fits(|disk|) && g.ScanLimit() <= g.Entries() && Designates(FatOf(disk, g), first, ch)
  {
    && OnVolume(g, ch)
    && (var target := ClustersFor(size, g.BytesPerCluster());
        ResultFor(FatOf(disk, g), first, |ch|, g.ScanLimit(), target) == ClusterOk ==>
          target - |ch| <= FreeCount(FatOf(disk, g), 2, g.VolumeLimit()))
  }

  /** That is exactly when a successful allocation stays in the volume. */
  lemma HousedIff(disk: seq<byte>, g: Geometry, first: uint16, ch: seq<nat>, size: nat)
    requires g.Fits(|disk|) && g.ScanLimit() <= g.Entries() && Designates(FatOf(disk, g), first, ch)
    ensures var a := Plan(disk, g, first, ch, size);
            Housed(disk, g, first, ch, size) <==> OnVolume(g, ch) && (a.result == ClusterOk ==> OnVolume(g, a.chain))
  {
    hide IsChain, ResultFor;
    var a, target := Plan(disk, g, first, ch, size), ClustersFor(size, g.BytesPerCluster());
    PlanCorrect(disk, g, first, ch, size);
    PlanResult(disk, g, first, ch, size);
    if a.result == ClusterOk && OnVolume(g, ch) {
      if g.ScanLimit() >= 2 {
        AdjustStaysBelow(FatOf(disk, g), first, ch, g.ScanLimit(), target, Max(2, g.VolumeLimit()));
      }
      AddedStays(g, ch, a.chain);
    }
  }

  lemma AddedStays(g: Geometry, ch: seq<nat>, chain: seq<nat>)
    requires ch <= chain && OnVolume(g, ch) && g.sectorsPerCluster > 0
    requires forall i | |ch| <= i < |chain| :: 2 <= chain[i] < g.ScanLimit()
    ensures OnVolume(g, chain) <==> AddedBelow(chain, |ch|, g.VolumeLimit())
  {
    forall i | 0 <= i < |ch| ensures chain[i] == ch[i] {
    }
  }

  /** A volume whose search scans no more entries than it has clusters has room for every write. */
  lemma AlwaysHoused(disk: seq<byte>, g: Geometry, first: uint16, ch: seq<nat>, size: nat)
    requires g.Fits(|disk|) && g.ScanLimit() <= g.clusters && Designates(FatOf(disk, g), first, ch)
    requires OnVolume(g, ch)
    ensures Housed(disk, g, first, ch, size)
  {
    PlanCorrect(disk, g, first, ch, size);
    var a := Plan(disk, g, first, ch, size);
    AddedStays(g, ch, a.chain);
    HousedIff(disk, g, first, ch, size);
  }

  /** Allocate, then write the data: everything FAT16_write does between reading and writing the directory. */
  method WriteData(sb: SuperBlock, inode: Inode, buf: seq<byte>, offset: nat, ghost ch: seq<nat>)
    returns (result: Outcome)
    requires sb.Valid() && Designates(sb.Table(), inode.firstCluster, ch)
    requires Housed(sb.disk, sb.g, inode.firstCluster, ch, offset + |buf|)
    modifies sb`disk, sb`cachedSector, sb.cache, inode`firstCluster
    ensures sb.Valid()
    ensures var a := Plan(old(sb.disk), sb.g, old(inode.firstCluster), ch, offset + |buf|);
            && inode.firstCluster == a.first
            && DataWritten(old(sb.disk), sb.disk, sb.g, a, offset, buf, result)
    ensures Reports(result, old(sb.Table()), old(inode.firstCluster), |ch|, sb.g.ScanLimit(),
                    ClustersFor(offset + |buf|, sb.g.BytesPerCluster()), |buf|)
  {
    hide Reports, Ready, DataWritten, SameOutsideTable, FreeCount, ResultFor, IsSector, ClustersFor;
    PlanReports(sb.disk, sb.g, inode.firstCluster, ch, offset + |buf|, |buf|);
    ghost var disk0, a := sb.disk, Plan(sb.disk, sb.g, inode.firstCluster, ch, offset + |buf|);
    PlanReady(disk0, sb.g, inode.firstCluster, ch, offset + |buf|);
    var adjusted := AdjustAllocatedClusters(sb, inode, offset + |buf|, ch);
    result := WriteAllocated(sb, inode, buf, offset, adjusted, disk0, a);
  }

  /** A chain to write to: it begins at the planned cluster, lies in the volume, and is longer than the data ends. */
  ghost predicate Ready(g: Geometry, a: Adjustment, size: nat) {
    a.result == ClusterOk ==>
      && a.chain != [] && IsChain(a.fat, a.chain) && a.chain[0] == a.first && OnVolume(g, a.chain)
      && size < Span(|a.chain|, g.BytesPerCluster())
  }

  lemma PlanReady(disk: seq<byte>, g: Geometry, first: uint16, ch: seq<nat>, size: nat)
    requires g.Fits(|disk|) && g.ScanLimit() <= g.Entries() && Designates(FatOf(disk, g), first, ch)
    requires Housed(disk, g, first, ch, size)
    ensures Ready(g, Plan(disk, g, first, ch, size), size)
  {
    PlanCorrect(disk, g, first, ch, size);
    HousedIff(disk, g, first, ch, size);
  }

  /** Writing the data, once the file's allocation has been adjusted as planned. */
  method WriteAllocated(sb: SuperBlock, inode: Inode, buf: seq<byte>, offset: nat, adjusted: ClusterResult,
                        ghost disk0: seq<byte>, ghost a: Adjustment)
    returns (result: Outcome)
    requires sb.Valid() && sb.g.Fits(|disk0|) && SameOutsideTable(disk0, sb.disk, sb.g)
    requires sb.Table() == a.fat && inode.firstCluster == a.first && adjusted == a.result
    requires Ready(sb.g, a, offset + |buf|)
    modifies sb`disk, sb`cachedSector, sb.cache
    ensures sb.Valid() && DataWritten(disk0, sb.disk, sb.g, a, offset, buf, result)
  {
    ghost var mid := sb.disk;
    TableOnly(disk0, mid, sb.g, a.chain);
    TableOnly(disk0, mid, sb.g, []);
    match adjusted {
      case InvalidCluster => result := NoEntry;
      case NoAvailableClusters => result := QuotaExceeded;
      case ClusterOk =>
        var written := WriteClusterChain(sb, inode, buf, offset, a.chain);
        DataDone(disk0, mid, sb.disk, sb.g, a, offset, buf);
        result := Done(written);
    }
  }

  /** After allocation and writing: the table, the outcome, and when it is done the chain's byte string. A write that
      is refused changes no cluster at all. */
  ghost predicate DataWritten(disk0: seq<byte>, disk: seq<byte>, g: Geometry, a: Adjustment, offset: nat,
                              buf: seq<byte>, outcome: Outcome)
    requires g.Fits(|disk0|)
  {
    && |disk| == |disk0| && FatOf(disk, g) == a.fat && outcome == OutcomeOf(a.result, |buf|)
    && OnlyTableAndChain(disk0, disk, g, if outcome.Done? then a.chain else [])
    && (outcome.Done? ==>
          && OnVolume(g, a.chain) && offset + |buf| < |ChainBytes(disk0, g, a.chain)|
          && HoldsPatched(disk, g, a.chain, ChainBytes(disk0, g, a.chain), offset, buf))
  }

  lemma DataDone(disk0: seq<byte>, mid: seq<byte>, disk: seq<byte>, g: Geometry, a: Adjustment, offset: nat,
                 buf: seq<byte>)
    requires g.Fits(|disk0|) && |disk| == |mid| == |disk0| && a.result == ClusterOk && OnVolume(g, a.chain)
    requires OnlyTableAndChain(disk0, mid, g, a.chain) && ChainBytes(mid, g, a.chain) == ChainBytes(disk0, g, a.chain)
    requires SameOutside(mid, disk, g, a.chain) && FatOf(disk, g) == FatOf(mid, g) == a.fat
    requires offset + |buf| < |ChainBytes(disk0, g, a.chain)|
    requires ChainBytes(disk, g, a.chain) == Splice(ChainBytes(mid, g, a.chain), offset, buf)
    ensures DataWritten(disk0, disk, g, a, offset, buf, Done(|buf|))
  {
    TableThenChain(disk0, mid, disk, g, a.chain);
  }

  /** The root directory on the disk. */
  function Directory(disk: seq<byte>, g: Geometry): (dir: seq<byte>)
    requires g.RootBase() + g.RootSize() <= |disk|
    ensures |dir| == g.rootEntries * DENTRY_SIZE
  {
    disk[g.RootBase()..g.RootBase() + g.RootSize()]
  }

  /** Writing the directory back changes no table entry and no cluster. */
  lemma DirectoryEffect(disk: seq<byte>, disk': seq<byte>, g: Geometry, dir: seq<byte>)
    requires g.Fits(|disk|) && |dir| == g.RootSize() && disk' == Splice(disk, g.RootBase(), dir)
    ensures FatOf(disk', g) == FatOf(disk, g) && Directory(disk', g) == dir
    ensures disk'[..g.RootBase()] == disk[..g.RootBase()] && disk'[g.DataBase()..|disk|] == disk[g.DataBase()..|disk|]
  {
    SpliceApart(disk, g.RootBase(), dir, 0, g.RootBase());
    SpliceApart(disk, g.RootBase(), dir, g.DataBase(), |disk|);
    SpliceSelf(disk, g.RootBase(), dir);
    forall k | 0 <= k < g.RootBase() ensures disk'[k] == disk[k] {
      SameInside(disk, disk', 0, g.RootBase(), k, k + 1);
      assert disk'[k] == disk'[k..k + 1][0] == disk[k..k + 1][0];
    }
    FatFrame(disk, disk', g);
  }

  lemma CacheFrame(disk: seq<byte>, disk': seq<byte>, g: Geometry, words: seq<uint16>, sector: nat)
    requires g.Fits(|disk|) && |disk'| == |disk| && disk'[..g.RootBase()] == disk[..g.RootBase()]
    requires IsSector(words, disk, g, sector)
    ensures IsSector(words, disk', g, sector)
  {
    var base := g.FatBase() + sector * SECTOR_SIZE;
    SameInside(disk, disk', 0, g.RootBase(), base, base + SECTOR_SIZE);
  }

  /** The write-back of the directory with which FAT16_write ends. */
  method StoreDirectory(sb: SuperBlock, dir: seq<byte>)
    requires sb.Valid() && |dir| == sb.g.RootSize() && sb.g.RootSize() > 0 && sb.g.RootSize() % SECTOR_SIZE == 0
    modifies sb`disk
    ensures sb.Valid() && |sb.disk| == |old(sb.disk)| && sb.Table() == old(sb.Table())
    ensures Directory(sb.disk, sb.g) == dir
    ensures sb.disk[sb.g.DataBase()..|sb.disk|] == old(sb.disk)[sb.g.DataBase()..|sb.disk|]
  {
    hide Splice, Consecutive, FatOf;
    ConsecutiveRight(sb.disk, sb.g.rootSector, dir, |dir|, 0);
    var written := WriteConsecutiveSectors(sb, sb.g.rootSector, dir, |dir|, 0);
    assert dir[..|dir|] == dir;
    DirectoryEffect(old(sb.disk), sb.disk, sb.g, dir);
    CacheFrame(old(sb.disk), sb.disk, sb.g, sb.cache[..], sb.cachedSector);
  }

  /** The updated directory entry: a failed write leaves the first cluster but may still enlarge the size. */
  function UpdatedDirectory(dir: seq<byte>, i: nat, outcome: Outcome, first: uint16, end: uint32): (r: seq<byte>)
    requires (i + 1) * DENTRY_SIZE <= |dir|
    ensures |r| == |dir|
  {
    var dir' := if outcome.Done? then SetFirst(dir, i, first) else dir;
    SetSize(dir', i, Max(end, DentrySize(dir', i)))
  }

  /** What the file's own entry, and every other entry, reads after the update. */
  lemma UpdatedEntries(dir: seq<byte>, i: nat, outcome: Outcome, first: uint16, end: uint32, j: nat)
    requires (i + 1) * DENTRY_SIZE <= |dir| && (j + 1) * DENTRY_SIZE <= |dir|
    ensures var dir' := UpdatedDirectory(dir, i, outcome, first, end);
            && DentryFirst(dir', j) == (if j == i && outcome.Done? then first else DentryFirst(dir, j))
            && DentrySize(dir', j) == (if j == i then Max(end, DentrySize(dir, j)) else DentrySize(dir, j))
  {
    var mid := if outcome.Done? then SetFirst(dir, i, first) else dir;
    SetFirstFields(dir, i, first, i);
    SetFirstFields(dir, i, first, j);
    SetSizeFields(mid, i, Max(end, DentrySize(mid, i)), j);
  }

  /** What FAT16_write leaves behind for a file of the root directory. */
  ghost predicate FileWritten(disk0: seq<byte>, disk: seq<byte>, g: Geometry, i: nat, ch: seq<nat>,
                              offset: nat, buf: seq<byte>, outcome: Outcome)
    requires g.Fits(|disk0|) && |disk| == |disk0| && g.ScanLimit() <= g.Entries()
    requires (i + 1) * DENTRY_SIZE <= g.RootSize()
    requires Designates(FatOf(disk0, g), DentryFirst(Directory(disk0, g), i), ch)
    requires offset + |buf| < 0x8000_0000
  {
    var dir := Directory(disk0, g);
    var a := Plan(disk0, g, DentryFirst(dir, i), ch, offset + |buf|);
    PlanCorrect(disk0, g, DentryFirst(dir, i), ch, offset + |buf|);
    FileIs(disk0, disk, g, i, a, offset, buf, outcome)
  }

  /** The same in terms of how the allocation came out. */
  ghost predicate FileIs(disk0: seq<byte>, disk: seq<byte>, g: Geometry, i: nat, a: Adjustment,
                         offset: nat, buf: seq<byte>, outcome: Outcome)
    requires g.Fits(|disk0|) && |disk| == |disk0| && (i + 1) * DENTRY_SIZE <= g.RootSize()
    requires offset + |buf| < 0x8000_0000
  {
    && outcome == OutcomeOf(a.result, |buf|)
    && FatOf(disk, g) == a.fat
    && Directory(disk, g)
       == UpdatedDirectory(Directory(disk0, g), i, outcome, a.first, offset + if outcome.Done? then |buf| else 0)
    && (forall c | 2 <= c < g.clusters && (outcome.Done? ==> c !in a.chain) ::
          ClusterBytes(disk, g, c) == ClusterBytes(disk0, g, c))
    && (outcome.Done? ==>
          && OnVolume(g, a.chain) && offset + |buf| < |ChainBytes(disk0, g, a.chain)|
          && HoldsPatched(disk, g, a.chain, ChainBytes(disk0, g, a.chain), offset, buf))
  }

  /** The last step: the directory update after the data is in place. */
  lemma FileWrittenAfter(disk0: seq<byte>, mid: seq<byte>, disk: seq<byte>, g: Geometry, i: nat, a: Adjustment,
                         offset: nat, buf: seq<byte>, outcome: Outcome)
    requires g.Fits(|disk0|) && |disk| == |mid| == |disk0| && (i + 1) * DENTRY_SIZE <= g.RootSize()
    requires offset + |buf| < 0x8000_0000 && DataWritten(disk0, mid, g, a, offset, buf, outcome)
    requires Directory(disk, g) == UpdatedDirectory(Directory(disk0, g), i, outcome, a.first,
                                                    offset + if outcome.Done? then |buf| else 0)
    requires FatOf(disk, g) == FatOf(mid, g) && disk[g.DataBase()..|disk|] == mid[g.DataBase()..|disk|]
    ensures FileIs(disk0, disk, g, i, a, offset, buf, outcome)
  {
    forall c | 2 <= c < g.clusters ensures ClusterBytes(disk, g, c) == ClusterBytes(mid, g, c) {
      ClusterBehindTable(mid, disk, g, c);
    }
    if outcome.Done? { ChainFrame(mid, disk, g, a.chain); }
  }

  /**
   FAT16_write. The root directory itself is written as consecutive sectors; a file outside the root
   directory, or an entry number beyond it, is refused; otherwise the file's chain is grown, written,
   and its directory entry updated.
   */
  method Write(sb: SuperBlock, inode: Inode, root: Inode, buf: seq<byte>, offset: nat, ghost ch: seq<nat>)
    returns (outcome: Outcome)
    requires sb.Valid() && sb.g.RootSize() > 0 && sb.g.RootSize() % SECTOR_SIZE == 0
    requires root.firstCluster == sb.g.rootSector && offset + |buf| < 0x8000_0000
    requires inode.firstCluster == root.firstCluster ==>
               && SECTOR_SIZE <= |buf|
               && (sb.g.rootSector + offset / SECTOR_SIZE + 1) * SECTOR_SIZE
                  + (|buf| - FirstPiece(|buf|, offset) + SECTOR_SIZE - 1) / SECTOR_SIZE * SECTOR_SIZE <= |sb.disk|
    requires inode.firstCluster != root.firstCluster && inode.parent == root && inode.dentryIndex < sb.g.rootEntries ==>
               var first := DentryFirst(Directory(sb.disk, sb.g), inode.dentryIndex);
               Designates(sb.Table(), first, ch) && Housed(sb.disk, sb.g, first, ch, offset + |buf|)
    modifies sb`disk, sb`cachedSector, sb.cache, inode
    ensures |sb.disk| == |old(sb.disk)|
    ensures old(inode.firstCluster) == sb.g.rootSector ==>
              && outcome == Done(|buf|)
              && (sb.g.rootSector + offset / SECTOR_SIZE + 1) * SECTOR_SIZE + (|buf| - FirstPiece(|buf|, offset))
                 <= |old(sb.disk)|
              && sb.disk == Consecutive(old(sb.disk), sb.g.rootSector, buf, |buf|, offset)
    ensures old(inode.firstCluster) != sb.g.rootSector ==> sb.Valid()
    ensures old(inode.firstCluster) != sb.g.rootSector && inode.parent != root ==>
              outcome == InvalidArgument && sb.disk == old(sb.disk)
    ensures (old(inode.firstCluster) != sb.g.rootSector && inode.parent == root
             && inode.dentryIndex >= sb.g.rootEntries) ==>
              outcome == NoEntry && sb.disk == old(sb.disk)
    ensures (old(inode.firstCluster) != sb.g.rootSector && inode.parent == root
             && inode.dentryIndex < sb.g.rootEntries) ==>
              && FileWritten(old(sb.disk), sb.disk, sb.g, inode.dentryIndex, ch, offset, buf, outcome)
              && outcome == OutcomeFor(old(sb.disk), sb.g, inode.dentryIndex, |ch|, offset, |buf|)
              && Reports(outcome, old(sb.Table()), DentryFirst(Directory(old(sb.disk), sb.g), inode.dentryIndex), |ch|,
                         sb.g.ScanLimit(), ClustersFor(offset + |buf|, sb.g.BytesPerCluster()), |buf|)
              && inode.firstCluster == Plan(old(sb.disk), sb.g,
                                            DentryFirst(Directory(old(sb.disk), sb.g), inode.dentryIndex),
                                            ch, offset + |buf|).first
              && inode.size == Max(offset + if outcome.Done? then |buf| else 0, old(inode.size))
  {
    if inode.firstCluster == root.firstCluster {
      var written := WriteConsecutiveSectors(sb, root.firstCluster, buf, |buf|, offset);
      return Done(written);
    }
    if inode.parent != root {
      return InvalidArgument;
    }
    if inode.dentryIndex >= sb.g.rootEntries {
      return NoEntry;
    }
    outcome := WriteFile(sb, inode, buf, offset, ch);
  }

  /** FAT16_write once the file is known to have an entry in the root directory. */
  method WriteFile(sb: SuperBlock, inode: Inode, buf: seq<byte>, offset: nat, ghost ch: seq<nat>)
    returns (outcome: Outcome)
    requires sb.Valid() && sb.g.RootSize() > 0 && sb.g.RootSize() % SECTOR_SIZE == 0
    requires offset + |buf| < 0x8000_0000 && inode.dentryIndex < sb.g.rootEntries
    requires Designates(sb.Table(), DentryFirst(Directory(sb.disk, sb.g), inode.dentryIndex), ch)
    requires Housed(sb.disk, sb.g, DentryFirst(Directory(sb.disk, sb.g), inode.dentryIndex), ch, offset + |buf|)
    modifies sb`disk, sb`cachedSector, sb.cache, inode
    ensures sb.Valid() && |sb.disk| == |old(sb.disk)|
    ensures FileWritten(old(sb.disk), sb.disk, sb.g, inode.dentryIndex, ch, offset, buf, outcome)
    ensures outcome == OutcomeFor(old(sb.disk), sb.g, inode.dentryIndex, |ch|, offset, |buf|)
    ensures Reports(outcome, old(sb.Table()), DentryFirst(Directory(old(sb.disk), sb.g), inode.dentryIndex), |ch|,
                    sb.g.ScanLimit(), ClustersFor(offset + |buf|, sb.g.BytesPerCluster()), |buf|)
    ensures inode.firstCluster == Plan(old(sb.disk), sb.g,
                                       DentryFirst(Directory(old(sb.disk), sb.g), inode.dentryIndex),
                                       ch, offset + |buf|).first
    ensures inode.size == Max(offset + if outcome.Done? then |buf| else 0, old(inode.size))
  {
    hide Plan, FatOf, IsChain, Housed, ResultFor, UpdatedDirectory, DataWritten, Reports;
    var i := inode.dentryIndex as nat;
    var dentries := sb.ReadBlock(sb.g.rootSector, sb.g.RootSize());
    inode.firstCluster := DentryFirst(dentries, i);
    ghost var a := Plan(sb.disk, sb.g, inode.firstCluster, ch, offset + |buf|);
    PlanResult(sb.disk, sb.g, inode.firstCluster, ch, offset + |buf|);
    outcome := WriteData(sb, inode, buf, offset, ch);
    UpdateEntry(sb, inode, dentries, i, outcome, buf, offset, old(sb.disk), a);
  }

  /** The end of FAT16_write: the size of the inode, and the file's entry in the root directory. */
  method UpdateEntry(sb: SuperBlock, inode: Inode, dentries: seq<byte>, i: nat, outcome: Outcome, buf: seq<byte>,
                     offset: nat, ghost disk0: seq<byte>, ghost a: Adjustment)
    requires sb.Valid() && sb.g.RootSize() > 0 && sb.g.RootSize() % SECTOR_SIZE == 0
    requires sb.g.Fits(|disk0|) && (i + 1) * DENTRY_SIZE <= sb.g.RootSize() && dentries == Directory(disk0, sb.g)
    requires offset + |buf| < 0x8000_0000 && inode.firstCluster == a.first
    requires DataWritten(disk0, sb.disk, sb.g, a, offset, buf, outcome)
    modifies sb`disk, inode`size
    ensures sb.Valid() && |sb.disk| == |disk0| && FileIs(disk0, sb.disk, sb.g, i, a, offset, buf, outcome)
    ensures inode.size == Max(offset + if outcome.Done? then |buf| else 0, old(inode.size))
  {
    ghost var mid := sb.disk;
    var end := offset + if outcome.Done? then outcome.bytes else 0;
    inode.size := Max(end, inode.size);
    StoreDirectory(sb, UpdatedDirectory(dentries, i, outcome, inode.firstCluster, end));
    FileWrittenAfter(disk0, mid, sb.disk, sb.g, i, a, offset, buf, outcome);
  }

  lemma SameNumber(x: nat)
    requires x < TWO32
    ensures ToU32(x) == x
  {
  }

  /** FAT16_read of a file: what it asks of the chain is cut to the file's size. */
  method Read(sb: SuperBlock, inode: Inode, buf: array<byte>, count: nat, offset: nat, ghost ch: seq<nat>)
    returns (n: nat)
    requires sb.Valid() && buf != sb.cache as object && inode.firstCluster != sb.g.rootSector
    requires if offset < inode.size then count <= buf.Length else 0 < buf.Length
    requires offset < inode.size ==> IsChain(sb.Table(), ch) && OnVolume(sb.g, ch) && ch[0] == inode.firstCluster
    requires offset < inode.size <= Span(|ch|, sb.g.BytesPerCluster()) || offset >= inode.size
    modifies sb`cachedSector, sb.cache, buf
    ensures sb.Valid()
    ensures offset >= inode.size ==> n == 0 && buf[..] == old(buf[..])[0 := 0]
    ensures offset < inode.size ==>
              ReadResult(sb.disk, sb.g, ch, offset, if offset + count > inode.size then inode.size - offset else count,
                         n, buf[..], old(buf[..]))
  {
    hide FatOf, IsChain, IsSector, OnVolume, ReadResult;
    if offset < inode.size { SameNumber(inode.size - offset); }
    var bytesToRead := if offset + count > inode.size then ToU32(inode.size - offset) else count;
    n := ReadClusterChain(sb, inode, buf, bytesToRead, offset, ch);
  }

  // ----- What the pieces come to together

  /** No other file's byte string changes when a file is written. */
  lemma OtherFilesKeepContents(disk0: seq<byte>, disk: seq<byte>, g: Geometry, i: nat, ch: seq<nat>,
                               offset: nat, buf: seq<byte>, outcome: Outcome, other: seq<nat>)
    requires g.Fits(|disk0|) && |disk| == |disk0| && g.ScanLimit() <= g.Entries()
    requires (i + 1) * DENTRY_SIZE <= g.RootSize() && offset + |buf| < 0x8000_0000
    requires Designates(FatOf(disk0, g), DentryFirst(Directory(disk0, g), i), ch)
    requires FileWritten(disk0, disk, g, i, ch, offset, buf, outcome)
    requires IsChain(FatOf(disk0, g), other) && OnVolume(g, other) && Disjoint(other, ch)
    ensures IsChain(FatOf(disk, g), other)
    ensures ChainBytes(disk, g, other) == ChainBytes(disk0, g, other)
  {
    var first := DentryFirst(Directory(disk0, g), i);
    var a := Plan(disk0, g, first, ch, offset + |buf|);
    AdjustSparesOthers(FatOf(disk0, g), first, ch, g.ScanLimit(),
                       ClustersFor(offset + |buf|, g.BytesPerCluster()), other);
    forall k | 0 <= k < |other| ensures ClusterBytes(disk, g, other[k]) == ClusterBytes(disk0, g, other[k]) {
      assert other[k] in other && other[k] !in a.chain;
    }
    ChainFrame(disk0, disk, g, other);
  }

  /** Nor any other directory entry. */
  lemma OtherEntriesKeep(disk0: seq<byte>, disk: seq<byte>, g: Geometry, i: nat, ch: seq<nat>,
                         offset: nat, buf: seq<byte>, outcome: Outcome, j: nat)
    requires g.Fits(|disk0|) && |disk| == |disk0| && g.ScanLimit() <= g.Entries()
    requires (i + 1) * DENTRY_SIZE <= g.RootSize() && offset + |buf| < 0x8000_0000
    requires Designates(FatOf(disk0, g), DentryFirst(Directory(disk0, g), i), ch)
    requires FileWritten(disk0, disk, g, i, ch, offset, buf, outcome)
    requires (j + 1) * DENTRY_SIZE <= g.RootSize() && j != i
    ensures DentryFirst(Directory(disk, g), j) == DentryFirst(Directory(disk0, g), j)
    ensures DentrySize(Directory(disk, g), j) == DentrySize(Directory(disk0, g), j)
  {
    var dir := Directory(disk0, g);
    var a := Plan(disk0, g, DentryFirst(dir, i), ch, offset + |buf|);
    UpdatedEntries(dir, i, outcome, a.first, offset + if outcome.Done? then |buf| else 0, j);
  }

  /** While cluster 2 is in use it joins no chain, so every chain without it stays readable to its end. */
  lemma ClusterTwoStaysOut(fat: Fat, first: uint16, ch: seq<nat>, limit: nat, b: nat, size: nat)
    requires limit <= |fat| && limit <= FIRST_END_MARK && |fat| > 2 && b > 0
    requires Designates(fat, first, ch) && 2 !in ch && fat[2] != 0
    ensures 2 !in Adjust(fat, first, ch, limit, ClustersFor(size, b)).chain
  {
    var a := Adjust(fat, first, ch, limit, ClustersFor(size, b));
    AdjustKeepsChain(fat, first, ch, limit, b, size);
    forall k | 0 <= k < |a.chain| ensures a.chain[k] != 2 {
      if k < |ch| { assert a.chain[k] == ch[k] && ch[k] in ch; }
    }
  }

  /** An empty file is refused its first cluster exactly when the lowest free cluster is number 2, which
      is then marked and never used again. */
  lemma FirstClusterTwo(fat: Fat, limit: nat, target: nat)
    requires limit <= |fat| && limit <= FIRST_END_MARK && |fat| > 2
    ensures Adjust(fat, 0, [], limit, target).result == InvalidCluster <==> 2 < limit && fat[2] == 0
    ensures 2 < limit && fat[2] == 0 ==> Adjust(fat, 0, [], limit, target).fat == fat[2 := END_MARK]
  {
    FirstFreeIsLowest(fat, 2, limit);
  }

  /** When a new file runs out of space its entry keeps first cluster 0, so the table stays free of lost
      clusters exactly when there was none to take. */
  lemma ShortageLosesClusters(fat: Fat, chains: set<seq<nat>>, reserved: set<nat>, limit: nat, target: nat)
    requires limit <= |fat| && limit <= FIRST_END_MARK && |fat| > 2
    requires Consistent(fat, chains, reserved) && !Allocate(fat, limit, target).enough
    requires forall k | k in reserved :: k < |fat| && fat[k] != 0
    ensures Consistent(Allocate(fat, limit, target).fat, chains, reserved) <==> FreeCount(fat, 2, limit) == 0
  {
    var g, c := Allocate(fat, limit, target), FirstFree(fat, 2, limit);
    FirstFreeIsLowest(fat, 2, limit);
    AllocateCorrect(fat, limit, target);
    if c == 0 {
      NoFreeMeansZero(fat, 2, limit);
    } else {
      FreeMeansPositive(fat, c, 2, limit);
      assert g.chain[0] == c && c in g.chain && g.fat[c] != 0 && c !in reserved by {
        assert |g.chain| > 1 ==> g.fat[g.chain[0]] == g.chain[1];
      }
      forall ch | ch in chains ensures c !in ch {
        forall k | 0 <= k < |ch| ensures ch[k] != c {
          assert k < |ch| - 1 ==> fat[ch[k]] == ch[k + 1];
        }
      }
      assert !Held(chains, c);
    }
  }

  /**
   Writing at an offset up to the file's size and reading the same range back gives the written bytes,
   whatever the alignment, as long as the file's chain avoids cluster 2 and its first cluster is not
   the number of the root directory's first sector.
   */
  method WriteThenRead(sb: SuperBlock, inode: Inode, root: Inode, data: seq<byte>, offset: nat, out: array<byte>,
                       ghost ch: seq<nat>)
    returns (outcome: Outcome, n: nat)
    requires sb.Valid() && sb.g.RootSize() > 0 && sb.g.RootSize() % SECTOR_SIZE == 0
    requires root.firstCluster == sb.g.rootSector && offset + |data| < 0x8000_0000
    requires inode.firstCluster != root.firstCluster && inode.parent == root && inode.dentryIndex < sb.g.rootEntries
    requires Designates(sb.Table(), DentryFirst(Directory(sb.disk, sb.g), inode.dentryIndex), ch)
    requires Housed(sb.disk, sb.g, DentryFirst(Directory(sb.disk, sb.g), inode.dentryIndex), ch, offset + |data|)
    requires inode.size <= Span(|ch|, sb.g.BytesPerCluster()) && offset <= inode.size
    requires 2 !in ch && sb.Table()[2] != 0
    requires out != sb.cache as object && |data| <= out.Length && 0 < |data|
    modifies sb`disk, sb`cachedSector, sb.cache, inode, out
    ensures outcome == OutcomeFor(old(sb.disk), sb.g, inode.dentryIndex, |ch|, offset, |data|)
    ensures outcome.Done? && inode.firstCluster != sb.g.rootSector ==> n == |data| && out[..n] == data
  {
    ghost var disk0, size0 := sb.disk, inode.size as nat;
    outcome := Write(sb, inode, root, data, offset, ch);
    n := 0;
    if outcome.Done? && inode.firstCluster != sb.g.rootSector {
      ghost var chain := WrittenChain(disk0, sb.disk, sb.g, inode.dentryIndex, ch, offset, data, outcome, size0);
      n := Read(sb, inode, out, |data|, offset, chain);
      ReadBack(sb.disk, sb.g, chain, ChainBytes(disk0, sb.g, chain), offset, data, n, out[..], old(out[..]));
    }
  }

  /** A chain beginning at `first` that avoids cluster 2 and has room for `size` bytes. */
  ghost predicate RoomyChain(fat: Fat, first: uint16, chain: seq<nat>, size: nat, b: nat) {
    IsChain(fat, chain) && chain[0] == first && 2 !in chain && size <= Span(|chain|, b)
  }

  /** What reading back asks of the chain of a file just written. */
  ghost predicate Holding(disk: seq<byte>, g: Geometry, chain: seq<nat>, first: uint16, size: nat, content: seq<byte>,
                          offset: nat, data: seq<byte>)
    requires g.Fits(|disk|)
  {
    && RoomyChain(FatOf(disk, g), first, chain, size, g.BytesPerCluster()) && OnVolume(g, chain)
    && offset + |data| < |content| == Span(|chain|, g.BytesPerCluster())
    && HoldsPatched(disk, g, chain, content, offset, data)
  }

  /** The chain of a file just written: it starts at the planned cluster, avoids cluster 2, has room for
      the old size and the new data, and holds the old byte string patched. */
  lemma WrittenChain(disk0: seq<byte>, disk: seq<byte>, g: Geometry, i: nat, ch: seq<nat>,
                     offset: nat, data: seq<byte>, outcome: Outcome, size0: nat)
    returns (chain: seq<nat>)
    requires g.Fits(|disk0|) && |disk| == |disk0| && g.ScanLimit() <= g.Entries()
    requires (i + 1) * DENTRY_SIZE <= g.RootSize() && offset + |data| < 0x8000_0000
    requires Designates(FatOf(disk0, g), DentryFirst(Directory(disk0, g), i), ch)
    requires FileWritten(disk0, disk, g, i, ch, offset, data, outcome) && outcome.Done?
    requires 2 !in ch && FatOf(disk0, g)[2] != 0 && size0 <= Span(|ch|, g.BytesPerCluster())
    ensures OnVolume(g, chain)
    ensures Holding(disk, g, chain, Plan(disk0, g, DentryFirst(Directory(disk0, g), i), ch, offset + |data|).first,
                    size0, ChainBytes(disk0, g, chain), offset, data)
  {
    hide Plan, FatOf, IsChain, ClusterBytes, ChainBytes, UpdatedDirectory;
    var a := Plan(disk0, g, DentryFirst(Directory(disk0, g), i), ch, offset + |data|);
    assert FileIs(disk0, disk, g, i, a, offset, data, outcome);
    PlannedChain(disk0, g, DentryFirst(Directory(disk0, g), i), ch, offset + |data|, size0);
    WrittenHolds(disk0, disk, g, i, a, offset, data, outcome, size0);
    chain := a.chain;
  }

  lemma WrittenHolds(disk0: seq<byte>, disk: seq<byte>, g: Geometry, i: nat, a: Adjustment,
                     offset: nat, data: seq<byte>, outcome: Outcome, size0: nat)
    requires g.Fits(|disk0|) && |disk| == |disk0| && (i + 1) * DENTRY_SIZE <= g.RootSize()
    requires offset + |data| < 0x8000_0000 && FileIs(disk0, disk, g, i, a, offset, data, outcome) && outcome.Done?
    requires a.result == ClusterOk ==> RoomyChain(a.fat, a.first, a.chain, size0, g.BytesPerCluster())
    ensures OnVolume(g, a.chain)
    ensures Holding(disk, g, a.chain, a.first, size0, ChainBytes(disk0, g, a.chain), offset, data)
  {
  }

  /** The planned chain avoids cluster 2 when the file's chain does and cluster 2 is in use. */
  lemma PlannedChain(disk: seq<byte>, g: Geometry, first: uint16, ch: seq<nat>, size: nat, size0: nat)
    requires g.Fits(|disk|) && g.ScanLimit() <= g.Entries() && Designates(FatOf(disk, g), first, ch)
    requires 2 !in ch && FatOf(disk, g)[2] != 0 && size0 <= Span(|ch|, g.BytesPerCluster())
    ensures var a := Plan(disk, g, first, ch, size);
            a.result == ClusterOk ==> RoomyChain(a.fat, a.first, a.chain, size0, g.BytesPerCluster())
  {
    var a := Plan(disk, g, first, ch, size);
    PlanCorrect(disk, g, first, ch, size);
    ClusterTwoStaysOut(FatOf(disk, g), first, ch, g.ScanLimit(), g.BytesPerCluster(), size);
    SpanMonotone(|ch|, |a.chain|, g.BytesPerCluster());
  }

  /** Reading a range just written, from a chain without cluster 2. */
  lemma ReadBack(disk: seq<byte>, g: Geometry, ch: seq<nat>, content: seq<byte>, offset: nat, data: seq<byte>,
                 n: nat, out: seq<byte>, out0: seq<byte>)
    requires g.Fits(|disk|) && OnVolume(g, ch) && 2 !in ch
    requires offset + |data| <= |content| == Span(|ch|, g.BytesPerCluster()) && |data| <= |out0|
    requires HoldsPatched(disk, g, ch, content, offset, data)
    requires ReadResult(disk, g, ch, offset, |data|, n, out, out0)
    ensures n == |data| <= |out| && out[..n] == data
  {
    hide ChainBytes, ClusterBytes, Splice, Quotient;
    var k := Quotient(offset, g.BytesPerCluster()) + 1;
    forall i | 0 <= i < |ch| ensures ch[i] != 2 { assert ch[i] in ch; }
    NoStop(ch, k);
    BackAgain(content, ChainBytes(disk, g, ch), offset, data, out0, out);
  }

  /** A range of bytes put into a byte string, and copied out of it again. */
  lemma BackAgain(content: seq<byte>, patched: seq<byte>, offset: nat, data: seq<byte>, out0: seq<byte>,
                  out: seq<byte>)
    requires offset + |data| <= |content| && |data| <= |out0| && patched == Splice(content, offset, data)
    requires out == Splice(out0, 0, patched[offset..offset + |data|])
    ensures |out| == |out0| && out[..|data|] == data
  {
    hide Splice;
    SpliceSelf(content, offset, data);
    SpliceSelf(out0, 0, data);
  }

  lemma {:induction false} NoStop(ch: seq<nat>, k: nat)
    requires forall i | 0 <= i < |ch| :: ch[i] != 2
    ensures ReadStop(ch, k) == |ch|
    decreases |ch| - k
  {
    if k < |ch| { NoStop(ch, k + 1); }
  }
}
