/**
 The mounted FAT16 volume: the bytes of the device, and the one-sector cache through which the
 driver reads and updates the allocation table. `FatOf` reads the table straight off the disk;
 the methods are proved to act on it as plain array lookup, search and update.
 */
module FatVolume {
  import opened Words
  import opened Splices
  import opened FatTable

  const SECTOR_SIZE: nat := 512
  /** FAT_SECTOR_CACHE_SIZE: 16-bit entries in one sector. */
  const CACHE_SIZE: nat := 256
  const DENTRY_SIZE: nat := 32

  /** Division by repeated subtraction, which keeps the layout conditions linear. */
  function Quotient(a: nat, b: nat): (q: nat)
    requires b > 0
    ensures q <= a
  {
    if a < b then 0 else 1 + Quotient(a - b, b)
  }

  lemma {:induction false} QuotientIsDivision(a: nat, b: nat)
    requires b > 0
    ensures Quotient(a, b) == a / b
    decreases a
  {
    if a >= b {
      QuotientIsDivision(a - b, b);
      DivisionStep(a, b);
    }
  }

  lemma DivisionStep(a: nat, b: nat)
    requires 0 < b <= a
    ensures a / b == 1 + (a - b) / b
  {
    var q, r := (a - b) / b, (a - b) % b;
    assert a - b == q * b + r;
    assert a == (q + 1) * b + r;
    QuotientUnique(a, b, q + 1, r);
  }

  lemma QuotientUnique(a: nat, b: nat, q: nat, r: nat)
    requires b > 0 && r < b && a == q * b + r
    ensures a / b == q
  {
    var p := a / b;
    assert a == p * b + a % b;
    if p > q { MulGap(q, p, b); }
    if p < q { MulGap(p, q, b); }
  }

  lemma MulGap(a: nat, b: nat, k: nat)
    requires a < b
    ensures a * k + k <= b * k
  {
    assert b * k == (a + 1) * k + (b - a - 1) * k;
  }

  /** What the driver keeps from the boot record, and where the volume ends. `fatSectors` is how many of
      the sectors in front of the root directory serve as the table, `volumeEnd` the number of the first sector
      behind the volume, and `clusters` bounds the numbers of the clusters that have sectors of the volume. */
  datatype Geometry = Geometry(
    fatFirstSector: uint16,
    fatSectors: nat,
    rootSector: uint16,
    rootEntries: uint16,
    dataStart: uint16,
    sectorsPerCluster: nat,
    smallSectors: uint16,
    volumeEnd: nat,
    clusters: nat)
  {
    function FatBase(): nat { fatFirstSector * SECTOR_SIZE }
    function RootBase(): nat { rootSector * SECTOR_SIZE }
    function RootSize(): nat { rootEntries * DENTRY_SIZE }
    function DataBase(): nat { dataStart * SECTOR_SIZE }
    function BytesPerCluster(): nat { sectorsPerCluster * SECTOR_SIZE }
    function Entries(): nat { fatSectors * CACHE_SIZE }

    /** The free-cluster search looks at whole table sectors only. */
    function ScanLimit(): (limit: nat)
      requires sectorsPerCluster > 0
      ensures limit < FIRST_END_MARK
    {
      Quotient(smallSectors, sectorsPerCluster) / CACHE_SIZE * CACHE_SIZE
    }

    /** The clusters of the volume that are scanned. */
    function VolumeLimit(): nat
      requires sectorsPerCluster > 0
    {
      if ScanLimit() < clusters then ScanLimit() else clusters
    }

    /** First sector of a cluster: `sectorsPerCluster` after that of the cluster before it. */
    function SectorOf(c: nat): nat
      requires c >= 2
    {
      if c == 2 then dataStart else SectorOf(c - 1) + sectorsPerCluster
    }

    /** The driver computes the same sector with one multiplication. */
    lemma {:induction false} SectorFormula(c: nat)
      requires c >= 2
      ensures SectorOf(c) == dataStart + (c - 2) * sectorsPerCluster
    {
      if c > 2 {
        SectorFormula(c - 1);
        assert (c - 2) * sectorsPerCluster == (c - 3) * sectorsPerCluster + sectorsPerCluster;
      }
    }

    /** Byte offset of a cluster on the device. */
    function ClusterOffset(c: nat): nat
      requires c >= 2
    {
      SectorOf(c) * SECTOR_SIZE
    }

    /** Table, root directory and data lie in the volume one after the other, the volume lies on the device,
        and sector numbers fit the driver's 16-bit variables. As many clusters as possible have an entry in
        the table that is no end mark and sectors of the volume. */
    ghost predicate Fits(diskSize: nat) {
      && 1 <= fatSectors <= 256
      && fatFirstSector + fatSectors <= rootSector
      && RootBase() + RootSize() <= DataBase()
      && 0 < sectorsPerCluster && BytesPerCluster() < 0x1_0000
      && 2 < clusters <= Entries() && clusters <= FIRST_END_MARK
      && dataStart <= SectorOf(clusters) <= volumeEnd <= 0x1_0000
      && (clusters == Entries() || clusters == FIRST_END_MARK || volumeEnd < SectorOf(clusters) + sectorsPerCluster)
      && volumeEnd * SECTOR_SIZE <= diskSize
    }
  }

  /** Entry `c` of the table on the disk. */
  function Entry(disk: seq<byte>, g: Geometry, c: nat): uint16
    requires g.FatBase() + 2 * c + 2 <= |disk|
  {
    Word16At(disk, g.FatBase() + 2 * c)
  }

  /** The table as an array of links. */
  ghost function FatOf(disk: seq<byte>, g: Geometry): (fat: Fat)
    requires g.Fits(|disk|)
    ensures |fat| == g.Entries()
    ensures forall c | 0 <= c < g.Entries() :: fat[c] == Entry(disk, g, c)
  {
    seq(g.Entries(), c requires 0 <= c < g.Entries() => Entry(disk, g, c))
  }

  /** The clusters in `[2, clusters)` occupy disjoint stretches after the root directory. */
  lemma ClustersDisjoint(g: Geometry, diskSize: nat, c: nat, d: nat)
    requires g.Fits(diskSize) && 2 <= c < g.clusters && 2 <= d < g.clusters
    ensures g.DataBase() <= g.ClusterOffset(c) && g.ClusterOffset(c) + g.BytesPerCluster() <= diskSize
    ensures c < d ==> g.ClusterOffset(c) + g.BytesPerCluster() <= g.ClusterOffset(d)
    ensures d < c ==> g.ClusterOffset(d) + g.BytesPerCluster() <= g.ClusterOffset(c)
  {
    SectorsAscend(g, 2, c);
    SectorsAscend(g, c + 1, g.clusters);
    if c < d { SectorsAscend(g, c + 1, d); }
    if d < c { SectorsAscend(g, d + 1, c); }
  }

  lemma {:induction false} SectorsAscend(g: Geometry, c: nat, d: nat)
    requires 2 <= c <= d
    ensures g.SectorOf(c) <= g.SectorOf(d)
    decreases d
  {
    if c < d { SectorsAscend(g, c, d - 1); }
  }

  /** Below `clusters` are exactly the numbers of clusters that lie in the volume with all their sectors. */
  lemma InVolumeIff(g: Geometry, diskSize: nat, c: nat)
    requires g.Fits(diskSize) && 2 <= c < g.Entries() && c < FIRST_END_MARK
    ensures c < g.clusters <==> g.SectorOf(c) + g.sectorsPerCluster <= g.volumeEnd
  {
    assert g.SectorOf(c + 1) == g.SectorOf(c) + g.sectorsPerCluster;
    if c < g.clusters {
      SectorsAscend(g, c + 1, g.clusters);
    } else {
      SectorsAscend(g, g.clusters + 1, c + 1);
    }
  }

  /** The search scans as many entries as the whole volume has clusters, reserved sectors, tables and root
      directory counted in: for some table it returns a cluster without sectors of the volume exactly when it
      scans more entries than there are clusters. */
  lemma SearchLeavesVolume(g: Geometry, diskSize: nat)
    requires g.Fits(diskSize) && g.ScanLimit() <= g.Entries()
    ensures (exists fat: Fat :: |fat| == g.Entries() && FirstFree(fat, 2, g.ScanLimit()) >= g.clusters)
            <==> g.ScanLimit() > g.clusters
  {
    var limit := g.ScanLimit();
    if limit > g.clusters {
      var fat: Fat := seq(g.Entries(), k => if k < g.clusters then END_MARK else 0);
      FirstFreeIsLowest(fat, 2, limit);
      assert fat[g.clusters] == 0;
    }
    forall fat: Fat | |fat| == g.Entries() && FirstFree(fat, 2, limit) >= g.clusters ensures limit > g.clusters {
      FirstFreeIsLowest(fat, 2, limit);
    }
  }

  /** A volume of 16 MiB with clusters of four sectors, which fills its device. */
  const SIXTEEN_MIB: Geometry := Geometry(1, 32, 65, 512, 97, 4, 32768, 32768, 8169)

  /** Such a volume has the clusters 2 to 8168, and the search goes on to 8191. */
  lemma SixteenMebibytes()
    ensures SIXTEEN_MIB.Fits(32768 * SECTOR_SIZE) && SIXTEEN_MIB.ScanLimit() <= SIXTEEN_MIB.Entries()
    ensures SIXTEEN_MIB.ScanLimit() == 8192 > SIXTEEN_MIB.clusters
  {
    QuotientIsDivision(32768, 4);
    SIXTEEN_MIB.SectorFormula(8169);
  }

  /** Where on the device the entry of a cluster is. */
  lemma EntryPlace(g: Geometry, diskSize: nat, c: nat)
    requires g.Fits(diskSize) && c < g.Entries()
    ensures var sector, position := c / CACHE_SIZE, c % CACHE_SIZE;
            && sector < g.fatSectors
            && (g.fatFirstSector + sector) * SECTOR_SIZE == g.FatBase() + sector * SECTOR_SIZE
            && g.FatBase() + sector * SECTOR_SIZE + 2 * CACHE_SIZE <= g.RootBase() <= diskSize
            && g.FatBase() + sector * SECTOR_SIZE + 2 * position == g.FatBase() + 2 * c
            && sector * CACHE_SIZE + position == c
  {
  }

  /** The entry of cluster `c` is the little-endian word behind `c` others. */
  lemma EntryIs(disk: seq<byte>, g: Geometry, c: nat)
    requires g.Fits(|disk|) && c < g.Entries()
    ensures 512 * g.fatFirstSector + 2 * c + 2 <= |disk|
    ensures FatOf(disk, g)[c] == LittleEndian(disk[512 * g.fatFirstSector + 2 * c..512 * g.fatFirstSector + 2 * c + 2])
  {
    EntryPlace(g, |disk|, c);
    WordsAreLittleEndian(disk, g.FatBase() + 2 * c);
  }

  /** The search scans as many whole sectors of the table as there are entries for all clusters that the sectors of
      the volume could be divided into. */
  lemma ScannedSectors(g: Geometry)
    requires g.sectorsPerCluster > 0
    ensures g.ScanLimit() % 256 == 0
    ensures g.ScanLimit() <= g.smallSectors as int / g.sectorsPerCluster < g.ScanLimit() + 256
  {
    QuotientIsDivision(g.smallSectors, g.sectorsPerCluster);
  }

  /** Writing the two bytes of entry `c` leaves every other entry. */
  lemma EntryAfterWrite(disk: seq<byte>, g: Geometry, c: nat, v: uint16, e: nat)
    requires g.Fits(|disk|) && c < g.Entries() && e < g.Entries()
    ensures Entry(Splice(disk, g.FatBase() + 2 * c, Bytes16(v)), g, e) == if e == c then v else Entry(disk, g, e)
  {
    SpliceAt(disk, g.FatBase() + 2 * c, Bytes16(v));
  }

  /** Writing one table entry on the disk is one array update. */
  lemma EntryUpdate(disk: seq<byte>, g: Geometry, c: nat, v: uint16)
    requires g.Fits(|disk|) && c < g.Entries()
    ensures g.FatBase() + 2 * c + 2 <= g.RootBase() <= |disk|
    ensures FatOf(Splice(disk, g.FatBase() + 2 * c, Bytes16(v)), g) == FatOf(disk, g)[c := v]
  {
    var disk' := Splice(disk, g.FatBase() + 2 * c, Bytes16(v));
    forall e | 0 <= e < g.Entries()
      ensures Entry(disk', g, e) == if e == c then v else Entry(disk, g, e)
    {
      EntryAfterWrite(disk, g, c, v, e);
    }
  }

  /** The table depends only on the bytes in front of the root directory. */
  lemma FatFrame(disk: seq<byte>, disk': seq<byte>, g: Geometry)
    requires g.Fits(|disk|) && |disk'| == |disk|
    requires forall k | 0 <= k < |disk| && k < g.RootBase() :: disk'[k] == disk[k]
    ensures FatOf(disk', g) == FatOf(disk, g)
  {
    forall c | 0 <= c < g.Entries() ensures Entry(disk', g, c) == Entry(disk, g, c) {
    }
  }

  /** The cache words as the bytes the driver hands to the device. */
  function CacheBytes(words: seq<uint16>): (r: seq<byte>)
    ensures |r| == 2 * |words|
  {
    seq(2 * |words|, k requires 0 <= k < 2 * |words| =>
      if k % 2 == 0 then words[k / 2] % 0x100 else words[k / 2] / 0x100)
  }

  /** The cached words are, byte for byte, the named sector of the table on the disk. */
  ghost predicate IsSector(words: seq<uint16>, disk: seq<byte>, g: Geometry, sector: nat)
    requires g.Fits(|disk|)
  {
    && |words| == CACHE_SIZE && sector < g.fatSectors
    && CacheBytes(words) == disk[g.FatBase() + sector * SECTOR_SIZE..g.FatBase() + sector * SECTOR_SIZE + SECTOR_SIZE]
  }

  lemma CachedEntry(words: seq<uint16>, disk: seq<byte>, g: Geometry, sector: nat, j: nat)
    requires g.Fits(|disk|) && IsSector(words, disk, g, sector) && j < CACHE_SIZE
    ensures words[j] == Entry(disk, g, sector * CACHE_SIZE + j)
  {
    var base := g.FatBase() + sector * SECTOR_SIZE;
    var data := disk[base..base + SECTOR_SIZE];
    assert CacheBytes(words)[2 * j] == data[2 * j] == disk[base + 2 * j];
    assert CacheBytes(words)[2 * j + 1] == data[2 * j + 1] == disk[base + 2 * j + 1];
  }

  lemma SectorInTable(words: seq<uint16>, disk: seq<byte>, g: Geometry, sector: nat)
    requires g.Fits(|disk|) && IsSector(words, disk, g, sector)
    ensures (sector + 1) * CACHE_SIZE <= g.Entries()
    ensures forall k | 0 <= k < CACHE_SIZE :: words[k] == FatOf(disk, g)[sector * CACHE_SIZE + k]
  {
    forall k | 0 <= k < CACHE_SIZE ensures words[k] == FatOf(disk, g)[sector * CACHE_SIZE + k] {
      CachedEntry(words, disk, g, sector, k);
    }
  }

  /** Words read off the disk one by one make up the sector. */
  lemma WordsMakeSector(words: seq<uint16>, disk: seq<byte>, base: nat)
    requires base + 2 * |words| <= |disk|
    requires forall j | 0 <= j < |words| :: words[j] == Word16At(disk, base + 2 * j)
    ensures CacheBytes(words) == disk[base..base + 2 * |words|]
  {
    forall k | 0 <= k < 2 * |words| ensures CacheBytes(words)[k] == disk[base + k] {
      Word16Split(disk, base + 2 * (k / 2));
      assert k == 2 * (k / 2) + k % 2;
    }
  }

  lemma CacheUpdate(words: seq<uint16>, position: nat, value: uint16)
    requires position < |words|
    ensures CacheBytes(words[position := value]) == Splice(CacheBytes(words), 2 * position, Bytes16(value))
  {
    SpliceAt(CacheBytes(words), 2 * position, Bytes16(value));
  }

  /** Writing back a coherent cache with one word changed touches only that word's two bytes. */
  lemma CacheWriteBack(disk: seq<byte>, g: Geometry, sector: nat, words: seq<uint16>, position: nat, value: uint16)
    requires g.Fits(|disk|) && IsSector(words, disk, g, sector) && position < CACHE_SIZE
    ensures Splice(disk, g.FatBase() + sector * SECTOR_SIZE, CacheBytes(words[position := value]))
            == Splice(disk, g.FatBase() + sector * SECTOR_SIZE + 2 * position, Bytes16(value))
  {
    CacheUpdate(words, position, value);
    SplicePart(disk, CacheBytes(words), g.FatBase() + sector * SECTOR_SIZE, 2 * position, Bytes16(value));
  }

  /** What was just written to a sector is what that sector holds. */
  lemma WrittenSector(disk: seq<byte>, g: Geometry, sector: nat, words: seq<uint16>)
    requires g.Fits(|disk|) && |words| == CACHE_SIZE && sector < g.fatSectors
    ensures IsSector(words, Splice(disk, g.FatBase() + sector * SECTOR_SIZE, CacheBytes(words)), g, sector)
  {
    var base := g.FatBase() + sector * SECTOR_SIZE;
    SpliceSelf(disk, base, CacheBytes(words));
  }

  class SuperBlock {
    const g: Geometry
    /** Contents of the device. */
    var disk: seq<byte>
    /** FAT_sector_cache and FAT_cached_sector. */
    const cache: array<uint16>
    var cachedSector: uint16

    ghost predicate Valid()
      reads this, cache
    {
      && g.Fits(|disk|) && g.ScanLimit() <= g.Entries()
      && IsSector(cache[..], disk, g, cachedSector)
    }

    ghost function Table(): (fat: Fat)
      reads this
      requires g.Fits(|disk|)
      ensures |fat| == g.Entries()
    {
      FatOf(disk, g)
    }

    /**
     FAT16_mount: allocates the super block, loads table sector 0 into the cache, and leaves the
     tag as the allocator delivered it. The cache is coherent exactly when the tag happens to name
     a sector with the contents of sector 0.
     */
    constructor Mount(g: Geometry, disk: seq<byte>, uninitialisedTag: uint16)
      requires g.Fits(|disk|) && g.ScanLimit() <= g.Entries()
      ensures this.g == g && this.disk == disk && cachedSector == uninitialisedTag
      ensures fresh(cache)
      ensures Valid() <==>
              && uninitialisedTag < g.fatSectors
              && disk[g.FatBase()..g.FatBase() + SECTOR_SIZE]
                 == disk[g.FatBase() + uninitialisedTag * SECTOR_SIZE..
                         g.FatBase() + uninitialisedTag * SECTOR_SIZE + SECTOR_SIZE]
    {
      this.g := g;
      this.disk := disk;
      cachedSector := uninitialisedTag;
      cache := new uint16[CACHE_SIZE];
      new;
      LoadCache(0);
    }

    /** hd_op.read_block of one table sector into the cache. */
    method LoadCache(sector: nat)
      requires g.Fits(|disk|) && cache.Length == CACHE_SIZE && sector < g.fatSectors
      modifies cache
      ensures IsSector(cache[..], disk, g, sector)
    {
      var at := g.FatBase() + sector * SECTOR_SIZE;
      forall j | 0 <= j < CACHE_SIZE {
        cache[j] := Word16At(disk, at + 2 * j);
      }
      WordsMakeSector(cache[..], disk, at);
    }

    /** hd_op.read_block of `count` bytes from a sector on. */
    method ReadBlock(sector: nat, count: nat) returns (data: seq<byte>)
      requires sector * SECTOR_SIZE + count <= |disk|
      ensures data == disk[sector * SECTOR_SIZE..sector * SECTOR_SIZE + count]
    {
      data := disk[sector * SECTOR_SIZE..sector * SECTOR_SIZE + count];
    }

    /** hd_op.write_block of whole `data` from a sector on. */
    method WriteBlock(sector: nat, data: seq<byte>)
      requires sector * SECTOR_SIZE + |data| <= |disk|
      modifies this`disk
      ensures disk == Splice(old(disk), sector * SECTOR_SIZE, data)
    {
      disk := Splice(disk, sector * SECTOR_SIZE, data);
    }

    /** The driver's test whether the cached sector covers `cluster`; the range end wraps to 0 for
        sector 255, so that sector is always loaded again. */
    predicate CacheCovers(cluster: uint16)
      reads this
    {
      ToU16(cachedSector * CACHE_SIZE) <= cluster < ToU16((cachedSector + 1) * CACHE_SIZE)
    }

    lemma CoveredSector(cluster: uint16)
      requires cachedSector < 256
      ensures CacheCovers(cluster) <==> cluster / CACHE_SIZE == cachedSector && cachedSector != 255
    {
    }

    /** The opening both table operations share: load the cluster's sector unless it is cached. */
    method EnsureCached(cluster: uint16)
      requires Valid() && cluster < g.Entries()
      modifies this`cachedSector, cache
      ensures Valid() && cachedSector == cluster / CACHE_SIZE
    {
      CoveredSector(cluster);
      if !CacheCovers(cluster) {
        LoadCache(cluster / CACHE_SIZE);
        cachedSector := cluster / CACHE_SIZE;
      }
    }

    /** FAT16_find_next_cluster */
    method FindNextCluster(cluster: uint16) returns (next: uint16)
      requires Valid() && cluster < g.Entries()
      modifies this`cachedSector, cache
      ensures Valid() && next == Table()[cluster]
    {
      EnsureCached(cluster);
      CachedEntry(cache[..], disk, g, cachedSector, cluster % CACHE_SIZE);
      next := cache[cluster % CACHE_SIZE];
    }

    /** One round of the search: load a sector of the table and look for a zero entry in it. */
    method FindFreeInSector(sector: nat, start: nat, ghost limit: nat) returns (j: nat)
      requires Valid() && start <= CACHE_SIZE && (sector + 1) * CACHE_SIZE <= limit <= g.Entries()
      modifies this`cachedSector, cache
      ensures Valid() && j <= CACHE_SIZE
      ensures FirstFree(Table(), sector * CACHE_SIZE + start, limit)
              == if j < CACHE_SIZE then sector * CACHE_SIZE + j
                 else FirstFree(Table(), sector * CACHE_SIZE + CACHE_SIZE, limit)
    {
      hide FatOf, FirstFree, CacheBytes;
      LoadCache(sector);
      cachedSector := sector;
      SectorInTable(cache[..], disk, g, sector);
      j := FindZero(start, Table(), sector * CACHE_SIZE, limit);
    }

    /** The search in the cached sector, whose entries are those of the table from `base` on. */
    method FindZero(start: nat, ghost fat: Fat, ghost base: nat, ghost limit: nat) returns (j: nat)
      requires start <= CACHE_SIZE == cache.Length && base + CACHE_SIZE <= limit <= |fat|
      requires forall k | 0 <= k < CACHE_SIZE :: cache[..][k] == fat[base + k]
      ensures j <= CACHE_SIZE
      ensures FirstFree(fat, base + start, limit)
              == if j < CACHE_SIZE then base + j else FirstFree(fat, base + CACHE_SIZE, limit)
    {
      j := start;
      ghost var answer := FirstFree(fat, base + start, limit);
      while j < CACHE_SIZE
        invariant 0 <= j <= CACHE_SIZE && answer == FirstFree(fat, base + j, limit)
      {
        assert cache[..][j] == fat[base + j];
        if cache[j] == 0x0000 {
          return;
        }
        j := j + 1;
      }
    }

    /** FAT16_find_next_free_cluster */
    method FindNextFreeCluster() returns (cluster: uint16)
      requires Valid()
      modifies this`cachedSector, cache
      ensures Valid() && cluster == FirstFree(Table(), 2, g.ScanLimit())
    {
      QuotientIsDivision(g.smallSectors, g.sectorsPerCluster);
      var clusterCount := g.smallSectors / g.sectorsPerCluster;
      var sectors := clusterCount / CACHE_SIZE;
      cluster := SearchSectors(sectors);
    }

    /** The loop over the sectors of the table. */
    method SearchSectors(sectors: nat) returns (cluster: uint16)
      requires Valid() && sectors * CACHE_SIZE <= g.Entries() && sectors * CACHE_SIZE < FIRST_END_MARK
      modifies this`cachedSector, cache
      ensures Valid() && cluster == FirstFree(Table(), 2, sectors * CACHE_SIZE)
    {
      var i := 0;
      ghost var limit, at, fat: Fat := sectors * CACHE_SIZE, 2, Table();
      ghost var answer := FirstFree(fat, 2, limit);
      while i < sectors
        invariant 0 <= i <= sectors && Valid() && Table() == fat
        invariant at == i * CACHE_SIZE + (if i == 0 then 2 else 0) && answer == FirstFree(fat, at, limit)
      {
        var j := FindFreeInSector(i, if i == 0 then 2 else 0, limit);
        if j < CACHE_SIZE {
          return i * CACHE_SIZE + j;
        }
        i := i + 1;
        at := i * CACHE_SIZE;
      }
      cluster := 0;
    }

    /** FAT16_mark_cluster: exactly the two bytes of the entry change on the disk. */
    method MarkCluster(cluster: uint16, value: uint16)
      requires Valid() && cluster < g.Entries()
      modifies this`disk, this`cachedSector, cache
      ensures g.FatBase() + 2 * cluster + 2 <= |old(disk)|
      ensures Valid() && disk == Splice(old(disk), g.FatBase() + 2 * cluster, Bytes16(value))
      ensures Table() == old(Table())[cluster := value]
    {
      EnsureCached(cluster);
      EntryPlace(g, |disk|, cluster);
      CacheWriteBack(disk, g, cluster / CACHE_SIZE, cache[..], cluster % CACHE_SIZE, value);
      EntryUpdate(disk, g, cluster, value);
      label Loaded:
      cache[cluster % CACHE_SIZE] := value;
      assert cache[..] == old@Loaded(cache[..])[cluster % CACHE_SIZE := value];
      WrittenSector(disk, g, cachedSector, cache[..]);
      WriteBlock(g.fatFirstSector + cluster / CACHE_SIZE, CacheBytes(cache[..]));
    }
  }
}
