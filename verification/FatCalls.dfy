/** Deleting and creating files in the root directory: the calls that make the other steps of a run. */
module FatCalls {
  import opened Words
  import opened Splices
  import opened FatTable
  import opened FatVolume
  import opened FatContents
  import opened FatChains
  import opened FatFiles
  import opened FatRuns

  const NAME_SIZE: nat := 11
  const DELETED: byte := 0xe5

  /** Two directories that agree outside one entry have all other entries in common. */
  lemma EntryApart(dir0: seq<byte>, dir: seq<byte>, i: nat, j: nat)
    requires |dir| == |dir0| && (j + 1) * DENTRY_SIZE <= |dir0| && j != i
    requires forall k | 0 <= k < |dir0| && !(i * DENTRY_SIZE <= k < (i + 1) * DENTRY_SIZE) :: dir[k] == dir0[k]
    ensures SameEntry(dir0, dir, j)
  {
  }

  /** What a directory update around entry `i` leaves. */
  lemma OnlyEntryChanged(disk0: seq<byte>, disk: seq<byte>, g: Geometry, i: nat)
    requires g.Fits(|disk0|) && |disk| == |disk0| && IsEntry(g, i)
    requires var dir0, dir := Directory(disk0, g), Directory(disk, g);
             forall k | 0 <= k < |dir0| && !(i * DENTRY_SIZE <= k < (i + 1) * DENTRY_SIZE) :: dir[k] == dir0[k]
    requires disk[g.DataBase()..|disk|] == disk0[g.DataBase()..|disk|]
    ensures OnlyEntry(disk0, disk, g, i)
  {
    forall j: nat | IsEntry(g, j) && j != i ensures SameEntry(Directory(disk0, g), Directory(disk, g), j) {
      EntryApart(Directory(disk0, g), Directory(disk, g), i, j);
    }
  }

  /** A change of the table alone. */
  lemma TableChanged(disk0: seq<byte>, disk: seq<byte>, g: Geometry)
    requires g.Fits(|disk0|) && SameOutsideTable(disk0, disk, g)
    ensures Directory(disk, g) == Directory(disk0, g) && disk[g.DataBase()..|disk|] == disk0[g.DataBase()..|disk|]
  {
    SameInside(disk0, disk, g.RootBase(), |disk|, g.RootBase(), g.RootBase() + g.RootSize());
    SameInside(disk0, disk, g.RootBase(), |disk|, g.DataBase(), |disk|);
  }

  /** An entry whose clusters can be followed: none, or a chain from its first cluster on. */
  ghost predicate Releasable(dir: seq<byte>, i: nat, ch: seq<nat>)
    requires (i + 1) * DENTRY_SIZE <= |dir|
  {
    DentryFirst(dir, i) == 0 || ch != []
  }

  // ----- Deletion

  /** A round of FAT16_delete_file for an entry with the name sought: its clusters are released, and its entry is
      marked and written back. */
  method DeleteEntry(sb: SuperBlock, dentries: seq<byte>, i: nat, ghost files: map<nat, seq<nat>>)
    returns (updated: seq<byte>)
    requires sb.Valid() && sb.g.RootSize() > 0 && sb.g.RootSize() % SECTOR_SIZE == 0
    requires FilesOk(sb.disk, sb.g, files) && dentries == Directory(sb.disk, sb.g)
    requires i in files && IsEntry(sb.g, i) && Releasable(dentries, i, files[i])
    modifies sb`disk, sb`cachedSector, sb.cache
    ensures sb.Valid() && |sb.disk| == |old(sb.disk)|
    ensures updated == Directory(sb.disk, sb.g) == dentries[i * DENTRY_SIZE := 0xe5] && !InUse(updated, i)
    ensures Makes(old(sb.disk), sb.disk, sb.g, files, Released(i))
  {
    hide FatOf, IsChain, Disjoint;
    ghost var disk0 := sb.disk;
    assert HasChain(disk0, sb.g, i, files[i]);
    InvalidateClusterChain(sb, DentryFirst(dentries, i), files[i]);
    TableChanged(disk0, sb.disk, sb.g);
    updated := dentries[i * DENTRY_SIZE := DELETED];
    StoreDirectory(sb, updated);
    OnlyEntryChanged(disk0, sb.disk, sb.g, i);
  }

  /** The releases a deletion comes to: one for each entry with the name sought, in order. */
  function Releases(matches: seq<bool>): seq<Call> {
    if matches == [] then []
    else
      var n := |matches| - 1;
      Releases(matches[..n]) + if matches[n] then [Released(n)] else []
  }

  /** The files that stay: those whose name is another one. */
  function Staying(files: map<nat, seq<nat>>, matches: seq<bool>): map<nat, seq<nat>> {
    map i | i in files && !(i < |matches| && matches[i]) :: files[i]
  }

  /** One call more behind a run. */
  lemma {:induction false} RunsOn(disk: seq<byte>, g: Geometry, files: map<nat, seq<nat>>, calls: seq<Call>,
                                  disks: seq<seq<byte>>, mid: map<nat, seq<nat>>, c: Call, next: seq<byte>)
    requires g.Fits(|disk|) && FilesOk(disk, g, files) && Runs(disk, g, files, calls, disks, mid)
    requires |Last(disk, disks)| == |disk| && FilesOk(Last(disk, disks), g, mid)
    requires Makes(Last(disk, disks), next, g, mid, c)
    ensures Runs(disk, g, files, calls + [c], disks + [next], FilesAfter(Last(disk, disks), g, mid, c))
    decreases |calls|
  {
    hide FilesOk, WrittenBy, OnlyEntry, FatOf;
    if calls == [] {
      StepKeepsFiles(disk, next, g, files, c);
      assert ([c] + [])[1..] == [] && ([next] + [])[1..] == [];
    } else {
      var files' := FilesAfter(disk, g, files, calls[0]);
      StepKeepsFiles(disk, disks[0], g, files, calls[0]);
      assert Last(disks[0], disks[1..]) == Last(disk, disks);
      RunsOn(disks[0], g, files', calls[1..], disks[1..], mid, c, next);
      assert (calls + [c])[1..] == calls[1..] + [c] && (disks + [next])[1..] == disks[1..] + [next];
    }
  }

  /** The entries with the name sought belong to files that can be released. */
  ghost predicate Sought(dir: seq<byte>, matches: seq<bool>, from: nat, files: map<nat, seq<nat>>)
    requires |matches| * DENTRY_SIZE <= |dir|
  {
    forall i | from <= i < |matches| && matches[i] :: i in files && Releasable(dir, i, files[i])
  }

  /** Where a deletion stands after the first `n` entries of the directory. */
  ghost predicate Deleting(disk0: seq<byte>, disk: seq<byte>, g: Geometry, files: map<nat, seq<nat>>,
                           matches: seq<bool>, n: nat, disks: seq<seq<byte>>)
    requires g.Fits(|disk0|) && n <= |matches| && |matches| == g.rootEntries
  {
    && |disk| == |disk0| && disk == Last(disk0, disks) && FilesOk(disk0, g, files)
    && FilesOk(disk, g, Staying(files, matches[..n])) && Sought(Directory(disk, g), matches, n, files)
    && Runs(disk0, g, files, Releases(matches[..n]), disks, Staying(files, matches[..n]))
  }

  lemma OneMore(files: map<nat, seq<nat>>, matches: seq<bool>, n: nat)
    requires n < |matches|
    ensures Releases(matches[..n + 1]) == Releases(matches[..n]) + if matches[n] then [Released(n)] else []
    ensures Staying(files, matches[..n + 1])
         == if matches[n] then Staying(files, matches[..n]) - {n} else Staying(files, matches[..n])
    ensures true in matches[..n + 1] <==> true in matches[..n] || matches[n]
  {
    assert matches[..n + 1] == matches[..n] + [matches[n]] && matches[..n + 1][..n] == matches[..n];
  }

  /** An entry with the name sought is released: the run goes on. */
  lemma DeletingGoesOn(disk0: seq<byte>, before: seq<byte>, disk: seq<byte>, g: Geometry, files: map<nat, seq<nat>>,
                       matches: seq<bool>, n: nat, disks: seq<seq<byte>>)
    requires g.Fits(|disk0|) && n < |matches| == g.rootEntries && matches[n]
    requires Deleting(disk0, before, g, files, matches, n, disks)
    requires Makes(before, disk, g, Staying(files, matches[..n]), Released(n))
    ensures Deleting(disk0, disk, g, files, matches, n + 1, disks + [disk])
  {
    hide FatOf, Staying, Releases;
    OneMore(files, matches, n);
    RunsOn(disk0, g, files, Releases(matches[..n]), disks, Staying(files, matches[..n]), Released(n), disk);
    StepKeepsFiles(before, disk, g, Staying(files, matches[..n]), Released(n));
    forall i | n < i < |matches| && matches[i] ensures Releasable(Directory(disk, g), i, files[i]) {
      assert Releasable(Directory(before, g), i, files[i]);
      assert SameEntry(Directory(before, g), Directory(disk, g), i);
    }
  }

  /** FAT16_delete_file, given which entries' names match the one sought: a run of releases, in the order of the
      directory, of all files with that name and no others. */
  method DeleteFile(sb: SuperBlock, inode: Inode, parent: Inode, root: Inode, matches: seq<bool>,
                    ghost files: map<nat, seq<nat>>)
    returns (outcome: Outcome, ghost disks: seq<seq<byte>>)
    requires sb.Valid() && sb.g.RootSize() > 0 && sb.g.RootSize() % SECTOR_SIZE == 0
    requires FilesOk(sb.disk, sb.g, files) && |matches| == sb.g.rootEntries
    requires Sought(Directory(sb.disk, sb.g), matches, 0, files)
    modifies sb`disk, sb`cachedSector, sb.cache
    ensures sb.Valid()
    ensures inode.firstCluster == root.firstCluster || parent != root ==>
              outcome == InvalidArgument && sb.disk == old(sb.disk)
    ensures inode.firstCluster != root.firstCluster && parent == root ==>
              && outcome == (if true in matches then Done(0) else NoEntry)
              && Runs(old(sb.disk), sb.g, files, Releases(matches), disks, Staying(files, matches))
              && sb.disk == Last(old(sb.disk), disks)
  {
    hide FilesOk, FatOf, Runs, Releases, Makes, Staying, Sought;
    disks := [];
    if inode.firstCluster == root.firstCluster || parent != root {
      return InvalidArgument, disks;
    }
    outcome := NoEntry;
    var dentries := sb.ReadBlock(sb.g.rootSector, sb.g.RootSize());
    ghost var disk0 := sb.disk;
    DeletingBegins(sb.disk, sb.g, files, matches);
    for n := 0 to |matches|
      invariant sb.Valid() && Deleting(disk0, sb.disk, sb.g, files, matches, n, disks)
      invariant dentries == Directory(sb.disk, sb.g)
      invariant outcome == if true in matches[..n] then Done(0) else NoEntry
    {
      OneMore(files, matches, n);
      if matches[n] {
        ghost var before := sb.disk;
        SoughtIs(before, sb.g, matches, n, files);
        dentries := DeleteEntry(sb, dentries, n, Staying(files, matches[..n]));
        DeletingGoesOn(disk0, before, sb.disk, sb.g, files, matches, n, disks);
        disks := disks + [sb.disk];
        outcome := Done(0);
      } else {
        DeletingPasses(disk0, sb.disk, sb.g, files, matches, n, disks);
      }
    }
    assert matches[..|matches|] == matches;
  }

  lemma DeletingBegins(disk: seq<byte>, g: Geometry, files: map<nat, seq<nat>>, matches: seq<bool>)
    requires g.Fits(|disk|) && |matches| == g.rootEntries
    requires FilesOk(disk, g, files) && Sought(Directory(disk, g), matches, 0, files)
    ensures Deleting(disk, disk, g, files, matches, 0, [])
  {
    assert Staying(files, matches[..0]) == files;
  }

  /** The next entry with the name sought is a file that is still there. */
  lemma SoughtIs(disk: seq<byte>, g: Geometry, matches: seq<bool>, n: nat, files: map<nat, seq<nat>>)
    requires g.Fits(|disk|) && n < |matches| == g.rootEntries && matches[n]
    requires Sought(Directory(disk, g), matches, n, files)
    ensures var end := Staying(files, matches[..n]);
            n in end && IsEntry(g, n) && Releasable(Directory(disk, g), n, end[n])
  {
  }

  lemma DeletingPasses(disk0: seq<byte>, disk: seq<byte>, g: Geometry, files: map<nat, seq<nat>>, matches: seq<bool>,
                       n: nat, disks: seq<seq<byte>>)
    requires g.Fits(|disk0|) && n < |matches| == g.rootEntries && !matches[n]
    requires Deleting(disk0, disk, g, files, matches, n, disks)
    ensures Deleting(disk0, disk, g, files, matches, n + 1, disks)
  {
    hide FilesOk, FatOf, Runs, Releases, Staying;
    OneMore(files, matches, n);
    assert Releases(matches[..n]) + [] == Releases(matches[..n]);
  }

  // ----- Creation

  /** find_free_dentry: the lowest entry that is not in use. */
  method FindFreeEntry(dentries: seq<byte>, count: nat) returns (entry: int)
    requires count * DENTRY_SIZE <= |dentries|
    ensures -1 <= entry < count
    ensures entry >= 0 ==> !InUse(dentries, entry)
    ensures entry >= 0 ==> dentries[entry * 32] == 0x00 || dentries[entry * 32] == 0xe5
    ensures forall j | 0 <= j < (if entry >= 0 then entry else count) :: InUse(dentries, j)
  {
    for i := 0 to count
      invariant forall j | 0 <= j < i :: InUse(dentries, j)
    {
      if dentries[i * DENTRY_SIZE] == 0x00 || dentries[i * DENTRY_SIZE] == DELETED {
        return i;
      }
    }
    return -1;
  }

  /** A new entry: the name, and zeros. */
  function NewEntry(name: seq<byte>): (r: seq<byte>)
    requires |name| == NAME_SIZE
    ensures |r| == DENTRY_SIZE
  {
    name + seq(DENTRY_SIZE - NAME_SIZE, _ => 0)
  }

  /** The eleven bytes of the name come first, and everything behind them is zero. */
  lemma NewEntryBytes(dir: seq<byte>, i: nat, name: seq<byte>)
    requires (i + 1) * DENTRY_SIZE <= |dir| && |name| == NAME_SIZE
    ensures var dir' := Splice(dir, i * DENTRY_SIZE, NewEntry(name));
            && dir'[32 * i..32 * i + 11] == name
            && (forall k | 32 * i + 11 <= k < 32 * i + 32 :: dir'[k] == 0)
            && forall k | 0 <= k < |dir| && !(32 * i <= k < 32 * i + 32) :: dir'[k] == dir[k]
  {
    SpliceAt(dir, i * DENTRY_SIZE, NewEntry(name));
  }

  lemma NewEntryIs(dir: seq<byte>, i: nat, name: seq<byte>)
    requires (i + 1) * DENTRY_SIZE <= |dir| && |name| == NAME_SIZE && name[0] != 0x00 && name[0] != DELETED
    ensures var dir' := Splice(dir, i * DENTRY_SIZE, NewEntry(name));
            && InUse(dir', i) && DentryFirst(dir', i) == 0 && DentrySize(dir', i) == 0
            && forall k | 0 <= k < |dir| && !(i * DENTRY_SIZE <= k < (i + 1) * DENTRY_SIZE) :: dir'[k] == dir[k]
  {
    SpliceAt(dir, i * DENTRY_SIZE, NewEntry(name));
  }

  /** A new entry in a place that no file has. */
  lemma CreatedMakes(disk0: seq<byte>, disk: seq<byte>, g: Geometry, files: map<nat, seq<nat>>, i: nat, name: seq<byte>)
    requires g.Fits(|disk0|) && |disk| == |disk0| && FilesOk(disk0, g, files)
    requires |name| == NAME_SIZE && name[0] != 0x00 && name[0] != DELETED
    requires IsEntry(g, i) && !InUse(Directory(disk0, g), i)
    requires Directory(disk, g) == Splice(Directory(disk0, g), i * DENTRY_SIZE, NewEntry(name))
    requires FatOf(disk, g) == FatOf(disk0, g) && disk[g.DataBase()..|disk|] == disk0[g.DataBase()..|disk|]
    ensures Makes(disk0, disk, g, files, Created(i))
  {
    hide FatOf, IsChain, Disjoint, Splice, NewEntry;
    assert i in files ==> HasChain(disk0, g, i, files[i]);
    NewEntryIs(Directory(disk0, g), i, name);
    OnlyEntryChanged(disk0, disk, g, i);
  }

  /** FAT16_create_file in the root directory, given whether the name is taken already and how it is encoded: the
      lowest free entry becomes an empty file, unless there is none. */
  method CreateFile(sb: SuperBlock, taken: bool, name: seq<byte>, ghost files: map<nat, seq<nat>>)
    returns (outcome: Outcome, entry: nat)
    requires sb.Valid() && sb.g.RootSize() > 0 && sb.g.RootSize() % SECTOR_SIZE == 0
    requires FilesOk(sb.disk, sb.g, files)
    requires |name| == NAME_SIZE && name[0] != 0x00 && name[0] != DELETED
    modifies sb`disk
    ensures sb.Valid() && |sb.disk| == |old(sb.disk)|
    ensures outcome == if taken then AlreadyExists
                       else if forall j: nat | IsEntry(sb.g, j) :: InUse(Directory(old(sb.disk), sb.g), j)
                         then QuotaExceeded else Done(0)
    ensures !outcome.Done? ==> sb.disk == old(sb.disk)
    ensures outcome.Done? ==>
              && IsEntry(sb.g, entry) && !InUse(Directory(old(sb.disk), sb.g), entry)
              && (forall j | 0 <= j < entry :: InUse(Directory(old(sb.disk), sb.g), j))
              && Directory(sb.disk, sb.g)
                 == Splice(Directory(old(sb.disk), sb.g), entry * DENTRY_SIZE, NewEntry(name))
              && Directory(sb.disk, sb.g)[32 * entry..32 * entry + 11] == name
              && (forall k | 32 * entry + 11 <= k < 32 * entry + 32 :: Directory(sb.disk, sb.g)[k] == 0)
              && Makes(old(sb.disk), sb.disk, sb.g, files, Created(entry))
  {
    hide FatOf, FilesOk, Makes, Splice, NewEntry, IsSector;
    entry := 0;
    if taken {
      return AlreadyExists, entry;
    }
    var dentries := sb.ReadBlock(sb.g.rootSector, sb.g.RootSize());
    var free := FindFreeEntry(dentries, sb.g.rootEntries as nat);
    if free < 0 {
      return QuotaExceeded, entry;
    }
    entry := free;
    NewEntryBytes(dentries, entry, name);
    StoreDirectory(sb, Splice(dentries, entry * DENTRY_SIZE, NewEntry(name)));
    CreatedMakes(old(sb.disk), sb.disk, sb.g, files, entry, name);
    outcome := Done(0);
  }
}
