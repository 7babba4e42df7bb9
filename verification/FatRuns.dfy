/**
 Runs over the files of the root directory: what creating, writing and releasing them keeps of the directory,
 the table and the data together.
 */
module FatRuns {
  import opened Words
  import opened Splices
  import opened FatTable
  import opened FatVolume
  import opened FatContents
  import opened FatChains
  import opened FatData
  import opened FatFiles

  /** One call that changes a file, as it comes out: a write at an offset, the release of the file's clusters with
      the deletion of its entry, or a new empty entry. */
  datatype Call =
    | Written(i: nat, offset: nat, buf: seq<byte>, outcome: Outcome)
    | Released(i: nat)
    | Created(i: nat)

  predicate IsEntry(g: Geometry, i: nat) {
    (i + 1) * DENTRY_SIZE <= g.RootSize()
  }

  /** The first byte of an entry's name tells whether it is in use: 0x00 is a fresh entry, 0xe5 a deleted one. */
  predicate InUse(dir: seq<byte>, i: nat)
    requires (i + 1) * DENTRY_SIZE <= |dir|
  {
    dir[i * DENTRY_SIZE] != 0x00 && dir[i * DENTRY_SIZE] != 0xe5
  }

  /** The clusters that an entry owns: those of the chain that begins at its first cluster. */
  ghost predicate Owns(fat: Fat, first: uint16, ch: seq<nat>) {
    if 2 <= first < FIRST_END_MARK then IsChain(fat, ch) && ch[0] == first else ch == []
  }

  /** What of it writing follows: nothing when the chain begins at cluster 2. */
  function Followed(first: uint16, ch: seq<nat>): seq<nat> {
    if first == 2 then [] else ch
  }

  /** An entry in use owns its chain. */
  ghost predicate HasChain(disk: seq<byte>, g: Geometry, i: nat, ch: seq<nat>)
    requires g.Fits(|disk|)
  {
    && IsEntry(g, i) && InUse(Directory(disk, g), i)
    && Owns(FatOf(disk, g), DentryFirst(Directory(disk, g), i), ch)
  }

  /** The files of the directory, each entry with its chain: no two share a cluster. */
  ghost predicate FilesOk(disk: seq<byte>, g: Geometry, files: map<nat, seq<nat>>)
    requires g.Fits(|disk|)
  {
    && g.ScanLimit() <= g.Entries()
    && (forall i | i in files :: HasChain(disk, g, i, files[i]))
    && forall i, j | i in files && j in files && i != j :: Disjoint(files[i], files[j])
  }

  /** A file's size in its entry is no more than its clusters hold. */
  ghost predicate SizeOk(disk: seq<byte>, g: Geometry, i: nat, ch: seq<nat>)
    requires g.Fits(|disk|)
  {
    IsEntry(g, i) && DentrySize(Directory(disk, g), i) <= Span(|ch|, g.BytesPerCluster())
  }

  ghost predicate SizesOk(disk: seq<byte>, g: Geometry, files: map<nat, seq<nat>>)
    requires g.Fits(|disk|)
  {
    forall i | i in files :: SizeOk(disk, g, i, files[i])
  }

  /** An entry is as before: its use, its first cluster and its size. */
  predicate SameEntry(dir0: seq<byte>, dir: seq<byte>, j: nat)
    requires (j + 1) * DENTRY_SIZE <= |dir0| && (j + 1) * DENTRY_SIZE <= |dir|
  {
    && InUse(dir, j) == InUse(dir0, j)
    && DentryFirst(dir, j) == DentryFirst(dir0, j) && DentrySize(dir, j) == DentrySize(dir0, j)
  }

  /** The entries but one are as before, and so are all clusters. */
  ghost predicate OnlyEntry(disk0: seq<byte>, disk: seq<byte>, g: Geometry, i: nat)
    requires g.Fits(|disk0|) && |disk| == |disk0|
  {
    && (forall j: nat | IsEntry(g, j) && j != i :: SameEntry(Directory(disk0, g), Directory(disk, g), j))
    && disk[g.DataBase()..|disk|] == disk0[g.DataBase()..|disk|]
  }

  /** What `FatFiles.Write` leaves of the file of entry `i`, whose clusters are `ch`. */
  ghost predicate WrittenBy(disk0: seq<byte>, disk: seq<byte>, g: Geometry, i: nat, ch: seq<nat>, offset: nat,
                            buf: seq<byte>, outcome: Outcome)
    requires g.Fits(|disk0|) && |disk| == |disk0| && g.ScanLimit() <= g.Entries() && HasChain(disk0, g, i, ch)
    requires offset + |buf| < 0x8000_0000
  {
    FileWritten(disk0, disk, g, i, Followed(DentryFirst(Directory(disk0, g), i), ch), offset, buf, outcome)
  }

  /** What the calls leave: a write what `FatFiles.Write` states, a release and a creation what `FatCalls.DeleteEntry`
      and `FatCalls.CreateFile` do. */
  ghost predicate Makes(disk0: seq<byte>, disk: seq<byte>, g: Geometry, files: map<nat, seq<nat>>, c: Call)
    requires g.Fits(|disk0|) && FilesOk(disk0, g, files)
  {
    |disk| == |disk0| &&
    match c
    case Written(i, offset, buf, outcome) =>
      && i in files && offset + |buf| < 0x8000_0000
      && (assert HasChain(disk0, g, i, files[i]); WrittenBy(disk0, disk, g, i, files[i], offset, buf, outcome))
    case Released(i) =>
      i in files && FatOf(disk, g) == Cleared(FatOf(disk0, g), files[i]) && OnlyEntry(disk0, disk, g, i)
    case Created(i) =>
      && i !in files && IsEntry(g, i) && FatOf(disk, g) == FatOf(disk0, g) && OnlyEntry(disk0, disk, g, i)
      && InUse(Directory(disk, g), i)
      && DentryFirst(Directory(disk, g), i) == 0 && DentrySize(Directory(disk, g), i) == 0
  }

  /** How the allocation of a file's write comes out. */
  ghost function PlanOf(disk: seq<byte>, g: Geometry, i: nat, ch: seq<nat>, size: nat): Adjustment
    requires g.Fits(|disk|) && g.ScanLimit() <= g.Entries() && HasChain(disk, g, i, ch)
  {
    var first := DentryFirst(Directory(disk, g), i);
    Plan(disk, g, first, Followed(first, ch), size)
  }

  /** The chain of a file after a write: as planned, except that a new file gets none when the write fails, and that a
      chain that begins at cluster 2 stays. */
  ghost function ChainAfter(disk: seq<byte>, g: Geometry, i: nat, ch: seq<nat>, size: nat): seq<nat>
    requires g.Fits(|disk|) && g.ScanLimit() <= g.Entries() && HasChain(disk, g, i, ch)
  {
    var first, a := DentryFirst(Directory(disk, g), i), PlanOf(disk, g, i, ch, size);
    if 3 <= first < FIRST_END_MARK || a.result == ClusterOk then a.chain else ch
  }

  ghost function FilesAfter(disk: seq<byte>, g: Geometry, files: map<nat, seq<nat>>, c: Call): map<nat, seq<nat>>
    requires g.Fits(|disk|) && FilesOk(disk, g, files) && (c.Written? ==> c.i in files)
  {
    match c
    case Written(i, offset, buf, _) =>
      assert HasChain(disk, g, i, files[i]);
      files[i := ChainAfter(disk, g, i, files[i], offset + |buf|)]
    case Released(i) => files - {i}
    case Created(i) => files[i := []]
  }

  // ----- A write

  /** The table, the outcome and the directory. */
  lemma WrittenIs(disk0: seq<byte>, disk: seq<byte>, g: Geometry, i: nat, ch: seq<nat>, offset: nat, buf: seq<byte>,
                  outcome: Outcome)
    requires g.Fits(|disk0|) && |disk| == |disk0| && g.ScanLimit() <= g.Entries() && HasChain(disk0, g, i, ch)
    requires offset + |buf| < 0x8000_0000 && WrittenBy(disk0, disk, g, i, ch, offset, buf, outcome)
    ensures var a := PlanOf(disk0, g, i, ch, offset + |buf|);
            && FatOf(disk, g) == a.fat && outcome == OutcomeOf(a.result, |buf|)
            && Directory(disk, g) == UpdatedDirectory(Directory(disk0, g), i, outcome, a.first,
                                                      offset + if outcome.Done? then |buf| else 0)
  {
    hide Plan, FatOf, IsChain, ClusterBytes, UpdatedDirectory;
  }

  /** The plan, from the table before the write. */
  lemma PlanIs(disk: seq<byte>, g: Geometry, i: nat, ch: seq<nat>, size: nat)
    requires g.Fits(|disk|) && g.ScanLimit() <= g.Entries() && HasChain(disk, g, i, ch)
    ensures var first, a, fat := DentryFirst(Directory(disk, g), i), PlanOf(disk, g, i, ch, size), FatOf(disk, g);
            && |a.fat| == g.Entries()
            && (a.chain != [] ==> IsChain(a.fat, a.chain) && a.chain[0] == a.first)
            && (first != 0 ==> a.first == first)
            && (a.result == ClusterOk ==>
                  && a.chain != [] && size < Span(|a.chain|, g.BytesPerCluster())
                  && 3 <= a.first < FIRST_END_MARK && (first == 0 || 3 <= first < FIRST_END_MARK))
            && (3 <= first < FIRST_END_MARK ==> ch <= a.chain && a.chain != [])
            && (first == 2 ==> a.fat == fat)
  {
    var first := DentryFirst(Directory(disk, g), i);
    PlanCorrect(disk, g, first, Followed(first, ch), size);
    FirstFreeIsLowest(FatOf(disk, g), 2, g.ScanLimit());
  }

  /** Whether a write succeeds, and how long the file's chain is when it fails, from the table before it. */
  lemma AfterResult(disk: seq<byte>, g: Geometry, i: nat, ch: seq<nat>, offset: nat, count: nat)
    requires g.Fits(|disk|) && g.ScanLimit() <= g.Entries() && HasChain(disk, g, i, ch)
    ensures var a := PlanOf(disk, g, i, ch, offset + count);
            && OutcomeOf(a.result, count) == OutcomeFor(disk, g, i, |ch|, offset, count)
            && (a.result != ClusterOk ==>
                  |ChainAfter(disk, g, i, ch, offset + count)|
                  == ShortOf(FatOf(disk, g), DentryFirst(Directory(disk, g), i), |ch|, g.ScanLimit()))
  {
    hide Plan, FatOf, IsChain;
    var first := DentryFirst(Directory(disk, g), i);
    PlanResult(disk, g, first, Followed(first, ch), offset + count);
  }

  /** Neither the first cluster's update nor the size's touches a name. */
  lemma UpdatedUse(dir: seq<byte>, i: nat, outcome: Outcome, first: uint16, end: uint32, j: nat)
    requires (i + 1) * DENTRY_SIZE <= |dir| && (j + 1) * DENTRY_SIZE <= |dir|
    ensures InUse(UpdatedDirectory(dir, i, outcome, first, end), j) == InUse(dir, j)
  {
    var mid := if outcome.Done? then SetFirst(dir, i, first) else dir;
    SpliceAt(dir, i * DENTRY_SIZE + FIRST_CLUSTER_FIELD, Bytes16(first));
    SpliceAt(mid, i * DENTRY_SIZE + FILE_SIZE_FIELD, Bytes32(Max(end, DentrySize(mid, i))));
  }

  /** The entry of the file written, and every other entry. */
  lemma WrittenEntry(disk0: seq<byte>, disk: seq<byte>, g: Geometry, i: nat, ch: seq<nat>, offset: nat, buf: seq<byte>,
                     outcome: Outcome, j: nat)
    requires g.Fits(|disk0|) && |disk| == |disk0| && g.ScanLimit() <= g.Entries() && HasChain(disk0, g, i, ch)
    requires offset + |buf| < 0x8000_0000 && WrittenBy(disk0, disk, g, i, ch, offset, buf, outcome) && IsEntry(g, j)
    ensures var dir0, dir := Directory(disk0, g), Directory(disk, g);
            if j != i then SameEntry(dir0, dir, j)
            else
              && InUse(dir, i)
              && DentryFirst(dir, i) == (if outcome.Done? then PlanOf(disk0, g, i, ch, offset + |buf|).first
                                         else DentryFirst(dir0, i))
              && DentrySize(dir, i) == Max(offset + if outcome.Done? then |buf| else 0, DentrySize(dir0, i))
  {
    hide Plan, FatOf, IsChain, UpdatedDirectory, FileWritten;
    var a, end := PlanOf(disk0, g, i, ch, offset + |buf|), offset + if outcome.Done? then |buf| else 0;
    WrittenIs(disk0, disk, g, i, ch, offset, buf, outcome);
    UpdatedEntries(Directory(disk0, g), i, outcome, a.first, end, j);
    UpdatedUse(Directory(disk0, g), i, outcome, a.first, end, j);
  }

  /** The file written: its entry owns its new chain. */
  lemma WrittenHasChain(disk0: seq<byte>, disk: seq<byte>, g: Geometry, i: nat, ch: seq<nat>, offset: nat,
                        buf: seq<byte>, outcome: Outcome)
    requires g.Fits(|disk0|) && |disk| == |disk0| && g.ScanLimit() <= g.Entries() && HasChain(disk0, g, i, ch)
    requires offset + |buf| < 0x8000_0000 && WrittenBy(disk0, disk, g, i, ch, offset, buf, outcome)
    ensures HasChain(disk, g, i, ChainAfter(disk0, g, i, ch, offset + |buf|))
  {
    hide Plan, FatOf, FileWritten, IsChain;
    WrittenIs(disk0, disk, g, i, ch, offset, buf, outcome);
    WrittenEntry(disk0, disk, g, i, ch, offset, buf, outcome, i);
    PlanIs(disk0, g, i, ch, offset + |buf|);
  }

  /** Every other file keeps its entry and its chain. */
  lemma OtherHasChain(disk0: seq<byte>, disk: seq<byte>, g: Geometry, i: nat, ch: seq<nat>, offset: nat,
                      buf: seq<byte>, outcome: Outcome, j: nat, other: seq<nat>)
    requires g.Fits(|disk0|) && |disk| == |disk0| && g.ScanLimit() <= g.Entries() && HasChain(disk0, g, i, ch)
    requires offset + |buf| < 0x8000_0000 && WrittenBy(disk0, disk, g, i, ch, offset, buf, outcome)
    requires j != i && HasChain(disk0, g, j, other) && Disjoint(other, ch)
    ensures HasChain(disk, g, j, other)
    ensures Disjoint(other, ChainAfter(disk0, g, i, ch, offset + |buf|))
  {
    var first := DentryFirst(Directory(disk0, g), i);
    WrittenEntry(disk0, disk, g, i, ch, offset, buf, outcome, j);
    if other != [] {
      AdjustSparesOthers(FatOf(disk0, g), first, Followed(first, ch), g.ScanLimit(),
                         ClustersFor(offset + |buf|, g.BytesPerCluster()), other);
    }
  }

  lemma WriteKeepsFiles(disk0: seq<byte>, disk: seq<byte>, g: Geometry, files: map<nat, seq<nat>>, c: Call)
    requires g.Fits(|disk0|) && FilesOk(disk0, g, files) && c.Written? && Makes(disk0, disk, g, files, c)
    ensures FilesOk(disk, g, FilesAfter(disk0, g, files, c))
  {
    hide WrittenBy, ChainAfter, HasChain;
    var ch, files' := files[c.i], FilesAfter(disk0, g, files, c);
    assert HasChain(disk0, g, c.i, ch);
    WrittenHasChain(disk0, disk, g, c.i, ch, c.offset, c.buf, c.outcome);
    forall j | j in files && j != c.i ensures HasChain(disk, g, j, files[j]) && Disjoint(files[j], files'[c.i]) {
      assert HasChain(disk0, g, j, files[j]);
      OtherHasChain(disk0, disk, g, c.i, ch, c.offset, c.buf, c.outcome, j, files[j]);
    }
    forall i, j | i in files' && j in files' && i != j ensures Disjoint(files'[i], files'[j]) {
      if j == c.i {
        assert Disjoint(files[i], files'[c.i]);
      } else if i == c.i {
        assert Disjoint(files[j], files'[c.i]);
      }
    }
  }

  // ----- Release and creation

  lemma ReleaseSpares(fat: Fat, ch: seq<nat>, first: uint16, other: seq<nat>)
    requires Owns(fat, first, other) && Disjoint(other, ch)
    ensures Owns(Cleared(fat, ch), first, other)
  {
    forall k | 0 <= k < |other| ensures other[k] !in ch {
      assert other[k] in other;
    }
  }

  lemma ReleaseKeepsFiles(disk0: seq<byte>, disk: seq<byte>, g: Geometry, files: map<nat, seq<nat>>, c: Call)
    requires g.Fits(|disk0|) && FilesOk(disk0, g, files) && c.Released? && Makes(disk0, disk, g, files, c)
    ensures FilesOk(disk, g, FilesAfter(disk0, g, files, c))
  {
    forall j | j in files && j != c.i ensures HasChain(disk, g, j, files[j]) {
      assert HasChain(disk0, g, j, files[j]);
      assert SameEntry(Directory(disk0, g), Directory(disk, g), j);
      ReleaseSpares(FatOf(disk0, g), files[c.i], DentryFirst(Directory(disk0, g), j), files[j]);
    }
  }

  lemma CreateKeepsFiles(disk0: seq<byte>, disk: seq<byte>, g: Geometry, files: map<nat, seq<nat>>, c: Call)
    requires g.Fits(|disk0|) && FilesOk(disk0, g, files) && c.Created? && Makes(disk0, disk, g, files, c)
    ensures FilesOk(disk, g, FilesAfter(disk0, g, files, c))
  {
    forall j | j in files ensures HasChain(disk, g, j, files[j]) {
      assert HasChain(disk0, g, j, files[j]);
      assert SameEntry(Directory(disk0, g), Directory(disk, g), j);
    }
    assert HasChain(disk, g, c.i, []);
  }

  lemma StepKeepsFiles(disk0: seq<byte>, disk: seq<byte>, g: Geometry, files: map<nat, seq<nat>>, c: Call)
    requires g.Fits(|disk0|) && FilesOk(disk0, g, files) && Makes(disk0, disk, g, files, c)
    ensures |disk| == |disk0| && FilesOk(disk, g, FilesAfter(disk0, g, files, c))
  {
    match c
    case Written(_, _, _, _) => WriteKeepsFiles(disk0, disk, g, files, c);
    case Released(_) => ReleaseKeepsFiles(disk0, disk, g, files, c);
    case Created(_) => CreateKeepsFiles(disk0, disk, g, files, c);
  }

  // ----- Sizes

  /** A write to a file of `n` clusters succeeds, or begins no further than the file's clusters reach together with
      the free ones that an existing chain is extended by. */
  predicate Bounded(fat: Fat, first: uint16, n: nat, limit: nat, b: nat, offset: nat, count: nat)
    requires limit <= |fat| && b > 0
  {
    || ResultFor(fat, first, n, limit, ClustersFor(offset + count, b)) == ClusterOk
    || offset <= Span(ShortOf(fat, first, n, limit), b)
  }

  /** So it is for a write to the files of a disk: the condition is one on the table, the entry and the call before it
      is made. */
  ghost predicate InBounds(disk: seq<byte>, g: Geometry, files: map<nat, seq<nat>>, c: Call)
    requires g.Fits(|disk|) && FilesOk(disk, g, files) && (c.Written? ==> c.i in files)
  {
    c.Written? ==>
      assert HasChain(disk, g, c.i, files[c.i]);
      Bounded(FatOf(disk, g), DentryFirst(Directory(disk, g), c.i), |files[c.i]|, g.ScanLimit(), g.BytesPerCluster(),
              c.offset, |c.buf|)
  }

  /** A table without a free entry and a file of one cluster: a write of one byte at offset 1024 fails, and leaves the
      file with size 1024 and its one cluster of 512 bytes. */
  lemma UnboundedWrite()
    ensures var fat: Fat := seq(CACHE_SIZE, _ => END_MARK);
            Owns(fat, 3, [3]) && ResultFor(fat, 3, 1, CACHE_SIZE, ClustersFor(1024 + 1, 512)) == NoAvailableClusters
            && !Bounded(fat, 3, 1, CACHE_SIZE, 512, 1024, 1)
  {
    var fat: Fat := seq(CACHE_SIZE, _ => END_MARK);
    NoFreeMeansZero(fat, 2, CACHE_SIZE);
    assert Span(1, 512) == 512;
  }

  /** No write makes a chain shorter, and one that succeeds makes it longer than the data ends. */
  lemma AfterIsLonger(disk: seq<byte>, g: Geometry, i: nat, ch: seq<nat>, size: nat)
    requires g.Fits(|disk|) && g.ScanLimit() <= g.Entries() && HasChain(disk, g, i, ch)
    ensures var after, b := ChainAfter(disk, g, i, ch, size), g.BytesPerCluster();
            && ch <= after && Span(|ch|, b) <= Span(|after|, b)
            && (PlanOf(disk, g, i, ch, size).result == ClusterOk ==> size < Span(|after|, b))
  {
    hide Plan, FatOf, IsChain;
    PlanIs(disk, g, i, ch, size);
    SpanMonotone(|ch|, |ChainAfter(disk, g, i, ch, size)|, g.BytesPerCluster());
  }

  lemma SizeAfterWrite(disk0: seq<byte>, disk: seq<byte>, g: Geometry, i: nat, ch: seq<nat>, offset: nat,
                       buf: seq<byte>, outcome: Outcome)
    requires g.Fits(|disk0|) && |disk| == |disk0| && g.ScanLimit() <= g.Entries() && HasChain(disk0, g, i, ch)
    requires offset + |buf| < 0x8000_0000 && WrittenBy(disk0, disk, g, i, ch, offset, buf, outcome)
    requires SizeOk(disk0, g, i, ch)
    ensures SizeOk(disk, g, i, ChainAfter(disk0, g, i, ch, offset + |buf|))
            <==> Bounded(FatOf(disk0, g), DentryFirst(Directory(disk0, g), i), |ch|, g.ScanLimit(), g.BytesPerCluster(),
                         offset, |buf|)
  {
    hide WrittenBy, FatOf, PlanOf, IsChain, ChainAfter, ResultFor, ShortOf, HasChain, Span, Directory;
    WrittenIs(disk0, disk, g, i, ch, offset, buf, outcome);
    WrittenEntry(disk0, disk, g, i, ch, offset, buf, outcome, i);
    AfterIsLonger(disk0, g, i, ch, offset + |buf|);
    AfterResult(disk0, g, i, ch, offset, |buf|);
  }

  /** A write leaves its file's size within the file's clusters exactly when the table and the entry before it meet that
      condition. */
  lemma WrittenSizeIff(disk0: seq<byte>, disk: seq<byte>, g: Geometry, files: map<nat, seq<nat>>, c: Call)
    requires g.Fits(|disk0|) && FilesOk(disk0, g, files) && c.Written? && Makes(disk0, disk, g, files, c)
    requires SizeOk(disk0, g, c.i, files[c.i])
    ensures SizeOk(disk, g, c.i, FilesAfter(disk0, g, files, c)[c.i]) <==> InBounds(disk0, g, files, c)
  {
    hide WrittenBy, FatOf, ChainAfter, Bounded, HasChain;
    assert HasChain(disk0, g, c.i, files[c.i]);
    SizeAfterWrite(disk0, disk, g, c.i, files[c.i], c.offset, c.buf, c.outcome);
  }

  lemma OtherSizes(disk0: seq<byte>, disk: seq<byte>, g: Geometry, files: map<nat, seq<nat>>, c: Call, j: nat)
    requires g.Fits(|disk0|) && FilesOk(disk0, g, files) && Makes(disk0, disk, g, files, c)
    requires j in files && j != c.i && SizeOk(disk0, g, j, files[j])
    ensures j in FilesAfter(disk0, g, files, c) && SizeOk(disk, g, j, FilesAfter(disk0, g, files, c)[j])
  {
    hide WrittenBy, FatOf;
    if c.Written? {
      assert HasChain(disk0, g, c.i, files[c.i]);
      WrittenEntry(disk0, disk, g, c.i, files[c.i], c.offset, c.buf, c.outcome, j);
    } else {
      assert SameEntry(Directory(disk0, g), Directory(disk, g), j);
    }
  }

  /** So a call keeps all sizes within their files' clusters exactly when it is in bounds. */
  lemma StepKeepsSizes(disk0: seq<byte>, disk: seq<byte>, g: Geometry, files: map<nat, seq<nat>>, c: Call)
    requires g.Fits(|disk0|) && FilesOk(disk0, g, files) && Makes(disk0, disk, g, files, c)
    requires SizesOk(disk0, g, files)
    ensures |disk| == |disk0| && (SizesOk(disk, g, FilesAfter(disk0, g, files, c)) <==> InBounds(disk0, g, files, c))
  {
    hide WrittenBy, FatOf, ChainAfter, HasChain;
    var files' := FilesAfter(disk0, g, files, c);
    forall j | j in files && j != c.i ensures j in files' && SizeOk(disk, g, j, files'[j]) {
      OtherSizes(disk0, disk, g, files, c, j);
    }
    if c.Written? { WrittenSizeIff(disk0, disk, g, files, c); }
    assert c.Created? ==> SizeOk(disk, g, c.i, []);
  }

  // ----- Contents

  /** A file that a call is not about keeps its chain, its entry and its byte string. */
  lemma OtherFileKeeps(disk0: seq<byte>, disk: seq<byte>, g: Geometry, files: map<nat, seq<nat>>, c: Call, j: nat)
    requires g.Fits(|disk0|) && FilesOk(disk0, g, files) && Makes(disk0, disk, g, files, c)
    requires j in files && j != c.i && OnVolume(g, files[j])
    ensures |disk| == |disk0| && j in FilesAfter(disk0, g, files, c) && FilesAfter(disk0, g, files, c)[j] == files[j]
    ensures ChainBytes(disk, g, files[j]) == ChainBytes(disk0, g, files[j])
  {
    hide ChainAfter, ChainBytes, ClusterBytes;
    assert HasChain(disk0, g, j, files[j]);
    if c.Written? {
      var first := DentryFirst(Directory(disk0, g), c.i);
      assert HasChain(disk0, g, c.i, files[c.i]);
      if files[j] != [] {
        OtherFilesKeepContents(disk0, disk, g, c.i, Followed(first, files[c.i]), c.offset, c.buf, c.outcome, files[j]);
      } else {
        ChainFrame(disk0, disk, g, []);
      }
    } else {
      ClustersKeep(disk0, disk, g, files[j]);
    }
  }

  /** Clusters behind an unchanged boundary keep their bytes. */
  lemma ClustersKeep(disk0: seq<byte>, disk: seq<byte>, g: Geometry, ch: seq<nat>)
    requires g.Fits(|disk0|) && |disk| == |disk0| && OnVolume(g, ch)
    requires disk[g.DataBase()..|disk|] == disk0[g.DataBase()..|disk|]
    ensures ChainBytes(disk, g, ch) == ChainBytes(disk0, g, ch)
  {
    forall k | 0 <= k < |ch| ensures ClusterBytes(disk, g, ch[k]) == ClusterBytes(disk0, g, ch[k]) {
      ClusterBehindTable(disk0, disk, g, ch[k]);
    }
    ChainFrame(disk0, disk, g, ch);
  }

  /** A call puts a byte at place `k` of the file of entry `j`. */
  predicate Puts(c: Call, j: nat, k: nat) {
    c.Written? && c.i == j && c.outcome.Done? && c.offset <= k < c.offset + |c.buf|
  }

  /** The file of entry `j` begins or ends. */
  predicate Renews(c: Call, j: nat) {
    !c.Written? && c.i == j
  }

  /** The byte string `now` has what the call puts into the file of entry `j`, and what `was` had everywhere else. */
  ghost predicate Holds(was: seq<byte>, c: Call, j: nat, now: seq<byte>) {
    && |was| <= |now|
    && (forall k | 0 <= k < |was| && !Puts(c, j, k) :: now[k] == was[k])
    && (forall k | 0 <= k && Puts(c, j, k) :: k < |now| && now[k] == c.buf[k - c.offset])
  }

  /** The byte string of the file written: the data where the write succeeds, and every other byte as before. */
  lemma WrittenBytes(disk0: seq<byte>, disk: seq<byte>, g: Geometry, i: nat, ch: seq<nat>, offset: nat, buf: seq<byte>,
                     outcome: Outcome)
    requires g.Fits(|disk0|) && |disk| == |disk0| && g.ScanLimit() <= g.Entries() && HasChain(disk0, g, i, ch)
    requires offset + |buf| < 0x8000_0000 && WrittenBy(disk0, disk, g, i, ch, offset, buf, outcome)
    requires OnVolume(g, ChainAfter(disk0, g, i, ch, offset + |buf|))
    ensures var after := ChainAfter(disk0, g, i, ch, offset + |buf|);
            && (outcome.Done? ==> offset + |buf| <= |ChainBytes(disk0, g, after)|)
            && ChainBytes(disk, g, after) == (if outcome.Done? then Splice(ChainBytes(disk0, g, after), offset, buf)
                                              else ChainBytes(disk0, g, after))
  {
    hide Plan, FatOf, ChainBytes, ClusterBytes, UpdatedDirectory, IsChain;
    if !outcome.Done? {
      ChainFrame(disk0, disk, g, ChainAfter(disk0, g, i, ch, offset + |buf|));
    }
  }

  /** The same for a chain before the call and one after it, if they lie in the volume. */
  ghost predicate ChainHolds(disk0: seq<byte>, disk: seq<byte>, g: Geometry, ch: seq<nat>, after: seq<nat>, c: Call,
                             j: nat)
    requires g.Fits(|disk0|) && |disk| == |disk0|
  {
    OnVolume(g, after) ==>
      OnVolume(g, ch) && Holds(ChainBytes(disk0, g, ch), c, j, ChainBytes(disk, g, after))
  }

  lemma PatchHolds(was: seq<byte>, longer: seq<byte>, now: seq<byte>, c: Call)
    requires c.Written? && was <= longer
    requires if c.outcome.Done? then c.offset + |c.buf| <= |longer| && now == Splice(longer, c.offset, c.buf)
             else now == longer
    ensures Holds(was, c, c.i, now)
  {
    hide Splice;
    assert forall k | 0 <= k < |was| :: was[k] == longer[k];
    if c.outcome.Done? { SpliceAt(longer, c.offset, c.buf); }
  }

  lemma WriteHolds(disk0: seq<byte>, disk: seq<byte>, g: Geometry, ch: seq<nat>, c: Call)
    requires g.Fits(|disk0|) && |disk| == |disk0| && g.ScanLimit() <= g.Entries()
    requires c.Written? && HasChain(disk0, g, c.i, ch)
    requires c.offset + |c.buf| < 0x8000_0000 && WrittenBy(disk0, disk, g, c.i, ch, c.offset, c.buf, c.outcome)
    ensures ch <= ChainAfter(disk0, g, c.i, ch, c.offset + |c.buf|)
    ensures ChainHolds(disk0, disk, g, ch, ChainAfter(disk0, g, c.i, ch, c.offset + |c.buf|), c, c.i)
  {
    hide WrittenBy, FatOf, ChainAfter, ChainBytes, IsChain, OnVolume, HasChain;
    var after := ChainAfter(disk0, g, c.i, ch, c.offset + |c.buf|);
    AfterIsLonger(disk0, g, c.i, ch, c.offset + |c.buf|);
    if OnVolume(g, after) {
      ChainPrefix(disk0, g, ch, after);
      WrittenBytes(disk0, disk, g, c.i, ch, c.offset, c.buf, c.outcome);
      PatchHolds(ChainBytes(disk0, g, ch), ChainBytes(disk0, g, after), ChainBytes(disk, g, after), c);
    }
  }

  /** A file that a call does not renew keeps its clusters and every byte the call does not put. */
  lemma StepHolds(disk0: seq<byte>, disk: seq<byte>, g: Geometry, files: map<nat, seq<nat>>, c: Call, j: nat)
    requires g.Fits(|disk0|) && FilesOk(disk0, g, files) && Makes(disk0, disk, g, files, c)
    requires j in files && !Renews(c, j)
    ensures |disk| == |disk0| && j in FilesAfter(disk0, g, files, c) && files[j] <= FilesAfter(disk0, g, files, c)[j]
    ensures ChainHolds(disk0, disk, g, files[j], FilesAfter(disk0, g, files, c)[j], c, j)
  {
    hide WrittenBy, FatOf, ChainAfter, ChainBytes, IsChain, OnVolume, HasChain;
    if c.i == j {
      assert HasChain(disk0, g, j, files[j]);
      WriteHolds(disk0, disk, g, files[j], c);
    } else if OnVolume(g, files[j]) {
      OtherFileKeeps(disk0, disk, g, files, c, j);
    }
  }

  // ----- Runs

  /** A run of calls, each of which leaves the next disk. */
  ghost predicate Runs(disk: seq<byte>, g: Geometry, files: map<nat, seq<nat>>, calls: seq<Call>,
                       disks: seq<seq<byte>>, end: map<nat, seq<nat>>)
    requires g.Fits(|disk|) && FilesOk(disk, g, files)
    decreases |calls|
  {
    if calls == [] then disks == [] && end == files
    else
      && disks != [] && Makes(disk, disks[0], g, files, calls[0])
      && (StepKeepsFiles(disk, disks[0], g, files, calls[0]);
          Runs(disks[0], g, FilesAfter(disk, g, files, calls[0]), calls[1..], disks[1..], end))
  }

  /** Every call of the run is in bounds when it is made. */
  ghost predicate AllInBounds(disk: seq<byte>, g: Geometry, files: map<nat, seq<nat>>, calls: seq<Call>,
                              disks: seq<seq<byte>>, end: map<nat, seq<nat>>)
    requires g.Fits(|disk|) && FilesOk(disk, g, files) && Runs(disk, g, files, calls, disks, end)
    decreases |calls|
  {
    calls == [] ||
    (InBounds(disk, g, files, calls[0])
     && (StepKeepsFiles(disk, disks[0], g, files, calls[0]);
         AllInBounds(disks[0], g, FilesAfter(disk, g, files, calls[0]), calls[1..], disks[1..], end)))
  }

  /** The disk at the end of a run. */
  function Last(disk: seq<byte>, disks: seq<seq<byte>>): seq<byte> {
    if disks == [] then disk else disks[|disks| - 1]
  }

  /**
   Over every run of writes, whatever their outcome, releases and creations: each file's entry owns its chain, and no
   two files share a cluster. All sizes stay within their files' clusters if every call is in bounds. A file that no
   call is about keeps its chain and its byte string.
   */
  lemma {:induction false} RunKeepsFiles(disk: seq<byte>, g: Geometry, files: map<nat, seq<nat>>, calls: seq<Call>,
                                         disks: seq<seq<byte>>, end: map<nat, seq<nat>>)
    requires g.Fits(|disk|) && FilesOk(disk, g, files) && Runs(disk, g, files, calls, disks, end)
    ensures |Last(disk, disks)| == |disk| && FilesOk(Last(disk, disks), g, end)
    ensures SizesOk(disk, g, files) && AllInBounds(disk, g, files, calls, disks, end) ==>
              SizesOk(Last(disk, disks), g, end)
    ensures forall j | j in files && OnVolume(g, files[j]) && Untouched(calls, j) ::
              j in end && end[j] == files[j]
              && ChainBytes(Last(disk, disks), g, files[j]) == ChainBytes(disk, g, files[j])
    decreases |calls|
  {
    hide FileWritten, FatOf, FilesOk, SizesOk;
    if calls != [] {
      var c, next, files' := calls[0], disks[0], FilesAfter(disk, g, files, calls[0]);
      StepKeepsFiles(disk, next, g, files, c);
      if SizesOk(disk, g, files) { StepKeepsSizes(disk, next, g, files, c); }
      RunKeepsFiles(next, g, files', calls[1..], disks[1..], end);
      assert Last(next, disks[1..]) == Last(disk, disks);
      forall j | j in files && OnVolume(g, files[j]) && Untouched(calls, j)
        ensures j in files' && files'[j] == files[j] && Untouched(calls[1..], j)
        ensures ChainBytes(next, g, files[j]) == ChainBytes(disk, g, files[j])
      {
        OtherFileKeeps(disk, next, g, files, c, j);
      }
    }
  }

  /** No call of the run is about entry `j`. */
  predicate Untouched(calls: seq<Call>, j: nat) {
    forall k | 0 <= k < |calls| :: calls[k].i != j
  }

  /** No call of the run renews the file of entry `j` or puts a byte at its place `k`. */
  predicate Spared(calls: seq<Call>, j: nat, k: nat) {
    forall n | 0 <= n < |calls| :: !Renews(calls[n], j) && !Puts(calls[n], j, k)
  }

  predicate NotRenewed(calls: seq<Call>, j: nat) {
    forall n | 0 <= n < |calls| :: !Renews(calls[n], j)
  }

  /** Over every run a file that lives on keeps its clusters, and each byte that no successful write of the run puts. */
  lemma {:induction false} RunHolds(disk: seq<byte>, g: Geometry, files: map<nat, seq<nat>>, calls: seq<Call>,
                                    disks: seq<seq<byte>>, end: map<nat, seq<nat>>, j: nat)
    requires g.Fits(|disk|) && FilesOk(disk, g, files) && Runs(disk, g, files, calls, disks, end)
    requires j in files && NotRenewed(calls, j)
    ensures |Last(disk, disks)| == |disk| && j in end && files[j] <= end[j]
    ensures OnVolume(g, end[j]) ==>
              && OnVolume(g, files[j])
              && |ChainBytes(disk, g, files[j])| <= |ChainBytes(Last(disk, disks), g, end[j])|
              && forall k | 0 <= k < |ChainBytes(disk, g, files[j])| && Spared(calls, j, k) ::
                   ChainBytes(Last(disk, disks), g, end[j])[k] == ChainBytes(disk, g, files[j])[k]
    decreases |calls|
  {
    hide FilesOk, WrittenBy, OnlyEntry, ChainBytes, FilesAfter, OnVolume, FatOf;
    if calls != [] {
      var c, next, files' := calls[0], disks[0], FilesAfter(disk, g, files, calls[0]);
      StepKeepsFiles(disk, next, g, files, c);
      StepHolds(disk, next, g, files, c, j);
      RunHolds(next, g, files', calls[1..], disks[1..], end, j);
      assert Last(next, disks[1..]) == Last(disk, disks);
      forall k | 0 <= k && Spared(calls, j, k) ensures Spared(calls[1..], j, k) && !Puts(c, j, k) {
      }
    }
  }

  /** What a successful write puts is there at the end of every run in which the file lives on and no later write puts
      another byte in its place. */
  lemma {:induction false} RunWrites(disk: seq<byte>, g: Geometry, files: map<nat, seq<nat>>, calls: seq<Call>,
                                     disks: seq<seq<byte>>, end: map<nat, seq<nat>>, m: nat, k: nat)
    requires g.Fits(|disk|) && FilesOk(disk, g, files) && Runs(disk, g, files, calls, disks, end)
    requires m < |calls| && Puts(calls[m], calls[m].i, k) && Spared(calls[m + 1..], calls[m].i, k)
    ensures |Last(disk, disks)| == |disk| && calls[m].i in end
    ensures OnVolume(g, end[calls[m].i]) ==>
              && k < |ChainBytes(Last(disk, disks), g, end[calls[m].i])|
              && ChainBytes(Last(disk, disks), g, end[calls[m].i])[k] == calls[m].buf[k - calls[m].offset]
    decreases m
  {
    hide FilesOk, WrittenBy, OnlyEntry, ChainBytes, FilesAfter, OnVolume, FatOf;
    var c, next, files' := calls[0], disks[0], FilesAfter(disk, g, files, calls[0]);
    StepKeepsFiles(disk, next, g, files, c);
    assert Last(next, disks[1..]) == Last(disk, disks);
    if m == 0 {
      StepHolds(disk, next, g, files, c, c.i);
      RunHolds(next, g, files', calls[1..], disks[1..], end, c.i);
    } else {
      assert calls[1..][m - 1] == calls[m] && calls[1..][m..] == calls[m + 1..];
      RunWrites(next, g, files', calls[1..], disks[1..], end, m - 1, k);
    }
  }
}
