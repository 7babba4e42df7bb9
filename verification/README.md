# Verification of kernel algorithms

This project models eight parts of a small kernel for ARM microcontrollers in Dafny and proves what they do,
for all inputs, all runs or all reachable states. `dafny verify dfyconfig.toml` checks everything.

| part | files | what is proved |
|---|---|---|
| FAT16 driver | `FatTable`, `FatVolume`, `FatContents`, `FatChains`, `FatData`, `FatFiles`, `FatRuns`, `FatCalls` | the sector cache is coherent; table operations are lookup, first-zero search and update on an array; allocation only appends to its own chain and release frees exactly one chain; reads and writes are reads and patches of byte strings; other files keep their bytes; over every run of writes, deletions and creations each directory entry owns its own chain, and every file holds what was last written to it |
| heap | `Heap`, `MemMove` | the chunk list in memory, with its headers between the payloads, is the list that the calls describe; first fit; payloads are kept over whole runs |
| C library | `MemMove`, `Calendar`, `StrStr`, `Numbers` | memmove's overlap test, ctime's calendar, shift-or search, printing and parsing of numbers |
| processes | `Scheduling`, `Processes`, `Waits`, `Mishaps`, `Orphans`, `ProcessTable` | round robin is fair; over every run pids are distinct, the count is right, and sys_wait returns each child once, to its parent, with the status of its last death; what wakes a process, and when a wait finds a child |
| network | `SocketRing` | socket rings are byte streams across every wrap |
| initial file system | `Cpio` | the cpio loader undoes a printer of archives |
| terminal | `Tty` | the line discipline is a line editor over commands |
| ELF | `ElfHash` | for a name that no two symbols share, the hash lookup agrees with a plain search exactly when the symbol is indexed, which it is in a table made from its names; the hash in arithmetic |

`Words` holds fixed-width numbers, the order of their bytes, and the overwriting of a stretch of a sequence
(`Splice`); `Bits` holds bitwise operations on numbers.

Code that changes state in place is modelled by classes and methods with the loops of the source
(`SuperBlock`, `Inode`, `Allocator`, `Scheduler`, `Chip`, `Terminal`); each method is proved against a
specification function of the old state, and the theorems are lemmas about those functions. Helper methods
without a counterpart in the source are pieces of the function named in their comment.

## Assumptions and findings

Where the code does not do what it is for, the model keeps the code and a lemma gives the exact condition.

- FAT16: sectors have 512 bytes, block transfers and allocations succeed, and sector numbers fit 16 bits
  (`Geometry.Fits`). Every result about the table assumes `ScanLimit() <= Entries()`: the entries that the
  free-cluster search scans lie in front of the root directory, in the sectors taken for the table. The search takes
  all sectors of the volume, divided by those of a cluster, for the number of clusters, and so may scan more entries
  than there are clusters. For some table it then returns a cluster without sectors of the volume, exactly when
  `ScanLimit() > clusters` (`SearchLeavesVolume`; `SixteenMebibytes` is such a volume). What a write puts into the
  volume is therefore stated for writes that the volume has room for (`Housed`), which is exactly when a successful
  allocation stays in it (`HousedIff`), and always when `ScanLimit() <= clusters` (`AlwaysHoused`). `FAT16_mount`
  never sets the tag of the cached sector, so the cache is coherent exactly when the uninitialised tag names a sector
  equal to sector 0 (`SuperBlock.Mount`). The search for a free cluster can return cluster 2, which everything else
  rejects: an empty file is then refused and the cluster is lost (`FirstClusterTwo`), and a read stops at it
  (`ReadResult`). A failed write of a new file loses the clusters it took (`ShortageLosesClusters`). Whether a write
  succeeds is decided by the first cluster, the file's clusters and the free ones scanned (`AdjustResult`, and so the
  outcome of `Write`). A failed write enlarges the size in the entry up to its offset all the same, which is beyond
  the file's clusters exactly when it begins further than they reach together with the free ones that a chain already
  there is extended by (`WrittenSizeIff`; `UnboundedWrite` is such a write). A file whose first cluster is 2 can be
  read and deleted, but not written. `write_consecutive_sectors` does what it is asked exactly for offsets on a sector
  boundary and at least one whole sector (`ConsecutiveRight`, `ConsecutiveWrong`).
- Heap: `kmalloc` links the new header's place before it tests the capacity, so a refused request damages the list,
  unless the link written is the old one (`LinkBreaksList`, `Kmalloc`). The test is made in 32-bit arithmetic and also
  admits requests that make the volume reach 2^32 (`WrongGrantIff`); there is such a request unless the chunks in use
  fill the address space, and 0xfffffff0 bytes is one on an empty heap (`WrongGrant`). It counts volume, not
  addresses, so chunks leave the heap although every test passes (`QueueDrifts`): the test is right exactly for what
  goes into a gap, and for what there is room for beside the volume and the gaps in front of the tail (`InsideIff`),
  so it always is for a list without gaps, which allocations keep (`NoHoles`). A growing tail is not tested at all: it
  stays inside exactly when its end does (`InsideAfterResize`). `align_size` wraps for the four largest sizes
  (`AlignSizeCovers`). `krealloc` rounds twice when it moves a chunk (`RoundedTwice`) and copies the old size even
  into a smaller one: the other chunks survive that, whatever is copied, exactly when there is room for it
  (`RoomIff`), which is when the new chunk is the tail or the next one begins behind the copy (`RoomForNew`).
- memmove recognises disjoint ranges exactly up to 2^31 bytes (`LooksDisjointExact`) and takes all longer ones for
  disjoint (`LooksDisjointWrongBeyond`), so it goes wrong on those that move upwards, and only on those
  (`MoveIsSafeIff`, `UnsafeMovesGoWrong`).
- strstr takes 32-bit masks on the target, so needles of 32 to 63 characters shift by too much; with 64-bit masks it
  is exact up to 63. Longer needles are never found.
- itoa writes no terminator for the value 0, so the buffer must be zeroed.
- ctime gives no date for a time before 1970.
- Processes: the guard on a full table admits one spawn too many, which raises the count for good (`FullTableLeaks`,
  `LeakStays`; `TableFills` is a run up to it). A process that waits finds a child to return exactly when some child
  of its has ended and not run on since (`WaitFinds`). When no SIGCHLD was left over at the start this fails only if a
  TERMINATED child runs on, or a process ends that has the waiting one for its parent pointer without being among its
  children (`FreshWaitFinds`), because the slot has another occupant by now or its parent had no free place for it
  (`UnnamedIff`). A SIGCHLD of a child collected already wakes the next wait, which then has nothing to return
  (`StaleSignal`), and a process that waits alone in the table goes on without a signal (`AloneGoesOn`). A TERMINATED
  process becomes eligible again, and can run on, exactly by the steps of `WakesIff`. It can die again too, and
  sys_wait then returns the status of its last death: SIGTERM makes 143 of 0 (`StatusLost`), and a process that was
  killed runs again when its child exits (`KilledParentRuns`, `DeadParentRuns`). Every death frees the memory of the
  process; these runs take it that freeing it a second time, or running on with freed memory, does no harm. The status
  is that of the first death when nothing wakes the dead process (`FirstStatus`, `DeathsNoted`). A kill tells every
  child exactly when no null place lies in front of one (`EveryChildTold`); otherwise a child is missed and the code
  dereferences the null (`ChildNotTold`). A signal to an evaporated parent goes to a free slot, which the scheduler
  then picks (`CleanIff`, `StrayIsEligible`; `SignalForNobody` is a run up to it).
- tx_frame sizes its last piece by the free space, and sends bytes from behind the frame exactly when there is not
  room for the frame at first and a piece of the loop crosses the frame's end (`Overruns`).
- The cpio loader ends at any name that begins with "TRAILER!!!" (`EarlyTrailer`), and a short name without a
  terminator goes on with the digits of the file's size (`NameGoesOn`).

## Model

| member | source | states |
|---|---|---|
| `FatTable.FirstFreeIsLowest` | src/fs/fat16.c:215-235 | the search gives the lowest zero entry of the scanned range, and 0 exactly when there is none |
| `FatTable.ChainIsUnique` | src/fs/fat16.c:561-568 | a first cluster determines its chain |
| `FatTable.AppendKeepsChain` | src/fs/fat16.c:575-576 | linking a free cluster behind the last and marking it as the end gives the chain longer by it |
| `FatTable.GrowCorrect` | src/fs/fat16.c:569-580 | growing a chain appends free clusters only, changes no other entry, reaches the target or uses every free entry scanned, and never shrinks the chain |
| `FatTable.GrowStaysBelow` | src/fs/fat16.c:569-580 | the clusters added are numbered below a bound exactly when no more are missing than are free below it |
| `FatTable.AllocateStaysBelow` | src/fs/fat16.c:547-580 | the same for a new chain |
| `FatTable.GrowSparesOthers` | src/fs/fat16.c:569-580 | a disjoint chain stays a chain and stays disjoint, even when space runs out |
| `FatTable.GrowEnoughIff` | src/fs/fat16.c:569-573 | growth reaches its target exactly when there are enough free entries |
| `FatTable.GrowTakesAll` | src/fs/fat16.c:569-573 | when it does not, the chain has taken every free cluster scanned |
| `FatTable.OneCluster` | src/fs/fat16.c:561-568 | links from 0xfff0 on end a chain, and no cluster has such a number |
| `FatTable.GrownEnd` | src/fs/fat16.c:575-576 | whatever has grown ends in 0xffff |
| `FatTable.AllocateCorrect` | src/fs/fat16.c:547-580 | a new chain is made of clusters that were free, and is as long as asked or exhausts the table |
| `FatTable.AllocateThenClear` | src/fs/fat16.c:694-709 | allocating a fresh chain and releasing it restores the table |
| `FatTable.GrowKeepsConsistent` | src/fs/fat16.c:543-584 | a table that is a set of disjoint chains and reserved entries stays one when a chain grows |
| `FatTable.AllocateKeepsConsistent` | src/fs/fat16.c:543-584 | it stays one when a chain is allocated |
| `FatTable.ClearKeepsConsistent` | src/fs/fat16.c:694-709 | it stays one when a chain is released |
| `FatTable.RunStaysConsistent` | src/fs/fat16.c:543-709 | over every run of extending, starting and releasing chains the table stays a set of disjoint chains that hold every entry in use |
| `FatVolume.Geometry.SectorFormula` | src/fs/fat16.c:311-312 | the sector computed for a cluster, counted cluster by cluster |
| `FatVolume.ClustersDisjoint` | src/fs/fat16.c:269-270 | different clusters occupy different bytes, all behind the root directory |
| `FatVolume.InVolumeIff` | src/fs/fat16.c:311-312 | the clusters counted as the volume's are exactly those with all their sectors in it |
| `FatVolume.EntryIs` | src/fs/fat16.c:192-213 | the entry of a cluster is the little-endian word behind that of the clusters before it |
| `FatVolume.ScannedSectors` | src/fs/fat16.c:215-220 | the search scans the whole sectors of 256 entries in the quotient of sectors by those of a cluster |
| `FatVolume.SearchLeavesVolume` | src/fs/fat16.c:217 | for some table the search returns a cluster without sectors of the volume exactly when it scans more entries than there are clusters |
| `FatVolume.SixteenMebibytes` | src/fs/fat16.c:217 | a 16 MiB volume on which it does |
| `FatVolume.EntryUpdate` | src/fs/fat16.c:476-481 | two bytes written at an entry update that entry of the table and no other |
| `FatVolume.SuperBlock.Mount` | src/fs/fat16.c:772-802 | mounting leaves the cache coherent exactly when the uninitialised tag names a sector with the contents of sector 0 |
| `FatVolume.SuperBlock.CoveredSector` | src/fs/fat16.c:199-202 | the 16-bit range test accepts exactly the clusters of the cached sector, and none when that is sector 255 |
| `FatVolume.SuperBlock.EnsureCached` | src/fs/fat16.c:462-474 | after the reload the coherent cache holds the cluster's sector |
| `FatVolume.SuperBlock.FindNextCluster` | src/fs/fat16.c:194-213 | lookup in the table, with the cache kept coherent |
| `FatVolume.SuperBlock.FindNextFreeCluster` | src/fs/fat16.c:215-235 | first-zero search over the whole sectors scanned, with the cache kept coherent |
| `FatVolume.SuperBlock.MarkCluster` | src/fs/fat16.c:460-484 | update of one entry: exactly its two bytes change on the disk, and the cache stays coherent |
| `FatContents.PatchInChain` | src/fs/fat16.c:313-341 | overwriting part of one cluster patches the chain's byte string at the corresponding place |
| `FatContents.PatchSpares` | src/fs/fat16.c:313-341 | and leaves every other cluster and everything in front of the data region alone |
| `FatContents.OthersUntouched` | src/fs/fat16.c:293-346 | clusters outside the written chain keep their bytes |
| `FatContents.ChainFrame` | src/fs/fat16.c:293-346 | a chain whose clusters keep their bytes keeps its byte string |
| `FatChains.ClustersForExceeds` | src/fs/fat16.c:569 | the loop test asks for a chain strictly longer than the expected size |
| `FatChains.AdjustKeepsChain` | src/fs/fat16.c:543-584 | adjusting appends to its own chain only; success means more bytes than expected, failure for want of space means no free entry |
| `FatChains.AdjustResult` | src/fs/fat16.c:543-584 | how adjusting comes out, from the first cluster, the number of clusters and the free entries before it; when it fails, a chain already there has taken every free cluster scanned |
| `FatChains.AdjustStaysBelow` | src/fs/fat16.c:543-584 | a successful adjustment adds clusters below a bound exactly when no more are missing than are free below it |
| `FatChains.AdjustSparesOthers` | src/fs/fat16.c:543-584 | disjoint chains stay chains and disjoint, whatever the result |
| `FatChains.LastCluster` | src/fs/fat16.c:561-568 | the walk ends at the last cluster, having counted the chain |
| `FatChains.AppendClusters` | src/fs/fat16.c:569-580 | the appending loop grows the chain as the table model does |
| `FatChains.AdjustAllocatedClusters` | src/fs/fat16.c:543-584 | the whole operation: the table, first cluster and result are those of the model, and only table bytes change |
| `FatChains.InvalidateClusterChain` | src/fs/fat16.c:694-709 | releasing zeroes exactly the entries of the chain |
| `FatData.SkipClusters` | src/fs/fat16.c:255-259 | following links leads to the cluster of the file offset |
| `FatData.ReadClusterChain` | src/fs/fat16.c:237-291 | the bytes read are those of the chain's byte string, up to the count or the first later cluster with number 2; nothing else of the buffer changes |
| `FatData.StartCluster` | src/fs/fat16.c:300-304 | the strict comparison leaves an offset on a cluster boundary at the end of the cluster in front of it |
| `FatData.WriteClusterChain` | src/fs/fat16.c:293-346 | the chain's byte string becomes the old one with the data at the offset, and nothing outside the chain changes |
| `FatData.PatchCluster` | src/fs/fat16.c:313-321 | one cluster is read where needed, patched and written back |
| `FatFiles.ConsecutiveRight` | src/fs/fat16.c:486-533 | on a sector boundary and with a whole sector of data the write is the one asked for |
| `FatFiles.ConsecutiveWrong` | src/fs/fat16.c:512 | for every other offset and size there are a disk and a buffer for which it is not |
| `FatFiles.ConsecutiveBytes` | src/fs/fat16.c:486-533 | which byte of the buffer, or of the disk before, each byte of the disk is afterwards |
| `FatFiles.WriteConsecutiveSectors` | src/fs/fat16.c:486-533 | what the function leaves on the disk, for every offset and size |
| `FatFiles.DentryFields` | include/fs/fat16.h:12-26 | first cluster and size are the last two fields of an entry of 32 bytes, little-endian |
| `FatFiles.UpdatedEntries` | src/fs/fat16.c:629-643 | the directory update changes the first cluster and size of its own entry only, and the cluster only on success |
| `FatFiles.HousedIff` | src/fs/fat16.c:608-627 | when a successful allocation stays in the volume, in terms of the clusters free there |
| `FatFiles.AlwaysHoused` | src/fs/fat16.c:217 | it always does when the search scans no more entries than there are clusters |
| `FatFiles.WriteData` | src/fs/fat16.c:608-627 | allocation and writing: table, first cluster, outcome, and the patched byte string; a write that fails changes no cluster |
| `FatFiles.StoreDirectory` | src/fs/fat16.c:638-643 | writing the directory back changes no table entry and no cluster |
| `FatFiles.Write` | src/fs/fat16.c:586-647 | every branch of FAT16_write: the root directory, the refused cases, and the written file; which of the three outcomes it has, by the first cluster, cluster 2 and the free clusters before |
| `FatFiles.WriteFile` | src/fs/fat16.c:602-647 | a file of the root directory: patched byte string or unchanged clusters, grown chain, updated entry and inode, and the outcome in terms of the table before |
| `FatFiles.Read` | src/fs/fat16.c:349-373 | a read gives the bytes of the file at the offset, cut to its size |
| `FatFiles.OtherFilesKeepContents` | src/fs/fat16.c:586-647 | every file with a disjoint chain keeps its chain and its byte string |
| `FatFiles.OtherEntriesKeep` | src/fs/fat16.c:629-643 | every other directory entry keeps its first cluster and size |
| `FatFiles.ClusterTwoStaysOut` | src/fs/fat16.c:226-230 | while cluster 2 is in use it joins no chain |
| `FatFiles.FirstClusterTwo` | src/fs/fat16.c:547-558 | an empty file is refused its first cluster exactly when cluster 2 is the lowest free one |
| `FatFiles.ShortageLosesClusters` | src/fs/fat16.c:611-621 | a new file that runs out of space leaves the table consistent exactly when there was no cluster to take |
| `FatFiles.WriteThenRead` | src/fs/fat16.c:349-373 | a write succeeds exactly when the table before it says so, and reading back a range just written gives the written bytes, for every alignment |
| `FatRuns.WrittenHasChain` | src/fs/fat16.c:586-647 | after a write, whatever its outcome, the file's entry owns its chain, which a new file has none of when the write fails |
| `FatRuns.OtherHasChain` | src/fs/fat16.c:586-647 | every other entry owns its chain still, which shares no cluster with the written one |
| `FatRuns.WrittenSizeIff` | src/fs/fat16.c:622-643 | from the table and the entry before a write: the size stays within the clusters exactly when the write succeeds or begins within them and the free clusters that a chain already there gets |
| `FatRuns.UnboundedWrite` | src/fs/fat16.c:622-643 | a table, offset and size for which it does not |
| `FatRuns.StepKeepsSizes` | src/fs/fat16.c:586-755 | writing, deleting or creating a file keeps all sizes within their clusters exactly then |
| `FatRuns.WrittenBytes` | src/fs/fat16.c:586-647 | the byte string of a written file: the data where the write succeeds, and every other byte as before |
| `FatRuns.OtherFileKeeps` | src/fs/fat16.c:586-755 | a file that a call is not about keeps its chain and its byte string |
| `FatRuns.RunKeepsFiles` | src/fs/fat16.c:586-755 | over every run of such calls: each entry owns its chain, no two files share a cluster, sizes stay in bounds, untouched files keep their bytes |
| `FatRuns.RunHolds` | src/fs/fat16.c:586-755 | over every run a file that lives on keeps its clusters, and in chains of the volume every byte that no successful write of the run puts |
| `FatRuns.RunWrites` | src/fs/fat16.c:586-755 | over every run what a successful write puts is there at the end, if the chain lies in the volume, unless the file ends or a later write puts another byte in its place |
| `FatCalls.DeleteEntry` | src/fs/fat16.c:731-750 | a matching entry: its chain is released and its entry marked; no other entry and no cluster changes |
| `FatCalls.DeleteFile` | src/fs/fat16.c:711-758 | the refused cases, and a run of releases of all files with the name and no others |
| `FatCalls.FindFreeEntry` | src/fs/fat16.c:649-657 | the lowest entry that is not in use, or none |
| `FatCalls.NewEntryBytes` | src/fs/fat16.c:681-683 | a new entry is the eleven bytes of the name and zeros |
| `FatCalls.CreateFile` | src/fs/fat16.c:659-692 | the refused cases, and an empty file in the lowest free entry; no other entry and no cluster changes |
| `MemMove.LooksDisjointExact` | src/kstdlib/libc.c:714 | the one modular comparison is true exactly for disjoint ranges, up to 2^31 bytes |
| `MemMove.LooksDisjointWrongBeyond` | src/kstdlib/libc.c:714 | beyond that it is always true, and the ranges always overlap |
| `MemMove.CopyUpRight` | src/kstdlib/libc.c:718-722 | ascending copies are right when the destination does not begin inside the source |
| `MemMove.CopyDownRight` | src/kstdlib/libc.c:723-728 | descending copies are right when the source does not begin inside the destination |
| `MemMove.CopyUpRepeats` | src/kstdlib/libc.c:699-705 | an ascending copy into the source repeats the cells between the two places |
| `MemMove.ShortMovesAreSafe` | src/kstdlib/libc.c:707-731 | every move of at most 2^31 bytes is one for which memmove is right |
| `MemMove.MoveIsSafeIff` | src/kstdlib/libc.c:707-731 | memmove is right for every move of at most 2^31 bytes, and of the longer ones for those that do not go upwards |
| `MemMove.Memcpy` | src/kstdlib/libc.c:699-705 | memcpy is the ascending copy |
| `MemMove.Memmove` | src/kstdlib/libc.c:707-731 | the destination holds the old source and nothing else changes, on every branch of a safe move |
| `MemMove.UnsafeMovesGoWrong` | src/kstdlib/libc.c:714-716 | on the others the result is wrong as soon as the first cells differ |
| `Heap.AlignSizeCovers` | src/kernel/memory.c:32-44 | a rounded size is the next multiple of four above the request, at least 8, and covers the request exactly when this is not one of the four largest sizes |
| `Heap.AlignPtrRounds` | src/kernel/memory.c:46-54 | a pointer goes up to the next multiple of four, and the three largest go round to 0 |
| `Heap.LayoutApart` | src/kernel/memory.c:10-26 | chunks with their headers never overlap |
| `Heap.FirstFitIsLowest` | src/kernel/memory.c:56-72 | the place found is the first gap that is large enough, or the tail when there is none |
| `Heap.InsertsFirstFit` | src/kernel/memory.c:56-97 | a chunk goes right behind the one in front of the first gap of its size and 12 bytes, or behind the last |
| `Heap.HeaderWords` | src/kernel/memory.c:15-19 | a header is the payload's address, its size, and the next header's address |
| `Heap.InsertedLayout` | src/kernel/memory.c:74-101 | a new chunk keeps the list in address order without overlaps, and adds its size and one chunk |
| `Heap.RemovedLayout` | src/kernel/memory.c:215-245 | so does removing a chunk, the other way round |
| `Heap.InsertThenRemove` | src/kernel/memory.c:215-245 | removing the chunk just inserted gives back the list |
| `Heap.InsideAfterInsert` | src/kernel/memory.c:90-93 | only the new chunk can leave the heap |
| `Heap.InsideIff` | src/kernel/memory.c:83-93 | the chunks stay inside exactly when the new one goes into a gap, or volume, gaps and the new chunk fit into the heap; the test leaves out the gaps |
| `Heap.NoHoles` | src/kernel/memory.c:83-93 | a list without gaps stays one when a chunk is added, and then the volume test keeps every chunk inside |
| `Heap.QueueDrifts` | src/kernel/memory.c:74-101 | a queue of two chunks passes the volume test at every round and leaves the heap |
| `Heap.LinkBreaksList` | src/kernel/memory.c:84-93 | the link written before the test takes the list out of order, unless it is the old link |
| `Heap.AddedIsLinked` | src/kernel/memory.c:84-100 | one header written and one link rewritten turn the list in memory into the longer one |
| `Heap.RemovedIsLinked` | src/kernel/memory.c:215-245 | one link rewritten takes a chunk out of the list in memory |
| `Heap.PayloadWriteKeepsLinks` | src/kernel/memory.c:10-26 | whatever is written into payloads, the list in memory stays in order |
| `Heap.AllocSparesPayloads` | src/kernel/memory.c:74-101 | allocating writes into no payload in use |
| `Heap.FreeSparesPayloads` | src/kernel/memory.c:215-245 | freeing writes into no payload in use |
| `Heap.InsideAfterResize` | src/kernel/memory.c:158-162 | a growing tail stays inside the heap exactly when its new end does, which nothing tests |
| `Heap.RoomIff` | src/kernel/memory.c:169-171 | the other chunks survive every copy into a new chunk exactly when there is room for it |
| `Heap.RoomForNew` | src/kernel/memory.c:169-171 | there is when the copy is no longer than the new chunk, or that is the tail, or the next chunk begins behind the copy |
| `Heap.RoundedTwice` | src/kernel/memory.c:154-167 | a chunk that krealloc moves is four bytes larger than one that kmalloc makes |
| `Heap.Allocator.WrongGrantIff` | src/kernel/memory.c:90-93 | what the 32-bit volume test admits: what fits, and what makes the sum wrap to less than the heap |
| `Heap.Allocator.WrongGrant` | src/kernel/memory.c:90-93 | a request that it admits wrongly, unless the chunks in use fill the address space |
| `Heap.Allocator.HeapSizeExact` | src/kernel/memory.c:278-280 | the heap size is the exact sum of chunks and headers, never wrapped |
| `Heap.Allocator.FindFreeChunkPredecessor` | src/kernel/memory.c:56-72 | the walk along the links finds the first-fit predecessor |
| `Heap.Allocator.Kmalloc` | src/kernel/memory.c:74-101 | for every size: the pointer and the counters; for a chunk that ends below 2^32 success exactly when the test admits it, then first fit and untouched payloads, otherwise a list out of order |
| `Heap.Allocator.FindChunkByPtr` | src/kernel/memory.c:133-152 | the header of a chunk in use, or null |
| `Heap.Allocator.Kfree` | src/kernel/memory.c:215-245 | the chunk leaves the list, only one link is rewritten, every payload keeps its contents |
| `Heap.Allocator.ResizeTail` | src/kernel/memory.c:158-162 | the tail changes its size in place and both the header and the counter follow |
| `Heap.Allocator.Krealloc` | src/kernel/memory.c:154-176 | null, tail and moving chunks, growing or shrinking: the new payload begins with the old contents, as many as it holds, and every other payload is kept |
| `Heap.Allocator.Store` | src/kernel/memory.c:10-26 | a client's write into a payload keeps the list in order |
| `Heap.Allocator.AllocateThenFree` | src/kernel/memory.c:215-245 | kfree of the pointer just returned restores the list and both counters |
| `Heap.Allocator.Run` | src/kernel/memory.c:56-245 | every run of successful calls and payload writes: the list is the one the calls describe, and undisturbed chunks keep their contents |
| `Calendar.SplitYear` | src/kstdlib/libc.c:828-841 | the year loop: the seconds left are fewer than the year has, and the years counted one by one make up the rest |
| `Calendar.MonthLengths` | src/kstdlib/libc.c:845 | the lengths of the months as a formula, 31 and 30 in turns from January and again from August, February by the length of its year |
| `Calendar.DaysBeforeMonthClosed` | src/kstdlib/libc.c:844-860 | the days in front of a month in closed form |
| `Calendar.SplitMonth` | src/kstdlib/libc.c:843-859 | the month loop, the same for months; it never runs past December |
| `Calendar.Ctime` | src/kstdlib/libc.c:818-868 | a Gregorian date and time exactly for times from 1970 on; counted along the calendar, and by the POSIX formula, it is the second given |
| `Calendar.TimesInOrder` | src/kstdlib/libc.c:818-868 | a later second has the larger (year, month, day, hour, minute, second), and only equal seconds the same |
| `Calendar.PosixIsSeconds` | src/kstdlib/libc.c:818-868 | "Seconds Since the Epoch" of IEEE Std 1003.1-2017, section 4.16, counts the same seconds as the calendar |
| `Calendar.DaysBeforeYearClosed` | src/kstdlib/libc.c:814-816 | the leap-year rule counted year by year is the closed form with quotients by 4, 100 and 400 |
| `StrStr.TracksStep` | src/kstdlib/libc.c:330-332 | bit j of the automaton is 0 exactly when the needle's first j characters end the scanned text: kept by a round |
| `StrStr.PatternMasks` | src/kstdlib/libc.c:323-328 | bit j of a character's mask is 0 exactly when the needle has it in place j, with 32-bit or 64-bit masks |
| `StrStr.StrStr` | src/kstdlib/libc.c:309-340 | the first occurrence, and null exactly when there is none or the needle is longer than 63 |
| `Numbers.DigitsRoundTrip` | src/kstdlib/libc.c:360-389 | reading a printed number by Horner's rule gives the number |
| `Numbers.Numerals` | src/kstdlib/libc.c:376-382 | itoa writes the numerals 0 to 9 and A to F, and strtoul reads these and a to f |
| `Numbers.OnlyNumerals` | src/kstdlib/libc.c:407-419 | and no other character |
| `Numbers.NoLeadingZero` | src/kstdlib/libc.c:361-370 | only the number 0 begins with the numeral 0 |
| `Numbers.ReadUpToIs` | src/kstdlib/libc.c:406-434 | strtoul reads all of the text, or up to and with the first character that is no digit |
| `Numbers.DigitsFit` | src/kstdlib/libc.c:422 | every partial sum for a printed number is at most the number, so nothing wraps |
| `Numbers.PowersFit` | src/kstdlib/libc.c:391-397 | so is every power |
| `Numbers.Itoa` | src/kstdlib/libc.c:360-389 | the digits in order, a terminator except for 0, nothing else; the buffer holds the number exactly when it is not 0 or the next byte was zero |
| `Numbers.PowWord` | src/kstdlib/libc.c:391-397 | the power modulo 2^32 |
| `Numbers.SumStep` | src/kstdlib/libc.c:421-424 | one digit more: the sum of powers follows Horner's rule modulo 2^32 |
| `Numbers.Strtoul` | src/kstdlib/libc.c:399-436 | on digits of the base the value modulo 2^32, on any other text 0; and how far the text was read |
| `Numbers.PrintThenRead` | src/kstdlib/libc.c:399-436 | strtoul of itoa gives every 32-bit number back, in every base from 2 to 16 |
| `Scheduling.PickIsNext` | src/kernel/proc.c:213-243 | the pick is the cyclically next slot that is ready or has a signal, and idle exactly when there is none |
| `Scheduling.PickOrCloser` | src/kernel/proc.c:213-243 | a call picks an eligible slot or comes closer to it |
| `Scheduling.Fair` | src/kernel/proc.c:213-243 | a slot eligible at every call is picked by one of as many calls as there are slots, whatever else happens |
| `Processes.KilledIs` | src/kernel/proc.c:767-805 | a kill ends one process and adds signals to others |
| `Processes.SpawnKeeps` | src/kernel/proc.c:335-443 | spawning keeps the invariant of the table |
| `Processes.CollectKeeps` | src/kernel/proc.c:824-841 | collecting a child keeps it, and the child is returned once, to its parent |
| `Processes.ExitKeeps` | src/kernel/proc.c:744-753 | exiting keeps it |
| `Processes.KillKeeps` | src/kernel/proc.c:755-806 | killing keeps it |
| `Processes.SwitchKeeps` | src/kernel/proc.c:260-306 | a context switch keeps it, also when it delivers a signal that ends a process |
| `Processes.DeliveryEnds` | src/kernel/signal.c:71-107 | signals 1, 2, 9 and 15 end the process, with 128 more as its status |
| `Processes.DeliveryPasses` | src/kernel/proc.c:267-291 | SIGCHLD ends a wait; any other process runs on, unless it is in kernel mode |
| `Processes.ExitStaysDown` | src/kernel/proc.c:744-753 | a process that has exited has no signals and is in kernel mode, so that it does not run on when it is chosen |
| `Processes.DeadSlotIs` | src/kernel/proc.c:824-839 | the child found is the one process of its pid, and was spawned by the caller |
| `Processes.DeadPlaceIsHighest` | src/kernel/proc.c:824-829 | of several TERMINATED children the one in the highest place is returned |
| `Processes.RunKeeps` | src/kernel/proc.c:335-842 | the invariant holds after every run |
| `Processes.EveryRun` | src/kernel/proc.c:335-842 | distinct pids; an exact count unless a spawn found the table full; each pid returned by at most one wait, to its parent, after it was TERMINATED, with the status of its last death |
| `Processes.KillSignals` | src/kernel/proc.c:767-770 | an ending process sends SIGCHLD to its parent and SIGHUP to the children in its first childrenCount places, and changes nobody else |
| `Processes.EveryChildTold` | src/kernel/proc.c:767-770 | all its children get SIGHUP exactly when no null place lies in front of a child, which is when the loop meets no null |
| `Processes.ExitWakesParent` | src/kernel/proc.c:276-280 | a waiting parent becomes eligible when a child exits, and once chosen has a child to return |
| `Processes.SpawnExitCollect` | src/kernel/proc.c:808-842 | spawn, exit and wait undo each other: pid and status are the child's, and the table is what it was |
| `Processes.KilledParentRuns` | src/kernel/proc.c:267-291 | a killed parent not collected yet runs again when its child exits, unless it was killed inside the kernel |
| `Processes.FullTableLeaks` | src/kernel/proc.c:167-173 | a spawn into a full table adds no process and raises the count |
| `Processes.LeakStays` | src/kernel/proc.c:167-190 | no other step changes how far the count is above the number of processes, and none brings it back |
| `Processes.CollectIff` | src/kernel/proc.c:824-829 | the second loop of sys_wait finds a child exactly when one is TERMINATED |
| `Waits.EndSends` | src/kernel/proc.c:767-770 | whoever ends, in whatever way, another slot only gets signals, and these |
| `Waits.WakesIff` | src/kernel/proc.c:236-243 | what makes a TERMINATED process eligible: the end of a process that points to it or names it, SIGTERM to it, or the end of its own time slice |
| `Waits.TerminatedIff` | src/kernel/proc.c:260-306 | a process is TERMINATED after a step exactly when the step ends it, or it was, does not run on and is not collected |
| `Waits.WaitFinds` | src/kernel/proc.c:808-829 | over every run, a wait finds a child when SIGCHLD resumes it exactly when some child has ended and not run on since |
| `Waits.FreshWaitFinds` | src/kernel/proc.c:808-829 | begun without a SIGCHLD left over it finds one, unless a TERMINATED child runs on or a process outside its places ends with it for a parent |
| `Waits.UnnamedIff` | src/kernel/proc.c:426-439 | after every run a process is outside its parent pointer's places exactly when that slot has another occupant, or had no free place for it |
| `Waits.WaiterChosen` | src/kernel/proc.c:276-283 | after every run a switch that chooses a waiting process delivers SIGCHLD, or ends it, or finds it alone |
| `Waits.AloneGoesOn` | src/kernel/proc.c:219-221 | a process that waits alone goes on without a child |
| `Waits.FirstStatus` | src/kernel/proc.c:808-842 | the status returned is that of the first death after every run that leaves the dead process alone |
| `Waits.DeathsNoted` | src/kernel/proc.c:744-806 | a process dies once more exactly by a step that ends it, with the exit status its slot has then |
| `Waits.CleanIff` | src/kernel/proc.c:767-770 | free slots stay zeroed exactly by the steps that send no signal to an evaporated parent or to pid 0 |
| `Waits.StrayIsEligible` | src/kernel/proc.c:236-239 | a free slot with a signal is chosen like a process and never taken by a spawn |
| `Waits.PicksProcesses` | src/kernel/proc.c:213-243 | after every run without such a step the scheduler picks a slot that holds a process, or none |
| `Mishaps.StaleSignal` | src/kernel/proc.c:276-280 | a run in which a wait goes on without a child |
| `Mishaps.StatusLost` | src/kernel/proc.c:755-764 | a run in which sys_wait returns 143 for a child that exited with 0 |
| `Mishaps.ChildNotTold` | src/kernel/proc.c:767-770 | a run after which an exit leaves a living child without SIGHUP |
| `Mishaps.SpawnIs` | src/kernel/proc.c:388-440 | a spawn fills the lowest zeroed slot with a ready process of one place less than its parent, and names it in the parent's lowest free place |
| `Orphans.TableFills` | src/kernel/proc.c:167-173 | a run of nineteen spawns that fills the table with an exact count, so that the next spawn is counted and finds no slot |
| `Orphans.DeadParentRuns` | src/kernel/proc.c:267-291 | a run in which a process kills its parent and exits, and the parent runs again |
| `Orphans.SignalForNobody` | src/kernel/proc.c:236-239 | a run after which a signal goes to the free slot of a collected parent, which is eligible then |
| `ProcessTable.Scheduler.PopulateProcess` | src/kernel/proc.c:175-190 | the first free slot is filled, and the count raised whether or not there is one |
| `ProcessTable.Scheduler.Spawn` | src/kernel/proc.c:335-443 | the new table, the invariant, and the pid returned |
| `ProcessTable.Scheduler.Kill` | src/kernel/proc.c:755-806 | the new table and the invariant |
| `ProcessTable.Scheduler.Exit` | src/kernel/proc.c:744-753 | the new table and the invariant |
| `ProcessTable.Scheduler.WaitBegin` | src/kernel/proc.c:808-820 | whether a child is terminated already |
| `ProcessTable.Scheduler.WaitEnd` | src/kernel/proc.c:821-842 | pid and status of the terminated child in the highest place, its slot zeroed and its place freed |
| `ProcessTable.Scheduler.GetNextProcess` | src/kernel/proc.c:213-243 | the loop with its static index makes the round-robin choice and comes back to its place when it returns idle |
| `ProcessTable.Scheduler.ContextSwitch` | src/kernel/proc.c:260-306 | choice, delivery of one signal, and the new state |
| `ProcessTable.Scheduler.UpdateProcess` | src/kernel/proc.c:245-252 | the end of a time slice |
| `ProcessTable.Scheduler.PopSignal` | src/kernel/signal.c:38-50 | the first pending signal leaves the queue |
| `SocketRing.WrittenHolds` | src/drivers/ethernet.c:455-469 | after a write the last 2048 bytes of the longer stream are in their cells |
| `SocketRing.TwoPieces` | src/drivers/ethernet.c:460-465 | a split write puts every byte into its cell |
| `SocketRing.ReadPieces` | src/drivers/ethernet.c:495-503 | a read, split or not, gives the stream's bytes |
| `SocketRing.MaskedPointer` | src/drivers/ethernet.c:458 | the masked 16-bit pointer is the place in the ring, however often it wrapped |
| `SocketRing.RegisterIsBigEndian` | src/drivers/ethernet.c:438-445 | registers lie in the chip with the high byte first |
| `SocketRing.SocketMap` | src/drivers/ethernet.c:22-50 | where the registers and rings of a socket are |
| `SocketRing.OthersUnchanged` | src/drivers/ethernet.c:652-665 | sending through one socket leaves every other ring as it was |
| `SocketRing.Chip.AddToPointer` | src/drivers/ethernet.c:438-445 | the pointer advances modulo 2^16, and only its two bytes change |
| `SocketRing.Chip.WriteTxbuf` | src/drivers/ethernet.c:455-469 | the frame lies in the cells from the write pointer on |
| `SocketRing.Chip.Append` | src/drivers/ethernet.c:531-533 | the stream of the transmit ring gets the piece appended |
| `SocketRing.Chip.TxFrame` | src/drivers/ethernet.c:510-538 | the stream gets the bytes that the loop sends |
| `SocketRing.Chip.ReadRxbuf` | src/drivers/ethernet.c:471-507 | unread bytes come in stream order, as many as asked for or there are |
| `SocketRing.Chip.RxFrame` | src/drivers/ethernet.c:540-559 | and the read pointer moves behind them |
| `SocketRing.Overruns` | src/drivers/ethernet.c:516-528 | tx_frame sends more than the frame exactly when it does not fit at first and a piece of the loop crosses its end |
| `SocketRing.SentIs` | src/drivers/ethernet.c:516-528 | what is sent: the frame at once, or whole free spaces until they make it up or there is none |
| `SocketRing.OverrunHappens` | src/drivers/ethernet.c:516-528 | 3000 bytes through an empty ring send 4096 |
| `Cpio.LoadInitramfs` | src/init/archive_loader.c:44-112 | what the loader creates, in order, and why it stops |
| `Cpio.LoadNext` | src/init/archive_loader.c:44-111 | one round: header, name, padding, contents |
| `Cpio.ReadFields` | src/init/archive_loader.c:67-75 | mode, name size and file size by strtoul |
| `Cpio.RoundAt` | src/init/archive_loader.c:86-110 | the next header begins behind this one, at a multiple of four |
| `Cpio.WhyItStops` | src/init/archive_loader.c:46-80 | which of the four reasons ends the archive, by the bytes left, the magic, the trailer and the size of the name |
| `Cpio.NameGoesOn` | src/init/archive_loader.c:67-83 | a short name without a terminator goes on with the digits of the file's size |
| `Cpio.Spelled` | src/init/archive_loader.c:52-60 | the two texts, letter by letter |
| `Cpio.FieldOfHeader` | src/init/archive_loader.c:67-75 | a printed field reads as its number |
| `Cpio.TrailerTest` | src/init/archive_loader.c:57-64 | the ten bytes read ahead match exactly when the name begins with the trailer's |
| `Cpio.ItemUnpacks` | src/init/archive_loader.c:44-111 | one printed directory or file is unpacked as it is, up to its end |
| `Cpio.ItemsUnpack` | src/init/archive_loader.c:44-112 | so are any number of them, in order |
| `Cpio.RoundTrip` | src/init/archive_loader.c:44-112 | the loader run on a printed archive creates exactly its directories and files, by their kind, and stops at the trailer |
| `Cpio.EarlyTrailer` | src/init/archive_loader.c:57-64 | a name that only begins like the trailer's ends the archive, whatever follows |
| `Tty.ArrowLaws` | src/kernel/tty.c:195-212 | the arrows keep the text and undo each other inside it |
| `Tty.TypingLaws` | src/kernel/tty.c:224-233 | a character goes in at the cursor, and backspace takes it back |
| `Tty.ObeyEdits` | src/kernel/tty.c:151-233 | what each key and sequence does to the text and to the place of the cursor in it |
| `Tty.SequencePressed` | src/kernel/tty.c:239-258 | an escape sequence arriving in three calls does what it means |
| `Tty.PressesObey` | src/kernel/tty.c:235-274 | keys pressed one by one do what the commands mean that they make up, with an unfinished sequence waiting |
| `Tty.TypingObeys` | src/kernel/tty.c:235-274 | so for a whole line from reset |
| `Tty.Terminal.InsertAndShift` | src/kernel/tty.c:100-113 | the character is inserted and what follows moves up by one |
| `Tty.Terminal.DeleteAndShift` | src/kernel/tty.c:115-123 | the character is deleted and what follows moves down by one |
| `Tty.Terminal.HandleBackspace` | src/kernel/tty.c:151-159 | the character left of the cursor goes |
| `Tty.Terminal.HandleNewline` | src/kernel/tty.c:161-175 | the line gets its newline, and the cursor ends one past the length |
| `Tty.Terminal.HandleSequence` | src/kernel/tty.c:195-221 | the cursor moves inside the line |
| `Tty.Terminal.WriteToKeyboardBuffer` | src/kernel/tty.c:235-274 | buffer, length, cursor and escape state follow the editor for every key |
| `Tty.Terminal.Read` | src/kernel/tty.c:314-335 | the line with its newline, cut to the count, and a zero behind it; the terminal is reset |
| `Tty.Terminal.TypeThenRead` | src/kernel/tty.c:314-335 | a line typed and read is what its commands make it |
| `Bits.BitsOf` | src/kernel/loader.c:415-417 | conjunction and exclusive disjunction, bit by bit |
| `ElfHash.HashStepIs` | src/kernel/loader.c:413-418 | a round in arithmetic: 16 times the hash and the character, with the top nibble put into the second one |
| `ElfHash.ShortNames` | src/kernel/loader.c:411-420 | names of up to five characters are their own hash, in base 16 |
| `ElfHash.HashIsShort` | src/kernel/loader.c:411-420 | the hash is below 2^28 for every name |
| `ElfHash.ElfHash` | src/kernel/loader.c:411-420 | the loop computes it |
| `ElfHash.SameName` | src/kernel/loader.c:493 | names are compared as C strings |
| `ElfHash.Follow` | src/kernel/loader.c:487-500 | the loop along a chain without cycle ends |
| `ElfHash.GetDyn` | src/kernel/loader.c:469-504 | the lookup, and when it agrees with a plain search |
| `ElfHash.LookupIsLinear` | src/kernel/loader.c:469-504 | for a name that no two symbols share it agrees with a plain search exactly when the symbol, if it has a value, is chained under the bucket of its hash |
| `ElfHash.MadeTablesServe` | src/kernel/loader.c:469-504 | in a table made from its names no chain has a cycle, and every name that no two symbols share is found |
| `ElfHash.OneSymbol` | src/kernel/loader.c:469-504 | a symbol "ab" under the first of three buckets is found |

## Left out

- FatFiles.Read: does not model reading the root directory itself (`src/fs/fat16.c:355-366`), which copies a cached list of entries.
- FatVolume.SuperBlock.Mount: asks that the entries scanned lie in front of the root directory (`ScanLimit() <= Entries()`); behind it the search would read directory entries as links.
- FatVolume.SuperBlock.FindNextFreeCluster: asks the same.
- FatFiles.WriteThenRead: speaks of files whose chain avoids cluster 2 and whose first cluster is not the number of the root directory's first sector, the two confusions listed above.
- FatFiles.Write: does not model block transfers or memory requests that fail, needs file offsets below 2^31, and speaks of files that the volume has room for (`Housed`); what is written to a cluster without sectors of the volume is not modelled.
- FatCalls.DeleteFile: which entries match the name sought is a parameter, because decoding names is not modelled; the entries that match are files, with a chain to release or first cluster 0.
- FatCalls.CreateFile: in the root directory, with the eleven bytes of the encoded name and whether the name is taken as parameters; extensions of more than three letters, which write over the rest of the entry, and names that begin with byte 0xe5, which leave it free, are not modelled.
- Long names and subdirectories.
- Heap.Allocator.Kmalloc: a cell of the memory holds a byte or a whole header field, so the byte order inside header words is not modelled; what memory holds after a chunk that does not end below 2^32 was granted is not stated.
- Heap.Allocator.Krealloc: speaks of pointers in use or null, of new ends below 2^32, and of copies that there is room for (`ResizeFits`, whose exact meaning `RoomIff` and `RoomForNew` give).
- Heap.Allocator.Run: speaks of runs of successful calls, because a refused `kmalloc` damages the list.
- sys_malloc, sys_realloc and sys_free, which add accounting per process.
- MemMove.Memmove: does not model returning the destination pointer.
- Calendar.Ctime: does not model the formatting of the six numbers by snprintf.
- StrStr.StrStr: asks for needles below the width of `unsigned long`, or above 63, because other shifts are undefined.
- Numbers.Itoa: asks for a base of at least 2; with base 1 the loop does not end, with base 0 it divides by zero.
- Processes.EveryRun: kills go to processes that have a parent and are not TERMINATED, waits go on only with a child to return (`WaitFinds` says when), and init's places start out empty; files, memory, pipes, names and process groups are not modelled, pids do not wrap, and a null child inside the first children_count places is passed over by a kill.
- ProcessTable.Scheduler.ContextSwitch: models the default actions of signals only; handlers of the process's own, saved registers and the waiting for resources are not modelled.
- ProcessTable.Scheduler.Kill: asks for a process that has a parent and is not TERMINATED, unless the signal is SIGTERM; for init the code dereferences a null parent, and for a TERMINATED process it frees its memory twice.
- ProcessTable.Scheduler.Exit: asks for a process that has a parent; for init the code dereferences a null parent.
- ProcessTable.Scheduler.Spawn: the parent may have at least one child; memory requests succeed.
- mutex_lock and interrupts inside a step.
- SocketRing.Chip.TxFrame: every send completes, the free space is at most a ring and does not shrink between two readings of one round.
- SocketRing.Chip.ReadRxbuf: the polling loop reads the count of unread bytes once, and the chip's writes into the ring are an assumption about what is unread.
- Socket commands, connection set-up and timeouts.
- Cpio.LoadInitramfs: stops at a short header, where the code goes on with what the buffer held before; contents cut short by the end of the archive are not padded with what memory held.
- Cpio.LoadNext: stops at a short header in the same way.
- Tty.Terminal.WriteToKeyboardBuffer: canonical mode, without echo and without the signal for ETX, and with room for one more character.
- Tty.Terminal.Read: a line is there; waiting for it is not modelled, and keys between newline and read are outside the model.
- ElfHash.GetDyn: asks for tables whose sizes and indices agree and whose chains have no cycle, which the code does not test.
- ELF images and relocation, drivers, the shell and the user programs.
