# FAT file system driver: verified model

This project models `FatPkg/EnhancedFatDxe`, a FAT12/16/32 driver, as a stack of refinements, and the packet layer of
`EmbeddedPkg/GdbStub` as a second, small component. Each layer keeps mutable state that must agree with something
simple, and each layer's theorem is the precondition of the next.

| layer | files | what it is proved to be |
|---|---|---|
| geometry | `BootSector.dfy` | regions that follow each other; when the clusters fit the volume |
| write-back cache | `Volume.dfy`, `DiskCache.dfy` | one flat byte array for each region; all FAT copies stay equal |
| FAT table | `FatEntry.dfy`, `FatTable.dfy` | a map from cluster numbers to values |
| allocator | `FreeSpace.dfy`, `Chains.dfy`, `Growth.dfy`, `FileSpace.dfy` | chains that are cut and extended, with rollback and an exact free count |
| seek and file data | `FilePosition.dfy`, `FileContents.dfy`, `FileIo.dfy` | an access to a file is an access to its bytes; other files are untouched |
| open files | `FileRuns.dfy`, `FileArray.dfy`, `OpenFile.dfy` | every run of calls keeps a file ready; reads, writes and changes of size make one resizable byte array |
| names | `ShortName.dfy`, `EntryNames.dfy` | valid names, short names, case flags |
| directory | `DirSlots.dfy`, `DirScan.dfy`, `DirStore.dfy`, `NameIndex.dfy`, `Directory.dfy`, `DirRuns.dfy`, `DirOnDisk.dfy`, `DiskRuns.dfy` | an ordered listing that the slots determine, the slots being the bytes of an open file; whole runs over such a file |
| lifetimes | `AsyncTask.dfy`, `FlushPath.dfy`, `RefTree.dfy` | one signal and one free for each task; a change is written up to the root; the open files left are the needed ones |
| durability | `Cleanup.dfy`, `FlushOnDisk.dfy`, `Durable.dfy` | a file that was flushed is found again, on its path and with its bytes, when the volume is mounted anew |
| GDB packets | `GdbPacket.dfy` | what is framed is received |

`FatTypes.dfy` holds shared arithmetic. State that the driver updates in place is a class (`DiskCache`, `Volume`, `OFile`,
`DirFile`, `NameTable`, `DirEnt`, `Directory`, `Held`, `Task`, `OpenFiles`, `Line`). Methods are proved against pure
functions, and the lemmas are about those functions. `dafny verify dfyconfig.toml` checks everything.

Results where the code does less than one might expect, each with its exact condition and a concrete case:

- Growing by `k` clusters does what it reports exactly when `k` clusters are free. With one more than are free (and at
  least one free) `FatGrowEof` reports success with a short chain (`GrownWholeIff`, `ShortChain`). The file's size then
  covers bytes without a cluster, and a seek to them succeeds (`GrownArray`, `ShortThenBehind`).
- A growth that finds the volume full restores the chain exactly when it had the clusters of the file's size, or fewer
  and nothing was free (`RestoredIff`). Otherwise it can leave a longer chain (`FailedGrowthKeepsMore`, `LooseFileGrows`).
- The search of `FatGrowEof` for the last cluster ends exactly when the chain is not cyclic (`SearchEndsIff`,
  `CyclicChain`), while freeing a chain always ends (`FatFreeClusters`).
- The cursor agrees with the chain through a run of seeks, growths and truncations exactly when no seek is to just behind
  the last cluster (`EveryRun`). After such a seek, a later one that starts from that cursor finds the wrong place, even
  when the file has grown (`SoughtCursorIff`, `SeekRightIff`, `SeekBehindThenGrow`). Reading and writing a file whose
  bytes all have clusters only seeks inside its chain (`FatAccessOFile`, `RunFile`).
- First fit keeps off the volume label exactly when some gap between entries would do, or the label lies outside the
  slots taken of the last gap (`LabelKeptIff`, `LabelLost`).
- A new one-slot entry is loaded as a short one exactly when the slot below it does not continue it (`ShortEntryLoads`,
  `LeftOverSlotTaken`). Where no long-name slot is left over, and none is by the driver itself, every entry is
  (`OrphanFreeReadsBack`, `RemovedKeeps`).
- A name that is stored as short name and case flags comes back exactly when `CHAR8` is unsigned or its characters are
  below 0x80; with a signed one, U+00C4 comes back as U+FFC4 (`CaseFlagRoundTrip`, `CharLost`). `StoredLoads` and
  `NameRoundTrip` join both conditions into the exact one for a whole entry.
- The search for a short name ends exactly when one of its first 260 candidates is free (`EndsIff`); the code does not
  limit the loop, and a table can hold them all (`FullTable`).
- The clusters lie inside the volume exactly when the reserved part is not longer than the volume (`ClustersFitIff`,
  `ClustersBehindTheVolume`).
- A payload comes through the receive buffer exactly when it leaves two bytes of it free (`ReceivedIff`). One that is one
  byte too long is refused, or, with sum zero, accepted with a checksum digit left on the line (`OneByteMore`); the test
  `Index == PacketDataSize` in the code is never true.
- With an unsigned `CHAR8`, as the ARM and AARCH64 tool chains of `BaseTools/Conf/tools_def.template` have it, storing hex
  digits always reports success, which is right exactly when no pair is bad (`UnsignedRightIff`, `BadDigitsStored`).
- If a subtask fails and a later submission is refused, the token has been signalled although `FatQueueTask` returns an
  error (`EveryRun` of `AsyncTask`, `SignalBeforeRefusal`). The comments in the code only say that nothing is signalled
  after the refusal, and that is so.
- Flushing one dirty file writes the entries of all its directories too, clean ones included, and gives them the time of
  the flush and the archive attribute, as far as no file on the way was deleted or has an error (`WritesIff`,
  `AncestorsWritten`, `CleanParentWritten`).

What the model requires of its callers, because the code relies on it: device reads and writes succeed; cluster
numbers in the FAT are free, special or in 2..MaxCluster+1, and their entries lie inside the FAT; a chain whose end is
searched is not cyclic; a free count taken from FSInfo is accurate; the FAT copies are equal when the volume is
mounted. For directories: the names and short names are unique; the slots behind the end are empty; at most 65536
slots; one added cluster holds the new entry, where it is appended (the code asserts this). The reload after
creations, and it alone, needs that the created entries read back. For `FlushAndRemount`: in memory the entries of the
path tell the first clusters of its files and the size of the last, and the entry of a file that is not dirty is the
one on the disk. For `RunFile`: no size asked for needs exactly one cluster more than the file and the free space have
together.

## Model

| member | source | states |
|---|---|---|
| BootSector.RegionsFollowEachOther | FatPkg/EnhancedFatDxe/Init.c:304-323 | the FAT copies end where the root directory begins, and the root directory ends before the first cluster |
| BootSector.ClustersFitIff | FatPkg/EnhancedFatDxe/Init.c:308-323 | every cluster lies inside the volume iff the sectors before the first cluster do not exceed the volume; MaxCluster may wrap around otherwise |
| BootSector.ClustersBehindTheVolume | FatPkg/EnhancedFatDxe/Init.c:308-323 | an accepted boot sector whose first cluster lies behind the volume |
| BootSector.ClusterNumbersOrdinary | FatPkg/EnhancedFatDxe/Init.c:328-333 | on FAT12 and FAT16 no cluster number collides with a special entry value |
| VolumeState.OpenedIsMountable | FatPkg/EnhancedFatDxe/Init.c:304-348 | the geometry of an accepted boot sector satisfies what the cache and the FAT layer rely on iff the FATs end inside the volume by their sectors, the volume is whole, a FAT is as long as 12, 16 or 32 bits for each cluster ask for, FAT32 cluster numbers are ordinary, and the bytes of the FATs repeat; positions, entry windows and equal copies follow |
| VolumeState.EqualCopiesIff | FatPkg/EnhancedFatDxe/DiskCache.c:140-156 | the copies of the FAT are equal iff each byte, but for those of the last copy, comes again one FAT later |
| VolumeState.Volume.constructor | FatPkg/EnhancedFatDxe/DiskCache.c:451-495 | mounting establishes the invariants of both caches and of the FAT map, and that entry 1 holds the mark of a volume that was not changed |
| VolumeState.DiskCache.CleanMeansOnDisk | FatPkg/EnhancedFatDxe/DiskCache.c:398-438 | with no dirty page, the region on the disk equals the cache's view of it |
| DiskCacheIo.StoreCachePage | FatPkg/EnhancedFatDxe/DiskCache.c:104-159 | writing back a page keeps the logical view, writes all FAT copies, and no partial page spills into the next copy |
| DiskCacheIo.LoadCachePage | FatPkg/EnhancedFatDxe/DiskCache.c:104-159 | loading a page makes its group agree with the logical view, short last pages included |
| DiskCacheIo.FatGetCachePage | FatPkg/EnhancedFatDxe/DiskCache.c:176-210 | the page asked for is held afterwards; the page evicted was written back; the logical view is unchanged |
| DiskCacheIo.FatAccessUnalignedCachePage | FatPkg/EnhancedFatDxe/DiskCache.c:231-266 | access inside one page is access to the flat array |
| DiskCacheIo.OverlayDirtyPages | FatPkg/EnhancedFatDxe/DiskCache.c:38-86 | after a read that bypassed the cache, dirty pages replace what the disk had, so the buffer holds the logical view |
| DiskCacheIo.InvalidatePages | FatPkg/EnhancedFatDxe/DiskCache.c:38-86 | after a write that bypassed the cache, older cached copies are dropped and the cache agrees with the disk again |
| DiskCacheIo.JoinAccesses | FatPkg/EnhancedFatDxe/DiskCache.c:298-384 | underrun, aligned part and overrun together are one access to the whole range |
| DiskCacheIo.FatAccessCache | FatPkg/EnhancedFatDxe/DiskCache.c:298-384 | a request of any offset and length reads, or replaces, exactly its range of the flat array |
| DiskCacheIo.FatVolumeFlushCache | FatPkg/EnhancedFatDxe/DiskCache.c:398-438 | no dirty page remains, the logical view is unchanged |
| DiskCacheIo.FlushedMeansOnDisk | FatPkg/EnhancedFatDxe/DiskCache.c:398-438 | after a flush every FAT copy on the disk is the logical FAT, and the data region is its logical view |
| DiskCacheIo.FatDiskIo | FatPkg/EnhancedFatDxe/Misc.c:309-381 | requests inside the volume go to the cache; others are refused and set the error flag |
| DiskCacheIo.RunRequests | FatPkg/EnhancedFatDxe/DiskCache.c:298-438 | any run of reads, writes and flushes gives the answers and the view of one flat byte array |
| FatEntry.StoreIsMapUpdate | FatPkg/EnhancedFatDxe/FileSpace.c:145-228 | storing entry i and reading j gives the normalised value if j = i, else the old value, for FAT12 packing, FAT16 and FAT32 |
| FatEntry.PatchedWindow | FatPkg/EnhancedFatDxe/FileSpace.c:180-215 | the neighbour's nibble and the top four bits are kept |
| FatEntry.NormalOfLast | FatPkg/EnhancedFatDxe/FileSpace.c:90-128 | the last mark is read back as the last mark |
| FatEntry.NormalOfOrdinary | FatPkg/EnhancedFatDxe/FileSpace.c:90-128 | cluster numbers are read back unchanged |
| FatTable.FatGetFatEntry | FatPkg/EnhancedFatDxe/FileSpace.c:90-128 | the map's value, from the cached bytes; an index past the end reads as the last mark |
| FatTable.FatSetFatEntry | FatPkg/EnhancedFatDxe/FileSpace.c:145-228 | a map update of one entry, with the free count and the hint adjusted; entry 1 still holds the mark for the volume's state |
| FatTable.FatAccessVolumeDirty | FatPkg/EnhancedFatDxe/Misc.c:224-234 | entry 1 holds the mark, which disturbs no entry from 2 on |
| FreeSpace.SetEntry | FatPkg/EnhancedFatDxe/FileSpace.c:145-228 | with an accurate count, the count stays the number of free entries |
| FreeSpace.FatComputeFreeInfo | FatPkg/EnhancedFatDxe/FileSpace.c:708-736 | the count becomes the number of free entries, the hint the lowest free one if there is one |
| FreeSpace.FatAllocateCluster | FatPkg/EnhancedFatDxe/FileSpace.c:276-317 | a free cluster at or behind the hint, or the lowest free one after wrapping, or the end mark when none is left |
| FreeSpace.AccurateSaysFull | FatPkg/EnhancedFatDxe/FileSpace.c:276-317 | an accurate count of zero means that no entry is free |
| FreeSpace.FreeStep | FatPkg/EnhancedFatDxe/FileSpace.c:243-263 | each step on a used entry lowers the number of used entries, and keeps the links legal |
| FreeSpace.FatFreeClusters | FatPkg/EnhancedFatDxe/FileSpace.c:243-263 | terminates on every FAT with legal links, cyclic ones included, and frees what the walk visits |
| Chains.FreeWalkOfPath | FatPkg/EnhancedFatDxe/FileSpace.c:243-263 | on a walk that ends, exactly the walk's clusters are freed |
| Chains.WalkDistinct | FatPkg/EnhancedFatDxe/FileSpace.c:243-263 | a walk that ends visits no cluster twice |
| Chains.TruncatedKeepsPrefix | FatPkg/EnhancedFatDxe/FileSpace.c:357-416 | cutting keeps exactly the first n clusters, as a chain |
| Chains.TruncatedFrees | FatPkg/EnhancedFatDxe/FileSpace.c:357-416 | cutting frees exactly the rest |
| Chains.TruncatedKeepsOthers | FatPkg/EnhancedFatDxe/FileSpace.c:357-416 | cutting leaves every other chain alone |
| Growth.AllocateWhileGrowing | FatPkg/EnhancedFatDxe/FileSpace.c:276-317 | while a chain grows, the cluster handed out is a fresh one, or the one still marked free when it is the only one left |
| Growth.GrownIsChain | FatPkg/EnhancedFatDxe/FileSpace.c:432-536 | the grown chain is the old chain followed by the new clusters |
| Growth.GrownFreeCount | FatPkg/EnhancedFatDxe/FileSpace.c:432-536 | the number of free entries falls by the number of new clusters |
| Growth.GrownKeepsOthers | FatPkg/EnhancedFatDxe/FileSpace.c:432-536 | growing leaves every other chain alone |
| Growth.Rollback | FatPkg/EnhancedFatDxe/FileSpace.c:500-535 | cutting the grown chain to its old length gives the FAT from before, but for the form of the end mark |
| FileSpace.SizeToClustersIsCeiling | FatPkg/EnhancedFatDxe/FileSpace.c:331-344 | the least number of clusters that holds the bytes |
| FileSpace.FatShrinkEof | FatPkg/EnhancedFatDxe/FileSpace.c:357-416 | the chain is cut to the size's clusters and the rest freed; a chain that is too short is an error that changes nothing; if no free cluster lay below the hint, none does afterwards |
| FileSpace.GrowLoop | FatPkg/EnhancedFatDxe/FileSpace.c:478-505 | as many distinct free clusters are linked as there are, wrapping through the recount |
| FileSpace.FatGrowEof | FatPkg/EnhancedFatDxe/FileSpace.c:432-536 | every outcome, for a chain that fits the size or not: nothing to do, whole growth, short chain, volume full with the chain cut to the old size, corrupted chain; if no free cluster lay below the hint, none does afterwards |
| FileSpace.GrownWholeIff | FatPkg/EnhancedFatDxe/FileSpace.c:432-536 | growth by k is whole iff k clusters are free; then the chain is the old one and k clusters that were free |
| FileSpace.ShortChain | FatPkg/EnhancedFatDxe/FileSpace.c:293-302 | the concrete case of success with a short chain |
| FileSpace.SearchEndsIff | FatPkg/EnhancedFatDxe/FileSpace.c:465-482 | the search for the last cluster ends iff the chain has come to its end after as many links as there are clusters, and iff there is a walk such as the search requires |
| FileSpace.CyclicChain | FatPkg/EnhancedFatDxe/FileSpace.c:465-482 | the concrete case of a search that does not end: a cluster that links to itself |
| FileSpace.RolledBack | FatPkg/EnhancedFatDxe/FileSpace.c:500-535 | when the chain had the clusters of the file's size, a growth that finds the volume full leaves FAT and file as they were, but for the end mark |
| FileRuns.RestoredIff | FatPkg/EnhancedFatDxe/FileSpace.c:500-535 | a growth that finds the volume full restores the chain iff it had the clusters of the size, or fewer and nothing was free |
| FileRuns.FailedGrowthKeepsMore | FatPkg/EnhancedFatDxe/FileSpace.c:500-535 | the concrete case of a failed growth that leaves a longer chain |
| FileRuns.LooseFileGrows | FatPkg/EnhancedFatDxe/FileSpace.c:500-535 | that case happens: the file is ready for the call, and the call has such an outcome |
| FilePosition.FatOFilePosition | FatPkg/EnhancedFatDxe/FileSpace.c:552-630 | from every cursor that seeking can leave: which seeks succeed, the disk position and a maximal run up to the limit inside the chain that the seek sees, the cursor that it leaves inside and just behind it |
| FilePosition.SoughtCursor | FatPkg/EnhancedFatDxe/FileSpace.c:552-630 | a seek to a position inside the chain leaves a cursor that agrees with it |
| FilePosition.SoughtCursorIff | FatPkg/EnhancedFatDxe/FileSpace.c:552-630 | after a successful seek the cursor agrees with the chain iff the position lies inside the chain and the seek did not begin at a cursor that stands on no cluster |
| FilePosition.SeekRightIff | FatPkg/EnhancedFatDxe/FileSpace.c:552-630 | a seek inside the chain finds the position's cluster iff it does not begin at a cursor that stands on no cluster |
| FilePosition.SeekBehindThenGrow | FatPkg/EnhancedFatDxe/FileSpace.c:552-630 | the concrete case: a seek to just behind the only cluster, and after growing, the same seek still stands on no cluster |
| FilePosition.BehindTheEndWraps | FatPkg/EnhancedFatDxe/FileSpace.c:610-613 | in 64 bits the disk position behind a chain that ends in the last mark lies three clusters before the cluster area |
| FilePosition.GrownCursor | FatPkg/EnhancedFatDxe/FileSpace.c:432-536 | a growth that succeeds keeps the cursor's agreement; FileRuns.GrowKeeps covers every outcome |
| FilePosition.ShrunkCursor | FatPkg/EnhancedFatDxe/FileSpace.c:357-416 | shrinking resets the cursor so that it agrees |
| FileRuns.GrowKeeps | FatPkg/EnhancedFatDxe/FileSpace.c:432-536 | every outcome of growing leaves the file ready for the next call; the cursor agrees afterwards iff it did before or the failed growth cut the chain |
| FileRuns.TruncateKeeps | FatPkg/EnhancedFatDxe/ReadWrite.c:619-626 | every truncation leaves the file ready for the next call; the cursor agrees afterwards iff it did before or the chain was cut |
| FileRuns.EveryRun | FatPkg/EnhancedFatDxe/FileSpace.c:357-630 | every run of seeks, growths and truncations, whatever their outcomes, keeps the file ready; the cursor agrees with the chain all along iff no seek of the run is to just behind the last cluster |
| FileRuns.RunCalls | FatPkg/EnhancedFatDxe/FileSpace.c:357-630 | a run of the calls on an open file passes through such states |
| FileContents.ReadPiece | FatPkg/EnhancedFatDxe/ReadWrite.c:461-520 | bytes read from a run of clusters are the file's bytes |
| FileContents.WritePiece | FatPkg/EnhancedFatDxe/ReadWrite.c:461-520 | bytes written to a run of clusters change exactly that range of the file |
| FileContents.WriteElsewhere | FatPkg/EnhancedFatDxe/ReadWrite.c:461-520 | a write to one file changes no byte of a file that shares no cluster with it |
| FileContents.KeptWithin | FatPkg/EnhancedFatDxe/ReadWrite.c:461-520 | a file whose clusters all belong to chains that kept their bytes has kept its own |
| FileIo.FatAccessOFile | FatPkg/EnhancedFatDxe/ReadWrite.c:461-520 | through seek, chain and cache, a file is a flat byte array; every other file and a fixed root directory are unchanged, and reading changes nothing |
| FileArray.TruncatedArray | FatPkg/EnhancedFatDxe/ReadWrite.c:619-626 | truncation to a smaller size succeeds and keeps exactly the first bytes |
| FileArray.GrownArray | FatPkg/EnhancedFatDxe/FileSpace.c:432-536 | growing keeps the bytes of the file, all of them when it fails; every byte of the new size has a cluster iff the growth was not short by one |
| FileArray.ShortThenBehind | FatPkg/EnhancedFatDxe/FileSpace.c:478-630 | after a short growth the size covers a byte that has no cluster, and a seek to it succeeds but stands on no cluster |
| FileArray.StepApart | FatPkg/EnhancedFatDxe/FileSpace.c:357-536 | no call on one file changes another file's chain or takes a cluster of it |
| FileArray.StepTotal | FatPkg/EnhancedFatDxe/FileSpace.c:243-536 | conservation: the clusters of the file and the free ones together stay the same in number, whatever the outcome |
| FileArray.ExactGrowth | FatPkg/EnhancedFatDxe/FileSpace.c:432-536 | a file with an exact chain can be made longer iff the size fits 32 bits and the clusters suffice, and its chain stays exact |
| OpenFile.FatWriteZeroPool | FatPkg/EnhancedFatDxe/ReadWrite.c:564-605 | everything from the position to the end becomes zero, in pieces of limited size; nothing else changes |
| OpenFile.FatExpandOFile | FatPkg/EnhancedFatDxe/ReadWrite.c:534-549 | zeros are appended, or nothing changes |
| OpenFile.FatIFileAccess | FatPkg/EnhancedFatDxe/ReadWrite.c:201-342 | reads are clipped at the end and refused behind it; writes behind the end make the file longer or change nothing; other files keep their bytes |
| OpenFile.RunFile | FatPkg/EnhancedFatDxe/ReadWrite.c:201-626 | every run of reads, writes and changes of size behaves as one resizable byte array with a fixed number of clusters, statuses included, and leaves other files alone |
| OpenFile.LastWriteIsRead | FatPkg/EnhancedFatDxe/ReadWrite.c:201-342 | in every such run a read gives what the last successful write to its bytes stored |
| ShortName.FatStrToFat | MdeModulePkg/Universal/Disk/UnicodeCollation/EnglishDxe/UnicodeCollationEng.c:437-473 | the bytes of the short name field, and whether a character had no place in it |
| ShortName.FatCheckIs8Dot3Name | FatPkg/EnhancedFatDxe/FileName.c:31-103 | the result says whether a name has one separating dot and plain characters within 8 and 3; and yields its short form |
| ShortName.TestsDecide | FatPkg/EnhancedFatDxe/FileName.c:68-102 | the conditions that the code collects are, together, that definition |
| ShortName.FatSetCaseFlag | FatPkg/EnhancedFatDxe/FileName.c:295-338 | the flags, and an extra slot for names in mixed case |
| ShortName.CaseFlagRoundTrip | FatPkg/EnhancedFatDxe/FileName.c:295-371 | for a signed and for an unsigned CHAR8: a valid 8.3 name in cases that two flags can tell is read back from its short name and flags iff CHAR8 is unsigned or all its characters are below 0x80 |
| ShortName.CharLost | MdeModulePkg/Universal/Disk/UnicodeCollation/EnglishDxe/UnicodeCollationEng.c:399-417 | the concrete case: U+00C4 is read back as U+FFC4 where CHAR8 is signed, and as itself where it is not |
| ShortName.FatFileNameIsValid | FatPkg/EnhancedFatDxe/FileName.c:443-505 | leading blanks, trailing blanks and dots are cut; valid iff 1 to 255 legal characters remain |
| ShortName.TrimmedOnce | FatPkg/EnhancedFatDxe/FileName.c:443-505 | a valid name is its own and only trimmed form |
| ShortName.FatCheckSum | FatPkg/EnhancedFatDxe/FileName.c:383-395 | the rotating byte sum of the eleven bytes |
| DirSlots.DirFile.FatStoreDirEnt | FatPkg/EnhancedFatDxe/DirectoryManage.c:69-136 | writes the short entry and its long-name slots, and no other slot |
| DirSlots.DirFile.FatLoadLongNameEntry | FatPkg/EnhancedFatDxe/DirectoryManage.c:236-308 | the name and slot count that the slots below an entry determine |
| DirSlots.LongNameRoundTrip | FatPkg/EnhancedFatDxe/DirectoryManage.c:69-308 | a name stored in long-name slots is read back, lengths that are multiples of 13 included |
| DirSlots.ShortEntryLoads | FatPkg/EnhancedFatDxe/DirectoryManage.c:258-305 | a one-slot entry is read back iff the slot below it does not continue it |
| DirSlots.LeftOverSlotTaken | FatPkg/EnhancedFatDxe/DirectoryManage.c:258-305 | the failing case: a left-over slot with the entry's checksum is taken for its long name |
| DirSlots.RunAboveGap | FatPkg/EnhancedFatDxe/DirectoryManage.c:258-289 | a name whose slots lie above a slot is loaded the same whatever that slot and those below it were, once it is a short or deleted entry |
| DirSlots.WriteOneSlot | FatPkg/EnhancedFatDxe/DirectoryManage.c:32-55 | writing 32 bytes of the directory file changes one slot |
| DirScan.LiveSeparate | FatPkg/EnhancedFatDxe/DirectoryManage.c:346-432 | the listed entries are strictly ordered and their slot intervals are disjoint, whatever the slots hold |
| DirScan.ReplaceOne | FatPkg/EnhancedFatDxe/DirectoryManage.c:346-432 | changing one entry's slots changes at most that entry of the listing, orphaned long-name slots or not |
| DirScan.GapSlots | FatPkg/EnhancedFatDxe/DirectoryManage.c:801-830 | slots between two entries are unused |
| DirStore.RemovedFromListing | FatPkg/EnhancedFatDxe/DirectoryManage.c:1093-1118 | a removed entry, and nothing else, leaves the listing |
| DirStore.RemovedKeeps | FatPkg/EnhancedFatDxe/DirectoryManage.c:1093-1118 | removal keeps the end of the directory, and leaves no orphaned long-name slot where there was none |
| DirStore.InsertedInListing | FatPkg/EnhancedFatDxe/DirectoryManage.c:1033-1079 | an entry stored in a gap, whatever the gap held, takes its place in the order, as what StoredLoads says, and nothing else changes |
| DirStore.AppendedToListing | FatPkg/EnhancedFatDxe/DirectoryManage.c:893-895 | an entry stored behind the end is listed last, as what StoredLoads says, and the end moves behind it |
| DirStore.StoredLoads | FatPkg/EnhancedFatDxe/DirectoryManage.c:69-308 | a stored entry is scanned as what was stored iff it has long-name slots, or its characters survive the short name and the slot below does not continue it |
| DirStore.OrphanFreeReadsBack | FatPkg/EnhancedFatDxe/DirectoryManage.c:69-308 | where no long-name slot is left over, every new entry reads back, if a one-slot name's characters survive the short name |
| DirStore.ExpandedReadsSame | FatPkg/EnhancedFatDxe/DirectoryManage.c:707-712 | an added empty cluster changes nothing that is read |
| DirStore.RestoredListing | FatPkg/EnhancedFatDxe/Flush.c:244-273 | writing an entry again with other times, sizes or attributes leaves the listing as it is |
| DirStore.RestoredDirectory | FatPkg/EnhancedFatDxe/Flush.c:244-273 | nor does it change the end of the directory, what lies behind it, or the absence of orphans |
| EntryNames.FatCreate8Dot3Name | FatPkg/EnhancedFatDxe/FileName.c:174-238 | terminates with the first candidate that no entry has, if one of the 260 candidates is free |
| EntryNames.EndsIff | FatPkg/EnhancedFatDxe/FileName.c:174-238 | some candidate is free iff one of the first 260 is, so the loop ends iff one of these is free |
| EntryNames.FullTable | FatPkg/EnhancedFatDxe/FileName.c:174-238 | for every name and checksum there is a table in which all candidates are taken |
| EntryNames.FatSetEntryCount | FatPkg/EnhancedFatDxe/DirectoryManage.c:648-693 | slot count, flag and short name; the short name is new, and never looks deleted or empty |
| EntryNames.NameRoundTrip | FatPkg/EnhancedFatDxe/DirectoryManage.c:648-693 | every valid name is loaded as it was stored, through long-name slots or case flags, iff it has long-name slots, or its characters survive the short name and the slot below does not continue it |
| NameIndex.NameTable.Search | FatPkg/EnhancedFatDxe/Hash.c:76-121 | the first entry of the bucket with the key, and the link to it; nothing only if no entry of the index has the key |
| NameIndex.NameTable.Insert | FatPkg/EnhancedFatDxe/Hash.c:132-154 | the entry is in its bucket once, every other entry stays where it was |
| NameIndex.NameTable.Delete | FatPkg/EnhancedFatDxe/Hash.c:165-172 | rewriting one link removes exactly this entry, when no other has its key |
| NameIndex.NameTable.Deleted | FatPkg/EnhancedFatDxe/Hash.c:165-172 | relinking past an entry leaves every bucket a list of its other entries |
| NameIndex.FatInsertToHashTable | FatPkg/EnhancedFatDxe/Hash.c:132-154 | both tables hold the new entry, links of one table not disturbing the other |
| NameIndex.FatDeleteFromHashTable | FatPkg/EnhancedFatDxe/Hash.c:165-172 | both tables lose the entry and nothing else |
| Directory.Directory.FatLoadNextDirEnt | FatPkg/EnhancedFatDxe/DirectoryManage.c:346-432 | the next entry of the listing joins list and index, or the end is found |
| Directory.Directory.FatSearchODir | FatPkg/EnhancedFatDxe/DirectoryManage.c:512-562 | returns a matching entry iff a linear scan of the whole directory lists one |
| Directory.Directory.FatGetNextDirEnt | FatPkg/EnhancedFatDxe/DirectoryManage.c:596-636 | the k-th call returns the k-th entry of the listing, lazily loaded |
| Directory.Directory.FatFirstFitInsertDirEnt | FatPkg/EnhancedFatDxe/DirectoryManage.c:774-831 | the first gap that fits, off the label; full iff none does |
| Directory.FitIsGap | FatPkg/EnhancedFatDxe/DirectoryManage.c:801-830 | what first fit finds is unused, between the right neighbours |
| Directory.LabelKeptIff | FatPkg/EnhancedFatDxe/DirectoryManage.c:789-831 | once the entry is stored, the volume label is still there iff some gap between entries would hold it, or the label lies outside the slots taken of the last gap |
| Directory.LabelLost | FatPkg/EnhancedFatDxe/DirectoryManage.c:823-828 | a directory in which the new entry overwrites the label |
| Directory.Directory.FatNewEntryPos | FatPkg/EnhancedFatDxe/DirectoryManage.c:847-896 | a place behind the end, in an added cluster if needed, or in a gap at full capacity; success iff there is room, which the slots before the call decide; the listing is unchanged so far |
| Directory.Directory.FatCreateDirEnt | FatPkg/EnhancedFatDxe/DirectoryManage.c:1033-1079 | success iff there is room; then the entry, with the name, place and fields told before, is stored in the slots and joins listing, list and index at one place, and a scan lists it as it was created iff it reads back; otherwise nothing changes on the disk |
| Directory.Directory.OrphanFreeNamesReadBack | FatPkg/EnhancedFatDxe/DirectoryManage.c:847-896 | in a directory without left-over slots every name reads back whose characters survive, or that needs long-name slots |
| Directory.Directory.FatRemoveDirEnt | FatPkg/EnhancedFatDxe/DirectoryManage.c:1093-1118 | the entry is marked deleted in the slots and leaves listing, list and index; a cursor on it steps back |
| Directory.RemovedInMemory | FatPkg/EnhancedFatDxe/DirectoryManage.c:1093-1118 | after a removal the part in memory is again the first part of the listing, lazily loaded or not |
| Directory.CreatedInMemory | FatPkg/EnhancedFatDxe/DirectoryManage.c:1033-1079 | after a creation memory is again the whole listing, with unique names, if the entry reads back |
| Directory.FreeIffNotFound | FatPkg/EnhancedFatDxe/DirectoryManage.c:512-562 | a name may be created iff the search finds nothing for it |
| DirRuns.RunThenReload | FatPkg/EnhancedFatDxe/DirectoryManage.c:346-432 | after any run of creations, removals, searches and enumeration steps, rescanning the disk gives the ordered list that memory has: the first listing with the run's changes applied in turn. A creation adds its entry, where and as told before, whenever the name is new, may be created and has room, and changes nothing otherwise; a removal takes out an entry with the name whenever there is one; a search tells whether there is one |
| DirRuns.EnumerateAndRemove | FatPkg/EnhancedFatDxe/DirectoryManage.c:571-636 | every entry is visited once in disk order while any of the visited ones are removed; the others remain |
| DirRuns.FatIsEmptyDir | FatPkg/EnhancedFatDxe/Delete.c:68-92 | what FatDelete calls empty: the directory lists two dot entries and nothing else |
| DirOnDisk.ReadSlot | FatPkg/EnhancedFatDxe/DirectoryManage.c:32-55 | a slot is read from the bytes of the open directory, through chain and cache; behind the end it is empty |
| DirOnDisk.WriteSlot | FatPkg/EnhancedFatDxe/DirectoryManage.c:32-55 | one slot of the directory changes, which becomes dirty and archived; no byte of another file changes |
| DirOnDisk.StoreDirEnt | FatPkg/EnhancedFatDxe/DirectoryManage.c:69-136 | the bytes of the directory file become those of the stored entry and its long-name slots |
| DirOnDisk.RemoveOnDisk | FatPkg/EnhancedFatDxe/DirectoryManage.c:1093-1118 | marking an entry deleted on the disk takes exactly it out of what a scan of the directory file lists |
| DirOnDisk.InsertOnDisk | FatPkg/EnhancedFatDxe/DirectoryManage.c:1033-1079 | storing an entry in a gap of the directory file puts exactly it into what a scan lists |
| DirOnDisk.FatExpandODir | FatPkg/EnhancedFatDxe/DirectoryManage.c:707-712 | a cluster of empty slots is added iff one is free and the size stays within 32 bits; otherwise the slots stay; other files keep their bytes |
| DirOnDisk.StoreInDir | FatPkg/EnhancedFatDxe/DirectoryManage.c:69-136 | a store in a directory with a chain keeps it open for the next call, and another file's bytes |
| DiskRuns.OpenDirectory | FatPkg/EnhancedFatDxe/DirectoryCache.c:135-168 | a directory loaded from its file mirrors it |
| DiskRuns.CreateOnDisk | FatPkg/EnhancedFatDxe/DirectoryManage.c:847-1079 | a creation adds a cluster to the directory's chain iff one is needed and the volume has one, and stores the entry in the file; memory and file agree afterwards |
| DiskRuns.RemoveFromDisk | FatPkg/EnhancedFatDxe/DirectoryManage.c:1093-1118 | a removal marks the entry's slots in the file; memory and file agree afterwards |
| DiskRuns.RunOnDisk | FatPkg/EnhancedFatDxe/DirectoryManage.c:512-1118 | any run of operations, over chain and cache: each does what it should on what those before it leave, growing as the volume has room; memory and file agree, the number of clusters is conserved, and another file keeps its bytes |
| DiskRuns.LoadSlots | FatPkg/EnhancedFatDxe/DirectoryManage.c:32-55 | reading the file slot by slot gives its slots, and changes nothing |
| DiskRuns.RunAndReload | FatPkg/EnhancedFatDxe/DirectoryManage.c:346-1118 | after such a run, the slots read again from the file list what the run's changes make of the listing before |
| Cleanup.MarkNotDirty | FatPkg/EnhancedFatDxe/Flush.c:412-422 | the volume's mark becomes the one it was mounted with |
| Cleanup.FatCleanupVolume | FatPkg/EnhancedFatDxe/Flush.c:401-430 | afterwards the disk holds the volume: every FAT copy is the FAT, with the mark that the volume was mounted with, and the data region is the data |
| Cleanup.HeldIsMountable | FatPkg/EnhancedFatDxe/Init.c:304-348 | a disk that holds the volume can be mounted |
| Cleanup.Remount | FatPkg/EnhancedFatDxe/Init.c:304-395 | the driver, started anew on such a disk, finds the same FAT map and the same data |
| FlushOnDisk.PathDown | FatPkg/EnhancedFatDxe/DirectoryManage.c:1133-1197 | a file whose entry lies in the last directory of a path continues the path; with PathOfRoot, every path is built so |
| FlushOnDisk.StampedFields | FatPkg/EnhancedFatDxe/Flush.c:245-262 | the fields of a stamped entry; what names the file and finds it is as it was |
| FlushOnDisk.StoreIn | FatPkg/EnhancedFatDxe/DirectoryManage.c:69-136 | storing an entry in one of several open directories changes that directory alone, and no byte of a file beside them |
| FlushOnDisk.FlushDirty | FatPkg/EnhancedFatDxe/Flush.c:244-273 | a dirty file is stamped and clean, its entry is in its directory's file, and the directory is dirty and archived |
| FlushOnDisk.UpToNext | FatPkg/EnhancedFatDxe/Flush.c:228-278 | a turn of the loop takes the path from what FlushPath says before the file to what it says behind it |
| FlushOnDisk.FatOFileFlush | FatPkg/EnhancedFatDxe/Flush.c:221-280 | on the disk: flags and fields are those of FlushPath, each directory holds exactly the entry that is to be written, as it then is, and other files keep their bytes |
| Durable.FlushedEntry | FatPkg/EnhancedFatDxe/Flush.c:221-280 | after a flush without errors the entry on the disk is the one in memory, whether it was written or not |
| Durable.FlushKeepsListing | FatPkg/EnhancedFatDxe/Flush.c:244-273 | a flush leaves the listings of the directories as they are |
| Durable.FatFlush | FatPkg/EnhancedFatDxe/Flush.c:33-91 | flush and clean-up: the entries on the disk are those in memory, and the disk holds the volume |
| Durable.FatPhysicalDirSize | FatPkg/EnhancedFatDxe/FileSpace.c:644-675 | the clusters of a chain that is whole, else 0 |
| Durable.OpenChild | FatPkg/EnhancedFatDxe/DirectoryManage.c:1133-1197 | a file opened by its entry on the disk has the cluster and the size that the entry tells |
| Durable.OpenPath | FatPkg/EnhancedFatDxe/DirectoryManage.c:1133-1197 | going down the path from the root opens the file that the entries lead to |
| Durable.FlushAndRemount | FatPkg/EnhancedFatDxe/Flush.c:33-91 | a file that was flushed is found again, after mounting anew, on the same path, with the same size and the same bytes |
| AsyncTask.Task.SubmitNext | FatPkg/EnhancedFatDxe/Misc.c:152-206 | a turn of the submission loop, and the clean-up after a refusal |
| AsyncTask.Task.FatOnAccessComplete | FatPkg/EnhancedFatDxe/Misc.c:246-290 | a completion: signal, forget the token, free |
| AsyncTask.Task.Execute | FatPkg/EnhancedFatDxe/Misc.c:128-290 | any sequence of submissions and completions takes the task through the states of the protocol |
| AsyncTask.StepKeepsInvariant | FatPkg/EnhancedFatDxe/Misc.c:128-290 | every step keeps the protocol invariant |
| AsyncTask.EveryRun | FatPkg/EnhancedFatDxe/Misc.c:128-290 | for every order and outcome: one free, one signal with the first error or the last status; after a refusal no further signal |
| AsyncTask.SignalBeforeRefusal | FatPkg/EnhancedFatDxe/Misc.c:128-290 | the concrete case: the first subtask fails, the second is refused, and the token has been signalled |
| AsyncTask.EveryRunDrains | FatPkg/EnhancedFatDxe/Misc.c:128-290 | until all has drained some event can happen, and each one brings the end nearer |
| RefTree.OpenFiles.FatOFileFlush | FatPkg/EnhancedFatDxe/Flush.c:221-280 | times, archive attribute and flags of each file on the path up to the root are those of `After`, the entries written are those of `Log`; a stored entry makes the parent dirty and archived, so that its entry follows; no other file changes |
| FlushPath.WritesIff | FatPkg/EnhancedFatDxe/Flush.c:221-280 | an entry on the path is written iff a dirty file is at or below it and no file from that one up to it was deleted or is the root |
| FlushPath.LogInOrder | FatPkg/EnhancedFatDxe/Flush.c:221-280 | each entry that is to be written is, once, and before that of its parent |
| FlushPath.AncestorsWritten | FatPkg/EnhancedFatDxe/ReadWrite.c:506-509 | all ancestors of a dirty file, up to the first that was deleted or has an error, are written, with the time of the flush and the archive attribute |
| FlushPath.CleanAfter | FatPkg/EnhancedFatDxe/Flush.c:221-280 | every file that the flush reaches is clean afterwards, and was written if it was dirty and has an entry |
| FlushPath.FlushTwice | FatPkg/EnhancedFatDxe/Flush.c:221-280 | a second flush writes nothing and changes nothing of what the flush reaches |
| FlushPath.CleanParentWritten | FatPkg/EnhancedFatDxe/Flush.c:244-272 | the concrete case: a dirty file in a clean directory below the root has both entries written |
| RefTree.OpenFiles.FatCheckOFileRef | FatPkg/EnhancedFatDxe/Flush.c:295-322 | freed iff neither a handle nor an open child refers to it; the file is flushed in any case, with its ancestors |
| RefTree.OpenFiles.FatCheckVolumeRef | FatPkg/EnhancedFatDxe/Flush.c:336-362 | terminates with nothing left to check; exactly the files with a handle at or below them are left; a dirty file that is freed was written, unless it has an error or no entry |
| RefTree.OpenFiles.UnreferencedNotNeeded | FatPkg/EnhancedFatDxe/Flush.c:311-316 | a file that may be freed has no handle below it |
| RefTree.OpenFiles.HandleBelow | FatPkg/EnhancedFatDxe/Flush.c:336-362 | with nothing left to check, every file has a handle at or below it |
| RefTree.OpenFiles.constructor | FatPkg/EnhancedFatDxe/Init.c:54-64 | a volume without open files satisfies the invariants |
| RefTree.OpenFiles.FatIFileClose | FatPkg/EnhancedFatDxe/Flush.c:177-207 | a closed handle's file waits to be checked |
| RefTree.OpenFiles.FatClose | FatPkg/EnhancedFatDxe/Flush.c:133-164 | after closing a handle exactly the needed files are left, and no change of a file is lost |
| RefTree.OpenFiles.FatOpenDirEnt | FatPkg/EnhancedFatDxe/DirectoryManage.c:1133-1197 | a new open file joins the tree and waits to be checked |
| RefTree.OpenFiles.FatDelete | FatPkg/EnhancedFatDxe/Delete.c:30-126 | when the deletion goes through and what it reports; a deleted file's entry is not written again, even while other handles hold it open, and the change of its directory is not lost; the handle is closed in any case |
| RefTree.WithoutChild | FatPkg/EnhancedFatDxe/DirectoryManage.c:1207-1236 | taking a file without children out leaves a tree |
| GdbPacket.Line.SendPacket | EmbeddedPkg/GdbStub/GdbStub.c:281-320 | the frame is sent until acknowledged, a bounded number of times |
| GdbPacket.Line.ReceivePacket | EmbeddedPkg/GdbStub/GdbStub.c:339-396 | the first packet with a right checksum, one refusal for each before it |
| GdbPacket.FramingRoundTrip | EmbeddedPkg/GdbStub/GdbStub.c:281-396 | a payload that fits is received exactly, behind noise and any number of packets given up |
| GdbPacket.ChecksumDigitsValue | EmbeddedPkg/GdbStub/GdbStub.c:311-314 | the two digits of every checksum are read back as the checksum |
| GdbPacket.OneByteMore | EmbeddedPkg/GdbStub/GdbStub.c:360-376 | what happens to a payload one byte too long |
| GdbPacket.ReceivedIff | EmbeddedPkg/GdbStub/GdbStub.c:281-396 | a framed payload comes through, with the line left behind its frame, iff it leaves two bytes of the buffer free |
| GdbPacket.TransferFromMemToOutBuf | EmbeddedPkg/GdbStub/GdbStub.c:225-261 | two lower-case hex digits for each byte of memory |
| GdbPacket.TransferFromInBufToMem | EmbeddedPkg/GdbStub/GdbStub.c:191-213 | for a signed and for an unsigned CHAR8: which pairs are stored, as which bytes, and when success is reported |
| GdbPacket.SignedStoresLeadingPairs | EmbeddedPkg/GdbStub/GdbStub.c:191-213 | signed: the leading pairs of hex digits are stored as the bytes they stand for |
| GdbPacket.UnsignedRightIff | EmbeddedPkg/GdbStub/GdbStub.c:191-213 | unsigned: success is always reported, and is right iff no pair is bad |
| GdbPacket.BadDigitsStored | EmbeddedPkg/GdbStub/GdbStub.c:204 | the concrete case: "gg" is stored as a byte, and success is reported |
| GdbPacket.MemoryRoundTrip | EmbeddedPkg/GdbStub/GdbStub.c:191-261 | memory written as hex digits is read back as it was |

## Left out

- Disk and device errors: a failed read leaves a tag over old bytes (`FatPkg/EnhancedFatDxe/DiskCache.c:206-207`); blocking I/O is modelled as succeeding.
- The non-blocking data path of the cache: tasks are modelled as a protocol, without the data they carry.
- Completions that arrive before the submission loop has read the next link (`FatPkg/EnhancedFatDxe/Misc.c:152-155`) are excluded, as the code would read a freed node.
- Cache buffers are one sequence of bytes for each group; an access replaces the sequence, it does not alias.
- 64-bit numbers are unbounded, with the special cluster values, the wrap-around of MaxCluster, and that of a disk position behind the chain (`BehindTheEndWraps`) written out.
- What an access does after a short growth, once it is behind the last cluster: the disk position that it uses belongs to no file.
- FatIFileAccess: read-only handles, directories, asynchronous requests, and the flush of the directory entry after a growth that failed.
- `Directory` keeps the slots of its directory in memory (`DirFile`); `DiskRuns` carries out every store and every added cluster on the bytes of the open file too, and reads them again, for directories with a chain. Look-ups in between read the slots in memory. Fixed root directories: single stores (`DirOnDisk`, `FlushOnDisk`), no runs.
- FatSetEntryCount: copying times and clusters into the dot entries is a parameter, as is the clock.
- FatNewEntryPos: whether a cluster can be added is a parameter; `DiskRuns` has it from the volume (`DiskRuns.CreateOnDisk`).
- Character tables are those of the English collation driver; whether CHAR8 is signed is an arbitrary constant; the CRC-32 is an arbitrary hash function of the folded name.
- A short name when none of the 260 candidates is free: the code's loop does not end, so `FatCreate8Dot3Name` and `FatSetEntryCount` require one.
- The tree of open files (`RefTree`) and the directories' files (`FlushOnDisk`) are separate models: what a flush stores on the disk is proved for one path, not for the whole tree that one check goes through. The clock gives one time for all the files that one check flushes.
- FatDelete: whether the directory is empty is a parameter (`DirRuns.FatIsEmptyDir` says when it is), and so is whether clusters were freed (they are if the file has any).
- FatCleanupVolume: the FSInfo sector, the removal of an invalid volume, and setting an error on all files.
- Rename (`FatPkg/EnhancedFatDxe/Info.c`): it moves a file in the tree without queueing its old parent for a check.
- The cache of discarded directories (`DirectoryCache.c`): a list of at most eight, the oldest of which is freed.
- HexStringValue: an `x` that no zero precedes makes the C routine read one byte before the string; the model takes that byte not to be a zero.
- Protocol binding, locks, media change, time conversion, volume label and info marshalling, path parsing, and the rest of the GDB stub.
