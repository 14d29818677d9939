/**
 * A directory file as the files below it keep it: its slots are the bytes of an open file (DirectoryManage.c:
 * FatAccessEntry, FatStoreDirEnt, FatExpandODir, over ReadWrite.c: FatAccessOFile, FatExpandOFile).
 */
module DirOnDisk {
  import opened FatTypes
  import opened VolumeState
  import opened DiskCacheIo
  import opened FatEntry
  import opened FatTable
  import opened FreeSpace
  import opened Chains
  import opened Growth
  import opened FileSpace
  import opened FilePosition
  import opened FileContents
  import opened FileIo
  import opened FileRuns
  import opened FileArray
  import opened OpenFile
  import opened ShortName
  import opened DirSlots
  import opened DirScan
  import opened DirStore

  /** An open directory: all the bytes that it has belong to its size, and make whole slots. */
  ghost predicate DirReady(o: OFile, path: seq<nat>)
    reads o, o.volume, o.volume.CacheRepr(), o.volume.dataCache
  {
    && o.volume.FatValid() && FileReady(o, path)
    && |BytesOf(o, path)| == o.fileSize && o.fileSize % SLOT_SIZE == 0
  }

  ghost function SlotsOn(o: OFile, path: seq<nat>): (slots: seq<Slot>)
    requires DirReady(o, path)
    reads o, o.volume, o.volume.CacheRepr(), o.volume.dataCache
    ensures |slots| == o.fileSize / SLOT_SIZE
  {
    SlotsOf(BytesOf(o, path))
  }

  /** What writing to the directory leaves alone: the bytes of a file that shares no cluster with it, and the root. */
  ghost predicate Aside(o: OFile, path: seq<nat>, other: seq<nat>, d0: seq<Byte>)
    reads o, o.volume, o.volume.dataCache
  {
    && FileReady(o, path) && Elsewhere(o.volume, o.isFixedRootDir, o.fileSize, path, other)
    && Others(o.volume, o.isFixedRootDir, o.volume.dataCache.contents, other) == d0
  }

  lemma DirArea(o: OFile, path: seq<nat>)
    requires DirReady(o, path)
    ensures AreaLayout(o.volume) && |o.volume.dataCache.contents| == o.volume.volumeSize - o.volume.rootPos
    ensures if o.isFixedRootDir then o.fileSize <= |o.volume.dataCache.contents| else InArea(AreaOf(o.volume), path)
  {}

  lemma ReadyValid(o: OFile, path: seq<nat>)
    requires DirReady(o, path)
    ensures o.volume.FatValid()
  {}

  /** What lies beside a directory now. */
  lemma AsideOf(o: OFile, path: seq<nat>, other: seq<nat>)
    requires DirReady(o, path) && AreaLayout(o.volume)
    requires Elsewhere(o.volume, o.isFixedRootDir, o.fileSize, path, other)
    ensures |o.volume.dataCache.contents| == o.volume.volumeSize - o.volume.rootPos
    ensures Aside(o, path, other, Others(o.volume, o.isFixedRootDir, o.volume.dataCache.contents, other))
  {
    hide Others;
  }

  lemma SizeOfSlots(o: OFile, path: seq<nat>)
    requires DirReady(o, path)
    ensures |SlotsOn(o, path)| * SLOT_SIZE == o.fileSize
  {}

  lemma SlotPlace(bytes: seq<Byte>, pos: nat)
    requires |bytes| % SLOT_SIZE == 0
    ensures pos * SLOT_SIZE < |bytes| <==> pos < |SlotsOf(bytes)|
    ensures pos * SLOT_SIZE < |bytes| ==>
      pos * SLOT_SIZE + SLOT_SIZE <= |bytes|
        && SlotsOf(bytes)[pos] == bytes[pos * SLOT_SIZE..pos * SLOT_SIZE + SLOT_SIZE]
  {}

  /** FatAccessEntry with ReadData; behind the end of the directory there is an empty entry. */
  method ReadSlot(o: OFile, pos: nat, ghost path: seq<nat>, ghost other: seq<nat>, ghost d0: seq<Byte>)
      returns (entry: Slot)
    requires DirReady(o, path) && Aside(o, path, other, d0)
    modifies o.volume`fatEntryPos, o.volume`diskError, FatRepr(o.volume)
    modifies o.volume.dataCache, o.volume.dataCache.tags, o.volume.dataCache.pages
    modifies o`posDisk, o`posRem, o`fileCurrentCluster, o`position, o`dirty, o`archive
    ensures DirReady(o, path) && Aside(o, path, other, d0) && SlotsOn(o, path) == old(SlotsOn(o, path))
    ensures entry == DirSlots.At(SlotsOn(o, path), pos)
    ensures o.volume.dataCache.contents == old(o.volume.dataCache.contents)
    ensures o.volume.diskError == old(o.volume.diskError)
    ensures o.dirty == old(o.dirty) && o.archive == old(o.archive)
  {
    hide Volume.FatValid, FileReady, BytesOf, AfterAccess, FileBytes, Elsewhere;
    ghost var bytes := BytesOf(o, path);
    SlotPlace(bytes, pos);
    if pos * SLOT_SIZE >= o.fileSize {
      return seq(SLOT_SIZE, _ => EMPTY_ENTRY_MARK);
    }
    var buffer := SlotBuffer(o, path, other, d0, seq(SLOT_SIZE, _ => 0));
    SlotRead(bytes, pos, buffer[..]);
    ReadyShape(o, path, other);
    FatAccessOFile(o, ReadDisk, pos * SLOT_SIZE, SLOT_SIZE, buffer, path, other);
    entry := buffer[..];
  }

  lemma SlotRead(bytes: seq<Byte>, pos: nat, buffer: seq<Byte>)
    requires |bytes| % SLOT_SIZE == 0 && pos < |SlotsOf(bytes)| && |buffer| == SLOT_SIZE
    ensures pos * SLOT_SIZE + SLOT_SIZE <= |bytes|
    ensures AfterAccess(ReadDisk, pos * SLOT_SIZE, SLOT_SIZE, 0, buffer, bytes) == (SlotsOf(bytes)[pos], bytes)
  {
    SlotPlace(bytes, pos);
    assert Splice(buffer, 0, SlotsOf(bytes)[pos]) == SlotsOf(bytes)[pos];
  }

  lemma SlotWritten(bytes: seq<Byte>, pos: nat, entry: Slot)
    requires |bytes| % SLOT_SIZE == 0 && pos < |SlotsOf(bytes)|
    ensures pos * SLOT_SIZE + SLOT_SIZE <= |bytes|
    ensures var (b, c) := AfterAccess(WriteDisk, pos * SLOT_SIZE, SLOT_SIZE, 0, entry, bytes);
      |c| == |bytes| && SlotsOf(c) == SlotsOf(bytes)[pos := entry]
  {
    SlotPlace(bytes, pos);
    WriteOneSlot(bytes, pos, entry);
    assert entry[0..SLOT_SIZE] == entry;
  }

  /** A buffer with the bytes of one slot. */
  method SlotBuffer(o: OFile, ghost path: seq<nat>, ghost other: seq<nat>, ghost d0: seq<Byte>, entry: Slot)
    returns (buffer: array<Byte>)
    requires DirReady(o, path) && Aside(o, path, other, d0)
    ensures DirReady(o, path) && Aside(o, path, other, d0) && SlotsOn(o, path) == old(SlotsOn(o, path))
    ensures fresh(buffer) && buffer[..] == entry
  {
    hide DirReady, Aside, SlotsOn;
    ghost var repr := o.volume.CacheRepr();
    assert forall x :: x in repr ==> allocated(x);
    buffer := new Byte[SLOT_SIZE](i requires 0 <= i < SLOT_SIZE => entry[i]);
    assert buffer !in repr;
  }

  /** FatAccessEntry with WriteData: one slot of the directory changes, and no byte of another file. */
  method WriteSlot(o: OFile, pos: nat, entry: Slot, ghost path: seq<nat>, ghost other: seq<nat>, ghost d0: seq<Byte>)
    requires DirReady(o, path) && Aside(o, path, other, d0) && pos < |SlotsOn(o, path)|
    modifies o.volume`fatEntryPos, o.volume`diskError, FatRepr(o.volume)
    modifies o.volume.dataCache, o.volume.dataCache.tags, o.volume.dataCache.pages
    modifies o`posDisk, o`posRem, o`fileCurrentCluster, o`position, o`dirty, o`archive
    ensures DirReady(o, path) && Aside(o, path, other, d0) && o.dirty && o.archive
    ensures o.volume.diskError == old(o.volume.diskError)
    ensures SlotsOn(o, path) == old(SlotsOn(o, path))[pos := entry]
  {
    hide Volume.FatValid, FileReady, BytesOf, AfterAccess, FileBytes, Elsewhere;
    ghost var bytes := BytesOf(o, path);
    SlotWritten(bytes, pos, entry);
    var buffer := SlotBuffer(o, path, other, d0, entry);
    ReadyShape(o, path, other);
    FatAccessOFile(o, WriteDisk, pos * SLOT_SIZE, SLOT_SIZE, buffer, path, other);
  }

  method CheckSum(o: OFile, entry: Slot, ghost path: seq<nat>, ghost other: seq<nat>, ghost d0: seq<Byte>)
    returns (sum: Byte)
    requires DirReady(o, path) && Aside(o, path, other, d0)
    ensures DirReady(o, path) && Aside(o, path, other, d0) && SlotsOn(o, path) == old(SlotsOn(o, path))
    ensures sum == CheckSumOf(ShortNameOf(entry))
  {
    hide DirReady, Aside, SlotsOn;
    ghost var repr := o.volume.CacheRepr();
    assert forall x :: x in repr ==> allocated(x);
    sum := FatCheckSum(ShortNameOf(entry));
  }

  /** FatStoreDirEnt, over the bytes of the directory. */
  method StoreDirEnt(o: OFile, pos: nat, count: nat, name: Str, entry: Slot, invalid: bool,
                     ghost path: seq<nat>, ghost other: seq<nat>, ghost d0: seq<Byte>)
    requires DirReady(o, path) && Aside(o, path, other, d0) && DirSlots.Fits(SlotsOn(o, path), pos, count)
    modifies o.volume`fatEntryPos, o.volume`diskError, FatRepr(o.volume)
    modifies o.volume.dataCache, o.volume.dataCache.tags, o.volume.dataCache.pages
    modifies o`posDisk, o`posRem, o`fileCurrentCluster, o`position, o`dirty, o`archive
    ensures DirReady(o, path) && Aside(o, path, other, d0) && o.dirty && o.archive
    ensures o.volume.diskError == old(o.volume.diskError)
    ensures SlotsOn(o, path) == Stored(old(SlotsOn(o, path)), pos, count, name, entry, invalid)
  {
    hide DirReady, Aside, SlotsOn, LfnSlot, LfnBuffer, StoredPart;
    ghost var before := SlotsOn(o, path);
    var sum := CheckSum(o, entry, path, other, d0);
    StoreNothing(before, pos, count - 1, name, entry, invalid);
    WriteSlot(o, pos, entry, path, other, d0);
    var n := count - 1;
    if n > 0 {
      var buffer := LfnBuffer(name, n);
      var k := 1;
      while k <= n
        invariant 1 <= k <= n + 1 && DirReady(o, path) && Aside(o, path, other, d0) && o.dirty && o.archive
        invariant o.volume.diskError == old(o.volume.diskError)
        invariant SlotsOn(o, path) == StoredPart(before, pos, n, k - 1, name, entry, invalid)
      {
        var ordinal: Byte := k;
        if k == n { ordinal := ordinal + FAT_LFN_LAST; }
        if invalid { ordinal := DELETE_ENTRY_MARK; }
        StoreNext(before, pos, n, k, name, entry, invalid);
        var slot := LfnSlot(ordinal, sum, buffer[LFN_CHAR_TOTAL * (k - 1)..LFN_CHAR_TOTAL * k]);
        WriteSlot(o, pos - k, slot, path, other, d0);
        k := k + 1;
      }
    }
  }

  // ---------------------------------------------------------------- the listing on the disk

  /** Marking an entry deleted on the disk takes it, and nothing else, out of what a scan of the disk lists. */
  method RemoveOnDisk(o: OFile, i: nat, r: Record, entry: Slot, ghost path: seq<nat>, ghost other: seq<nat>,
                      ghost d0: seq<Byte>)
    requires DirReady(o, path) && Aside(o, path, other, d0)
    requires i < |Listing(SlotsOn(o, path))| && r == Listing(SlotsOn(o, path))[i]
    requires entry[0] == DELETE_ENTRY_MARK && !VolumeIdBit(entry)
    modifies o.volume`fatEntryPos, o.volume`diskError, FatRepr(o.volume)
    modifies o.volume.dataCache, o.volume.dataCache.tags, o.volume.dataCache.pages
    modifies o`posDisk, o`posRem, o`fileCurrentCluster, o`position, o`dirty, o`archive
    ensures DirReady(o, path) && Aside(o, path, other, d0) && o.dirty && o.archive
    ensures o.volume.diskError == old(o.volume.diskError)
    ensures Listing(SlotsOn(o, path)) == Without(old(Listing(SlotsOn(o, path))), i)
  {
    hide DirReady, Aside, SlotsOn, Live, EndFrom, Stored, DirSlots.Fits, Without;
    ghost var slots := SlotsOn(o, path);
    RemovedFromListing(slots, EndOf(slots), i, entry);
    RemovedKeeps(slots, i, entry);
    StoreDirEnt(o, r.pos, r.count, r.name, entry, true, path, other, d0);
  }

  /** Storing an entry in a gap on the disk, or behind the end, puts it, and nothing else, into what a scan lists. */
  method InsertOnDisk(o: OFile, i: nat, pos: nat, count: nat, name: Str, entry: Slot,
                      ghost path: seq<nat>, ghost other: seq<nat>, ghost d0: seq<Byte>)
    returns (ghost listed: Record)
    requires DirReady(o, path) && Aside(o, path, other, d0) && Readable(name, count, entry) && Listed(entry)
    requires GapHolds(Listing(SlotsOn(o, path)), i, EndOf(SlotsOn(o, path)), pos, count)
    modifies o.volume`fatEntryPos, o.volume`diskError, FatRepr(o.volume)
    modifies o.volume.dataCache, o.volume.dataCache.tags, o.volume.dataCache.pages
    modifies o`posDisk, o`posRem, o`fileCurrentCluster, o`position, o`dirty, o`archive
    ensures DirReady(o, path) && Aside(o, path, other, d0) && o.dirty && o.archive
    ensures o.volume.diskError == old(o.volume.diskError)
    ensures ListedAs(old(SlotsOn(o, path)), Record(pos, count, name, ShortNameOf(entry)), listed)
    ensures i <= |old(Listing(SlotsOn(o, path)))|
    ensures Listing(SlotsOn(o, path)) == With(old(Listing(SlotsOn(o, path))), i, listed)
  {
    hide DirReady, Aside, SlotsOn, Live, EndFrom, Stored, DirSlots.Fits, With, ListedAs, Readable, GapHolds;
    ghost var slots := SlotsOn(o, path);
    listed := InsertedInListing(slots, i, pos, count, name, entry);
    StoreDirEnt(o, pos, count, name, entry, false, path, other, d0);
  }

  // ---------------------------------------------------------------- growing

  /** A directory with a chain: its size is that of its clusters, and a cluster holds whole slots. */
  ghost predicate DirOpen(o: OFile, path: seq<nat>)
    reads o, o.volume, o.volume.CacheRepr(), o.volume.dataCache
  {
    Open(o, path) && o.fileSize == |path| * o.volume.clusterSize && o.volume.clusterSize % SLOT_SIZE == 0
  }

  lemma OpenIsReady(o: OFile, path: seq<nat>)
    requires DirOpen(o, path)
    ensures DirReady(o, path) && BytesOf(o, path) == ContentOf(o, path) && Exact(o.volume, StateOf(o, path))
    ensures 0 < o.volume.clusterSize
  {
    WholeSlots(|path|, o.volume.clusterSize);
    NeedsExactly(o.volume, |path|);
  }

  lemma {:induction false} WholeSlots(n: nat, size: nat)
    requires size % SLOT_SIZE == 0
    ensures n * size % SLOT_SIZE == 0
  {
    var k := size / SLOT_SIZE;
    assert n * size == n * k * SLOT_SIZE + 0;
    DivModOf(n * k, 0, SLOT_SIZE);
  }

  lemma NeedsExactly(v: Volume, n: nat)
    requires 0 < v.clusterSize
    ensures FatSizeToClusters(v, n * v.clusterSize) == n
  {
    DivModOf(n, 0, v.clusterSize);
  }

  lemma OneMoreCluster(v: Volume, s: FileState)
    requires 0 < v.clusterSize && s.fileSize == |s.path| * v.clusterSize
    ensures FatSizeToClusters(v, s.fileSize + v.clusterSize) == |s.path| + 1
    ensures !Short(v, s, s.fileSize + v.clusterSize)
  {
    NeedsExactly(v, |s.path|);
    NeedsExactly(v, |s.path| + 1);
    MulAdd(|s.path|, 1, v.clusterSize);
  }

  /** A chain that fits a size of whole clusters has as many. */
  lemma WholeChain(o: OFile, path: seq<nat>, n: nat)
    requires Open(o, path) && Exact(o.volume, StateOf(o, path)) && o.fileSize == n * o.volume.clusterSize
    requires o.volume.clusterSize % SLOT_SIZE == 0
    ensures DirOpen(o, path)
  {
    NeedsExactly(o.volume, n);
  }

  /** More zeros at the end of a directory are more empty slots. */
  lemma ZeroSlots(bytes: seq<Byte>, n: nat)
    requires |bytes| % SLOT_SIZE == 0 && n % SLOT_SIZE == 0
    ensures (|bytes| + n) % SLOT_SIZE == 0
    ensures SlotsOf(bytes + Zeros(n)) == SlotsOf(bytes) + EmptySlots(n / SLOT_SIZE)
  {
    var after := bytes + Zeros(n);
    forall i | 0 <= i < |after| / SLOT_SIZE
      ensures SlotsOf(after)[i] == (SlotsOf(bytes) + EmptySlots(n / SLOT_SIZE))[i]
    {
      if i < |bytes| / SLOT_SIZE {
        SlotPlace(bytes, i);
      } else {
        assert SlotsOf(after)[i] == seq(SLOT_SIZE, _ => EMPTY_ENTRY_MARK);
      }
    }
  }

  /**
   * FatExpandODir: one cluster of empty slots is added exactly when a cluster is free and the size stays within 32
   * bits; otherwise nothing changes.  Other files keep their bytes.
   */
  method FatExpandODir(o: OFile, ghost path: seq<nat>, ghost first: nat, ghost other: seq<nat>)
    returns (status: Status, ghost path': seq<nat>)
    requires DirOpen(o, path) && Apart(o.volume.fat, path, first, other) && InArea(AreaOf(o.volume), other)
    requires DirReady(o, path)
    modifies VolumeRepr(o.volume), o.volume.dataCache, o.volume.dataCache.tags, o.volume.dataCache.pages, o
    ensures DirOpen(o, path') && DirReady(o, path') && Apart(o.volume.fat, path', first, other)
    ensures SlotsOn(o, path') == old(SlotsOn(o, path)) +
      if status == Success then EmptySlots(o.volume.clusterSize / SLOT_SIZE) else []
    ensures status == Success <==>
      |path| < old(Total(o.volume.fat, path)) && old(o.fileSize) + o.volume.clusterSize <= 0xFFFF_FFFF
    ensures OtherBytes(o, path', other) == old(OtherBytes(o, path, other))
    ensures Total(o.volume.fat, path') == old(Total(o.volume.fat, path))
  {
    hide Open, ContentOf, OtherBytes, FatSizeToClusters, BytesOf, Apart, Total, Short, Exact, DirReady, InArea, SlotsOf,
      EmptySlots;
    ghost var v, cur := o.volume, |path|;
    OpenIsReady(o, path);
    OneMoreCluster(v, StateOf(o, path));
    MulAdd(cur, 1, v.clusterSize);
    ghost var content := ContentOf(o, path);
    status, path' := FatExpandOFile(o, o.fileSize + o.volume.clusterSize, path, first, other);
    WholeChain(o, path', if status == Success then cur + 1 else cur);
    OpenIsReady(o, path');
    ZeroSlots(content, v.clusterSize);
    assert content + [] == content && SlotsOf(content) + [] == SlotsOf(content);
  }

  // ---------------------------------------------------------------- a directory with a chain

  /** What a store leaves of an open directory. */
  lemma StillOpen(o: OFile, path: seq<nat>)
    requires DirReady(o, path) && FreeInfoAccurate(o.volume) && !o.volume.diskError && !o.isFixedRootDir
    requires Chain(o.volume.fat, o.fileCluster, path)
    requires Known(PlaceOf(o), path) ==> o.fileLastCluster == LastOf(CLUSTER_FREE, path)
    requires o.fileSize == |path| * o.volume.clusterSize && o.volume.clusterSize % SLOT_SIZE == 0
    ensures DirOpen(o, path)
  {
    hide Volume.FatValid, FreeInfoAccurate, LegalLinks, Walk, Cursor, Chain;
  }

  lemma DirParts(o: OFile, path: seq<nat>, first: nat, other: seq<nat>)
    requires DirOpen(o, path) && Apart(o.volume.fat, path, first, other) && InArea(AreaOf(o.volume), other)
    ensures FreeInfoAccurate(o.volume) && !o.volume.diskError && !o.isFixedRootDir && AreaLayout(o.volume)
    ensures Chain(o.volume.fat, o.fileCluster, path)
    ensures Known(PlaceOf(o), path) ==> o.fileLastCluster == LastOf(CLUSTER_FREE, path)
    ensures o.fileSize == |path| * o.volume.clusterSize && o.volume.clusterSize % SLOT_SIZE == 0
    ensures Elsewhere(o.volume, o.isFixedRootDir, o.fileSize, path, other) && FileReady(o, path)
    ensures |o.volume.dataCache.contents| == o.volume.volumeSize - o.volume.rootPos
  {
    hide Volume.FatValid, FreeInfoAccurate, LegalLinks, Walk, Cursor;
  }

  /** FatStoreDirEnt for an open directory with a chain. */
  method StoreInDir(o: OFile, pos: nat, count: nat, name: Str, entry: Slot, invalid: bool,
                    ghost path: seq<nat>, ghost first: nat, ghost other: seq<nat>)
    requires DirOpen(o, path) && Apart(o.volume.fat, path, first, other) && InArea(AreaOf(o.volume), other)
    requires DirReady(o, path) && DirSlots.Fits(SlotsOn(o, path), pos, count)
    modifies o.volume`fatEntryPos, o.volume`diskError, FatRepr(o.volume)
    modifies o.volume.dataCache, o.volume.dataCache.tags, o.volume.dataCache.pages
    modifies o`posDisk, o`posRem, o`fileCurrentCluster, o`position, o`dirty, o`archive
    ensures DirOpen(o, path) && DirReady(o, path) && Apart(o.volume.fat, path, first, other)
    ensures SlotsOn(o, path) == Stored(old(SlotsOn(o, path)), pos, count, name, entry, invalid)
    ensures OtherBytes(o, path, other) == old(OtherBytes(o, path, other))
    ensures o.fileSize == old(o.fileSize) && o.volume.fat == old(o.volume.fat)
  {
    hide DirReady, SlotsOn, Open, Elsewhere, Others, FileBytes, Stored, Volume.FatValid, FileReady, LastOf, Chain;
    DirParts(o, path, first, other);
    ghost var before := o.volume.dataCache.contents;
    StoreDirEnt(o, pos, count, name, entry, invalid, path, other,
                Others(o.volume, o.isFixedRootDir, o.volume.dataCache.contents, other));
    StillOpen(o, path);
    DirParts(o, path, first, other);
    OthersParts(o.volume, o.isFixedRootDir, before, o.volume.dataCache.contents, other);
  }
}
