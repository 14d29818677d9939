/** FAT entries read and written through the FAT cache (FileSpace.c, first part; FatAccessVolumeDirty of Misc.c). */
module FatTable {
  import opened FatTypes
  import opened FatEntry
  import opened VolumeState
  import opened DiskCacheIo

  /** What reading and writing FAT entries may write, besides fields of the volume. */
  ghost function FatRepr(v: Volume): set<object> {
    {v.disk, v.fatCache, v.fatCache.tags, v.fatCache.pages, v.fatEntryBuffer}
  }

  /** What changing the FAT may write: the volume's fields, the disk and the FAT cache. */
  ghost function VolumeRepr(v: Volume): set<object> {
    {v, v.fatCache} + FatRepr(v)
  }

  lemma EntryRequestFacts(v: Volume, pos: nat, length: nat)
    requires v.FatLayout() && length <= 4
    ensures NoAlignedPart(v.fatCache, pos, length)
  {}

  lemma EntryInside(v: Volume, index: nat)
    requires v.FatLayout() && index <= v.maxCluster + 1
    ensures EntryPos(v.fatType, index) + EntrySize(v.fatType) <= v.fatSize
  {}

  /** The parts of the invariant that lie outside the caches' own one. */
  lemma FatParts(v: Volume)
    requires v.FatValid()
    ensures v.CacheValid() && v.FatLayout() && |v.fatCache.contents| == v.fatSize && v.FatDecoded(v.fatCache.contents)
      && v.MarkHeld(v.fatCache.contents) && 2 <= v.nextCluster
    ensures v.fatCache != v.dataCache && v.dataCache.base == v.rootPos && v.dataCache.limit == v.volumeSize
  {}

  lemma FatWhole(v: Volume)
    requires v.CacheValid() && v.FatLayout() && |v.fatCache.contents| == v.fatSize
      && v.FatDecoded(v.fatCache.contents) && v.MarkHeld(v.fatCache.contents) && 2 <= v.nextCluster
    ensures v.FatValid()
  {}

  /** FatDiskIo with ReadFat, into FatEntryBuffer. */
  method ReadFat(v: Volume, pos: nat, length: nat)
    requires v.FatValid() && pos + length <= v.fatSize && length <= 4
    modifies v`diskError, FatRepr(v)
    ensures v.FatValid() && v.fatCache.contents == old(v.fatCache.contents)
    ensures v.diskError == old(v.diskError)
    ensures pos + length <= |v.fatCache.contents| && length <= v.fatEntryBuffer.Length
    ensures v.fatEntryBuffer[..length] == v.fatCache.contents[pos..pos + length]
  {
    hide Volume.CacheValid, Splice, NoAlignedPart;
    EntryRequestFacts(v, pos, length);
    FatCacheFacts(v);
    ghost var before := v.fatEntryBuffer[..];
    SplicePrefix(before, v.fatCache.contents[pos..pos + length]);
    var status := FatDiskIo(v, CacheFat, ReadDisk, v.fatPos + pos, length, v.fatEntryBuffer, 0);
  }

  lemma FatCacheFacts(v: Volume)
    requires v.CacheValid()
    ensures v.fatCache.base == v.fatPos && v.fatCache.limit == v.fatPos + v.fatSize && v.fatCache.limit <= v.volumeSize
    ensures v.fatEntryBuffer != v.disk
  {}

  /** FatLoadFatEntry: the entry's window is brought into FatEntryBuffer, and its position remembered. */
  method FatLoadFatEntry(v: Volume, index: nat)
    requires v.FatValid()
    modifies v`fatEntryPos, v`diskError, FatRepr(v)
    ensures v.FatValid() && v.fatCache.contents == old(v.fatCache.contents)
    ensures v.diskError == old(v.diskError)
    ensures index <= v.maxCluster + 1 ==>
      && Inside(v.fatType, v.fatCache.contents, index)
      && v.fatEntryPos == v.fatPos + EntryPos(v.fatType, index)
      && v.fatEntryBuffer[..v.fatEntrySize] == EntryWindow(v.fatType, v.fatCache.contents, index)
  {
    FatCacheFacts(v);
    if index > v.maxCluster + 1 {
      hide *;
      CopyMem(v.fatEntryBuffer, 0, [0xFF, 0xFF, 0xFF, 0xFF]);
      return;
    }
    EntryInside(v, index);
    hide Volume.CacheValid, EntryPos, Splice;
    var pos := EntryPos(v.fatType, index);
    v.fatEntryPos := v.fatPos + pos;
    ReadFat(v, pos, v.fatEntrySize);
  }

  lemma SplicePrefix<T>(s: seq<T>, bytes: seq<T>)
    requires |bytes| <= |s|
    ensures Splice(s, 0, bytes)[..|bytes|] == bytes
  {}

  /** FatGetFatEntry: the value of an entry; an index past the end reads as the last mark. */
  method FatGetFatEntry(v: Volume, index: nat) returns (value: nat)
    requires v.FatValid()
    modifies v`fatEntryPos, v`diskError, FatRepr(v)
    ensures v.FatValid() && v.fatCache.contents == old(v.fatCache.contents)
    ensures v.diskError == old(v.diskError)
    ensures index in v.fat ==> value == v.fat[index]
    ensures index > v.maxCluster + 1 ==> value == CLUSTER_LAST
  {
    FatLoadFatEntry(v, index);
    if index > v.maxCluster + 1 {
      return CLUSTER_LAST;
    }
    var window: Window := v.fatEntryBuffer[..v.fatEntrySize];
    value := Widen(v.fatType, RawEntry(v.fatType, index, window));
  }

  // ---------------------------------------------------------------- FatSetFatEntry

  /** FatDiskIo with WriteFat. */
  method WriteFat(v: Volume, pos: nat, data: seq<Byte>)
    requires v.CacheValid() && v.FatLayout() && pos + |data| <= v.fatSize && |data| <= 4
    requires v.fatCache.Shape() && |v.fatCache.contents| == v.fatSize
    modifies v`diskError, v.disk, v.fatCache, v.fatCache.tags, v.fatCache.pages
    ensures v.CacheValid() && v.fatCache.Shape() && |v.fatCache.contents| == v.fatSize
    ensures v.diskError == old(v.diskError)
    ensures v.fatCache.contents == Splice(old(v.fatCache.contents), pos, data)
  {
    EntryRequestFacts(v, pos, |data|);
    FatCacheFacts(v);
    hide Volume.CacheValid, Splice, NoAlignedPart;
    var buffer := new Byte[|data|](i requires 0 <= i < |data| => data[i]);
    assert buffer[..] == data && data[0..0 + |data|] == data;
    var status := FatDiskIo(v, CacheFat, WriteDisk, v.fatPos + pos, |data|, buffer, 0);
  }

  lemma MarkKeepsWindow(v: Volume, contents: seq<Byte>, mark: seq<Byte>, index: nat)
    requires v.FatLayout() && |contents| == v.fatSize && |mark| == v.fatEntrySize && v.fatType != Fat12
    requires 2 <= index <= v.maxCluster + 1
    ensures 2 * v.fatEntrySize <= v.fatSize
    ensures var contents' := Splice(contents, v.fatEntrySize, mark);
      && Inside(v.fatType, contents, index) && Inside(v.fatType, contents', index)
      && EntryWindow(v.fatType, contents', index) == EntryWindow(v.fatType, contents, index)
  {
    EntryInside(v, index);
    SliceOfSplice(contents, v.fatEntrySize, mark, EntryPos(v.fatType, index),
                  EntryPos(v.fatType, index) + v.fatEntrySize);
  }

  /** FatAccessVolumeDirty with WriteFat: the mark goes to entry 1, and no cluster's entry changes. */
  method FatAccessVolumeDirty(v: Volume, mark: seq<Byte>)
    requires v.CacheValid() && v.FatLayout() && v.fatCache.Shape() && |v.fatCache.contents| == v.fatSize
    requires |mark| == v.fatEntrySize && v.fatType != Fat12 && v.FatDecoded(v.fatCache.contents)
    modifies v`diskError, v.disk, v.fatCache, v.fatCache.tags, v.fatCache.pages
    ensures v.CacheValid() && v.fatCache.Shape() && |v.fatCache.contents| == v.fatSize
    ensures v.diskError == old(v.diskError) && v.MarkIn(v.fatCache.contents) == mark
    ensures v.FatDecoded(v.fatCache.contents)
    ensures forall i :: 2 <= i <= v.maxCluster + 1 ==>
      && Inside(v.fatType, v.fatCache.contents, i)
      && EntryWindow(v.fatType, v.fatCache.contents, i) == old(EntryWindow(v.fatType, v.fatCache.contents, i))
  {
    ghost var before := v.fatCache.contents;
    MarkFits(v);
    WriteFat(v, v.fatEntrySize, mark);
    MarkStored(v, before, mark);
  }

  lemma MarkFits(v: Volume)
    requires v.FatLayout() && v.fatType != Fat12
    ensures 2 * v.fatEntrySize <= v.fatSize
  {
    EntryInside(v, 1);
  }

  lemma MarkStored(v: Volume, before: seq<Byte>, mark: seq<Byte>)
    requires v.FatLayout() && |before| == v.fatSize && |mark| == v.fatEntrySize && v.fatType != Fat12
    requires v.FatDecoded(before) && 2 * v.fatEntrySize <= v.fatSize
    ensures var after := Splice(before, v.fatEntrySize, mark);
      && v.FatDecoded(after) && v.MarkIn(after) == mark
      && forall i :: 2 <= i <= v.maxCluster + 1 ==>
          && Inside(v.fatType, before, i) && Inside(v.fatType, after, i)
          && EntryWindow(v.fatType, after, i) == EntryWindow(v.fatType, before, i)
  {
    hide Splice, EntryPos, EntryWindow;
    forall i | 2 <= i <= v.maxCluster + 1
      ensures Inside(v.fatType, before, i) && Inside(v.fatType, Splice(before, v.fatEntrySize, mark), i)
      ensures EntryWindow(v.fatType, Splice(before, v.fatEntrySize, mark), i) == EntryWindow(v.fatType, before, i)
    {
      MarkKeepsWindow(v, before, mark, i);
    }
    SliceInsideSplice(before, v.fatEntrySize, mark, v.fatEntrySize, 2 * v.fatEntrySize);
  }

  /** Write the patched window of FatEntryBuffer to the FAT cache. */
  method StoreFatEntry(v: Volume, index: nat, value: nat, data: seq<Byte>)
    requires v.FatValid() && index in v.fat && v.fatEntryPos == v.fatPos + EntryPos(v.fatType, index)
    requires data == PatchEntry(v.fatType, index, EntryWindow(v.fatType, v.fatCache.contents, index), value)
    modifies v`diskError, v`fat, v.disk, v.fatCache, v.fatCache.tags, v.fatCache.pages
    ensures v.FatValid() && v.diskError == old(v.diskError)
    ensures v.fat == old(v.fat)[index := Normal(v.fatType, value)]
  {
    hide Splice, PatchEntry, DecodeEntry, EntryPos, EntryWindow, Normal;
    ghost var before := v.fatCache.contents;
    EntryInside(v, index);
    WriteFat(v, v.fatEntryPos - v.fatPos, data);
    assert v.fatCache.contents == StoreEntry(v.fatType, before, index, value);
    EntryKeepsMark(v, before, index, data);
    v.fat := v.fat[index := Normal(v.fatType, value)];
    forall j: nat | j in v.fat
      ensures Inside(v.fatType, v.fatCache.contents, j)
      ensures v.fat[j] == DecodeEntry(v.fatType, v.fatCache.contents, j)
    {
      EntryInside(v, j);
      StoreIsMapUpdate(v.fatType, before, index, value, j);
    }
  }

  lemma EntryKeepsMark(v: Volume, before: seq<Byte>, index: nat, data: seq<Byte>)
    requires v.FatLayout() && |before| == v.fatSize && 2 <= index && |data| == v.fatEntrySize
    requires EntryPos(v.fatType, index) + |data| <= |before|
    ensures v.MarkIn(Splice(before, EntryPos(v.fatType, index), data)) == v.MarkIn(before)
  {
    if v.fatType != Fat12 {
      SliceOfSplice(before, EntryPos(v.fatType, index), data, v.fatEntrySize, 2 * v.fatEntrySize);
    }
  }

  /** The free count and the next-free hint after entry `index` changes from `original` to `value`. */
  ghost function CountAfterSet(count: nat, original: nat, value: nat): nat {
    if value == CLUSTER_FREE && original != CLUSTER_FREE then count + 1
    else if value != CLUSTER_FREE && original == CLUSTER_FREE && count != 0 then count - 1
    else count
  }

  ghost function HintAfterSet(hint: nat, index: nat, original: nat, value: nat): nat {
    if value == CLUSTER_FREE && original != CLUSTER_FREE && index < hint then index else hint
  }

  /** The first half of FatSetFatEntry: account for a cluster that becomes free or taken. */
  method UpdateFreeInfo(v: Volume, index: nat, original: nat, value: nat)
    requires v.FatValid() && MIN_CLUSTER <= index
    modifies v`clusterCount, v`nextCluster
    ensures v.FatValid()
    ensures v.clusterCount == CountAfterSet(old(v.clusterCount), original, value)
    ensures v.nextCluster == HintAfterSet(old(v.nextCluster), index, original, value)
  {
    if value == CLUSTER_FREE && original != CLUSTER_FREE {
      v.clusterCount := v.clusterCount + 1;
      if index < v.nextCluster {
        v.nextCluster := index;
      }
    } else if value != CLUSTER_FREE && original == CLUSTER_FREE {
      if v.clusterCount != 0 {
        v.clusterCount := v.clusterCount - 1;
      }
    }
  }

  /** Before an entry is written, the volume is marked dirty, once; FAT12 volumes have no mark. */
  method MarkDirtyOnce(v: Volume, ghost index: nat)
    requires v.FatValid() && index in v.fat
    modifies v`diskError, v`fatDirty, v.disk, v.fatCache, v.fatCache.tags, v.fatCache.pages
    ensures v.FatValid() && v.diskError == old(v.diskError)
    ensures Inside(v.fatType, v.fatCache.contents, index)
    ensures EntryWindow(v.fatType, v.fatCache.contents, index) ==
      old(EntryWindow(v.fatType, v.fatCache.contents, index))
  {
    MapFacts(v, index);
    if !v.fatDirty && v.fatType != Fat12 {
      v.fatDirty := true;
      hide Volume.CacheInvariant, EntryPos, EntryWindow;
      FatAccessVolumeDirty(v, v.dirtyValue[..v.fatEntrySize]);
    }
  }

  lemma FatCacheFactsOf(v: Volume)
    requires v.FatValid()
    ensures v.fatCache.base == v.fatPos && v.fatCache.limit == v.fatPos + v.fatSize && v.fatCache.limit <= v.volumeSize
    ensures v.fatEntryBuffer != v.disk
  {
    FatCacheFacts(v);
  }

  /** The second half of FatSetFatEntry: patch the entry's bytes and write them. */
  method WriteFatEntry(v: Volume, index: nat, value: nat)
    requires v.FatValid() && index in v.fat
    modifies v`fatEntryPos, v`diskError, v`fat, v`fatDirty, FatRepr(v), v.fatCache
    ensures v.FatValid() && v.diskError == old(v.diskError)
    ensures v.fat == old(v.fat)[index := Normal(v.fatType, value)]
  {
    hide Volume.FatInvariant, Volume.CacheInvariant, Volume.FatLayout, Volume.FatDecoded, PatchEntry, EntryPos,
      EntryWindow, Inside, Normal, EntrySize;
    MapFacts(v, index);
    FatCacheFactsOf(v);
    FatLoadFatEntry(v, index);
    var data := PatchEntry(v.fatType, index, v.fatEntryBuffer[..v.fatEntrySize], value);
    PatchBuffer(v, data);
    MarkDirtyOnce(v, index);
    StoreFatEntry(v, index, value, v.fatEntryBuffer[..v.fatEntrySize]);
  }

  lemma MapFacts(v: Volume, index: nat)
    requires v.FatValid() && index in v.fat
    ensures 2 <= index <= v.maxCluster + 1
    ensures v.fatEntrySize == EntrySize(v.fatType) <= 4
    ensures v.fatEntryBuffer.Length == 4 && |v.dirtyValue| == 4
    ensures Inside(v.fatType, v.fatCache.contents, index)
  {}

  /** FatSetFatEntry: a map update of the FAT, with the free information kept up to date. */
  method FatSetFatEntry(v: Volume, index: nat, value: nat) returns (status: Status)
    requires v.FatValid()
    requires index < MIN_CLUSTER || index in v.fat
    modifies v`fatEntryPos, v`diskError, v`fat, v`clusterCount, v`nextCluster, v`fatDirty, FatRepr(v), v.fatCache
    ensures v.FatValid() && v.diskError == old(v.diskError)
    ensures index < MIN_CLUSTER ==>
      && status == VolumeCorrupted && v.fat == old(v.fat)
      && v.clusterCount == old(v.clusterCount) && v.nextCluster == old(v.nextCluster)
    ensures index >= MIN_CLUSTER ==>
      && status == Success && v.fat == old(v.fat)[index := Normal(v.fatType, value)]
      && v.clusterCount == CountAfterSet(old(v.clusterCount), old(v.fat[index]), value)
      && v.nextCluster == HintAfterSet(old(v.nextCluster), index, old(v.fat[index]), value)
  {
    hide Volume.FatInvariant, CountAfterSet, HintAfterSet, Normal;
    if index < MIN_CLUSTER {
      return VolumeCorrupted;
    }
    var original := FatGetFatEntry(v, index);
    UpdateFreeInfo(v, index, original, value);
    WriteFatEntry(v, index, value);
    status := Success;
  }

  method PatchBuffer(v: Volume, data: seq<Byte>)
    requires v.FatValid() && |data| == v.fatEntrySize
    modifies v.fatEntryBuffer
    ensures v.FatValid() && v.fatEntryBuffer[..v.fatEntrySize] == data
  {
    FatCacheFacts(v);
    SplicePrefix(v.fatEntryBuffer[..], data);
    hide Volume.CacheValid, Splice;
    CopyMem(v.fatEntryBuffer, 0, data);
  }
}
