/**
 * What the driver leaves on the disk when a call ends (Flush.c: FatCleanupVolume), and what it finds there when the
 * volume is mounted again.
 */
module Cleanup {
  import opened FatTypes
  import opened FatEntry
  import opened BootSector
  import opened VolumeState
  import opened DiskCacheIo
  import opened FatTable

  /**
   * The image holds the volume: every copy of the FAT is `fat`, with the mark `mark`, and the data region is `data`.
   */
  ghost predicate HeldBy(v: Volume, image: seq<Byte>, fat: seq<Byte>, mark: seq<Byte>, data: seq<Byte>)
    requires v.Layout() && v.FatLayout() && |image| == v.disk.Length && |mark| == 4
  {
    && (forall k :: 0 <= k < v.numFats ==> v.CopyIn(image, k) == fat)
    && |fat| == v.fatSize && (v.fatType != Fat12 ==> v.MarkIn(fat) == mark[..v.fatEntrySize])
    && v.RegionIn(image, v.dataCache) == data
  }

  /** Once the volume is marked as not dirty. */
  method MarkNotDirty(v: Volume)
    requires v.FatValid()
    modifies v`diskError, v`fatDirty, v.disk, v.fatCache, v.fatCache.tags, v.fatCache.pages
    ensures v.FatValid() && v.diskError == old(v.diskError)
    ensures v.fatType != Fat12 ==> !v.fatDirty
  {
    if v.fatDirty && v.fatType != Fat12 {
      v.fatDirty := false;
      FatAccessVolumeDirty(v, v.notDirtyValue[..v.fatEntrySize]);
    }
  }

  /**
   * The part of FatCleanupVolume that concerns the disk: the volume is marked as not dirty and both caches are written
   * back.  Afterwards the disk holds the volume.
   */
  method FatCleanupVolume(v: Volume)
    requires v.FatValid()
    modifies v`diskError, v`fatDirty, v.disk, v.fatCache, v.fatCache.tags, v.fatCache.pages
    modifies v.dataCache`dirty, v.dataCache.tags
    ensures v.FatValid() && v.diskError == old(v.diskError) && v.Layout() && v.FatLayout()
    ensures v.fatType != Fat12 ==> !v.fatDirty
    ensures v.dataCache.contents == old(v.dataCache.contents)
    ensures v.fatCache.Shape() && v.dataCache.Shape() && v.fatCache.Clean() && v.dataCache.Clean()
    ensures HeldBy(v, v.disk[..], v.fatCache.contents, v.notDirtyValue, v.dataCache.contents)
  {
    hide Volume.FatInvariant, Volume.CacheValid, Volume.FatDecoded, DiskCache.Clean;
    MarkNotDirty(v);
    FatParts(v);
    FatVolumeFlushCache(v);
    FatWhole(v);
  }

  // ---------------------------------------------------------------- mounting again

  function GeometryOf(v: Volume): Geometry {
    Geometry(v.fatType, v.volumeSize, v.fatPos, v.fatSize, v.numFats, v.rootPos, v.firstClusterPos, v.maxCluster,
             v.clusterSize)
  }

  /** Two volumes with the same layout, FAT and data. */
  ghost predicate SameVolume(v: Volume, w: Volume)
    reads v, w, v.dataCache, w.dataCache
  {
    GeometryOf(v) == GeometryOf(w) && v.fat == w.fat && v.dataCache.contents == w.dataCache.contents
  }

  /** A disk that holds the volume can be mounted. */
  lemma HeldIsMountable(v: Volume)
    requires v.Layout() && v.FatLayout() && |v.notDirtyValue| == 4
    requires HeldBy(v, v.disk[..], v.fatCache.contents, v.notDirtyValue, v.dataCache.contents)
    ensures Mountable(GeometryOf(v), v.disk[..])
    ensures v.disk[v.fatPos..v.fatPos + v.fatSize] == v.fatCache.contents
    ensures v.disk[v.rootPos..v.volumeSize] == v.dataCache.contents
  {
    hide EntryPos, FatCopy;
    var image := v.disk[..];
    forall k | 0 <= k < v.numFats
      ensures FatCopy(v.fatPos, v.fatSize, image, k) == v.fatCache.contents
    {
      assert v.CopyIn(image, k) == v.fatCache.contents;
    }
    FirstCopyAt(v.fatPos, v.fatSize, image);
  }

  lemma FirstCopyAt(fatPos: nat, fatSize: nat, image: seq<Byte>)
    requires fatPos + fatSize <= |image|
    ensures FatCopy(fatPos, fatSize, image, 0) == image[fatPos..fatPos + fatSize]
  {}

  /** Two maps that the same bytes decode to are the same. */
  lemma SameMap(v: Volume, w: Volume)
    requires v.FatValid() && w.FatValid() && GeometryOf(v) == GeometryOf(w)
    requires v.fatCache.contents == w.fatCache.contents
    ensures v.fat == w.fat
  {
    FatParts(v);
    FatParts(w);
    hide DecodeEntry, Volume.FatValid, Volume.CacheValid, Volume.FatLayout;
    assert forall i: nat :: i in v.fat <==> i in w.fat;
  }

  /** And the volume's mark is the one that it was mounted with before. */
  lemma SameMark(v: Volume, w: Volume)
    requires v.Layout() && v.FatLayout() && |v.notDirtyValue| == 4
    requires HeldBy(v, v.disk[..], v.fatCache.contents, v.notDirtyValue, v.dataCache.contents)
    requires w.FatValid() && GeometryOf(v) == GeometryOf(w) && !w.fatDirty && v.fatCache.contents == w.fatCache.contents
    ensures |w.notDirtyValue| == 4
    ensures v.fatType != Fat12 ==> w.notDirtyValue[..v.fatEntrySize] == v.notDirtyValue[..v.fatEntrySize]
  {
    hide Volume.FatValid, Volume.CacheValid, Volume.CopyIn, Volume.RegionIn, Volume.FatDecoded;
    FatParts(w);
    assert v.fatEntrySize == w.fatEntrySize;
    assert v.MarkIn(v.fatCache.contents) == w.MarkIn(w.fatCache.contents);
  }

  lemma RegionsOf(v: Volume)
    requires v.CacheValid()
    ensures v.Layout() && v.fatCache.base == v.fatPos && v.fatCache.limit == v.fatPos + v.fatSize
    ensures v.dataCache.base == v.rootPos && v.dataCache.limit == v.volumeSize
    ensures v.RegionIn(v.disk[..], v.fatCache) == v.disk[v.fatPos..v.fatPos + v.fatSize]
    ensures v.RegionIn(v.disk[..], v.dataCache) == v.disk[v.rootPos..v.volumeSize]
  {}

  /**
   * The volume survives: after a call has ended, the driver, started anew on the same disk, finds the FAT and the data
   * that it had in its caches.
   */
  method Remount(v: Volume, valid: bool, count: nat, next: nat) returns (w: Volume)
    requires v.FatValid() && v.Layout() && v.FatLayout() && |v.notDirtyValue| == 4
    requires HeldBy(v, v.disk[..], v.fatCache.contents, v.notDirtyValue, v.dataCache.contents)
    ensures fresh(w) && fresh(w.CacheRepr() - {w.disk}) && fresh(w.fatEntryBuffer) && w.disk == v.disk
    ensures w.FatValid() && !w.diskError && !w.fatDirty && SameVolume(v, w)
    ensures v.fatType != Fat12 ==>
      |w.notDirtyValue| == 4 && w.notDirtyValue[..v.fatEntrySize] == v.notDirtyValue[..v.fatEntrySize]
  {
    hide Volume.FatValid, HeldBy, Mountable, DiskCache.Clean;
    HeldIsMountable(v);
    ghost var repr := v.CacheRepr();
    assert forall x :: x in repr ==> allocated(x);
    w := new Volume(v.disk, GeometryOf(v), valid, count, next);
    FatParts(w);
    RegionsOf(w);
    SameMap(v, w);
    SameMark(v, w);
  }
}
