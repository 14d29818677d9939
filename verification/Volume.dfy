/**
 * The mounted volume and its two disk caches (Fat.h, DISK_CACHE and FAT_VOLUME).
 *
 * Each cache owns a region of the disk.  The ghost field `contents` is that region
 * as its users see it: one flat byte array.  `Coherent` ties it to the tags, the
 * cache pages and the disk.
 */
module VolumeState {
  import opened FatTypes
  import opened FatEntry
  import opened BootSector

  datatype CacheDataType = CacheFat | CacheData

  datatype CacheTag = CacheTag(pageNo: nat, realSize: nat, dirty: bool)

  class DiskCache {
    const base: nat        // BaseAddress
    const limit: nat       // LimitAddress
    const pageSize: nat    // 1 << PageAlignment
    const groupCount: nat  // GroupMask + 1
    const tags: array<CacheTag>
    const pages: array<seq<Byte>>  // CacheBase: one page of bytes for each group
    var dirty: bool
    ghost var contents: seq<Byte>

    constructor (base: nat, limit: nat, pageSize: nat, groupCount: nat, ghost region: seq<Byte>)
      requires base <= limit && |region| == limit - base && 0 < pageSize && 0 < groupCount
      ensures this.base == base && this.limit == limit && this.pageSize == pageSize && this.groupCount == groupCount
      ensures fresh(tags) && fresh(pages)
      ensures Shape() && contents == region && Coherent(region) && Clean()
    {
      this.base, this.limit, this.pageSize, this.groupCount := base, limit, pageSize, groupCount;
      tags := new CacheTag[groupCount](_ => CacheTag(0, 0, false));
      pages := new seq<Byte>[groupCount](_ => seq(pageSize, _ => 0));
      dirty := false;
      contents := region;
    }

    ghost predicate Shape()
      reads this
    {
      && base <= limit && 0 < pageSize && 0 < groupCount
      && tags.Length == groupCount && pages.Length == groupCount
      && |contents| == limit - base
    }

    /** Byte `q` of the region is byte `PageOffset(q)` of page `PageNo(q)`, which begins at `PageStart`. */
    function PageNo(q: nat): nat
      requires 0 < pageSize
    {
      q / pageSize
    }

    function PageOffset(q: nat): (o: nat)
      requires 0 < pageSize
      ensures o < pageSize
    {
      q % pageSize
    }

    function PageStart(p: nat): nat {
      p * pageSize
    }

    /** Page `p` begins inside the region. */
    predicate HasPage(p: nat) {
      base + PageStart(p) < limit
    }

    /** How many bytes of page `p` lie inside the region. */
    function PageLength(p: nat): (length: nat)
      requires HasPage(p)
      ensures base + PageStart(p) + length <= limit && length <= pageSize
    {
      if limit - (base + PageStart(p)) < pageSize then limit - (base + PageStart(p)) else pageSize
    }

    /** The bytes of page `p` in an image of the region. */
    ghost function PageOf(image: seq<Byte>, p: nat): (bytes: seq<Byte>)
      requires |image| == limit - base && base <= limit && HasPage(p)
      ensures |bytes| == PageLength(p)
    {
      image[PageStart(p)..PageStart(p) + PageLength(p)]
    }

    /** Group `g` holds page `p`. */
    ghost predicate Holds(g: nat, p: nat)
      requires g < tags.Length
      reads tags
    {
      tags[g].realSize > 0 && tags[g].pageNo == p
    }

    /** Page `p` is held, modified, by the cache. */
    ghost predicate DirtyPage(p: nat)
      requires Shape()
      reads this, tags
    {
      var g := p % groupCount;
      Holds(g, p) && tags[g].dirty
    }

    /** The page held by group `g`, if any, belongs there and agrees with the contents. */
    ghost predicate GroupCoherent(g: nat)
      requires Shape() && g < groupCount
      reads this, tags, pages
    {
      var tag := tags[g];
      && |pages[g]| == pageSize
      && (tag.realSize > 0 ==>
            && tag.pageNo % groupCount == g
            && HasPage(tag.pageNo)
            && tag.realSize == PageLength(tag.pageNo)
            && (tag.dirty ==> dirty)
            && pages[g][..tag.realSize] == PageOf(contents, tag.pageNo))
    }

    /** Page `p` of the contents is up to date in `region`, the image on the disk. */
    ghost predicate OnDisk(region: seq<Byte>, p: nat)
      requires Shape() && |region| == limit - base
      reads this
    {
      HasPage(p) ==> PageOf(contents, p) == PageOf(region, p)
    }

    /** Cached pages agree with the contents; pages that are not dirty are up to date on the disk. */
    ghost predicate Coherent(region: seq<Byte>)
      requires Shape() && |region| == limit - base
      reads this, tags, pages
    {
      && (forall g :: 0 <= g < groupCount ==> GroupCoherent(g))
      && (forall p: nat :: DirtyPage(p) || OnDisk(region, p))
    }

    /** No page waits to be written back. */
    ghost predicate Clean()
      requires Shape()
      reads this, tags
    {
      forall g :: 0 <= g < groupCount ==> !(tags[g].realSize > 0 && tags[g].dirty)
    }

    /** A byte of a page that is up to date on the disk. */
    lemma ByteOnDisk(region: seq<Byte>, q: nat)
      requires Shape() && |region| == limit - base && q < |contents| && OnDisk(region, q / pageSize)
      ensures contents[q] == region[q]
    {
      var p := q / pageSize;
      PageSplit(q, pageSize);
      assert PageOf(contents, p)[q - PageStart(p)] == contents[q];
      assert PageOf(region, p)[q - PageStart(p)] == region[q];
    }

    /** With no dirty page, the disk holds the contents. */
    lemma CleanMeansOnDisk(region: seq<Byte>)
      requires Shape() && |region| == limit - base && Coherent(region) && Clean()
      ensures contents == region
    {
      forall q | 0 <= q < |contents|
        ensures contents[q] == region[q]
      {
        hide OnDisk;
        assert OnDisk(region, q / pageSize);
        ByteOnDisk(region, q);
      }
    }
  }

  // Cache parameters (Fat.h)
  const FATCACHE_PAGE_MIN := 0x2000
  const FATCACHE_PAGE_MAX := 0x8000
  const DATACACHE_PAGE_MIN := 0x2000
  const DATACACHE_PAGE_MAX := 0x1_0000
  const DATACACHE_GROUP_COUNT := 64
  const FATCACHE_GROUP_MIN_COUNT := 1
  const FATCACHE_GROUP_MAX_COUNT := 16

  /** The k-th copy of the FAT in an image of the disk. */
  function FatCopy(fatPos: nat, fatSize: nat, image: seq<Byte>, k: nat): seq<Byte> {
    var at := fatPos + k * fatSize;
    if at + fatSize <= |image| then image[at..at + fatSize] else []
  }

  /** The copies of the FAT agree. */
  ghost predicate EqualCopies(image: seq<Byte>, fatPos: nat, fatSize: nat, numFats: nat) {
    forall k :: 0 <= k < numFats ==> FatCopy(fatPos, fatSize, image, k) == FatCopy(fatPos, fatSize, image, 0)
  }

  /** What mounting relies on: the regions lie on the disk, the FAT has an entry for every cluster, its copies agree. */
  ghost predicate Mountable(g: Geometry, image: seq<Byte>) {
    && g.volumeSize <= |image| && 0 < g.numFats
    && g.rootPos == g.fatPos + g.numFats * g.fatSize
    && g.fatPos + g.fatSize <= g.rootPos <= g.volumeSize
    && g.maxCluster + 1 < FirstSpecial(g.fatType)
    && EntryPos(g.fatType, g.maxCluster + 1) + EntrySize(g.fatType) <= g.fatSize
    && EqualCopies(image, g.fatPos, g.fatSize, g.numFats)
  }

  /** The bytes that a FAT with entries for `n` clusters takes: 12, 16 or 32 bits for each, and two more entries. */
  function FatBytesFor(t: FatType, n: nat): nat {
    match t
    case Fat12 => 3 * (n + 1) / 2 + 2
    case Fat16 => 2 * (n + 2)
    case Fat32 => 4 * (n + 2)
  }

  /** Every byte of the FATs, but for the last of them, comes again one FAT later. */
  ghost predicate Repeats(image: seq<Byte>, fatPos: nat, fatSize: nat, numFats: nat)
    requires 0 < numFats
  {
    forall p :: fatPos <= p < fatPos + (numFats - 1) * fatSize ==> ComesAgain(image, p, fatSize)
  }

  predicate ComesAgain(image: seq<Byte>, p: nat, distance: nat) {
    p + distance < |image| ==> image[p + distance] == image[p]
  }

  /** What a boot sector that is accepted, and its volume, must also satisfy; the code does not check it. */
  ghost predicate Sound(b: Bpb, image: seq<Byte>)
    requires Checked(b)
  {
    var fatSize := b.sectorsPerFat * b.sectorSize;
    && b.numFats * b.sectorsPerFat + b.reservedSectors <= b.sectors && b.sectors * b.sectorSize <= |image|
    && (b.fat32 ==> MaxCluster(b) + 1 < FirstSpecial(Fat32))
    && FatBytesFor(TypeOf(b), MaxCluster(b)) <= fatSize
    && Repeats(image, b.reservedSectors * b.sectorSize, fatSize, b.numFats)
  }

  function TypeOf(b: Bpb): FatType
    requires 0 < b.sectorSize
  {
    if b.fat32 then Fat32 else if MaxCluster(b) < MAX_FAT12_CLUSTER then Fat12 else Fat16
  }

  lemma Capacity(t: FatType, n: nat, fatSize: nat)
    ensures EntryPos(t, n + 1) + EntrySize(t) <= fatSize <==> FatBytesFor(t, n) <= fatSize
  {}

  lemma CopyInside(image: seq<Byte>, fatPos: nat, fatSize: nat, numFats: nat, k: nat)
    requires fatPos + numFats * fatSize <= |image| && k < numFats
    ensures fatPos + k * fatSize + fatSize <= |image| && |FatCopy(fatPos, fatSize, image, k)| == fatSize
    ensures forall o :: 0 <= o < fatSize ==>
      FatCopy(fatPos, fatSize, image, k)[o] == image[fatPos + k * fatSize + o]
  {
    MulLe(k + 1, numFats, fatSize);
  }

  /** Two neighbouring copies are equal when the bytes of the first come again. */
  lemma NextCopy(image: seq<Byte>, fatPos: nat, fatSize: nat, numFats: nat, k: nat)
    requires fatPos + numFats * fatSize <= |image| && k + 1 < numFats && Repeats(image, fatPos, fatSize, numFats)
    ensures FatCopy(fatPos, fatSize, image, k) == FatCopy(fatPos, fatSize, image, k + 1)
  {
    CopyInside(image, fatPos, fatSize, numFats, k);
    CopyInside(image, fatPos, fatSize, numFats, k + 1);
    MulLe(k + 1, numFats - 1, fatSize);
    MulAdd(k, 1, fatSize);
    MulLe(0, k, fatSize);
    var at, next, last := fatPos + k * fatSize, fatPos + (k + 1) * fatSize, fatPos + (numFats - 1) * fatSize;
    hide FatCopy;
    var a, b := FatCopy(fatPos, fatSize, image, k), FatCopy(fatPos, fatSize, image, k + 1);
    forall o | 0 <= o < fatSize
      ensures a[o] == b[o]
    {
      assert ComesAgain(image, at + o, fatSize);
      assert a[o] == image[at + o] && b[o] == image[next + o];
    }
    assert a == b;
  }

  lemma {:induction false} RepeatedCopy(image: seq<Byte>, fatPos: nat, fatSize: nat, numFats: nat, k: nat)
    requires fatPos + numFats * fatSize <= |image| && k < numFats && Repeats(image, fatPos, fatSize, numFats)
    ensures FatCopy(fatPos, fatSize, image, k) == FatCopy(fatPos, fatSize, image, 0)
  {
    hide FatCopy, Repeats;
    if k > 0 {
      RepeatedCopy(image, fatPos, fatSize, numFats, k - 1);
      NextCopy(image, fatPos, fatSize, numFats, k - 1);
    }
  }

  /** A byte of equal copies, but for the last one, comes again. */
  lemma ByteAgain(image: seq<Byte>, fatPos: nat, fatSize: nat, numFats: nat, p: nat)
    requires fatPos + numFats * fatSize <= |image| && EqualCopies(image, fatPos, fatSize, numFats)
    requires 0 < numFats && fatPos <= p < fatPos + (numFats - 1) * fatSize
    ensures ComesAgain(image, p, fatSize)
  {
    var q := p - fatPos;
    SomeBytes(fatSize, numFats - 1, q);
    PageSplit(q, fatSize);
    var k, o := q / fatSize, q % fatSize;
    InPages(fatSize, numFats - 1, q);
    MulAdd(k, 1, fatSize);
    CopyInside(image, fatPos, fatSize, numFats, k);
    CopyInside(image, fatPos, fatSize, numFats, k + 1);
    NeighboursEqual(image, fatPos, fatSize, numFats, k);
    hide FatCopy, EqualCopies;
    var a, b := FatCopy(fatPos, fatSize, image, k), FatCopy(fatPos, fatSize, image, k + 1);
    assert a[o] == image[p] && b[o] == image[p + fatSize] && a == b;
  }

  lemma NeighboursEqual(image: seq<Byte>, fatPos: nat, fatSize: nat, numFats: nat, k: nat)
    requires EqualCopies(image, fatPos, fatSize, numFats) && k + 1 < numFats
    ensures FatCopy(fatPos, fatSize, image, k) == FatCopy(fatPos, fatSize, image, k + 1)
  {
    hide FatCopy;
  }

  lemma SomeBytes(size: nat, count: nat, q: nat)
    requires q < count * size
    ensures 0 < size
  {}

  /** The copies of the FAT are equal exactly when its bytes repeat. */
  lemma EqualCopiesIff(image: seq<Byte>, fatPos: nat, fatSize: nat, numFats: nat)
    requires 0 < numFats && fatPos + numFats * fatSize <= |image|
    ensures Repeats(image, fatPos, fatSize, numFats) <==> EqualCopies(image, fatPos, fatSize, numFats)
  {
    hide FatCopy, ComesAgain;
    if Repeats(image, fatPos, fatSize, numFats) {
      forall k | 0 <= k < numFats
        ensures FatCopy(fatPos, fatSize, image, k) == FatCopy(fatPos, fatSize, image, 0)
      {
        RepeatedCopy(image, fatPos, fatSize, numFats, k);
      }
    }
    if EqualCopies(image, fatPos, fatSize, numFats) {
      forall p | fatPos <= p < fatPos + (numFats - 1) * fatSize
        ensures ComesAgain(image, p, fatSize)
      {
        ByteAgain(image, fatPos, fatSize, numFats, p);
      }
    }
  }

  /**
   * The geometry of an accepted boot sector can be mounted exactly when sector counts and bytes are sound: the regions
   * follow each other in any case, and on FAT12 and FAT16 the cluster numbers are ordinary.
   */
  lemma OpenedIsMountable(b: Bpb, image: seq<Byte>)
    requires Checked(b) && OpenGeometry(b).Opened?
    ensures Mountable(OpenGeometry(b).geometry, image) <==> Sound(b, image)
  {
    var g := OpenGeometry(b).geometry;
    RegionsFollowEachOther(b);
    if !b.fat32 { ClusterNumbersOrdinary(b); }
    MulAtMost(b.numFats * b.sectorsPerFat + b.reservedSectors, b.sectors, b.sectorSize);
    RootAt(b);
    Capacity(g.fatType, g.maxCluster, g.fatSize);
    hide EntryPos, FatCopy, OpenGeometry, Repeats, FatBytesFor, MaxCluster, TypeOf;
    if g.rootPos <= g.volumeSize <= |image| {
      EqualCopiesIff(image, g.fatPos, g.fatSize, g.numFats);
    }
  }

  lemma RootAt(b: Bpb)
    requires Checked(b) && OpenGeometry(b).Opened?
    ensures var g := OpenGeometry(b).geometry;
      && g.rootPos == (b.numFats * b.sectorsPerFat + b.reservedSectors) * b.sectorSize
      && g.volumeSize == b.sectors * b.sectorSize && g.numFats == b.numFats && (g.fatType == Fat32 <==> b.fat32)
      && g.fatPos == b.reservedSectors * b.sectorSize && g.fatSize == b.sectorsPerFat * b.sectorSize
      && g.fatType == TypeOf(b) && g.maxCluster == MaxCluster(b)
  {}

  lemma MulAtMost(a: nat, b: nat, n: nat)
    requires 0 < n
    ensures a * n <= b * n <==> a <= b
  {
    if a <= b { MulLe(a, b, n); } else { PagesDisjoint(b, a, n); }
  }

  lemma EntryPosMonotone(t: FatType, i: nat, j: nat)
    requires i <= j
    ensures EntryPos(t, i) <= EntryPos(t, j)
  {}

  /** What cluster `i`'s entry in the first FAT copy reads as. */
  ghost function MountedEntry(g: Geometry, image: seq<Byte>, i: nat): nat
    requires Mountable(g, image) && 2 <= i <= g.maxCluster + 1
  {
    EntryPosMonotone(g.fatType, i, g.maxCluster + 1);
    DecodeEntry(g.fatType, image[g.fatPos..g.fatPos + g.fatSize], i)
  }

  /** The bytes of entry 1, which holds the volume's dirty mark, and the same bytes with the mark set. */
  function VolumeMark(g: Geometry, image: seq<Byte>): (mark: seq<Byte>)
    requires Mountable(g, image)
    ensures |mark| == 4
  {
    var at := g.fatPos + EntrySize(g.fatType);
    match g.fatType
    case Fat12 => [0, 0, 0, 0]
    case Fat16 => image[at..at + 2] + [0, 0]
    case Fat32 => image[at..at + 4]
  }

  function DirtyMark(t: FatType, mark: seq<Byte>): (dirty: seq<Byte>)
    requires |mark| == 4
    ensures |dirty| == 4
  {
    match t
    case Fat12 => mark
    case Fat16 => mark[1 := mark[1] % 0x80]
    case Fat32 => mark[3 := mark[3] / 0x10 * 0x10 + mark[3] % 8]
  }

  class Volume {
    const disk: array<Byte>
    const volumeSize: nat
    const fatPos: nat
    const fatSize: nat
    const numFats: nat
    const rootPos: nat
    const fatCache: DiskCache
    const dataCache: DiskCache
    var diskError: bool

    // Geometry of the FAT and of the cluster area
    const fatType: FatType
    const maxCluster: nat
    const clusterSize: nat
    const firstClusterPos: nat

    // The FAT entry being read or written
    const fatEntryBuffer: array<Byte>
    const fatEntrySize: nat
    var fatEntryPos: nat

    // Free cluster information and the volume dirty mark
    var clusterCount: nat
    var nextCluster: nat
    var freeInfoValid: bool
    var fatDirty: bool
    const dirtyValue: seq<Byte>
    const notDirtyValue: seq<Byte>

    /** The FAT as a map: what each cluster's entry reads as. */
    ghost var fat: map<nat, nat>

    /**
     * FatOpenDevice and FatInitializeDiskCache; `count` and `next` are the FSInfo fields, `valid` whether they are
     * used.
     */
    constructor (disk: array<Byte>, g: Geometry, valid: bool, count: nat, next: nat)
      requires Mountable(g, disk[..])
      ensures this.disk == disk && fresh(CacheRepr() - {disk}) && fresh(fatEntryBuffer)
      ensures FatValid() && !diskError && !fatDirty
      ensures fatCache.contents == RegionIn(disk[..], fatCache) && dataCache.contents == RegionIn(disk[..], dataCache)
      ensures fatCache.Clean() && dataCache.Clean()
      ensures g == Geometry(fatType, volumeSize, fatPos, fatSize, numFats, rootPos, firstClusterPos, maxCluster,
                            clusterSize)
      ensures freeInfoValid == valid && clusterCount == count && 2 <= nextCluster
    {
      hide DiskCache.Coherent, DiskCache.Clean, DiskCache.Shape, EntryPos, DecodeEntry, MountedEntry, VolumeMark,
        DirtyMark, FatCopy, CacheInvariant, FatInvariant, EqualCopies, FatDecoded, MirroredIn, FatLayout, CacheValid,
        FatValid, DiskCache.GroupCoherent, DiskCache.OnDisk, DiskCache.DirtyPage, MarkHeld;
      ghost var image := disk[..];
      var mark := VolumeMark(g, disk[..]);
      this.disk := disk;
      volumeSize, fatPos, fatSize, numFats, rootPos := g.volumeSize, g.fatPos, g.fatSize, g.numFats, g.rootPos;
      fatType, maxCluster, clusterSize, firstClusterPos := g.fatType, g.maxCluster, g.clusterSize, g.firstClusterPos;
      diskError, fatDirty, fatEntryPos := false, false, 0;
      fatEntrySize := EntrySize(g.fatType);
      fatEntryBuffer := new Byte[4](_ => 0);
      notDirtyValue, dirtyValue := mark, DirtyMark(g.fatType, mark);
      var small := g.fatType == Fat12;
      fatCache := new DiskCache(g.fatPos, g.fatPos + g.fatSize, if small then FATCACHE_PAGE_MIN else FATCACHE_PAGE_MAX,
                                if small then FATCACHE_GROUP_MIN_COUNT else FATCACHE_GROUP_MAX_COUNT,
                                image[g.fatPos..g.fatPos + g.fatSize]);
      dataCache := new DiskCache(g.rootPos, g.volumeSize, if small then DATACACHE_PAGE_MIN else DATACACHE_PAGE_MAX,
                                 DATACACHE_GROUP_COUNT, image[g.rootPos..g.volumeSize]);
      freeInfoValid, clusterCount := valid, count;
      nextCluster := if next < MIN_CLUSTER || next > g.maxCluster + 1 then MIN_CLUSTER else next;
      fat := map i: nat | 2 <= i <= g.maxCluster + 1 :: MountedEntry(g, image, i);
      new;
      assert disk[..] == image;
      MountedCaches(g);
      MountedFat(g);
    }

    /** The geometry's values have been stored. */
    ghost predicate Has(g: Geometry) {
      && g == Geometry(fatType, volumeSize, fatPos, fatSize, numFats, rootPos, firstClusterPos, maxCluster, clusterSize)
      && fatCache.base == fatPos && fatCache.limit == fatPos + fatSize
      && dataCache.base == rootPos && dataCache.limit == volumeSize
    }

    lemma MountedCaches(g: Geometry)
      requires Mountable(g, disk[..]) && Has(g) && Separated() && fatCache.Shape() && dataCache.Shape()
      requires fatCache.Coherent(RegionIn(disk[..], fatCache)) && dataCache.Coherent(RegionIn(disk[..], dataCache))
      ensures CacheValid()
    {
      hide DiskCache.GroupCoherent, DiskCache.OnDisk, DiskCache.DirtyPage;
      forall k | 0 <= k < numFats
        ensures CopyIn(disk[..], k) == CopyIn(disk[..], 0)
      {
        CopyBounds(k);
        assert FatCopy(fatPos, fatSize, disk[..], k) == FatCopy(fatPos, fatSize, disk[..], 0);
      }
    }

    lemma MountedMark(g: Geometry)
      requires Mountable(g, disk[..]) && Has(g) && Layout() && FatLayout() && !fatDirty
      requires notDirtyValue == VolumeMark(g, disk[..])
      ensures MarkHeld(RegionIn(disk[..], fatCache))
    {
      if fatType != Fat12 {
        SliceOfSlice(disk[..], fatPos, fatPos + fatSize, fatEntrySize, 2 * fatEntrySize);
        hide EqualCopies, FatCopy;
      }
    }

    lemma MountedFat(g: Geometry)
      requires CacheValid() && Mountable(g, disk[..]) && Has(g) && fatCache.contents == RegionIn(disk[..], fatCache)
      requires fatEntrySize == EntrySize(fatType) && 4 < fatCache.pageSize && 2 <= nextCluster
      requires fatEntryBuffer.Length == |dirtyValue| == 4 && notDirtyValue == VolumeMark(g, disk[..]) && !fatDirty
      requires fat == map i: nat | 2 <= i <= g.maxCluster + 1 :: MountedEntry(g, disk[..], i)
      ensures FatValid()
    {
      MountedMark(g);
      hide DiskCache.Coherent, EntryPos, DecodeEntry, MarkHeld;
      forall i: nat | i in fat
        ensures Inside(fatType, fatCache.contents, i) && fat[i] == DecodeEntry(fatType, fatCache.contents, i)
      {
        EntryPosMonotone(fatType, i, maxCluster + 1);
      }
    }

    function Cache(t: CacheDataType): DiskCache {
      if t == CacheFat then fatCache else dataCache
    }

    /** The disk and the caches: what a cache access may write. */
    ghost function CacheRepr(): set<object> {
      {disk, fatCache, fatCache.tags, fatCache.pages, dataCache, dataCache.tags, dataCache.pages}
    }

    /** The facts about positions and sizes that mounting establishes. */
    ghost predicate Layout() {
      && volumeSize <= disk.Length
      && 0 < numFats
      && rootPos == fatPos + numFats * fatSize
      && fatPos + fatSize <= rootPos <= volumeSize
      && fatCache.base == fatPos && fatCache.limit == fatPos + fatSize
      && dataCache.base == rootPos && dataCache.limit == volumeSize
    }

    /** The part of an image of the disk that a cache serves. */
    ghost function RegionIn(image: seq<Byte>, c: DiskCache): seq<Byte>
      requires c.base <= c.limit <= |image|
    {
      image[c.base..c.limit]
    }

    ghost predicate Separated() {
      && fatCache != dataCache
      && fatCache.tags != dataCache.tags
      && fatCache.pages != dataCache.pages
      && disk != fatEntryBuffer
    }

    lemma CopyBounds(k: nat)
      requires Layout() && k < numFats
      ensures fatPos <= fatPos + k * fatSize
      ensures fatPos + k * fatSize + fatSize <= rootPos <= disk.Length
    {
      MulLe(k + 1, numFats, fatSize);
    }

    /** The k-th copy of this volume's FAT. */
    ghost function CopyIn(image: seq<Byte>, k: nat): (copy: seq<Byte>)
      requires Layout() && k < numFats && |image| == disk.Length
      ensures |copy| == fatSize
    {
      CopyBounds(k);
      FatCopy(fatPos, fatSize, image, k)
    }

    /** All copies of the FAT in an image of the disk are equal. */
    ghost predicate MirroredIn(image: seq<Byte>)
      requires Layout() && |image| == disk.Length
    {
      forall k :: 0 <= k < numFats ==> CopyIn(image, k) == CopyIn(image, 0)
    }

    ghost predicate CacheInvariant()
      reads CacheRepr()
    {
      && Layout() && Separated()
      && fatCache.Shape() && dataCache.Shape()
      && fatCache.Coherent(RegionIn(disk[..], fatCache))
      && dataCache.Coherent(RegionIn(disk[..], dataCache))
      && MirroredIn(disk[..])
    }

    /** The invariant as a single fact: comparing with `true` keeps the verifier from checking it piece by piece. */
    ghost predicate CacheValid()
      reads CacheRepr()
    {
      CacheInvariant() == true
    }

    /** The FAT's own constants: every entry lies inside the FAT, and every cluster number is an ordinary value. */
    ghost predicate FatLayout() {
      && fatEntrySize == EntrySize(fatType)
      && fatEntryBuffer.Length == |dirtyValue| == |notDirtyValue| == 4
      && maxCluster + 1 < FirstSpecial(fatType)
      && EntryPos(fatType, maxCluster + 1) + EntrySize(fatType) <= fatSize
      && 4 < fatCache.pageSize
    }

    /** `fat` is what the bytes in the FAT cache's contents say about clusters 2 to maxCluster + 1. */
    ghost predicate FatDecoded(contents: seq<Byte>)
      requires |contents| == fatSize && FatLayout()
      reads this
    {
      && (forall i: nat :: i in fat <==> 2 <= i <= maxCluster + 1)
      && (forall i: nat :: i in fat ==> Inside(fatType, contents, i) && fat[i] == DecodeEntry(fatType, contents, i))
    }

    /** The bytes of entry 1, which hold the volume's dirty mark; FAT12 volumes have none. */
    ghost function MarkIn(contents: seq<Byte>): seq<Byte>
      requires |contents| == fatSize && FatLayout()
    {
      if fatType == Fat12 then [] else contents[fatEntrySize..2 * fatEntrySize]
    }

    /** The mark that entry 1 holds is the one for the volume's state. */
    ghost predicate MarkHeld(contents: seq<Byte>)
      requires |contents| == fatSize && FatLayout()
      reads this
    {
      fatType != Fat12 ==> MarkIn(contents) == (if fatDirty then dirtyValue else notDirtyValue)[..fatEntrySize]
    }

    ghost predicate FatInvariant()
      reads this, CacheRepr()
    {
      && CacheValid() && FatLayout()
      && fatCache.Shape() && |fatCache.contents| == fatSize
      && FatDecoded(fatCache.contents) && MarkHeld(fatCache.contents)
      && 2 <= nextCluster
    }

    /** The cache invariant, and the FAT map that the cache's contents decode to. */
    ghost predicate FatValid()
      reads this, CacheRepr()
    {
      FatInvariant() == true
    }
  }

  // ---------------------------------------------------------------- free clusters

  /** The clusters whose entry reads as free. */
  ghost function FreeClusters(fat: map<nat, nat>): set<nat> {
    set c | c in fat && fat[c] == CLUSTER_FREE
  }

  /** The free count, while it is marked valid, is the number of free entries. */
  ghost predicate FreeInfoAccurate(v: Volume)
    reads v
  {
    v.freeInfoValid ==> v.clusterCount == |FreeClusters(v.fat)|
  }
}
