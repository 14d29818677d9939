/** The write-back disk cache (DiskCache.c). */
module DiskCacheIo {
  import opened FatTypes
  import opened VolumeState

  datatype IoMode = ReadDisk | WriteDisk

  // ---------------------------------------------------------------- the device

  /** Blocking read of the device; it succeeds. */
  function ReadDevice(v: Volume, offset: nat, size: nat): (data: seq<Byte>)
    requires offset + size <= v.disk.Length
    reads v.disk
    ensures |data| == size
  {
    v.disk[offset..offset + size]
  }

  /** Blocking write to the device; it succeeds. */
  method WriteDevice(v: Volume, offset: nat, data: seq<Byte>)
    requires offset + |data| <= v.disk.Length
    modifies v.disk
    ensures v.disk[..] == Splice(old(v.disk[..]), offset, data)
  {
    forall i | 0 <= i < |data| {
      v.disk[offset + i] := data[i];
    }
  }

  // ---------------------------------------------------------------- pages of the contents

  /** Writing inside page `p` changes that page and no other. */
  lemma SplicePage(c: DiskCache, image: seq<Byte>, p: nat, o: nat, data: seq<Byte>, p': nat)
    requires c.base <= c.limit && |image| == c.limit - c.base
    requires c.HasPage(p) && o + |data| <= c.PageLength(p) && c.HasPage(p')
    ensures c.PageOf(Splice(image, c.PageStart(p) + o, data), p') ==
      if p' == p then Splice(c.PageOf(image, p), o, data) else c.PageOf(image, p')
  {
    hide Splice;
    var n := c.pageSize;
    var start, start': nat := p * n, p' * n;
    var stop' := start' + c.PageLength(p');
    SliceOfSplice(image, start + o, data, start', stop');
    if p' < p {
      PagesDisjoint(p', p, n);
      assert stop' <= start;
    } else if p < p' {
      PagesDisjoint(p, p', n);
      assert start + o + |data| <= start';
    }
  }

  // ---------------------------------------------------------------- FatExchangeCachePage, ReadDisk

  /** Group `g` may be loaded: every other group is coherent, and no byte depends on what `g` holds. */
  ghost predicate ReadyToLoad(c: DiskCache, region: seq<Byte>, g: nat)
    requires c.Shape() && |region| == c.limit - c.base && g < c.groupCount
    reads c, c.tags, c.pages
  {
    && |c.pages[g]| == c.pageSize
    && (forall h :: 0 <= h < c.groupCount && h != g ==> c.GroupCoherent(h))
    && (forall p: nat :: (c.DirtyPage(p) && p % c.groupCount != g) || c.OnDisk(region, p))
  }

  /** The bytes of page `p` on the disk: a whole page, or what there is of the last one. */
  method ReadPage(v: Volume, c: DiskCache, p: nat) returns (data: seq<Byte>)
    requires c.Shape() && c.limit <= v.disk.Length && c.HasPage(p)
    ensures data == c.PageOf(v.RegionIn(v.disk[..], c), p)
  {
    var entryPos := c.base + c.PageStart(p);
    var realSize := c.pageSize;
    var maxSize := c.limit - entryPos;
    if maxSize < realSize {
      realSize := maxSize;
    }
    data := ReadDevice(v, entryPos, realSize);
    hide DiskCache.PageStart;
    SliceOfSlice(v.disk[..], c.base, c.limit, c.PageStart(p), c.PageStart(p) + realSize);
  }

  /** FatExchangeCachePage with ReadDisk: load the page that the tag of group `g` already names. */
  method LoadCachePage(v: Volume, c: DiskCache, g: nat)
    requires c.Shape() && c.limit <= v.disk.Length
    requires g < c.groupCount && c.HasPage(c.tags[g].pageNo) && c.tags[g].pageNo % c.groupCount == g
    requires ReadyToLoad(c, v.RegionIn(v.disk[..], c), g)
    modifies c.tags, c.pages
    ensures c.Coherent(v.RegionIn(v.disk[..], c))
    ensures c.Holds(g, old(c.tags[g].pageNo)) && !c.tags[g].dirty
    ensures forall h :: 0 <= h < c.groupCount && h != g ==> c.tags[h] == old(c.tags[h])
  {
    var data := ReadPage(v, c, c.tags[g].pageNo);
    hide Volume.RegionIn;
    InstallPage(c, g, data, v.RegionIn(v.disk[..], c));
  }

  /** The page read goes into the group's buffer, and its tag is set. */
  method InstallPage(c: DiskCache, g: nat, data: seq<Byte>, ghost region: seq<Byte>)
    requires c.Shape() && |region| == c.limit - c.base
    requires g < c.groupCount && c.HasPage(c.tags[g].pageNo) && c.tags[g].pageNo % c.groupCount == g
    requires ReadyToLoad(c, region, g) && data == c.PageOf(region, c.tags[g].pageNo)
    modifies c.tags, c.pages
    ensures c.Coherent(region)
    ensures c.Holds(g, old(c.tags[g].pageNo)) && !c.tags[g].dirty
    ensures forall h :: 0 <= h < c.groupCount && h != g ==> c.tags[h] == old(c.tags[h])
  {
    var p := c.tags[g].pageNo;
    assert c.OnDisk(region, p);
    SliceInsideSplice(c.pages[g], 0, data, 0, |data|);
    hide Splice, DiskCache.PageStart, DiskCache.PageOf;
    c.pages[g] := Splice(c.pages[g], 0, data);
    c.tags[g] := CacheTag(p, |data|, false);
    forall h | 0 <= h < c.groupCount && h != g
      ensures c.GroupCoherent(h)
    {
      assert old(c.GroupCoherent(h));
    }
    forall p': nat
      ensures c.DirtyPage(p') || c.OnDisk(region, p')
    {
      assert (old(c.DirtyPage(p')) && p' % c.groupCount != g) || old(c.OnDisk(region, p'));
    }
  }

  // ---------------------------------------------------------------- FatExchangeCachePage, WriteDisk

  lemma CopiesApart(v: Volume, k: nat, j: nat)
    ensures k < j ==> v.fatPos + k * v.fatSize + v.fatSize <= v.fatPos + j * v.fatSize
    ensures j < k ==> v.fatPos + j * v.fatSize + v.fatSize <= v.fatPos + k * v.fatSize
  {
    if k < j {
      PagesDisjoint(k, j, v.fatSize);
    } else if j < k {
      PagesDisjoint(j, k, v.fatSize);
    }
  }

  /** Writing inside the k-th copy changes that copy alone, and nothing beyond the FATs. */
  lemma WriteOneCopy(v: Volume, before: seq<Byte>, k: nat, start: nat, at: nat, data: seq<Byte>, j: nat)
    requires v.Layout() && |before| == v.disk.Length && k < v.numFats && j < v.numFats
    requires start == v.fatPos + k * v.fatSize && start + v.fatSize <= v.rootPos && at + |data| <= v.fatSize
    ensures v.CopyIn(Splice(before, start + at, data), j) ==
      if j == k then Splice(v.CopyIn(before, j), at, data) else v.CopyIn(before, j)
  {
    hide Splice;
    var start' := v.fatPos + j * v.fatSize;
    var stop' := start' + v.fatSize;
    v.CopyBounds(j);
    CopiesApart(v, k, j);
    SliceOfSplice(before, start + at, data, start', stop');
    assert v.CopyIn(before, j) == before[start'..stop'];
    assert v.CopyIn(Splice(before, start + at, data), j) == Splice(before, start + at, data)[start'..stop'];
  }

  /** Writing beyond the FATs leaves every copy alone. */
  lemma WriteBeyondFats(v: Volume, before: seq<Byte>, at: nat, data: seq<Byte>, j: nat)
    requires v.Layout() && |before| == v.disk.Length && j < v.numFats
    requires v.rootPos + at + |data| <= v.volumeSize
    ensures var after := Splice(before, v.rootPos + at, data);
      && v.CopyIn(after, j) == v.CopyIn(before, j)
      && after[v.rootPos..v.volumeSize] == Splice(before[v.rootPos..v.volumeSize], at, data)
  {
    hide Splice;
    v.CopyBounds(j);
    SliceOfSplice(before, v.rootPos + at, data, v.fatPos + j * v.fatSize, v.fatPos + j * v.fatSize + v.fatSize);
    SliceOfSplice(before, v.rootPos + at, data, v.rootPos, v.volumeSize);
  }

  /** The region of the FAT cache is the first copy. */
  lemma FirstCopy(v: Volume, image: seq<Byte>)
    requires v.Layout() && |image| == v.disk.Length
    ensures v.CopyIn(image, 0) == v.RegionIn(image, v.fatCache)
  {}

  /** The disk after the first `k` copies were written. */
  ghost predicate CopiesWritten(v: Volume, before: seq<Byte>, now: seq<Byte>, k: nat, at: nat, data: seq<Byte>)
    requires v.Layout() && |before| == |now| == v.disk.Length && at + |data| <= v.fatSize
  {
    && (forall j :: 0 <= j < v.numFats ==>
          v.CopyIn(now, j) == if j < k then Splice(v.CopyIn(before, j), at, data) else v.CopyIn(before, j))
    && now[v.rootPos..v.volumeSize] == before[v.rootPos..v.volumeSize]
  }

  lemma NoneWritten(v: Volume, image: seq<Byte>, at: nat, data: seq<Byte>)
    requires v.Layout() && |image| == v.disk.Length && at + |data| <= v.fatSize
    ensures CopiesWritten(v, image, image, 0, at, data) && v.fatPos == v.fatPos + 0 * v.fatSize
  {}

  lemma WriteNextCopy(v: Volume, before: seq<Byte>, now: seq<Byte>, k: nat, start: nat, at: nat, data: seq<Byte>)
    requires v.Layout() && |before| == |now| == v.disk.Length && at + |data| <= v.fatSize
    requires k < v.numFats && start == v.fatPos + k * v.fatSize
    requires CopiesWritten(v, before, now, k, at, data)
    ensures start + v.fatSize <= v.rootPos <= v.disk.Length
    ensures CopiesWritten(v, before, Splice(now, start + at, data), k + 1, at, data)
  {
    hide Splice;
    v.CopyBounds(k);
    SliceOfSplice(now, start + at, data, v.rootPos, v.volumeSize);
    forall j | 0 <= j < v.numFats
      ensures v.CopyIn(Splice(now, start + at, data), j) ==
        if j <= k then Splice(v.CopyIn(before, j), at, data) else v.CopyIn(before, j)
    {
      WriteOneCopy(v, now, k, start, at, data, j);
    }
  }

  /** The write loop of FatExchangeCachePage for a FAT page. */
  method WriteCopies(v: Volume, at: nat, data: seq<Byte>)
    requires v.Layout() && at + |data| <= v.fatSize
    modifies v.disk
    ensures CopiesWritten(v, old(v.disk[..]), v.disk[..], v.numFats, at, data)
  {
    hide *;
    ghost var before := v.disk[..];
    var entryPos := v.fatPos + at;
    var k := 0;
    NoneWritten(v, before, at, data);
    while k < v.numFats
      invariant k <= v.numFats
      invariant entryPos == v.fatPos + k * v.fatSize + at
      invariant CopiesWritten(v, before, v.disk[..], k, at, data)
    {
      WriteNextCopy(v, before, v.disk[..], k, entryPos - at, at, data);
      WriteDevice(v, entryPos, data);
      NextMultiple(k, v.fatSize);
      entryPos := entryPos + v.fatSize;
      k := k + 1;
    }
  }

  lemma NextMultiple(k: nat, n: nat)
    ensures (k + 1) * n == k * n + n
  {}

  /** All copies receive the same bytes at the same place; nothing beyond the FATs changes. */
  lemma FinishedCopies(v: Volume, before: seq<Byte>, now: seq<Byte>, at: nat, data: seq<Byte>)
    requires v.Layout() && |before| == |now| == v.disk.Length && at + |data| <= v.fatSize
    requires v.MirroredIn(before) && CopiesWritten(v, before, now, v.numFats, at, data)
    ensures v.MirroredIn(now)
    ensures v.RegionIn(now, v.fatCache) == Splice(v.RegionIn(before, v.fatCache), at, data)
    ensures v.RegionIn(now, v.dataCache) == v.RegionIn(before, v.dataCache)
  {
    hide Splice;
    FirstCopy(v, before);
    FirstCopy(v, now);
  }

  /** A write to the data region leaves every copy of the FAT alone. */
  method WriteDataRegion(v: Volume, at: nat, data: seq<Byte>)
    requires v.Layout() && v.MirroredIn(v.disk[..]) && v.rootPos + at + |data| <= v.volumeSize
    modifies v.disk
    ensures v.MirroredIn(v.disk[..])
    ensures v.RegionIn(v.disk[..], v.fatCache) == old(v.RegionIn(v.disk[..], v.fatCache))
    ensures v.RegionIn(v.disk[..], v.dataCache) == Splice(old(v.RegionIn(v.disk[..], v.dataCache)), at, data)
  {
    hide Splice;
    ghost var before := v.disk[..];
    WriteDevice(v, v.rootPos + at, data);
    forall j | 0 <= j < v.numFats
      ensures v.CopyIn(v.disk[..], j) == v.CopyIn(before, j)
    {
      WriteBeyondFats(v, before, at, data, j);
    }
    WriteBeyondFats(v, before, at, data, 0);
    FirstCopy(v, before);
    FirstCopy(v, v.disk[..]);
  }

  /** The tag update after a write-back: the disk has received the page, so it is no longer dirty. */
  method MarkStored(c: DiskCache, g: nat, ghost before: seq<Byte>, ghost now: seq<Byte>)
    requires c.Shape() && |before| == |now| == c.limit - c.base
    requires c.Coherent(before) && g < c.groupCount && c.tags[g].realSize > 0 && c.GroupCoherent(g)
    requires now == Splice(before, c.PageStart(c.tags[g].pageNo), c.pages[g][..c.tags[g].realSize])
    modifies c.tags
    ensures c.Coherent(now)
    ensures c.tags[..] == old(c.tags[..])[g := old(c.tags[g]).(dirty := false)]
  {
    hide Splice;
    var p := c.tags[g].pageNo;
    assert c.GroupCoherent(g);
    ghost var data := c.pages[g][..c.tags[g].realSize];
    c.tags[g] := c.tags[g].(dirty := false);
    forall h | 0 <= h < c.groupCount
      ensures c.GroupCoherent(h)
    {
      assert old(c.GroupCoherent(h));
    }
    forall p': nat
      ensures c.DirtyPage(p') || c.OnDisk(now, p')
    {
      assert old(c.DirtyPage(p')) || c.OnDisk(before, p');
      if c.HasPage(p') {
        SplicePage(c, before, p, 0, data, p');
        assert c.PageStart(p) + 0 == c.PageStart(p);
        if p' == p {
          assert Splice(c.PageOf(before, p), 0, data) == data;
        }
      }
    }
  }

  /** FatExchangeCachePage with WriteDisk: a FAT page goes to every copy of the FAT, a data page to its place. */
  method StoreCachePage(v: Volume, t: CacheDataType, g: nat)
    requires v.CacheValid()
    requires g < v.Cache(t).groupCount && v.Cache(t).tags[g].realSize > 0
    modifies v.disk, v.Cache(t).tags
    ensures v.CacheValid()
    ensures v.Cache(t).tags[..] == old(v.Cache(t).tags[..])[g := old(v.Cache(t).tags[g]).(dirty := false)]
  {
    hide Splice;
    var c := v.Cache(t);
    assert c.GroupCoherent(g);
    var p := c.tags[g].pageNo;
    var data := c.pages[g][..c.tags[g].realSize];
    ghost var before := v.disk[..];
    if t == CacheFat {
      WriteCopies(v, c.PageStart(p), data);
      FinishedCopies(v, before, v.disk[..], c.PageStart(p), data);
    } else {
      WriteDataRegion(v, c.PageStart(p), data);
    }
    MarkStored(c, g, v.RegionIn(before, c), v.RegionIn(v.disk[..], c));
  }

  // ---------------------------------------------------------------- FatGetCachePage

  /** Bring page `pageNo` into its group, writing back a dirty page that is in the way. */
  method FatGetCachePage(v: Volume, t: CacheDataType, pageNo: nat, g: nat)
    requires v.CacheValid()
    requires v.Cache(t).HasPage(pageNo) && g == pageNo % v.Cache(t).groupCount
    modifies v.disk, v.Cache(t).tags, v.Cache(t).pages
    ensures v.CacheValid()
    ensures v.Cache(t).Holds(g, pageNo)
  {
    var c := v.Cache(t);
    if c.tags[g].realSize > 0 && c.tags[g].pageNo == pageNo {
      return;
    }
    if c.tags[g].realSize > 0 && c.tags[g].dirty {
      StoreCachePage(v, t, g);
    }
    EvictTo(c, g, pageNo, v.RegionIn(v.disk[..], c));
    LoadCachePage(v, c, g);
  }

  /** Rename the tag of a group whose page is not dirty. */
  method EvictTo(c: DiskCache, g: nat, pageNo: nat, ghost region: seq<Byte>)
    requires c.Shape() && |region| == c.limit - c.base && c.Coherent(region)
    requires g < c.groupCount && !(c.tags[g].realSize > 0 && c.tags[g].dirty)
    modifies c.tags
    ensures ReadyToLoad(c, region, g)
    ensures c.tags[..] == old(c.tags[..])[g := old(c.tags[g]).(pageNo := pageNo)]
  {
    assert c.GroupCoherent(g);
    c.tags[g] := c.tags[g].(pageNo := pageNo);
    forall h | 0 <= h < c.groupCount && h != g
      ensures c.GroupCoherent(h)
    {
      assert old(c.GroupCoherent(h));
    }
    forall p: nat
      ensures (c.DirtyPage(p) && p % c.groupCount != g) || c.OnDisk(region, p)
    {
      assert old(c.DirtyPage(p)) || c.OnDisk(region, p);
    }
  }

  // ---------------------------------------------------------------- FatAccessUnalignedCachePage

  /** Write inside a page that the cache holds. */
  method WriteHeldPage(c: DiskCache, g: nat, p: nat, o: nat, data: seq<Byte>, ghost region: seq<Byte>)
    requires c.Shape() && |region| == c.limit - c.base && c.Coherent(region)
    requires c.HasPage(p) && g == p % c.groupCount && c.Holds(g, p) && o + |data| <= c.PageLength(p)
    modifies c, c.tags, c.pages
    ensures c.Shape() && c.Coherent(region)
    ensures c.contents == Splice(old(c.contents), c.PageStart(p) + o, data)
  {
    hide Splice;
    assert c.GroupCoherent(g);
    c.tags[g] := c.tags[g].(dirty := true);
    c.dirty := true;
    c.pages[g] := Splice(c.pages[g], o, data);
    c.contents := Splice(c.contents, c.PageStart(p) + o, data);
    SliceOfSplice(old(c.pages[g]), o, data, 0, c.tags[g].realSize);
    forall h | 0 <= h < c.groupCount
      ensures c.GroupCoherent(h)
    {
      assert old(c.GroupCoherent(h));
      if c.tags[h].realSize > 0 {
        SplicePage(c, old(c.contents), p, o, data, c.tags[h].pageNo);
      }
    }
    forall p': nat
      ensures c.DirtyPage(p') || c.OnDisk(region, p')
    {
      assert old(c.DirtyPage(p')) || old(c.OnDisk(region, p'));
      if c.HasPage(p') {
        SplicePage(c, old(c.contents), p, o, data, p');
      }
    }
  }

  /** CopyMem into the caller's buffer. */
  method CopyMem(buffer: array<Byte>, at: nat, data: seq<Byte>)
    requires at + |data| <= buffer.Length
    modifies buffer
    ensures buffer[..] == Splice(old(buffer[..]), at, data)
  {
    forall i | 0 <= i < |data| {
      buffer[at + i] := data[i];
    }
  }

  /**
   * The flat byte array: what an access of `length` bytes at byte `q` of a region does to the caller's
   * buffer (from `at`) and to the region.
   */
  ghost function AfterAccess(mode: IoMode, q: nat, length: nat, at: nat, buffer: seq<Byte>,
                             contents: seq<Byte>): (r: (seq<Byte>, seq<Byte>))
    requires q + length <= |contents| && at + length <= |buffer|
    ensures |r.0| == |buffer| && |r.1| == |contents|
  {
    match mode
    case ReadDisk => (Splice(buffer, at, contents[q..q + length]), contents)
    case WriteDisk => (buffer, Splice(contents, q, buffer[at..at + length]))
  }

  method FatAccessUnalignedCachePage(v: Volume, t: CacheDataType, c: DiskCache, mode: IoMode, pageNo: nat, o: nat,
                                     length: nat,
                                     buffer: array<Byte>, at: nat)
    requires v.CacheValid() && c == v.Cache(t) && buffer != v.disk
    requires c.HasPage(pageNo) && o + length <= c.PageLength(pageNo) && at + length <= buffer.Length
    modifies v.disk, c, c.tags, c.pages, buffer
    ensures v.CacheValid() && c.Shape()
    ensures (buffer[..], c.contents) ==
      AfterAccess(mode, c.PageStart(pageNo) + o, length, at, old(buffer[..]), old(c.contents))
  {
    hide Splice;
    var g := pageNo % c.groupCount;
    FatGetCachePage(v, t, pageNo, g);
    assert c.GroupCoherent(g);
    if mode == ReadDisk {
      HeldBytes(c, g, pageNo, o, length);
      CopyMem(buffer, at, c.pages[g][o..o + length]);
    } else {
      WriteHeldPage(c, g, pageNo, o, buffer[at..at + length], v.RegionIn(v.disk[..], c));
    }
  }

  lemma HeldBytes(c: DiskCache, g: nat, p: nat, o: nat, length: nat)
    requires c.Shape() && g < c.groupCount && c.GroupCoherent(g)
    requires c.Holds(g, p) && c.HasPage(p) && o + length <= c.PageLength(p)
    ensures o + length <= |c.pages[g]|
    ensures c.pages[g][o..o + length] == c.contents[c.PageStart(p) + o..c.PageStart(p) + o + length]
  {
    var start := c.PageStart(p);
    SliceOfSlice(c.pages[g], 0, c.PageLength(p), o, o + length);
    SliceOfSlice(c.contents, start, start + c.PageLength(p), o, o + length);
  }

  // ---------------------------------------------------------------- FatFlushDataCacheRange

  /** Bytes written over whole pages leave the other pages alone. */
  lemma SpliceOtherPages(c: DiskCache, image: seq<Byte>, start: nat, stop: nat, data: seq<Byte>, p: nat)
    requires c.base <= c.limit && |image| == c.limit - c.base
    requires start <= stop && |data| == c.PageStart(stop) - c.PageStart(start) && c.PageStart(start) + |data| <= |image|
    requires c.HasPage(p) && !(start <= p < stop)
    ensures c.PageOf(Splice(image, c.PageStart(start), data), p) == c.PageOf(image, p)
  {
    NextPage(c, p);
    if p < start { PageOrder(c, p + 1, start); } else { PageOrder(c, stop, p); }
    hide Splice, DiskCache.PageStart;
    SliceOfSplice(image, c.PageStart(start), data, c.PageStart(p), c.PageStart(p) + c.PageLength(p));
  }

  /** A page inside the written range holds its part of the data. */
  lemma SpliceInnerPage(c: DiskCache, image: seq<Byte>, start: nat, stop: nat, data: seq<Byte>, p: nat)
    requires c.base <= c.limit && |image| == c.limit - c.base
    requires |data| == c.PageStart(stop) - c.PageStart(start) && c.PageStart(start) + |data| <= |image|
    requires start <= p < stop && 0 < c.pageSize
    ensures c.PageStart(start) <= c.PageStart(p) && c.PageStart(p + 1) <= c.PageStart(stop)
    ensures c.HasPage(p)
    ensures c.PageOf(Splice(image, c.PageStart(start), data), p) ==
      data[c.PageStart(p) - c.PageStart(start)..c.PageStart(p + 1) - c.PageStart(start)]
  {
    PageOrder(c, start, p);
    PageOrder(c, p + 1, stop);
    NextPage(c, p);
    hide Splice, DiskCache.PageStart;
    SliceInsideSplice(image, c.PageStart(start), data, c.PageStart(p), c.PageStart(p + 1));
  }

  lemma PageOrder(c: DiskCache, p: nat, p': nat)
    requires p <= p'
    ensures c.PageStart(p) <= c.PageStart(p')
  {
    MulLe(p, p', c.pageSize);
  }

  lemma NextPage(c: DiskCache, p: nat)
    ensures c.PageStart(p + 1) == c.PageStart(p) + c.pageSize
  {
    NextMultiple(p, c.pageSize);
  }

  /** FatFlushDataCacheRange after a write: the pages in the range are older than the disk, so drop them. */
  method InvalidatePages(c: DiskCache, start: nat, stop: nat, data: seq<Byte>, ghost before: seq<Byte>,
                         ghost now: seq<Byte>)
    requires c.Shape() && |before| == |now| == c.limit - c.base && c.Coherent(before)
    requires start <= stop && |data| == c.PageStart(stop) - c.PageStart(start)
      && c.PageStart(start) + |data| <= |before|
    requires now == Splice(before, c.PageStart(start), data)
    modifies c.tags, c`contents
    ensures c.Shape() && c.Coherent(now)
    ensures c.contents == Splice(old(c.contents), c.PageStart(start), data)
  {
    hide Splice;
    for p := start to stop
      invariant c.contents == old(c.contents)
      invariant forall g :: 0 <= g < c.groupCount ==>
        c.tags[g] == if old(c.tags[g]).realSize > 0 && start <= old(c.tags[g]).pageNo < p
          then old(c.tags[g]).(realSize := 0) else old(c.tags[g])
    {
      var g := p % c.groupCount;
      if c.tags[g].realSize > 0 && c.tags[g].pageNo == p {
        c.tags[g] := c.tags[g].(realSize := 0);
      }
      forall h | 0 <= h < c.groupCount && old(c.tags[h]).realSize > 0 && old(c.tags[h]).pageNo == p
        ensures h == g
      {
        assert old(c.GroupCoherent(h));
      }
    }
    c.contents := Splice(c.contents, c.PageStart(start), data);
    forall h | 0 <= h < c.groupCount
      ensures c.GroupCoherent(h)
    {
      assert old(c.GroupCoherent(h));
      if c.tags[h].realSize > 0 {
        SpliceOtherPages(c, old(c.contents), start, stop, data, c.tags[h].pageNo);
      }
    }
    forall p: nat
      ensures c.DirtyPage(p) || c.OnDisk(now, p)
    {
      assert old(c.DirtyPage(p)) || old(c.OnDisk(before, p));
      if start <= p < stop {
        SpliceInnerPage(c, old(c.contents), start, stop, data, p);
        SpliceInnerPage(c, before, start, stop, data, p);
      } else if c.HasPage(p) {
        SpliceOtherPages(c, old(c.contents), start, stop, data, p);
        SpliceOtherPages(c, before, start, stop, data, p);
      }
    }
  }

  /** One step of FatFlushDataCacheRange after a read: a dirty page replaces the bytes read from the disk. */
  method OverlayPage(c: DiskCache, p: nat, buffer: array<Byte>, at: nat, ghost region: seq<Byte>)
    requires c.Shape() && |region| == c.limit - c.base && c.Coherent(region)
    requires c.HasPage(p) && c.PageLength(p) == c.pageSize
    requires at + c.pageSize <= buffer.Length && buffer[at..at + c.pageSize] == c.PageOf(region, p)
    modifies buffer
    ensures buffer[..] == Splice(old(buffer[..]), at, c.PageOf(c.contents, p))
  {
    hide Splice;
    var g := p % c.groupCount;
    if c.tags[g].realSize > 0 && c.tags[g].pageNo == p && c.tags[g].dirty {
      assert c.GroupCoherent(g);
      HeldBytes(c, g, p, 0, c.pageSize);
      CopyMem(buffer, at, c.pages[g][0..c.pageSize]);
    } else {
      assert c.DirtyPage(p) || c.OnDisk(region, p);
      SpliceSame(buffer[..], at, c.PageOf(c.contents, p));
    }
  }

  lemma SpliceSame<T>(s: seq<T>, at: nat, bytes: seq<T>)
    requires at + |bytes| <= |s| && s[at..at + |bytes|] == bytes
    ensures Splice(s, at, bytes) == s
  {}

  /** After pages first..lo were overlaid, the rest of the buffer still holds the disk's bytes. */
  lemma RestOfBuffer(original: seq<Byte>, at: nat, region: seq<Byte>, bytes: seq<Byte>, first: nat, lo: nat, hi: nat,
                     last: nat)
    requires first <= lo <= hi <= last <= |region| && |bytes| == lo - first && at + (last - first) <= |original|
    requires original[at..at + (last - first)] == region[first..last]
    ensures Splice(original, at, bytes)[at + (lo - first)..at + (hi - first)] == region[lo..hi]
  {
    forall i | lo <= i < hi
      ensures original[at + (i - first)] == region[i]
    {
      assert original[at..at + (last - first)][i - first] == region[first..last][i - first];
    }
  }

  /**
   * FatFlushDataCacheRange after a read: `buffer` holds the disk's bytes of pages start..stop;
   * pages that are dirty in the cache replace them.
   */
  method OverlayDirtyPages(c: DiskCache, start: nat, stop: nat, buffer: array<Byte>, at: nat, ghost region: seq<Byte>)
    requires c.Shape() && |region| == c.limit - c.base && c.Coherent(region)
    requires start <= stop && c.PageStart(stop) <= |region|
    requires c.PageStart(start) <= c.PageStart(stop)
    requires var length := c.PageStart(stop) - c.PageStart(start);
      at + length <= buffer.Length && buffer[..][at..at + length] == region[c.PageStart(start)..c.PageStart(stop)]
    modifies buffer
    ensures buffer[..] == Splice(old(buffer[..]), at, c.contents[c.PageStart(start)..c.PageStart(stop)])
  {
    hide Splice, DiskCache.PageStart, DiskCache.Shape, DiskCache.Coherent, Overlaid;
    ghost var first, last, original := c.PageStart(start), c.PageStart(stop), buffer[..];
    ShapeFacts(c);
    OverlaidNone(original, at, c.contents, first);
    var done := 0;
    for p := start to stop
      invariant done == c.PageStart(p) - first && first <= c.PageStart(p) <= last
      invariant Overlaid(buffer[..], original, at, c.contents, first, c.PageStart(p))
    {
      FullPage(c, p, stop);
      OverlayNext(c, first, p, last, buffer, at, at + done, original, region);
      done := done + c.pageSize;
    }
    OverlaidAll(buffer[..], original, at, c.contents, first, last);
  }

  /** The bytes `lo` to `hi` of the contents were laid over the buffer. */
  ghost predicate Overlaid(now: seq<Byte>, original: seq<Byte>, at: nat, contents: seq<Byte>, lo: nat, hi: nat) {
    lo <= hi <= |contents| && at + (hi - lo) <= |original| && now == Splice(original, at, contents[lo..hi])
  }

  lemma OverlaidNone(original: seq<Byte>, at: nat, contents: seq<Byte>, lo: nat)
    requires lo <= |contents| && at <= |original|
    ensures Overlaid(original, original, at, contents, lo, lo)
  {
    SpliceSame(original, at, contents[lo..lo]);
  }

  lemma OverlaidAll(now: seq<Byte>, original: seq<Byte>, at: nat, contents: seq<Byte>, lo: nat, hi: nat)
    requires Overlaid(now, original, at, contents, lo, hi)
    ensures lo <= hi <= |contents| && at + (hi - lo) <= |original| && now == Splice(original, at, contents[lo..hi])
  {}

  lemma ShapeFacts(c: DiskCache)
    requires c.Shape()
    ensures 0 < c.pageSize && c.base <= c.limit && |c.contents| == c.limit - c.base
  {}

  /** One more page is laid over the buffer. */
  method OverlayNext(c: DiskCache, ghost first: nat, p: nat, ghost last: nat, buffer: array<Byte>, ghost at: nat,
                     here: nat,
                     ghost original: seq<Byte>, ghost region: seq<Byte>)
    requires c.Shape() && |region| == c.limit - c.base && c.Coherent(region)
    requires c.HasPage(p) && c.PageLength(p) == c.pageSize && first <= c.PageStart(p)
      && c.PageStart(p) + c.pageSize <= last <= |region|
    requires at + (last - first) <= |original| && original[at..at + (last - first)] == region[first..last]
    requires Overlaid(buffer[..], original, at, c.contents, first, c.PageStart(p))
      && here == at + (c.PageStart(p) - first)
    modifies buffer
    ensures Overlaid(buffer[..], original, at, c.contents, first, c.PageStart(p) + c.pageSize)
  {
    hide Splice;
    ghost var lo, hi := c.PageStart(p), c.PageStart(p) + c.pageSize;
    RestOfBuffer(original, at, region, c.contents[first..lo], first, lo, hi, last);
    assert buffer[here..here + c.pageSize] == buffer[..][here..here + c.pageSize];
    OverlayPage(c, p, buffer, here, region);
    JoinSplices(original, at, c.contents[first..lo], c.contents[lo..hi]);
    JoinSlices(c.contents, first, lo, hi);
  }

  /** A page that ends inside the region. */
  lemma FullPage(c: DiskCache, p: nat, stop: nat)
    requires 0 < c.pageSize && p < stop && c.base + c.PageStart(stop) <= c.limit
    ensures c.PageStart(p + 1) == c.PageStart(p) + c.pageSize <= c.PageStart(stop)
    ensures c.HasPage(p) && c.PageLength(p) == c.pageSize
  {
    PageOrder(c, p + 1, stop);
    NextPage(c, p);
    hide DiskCache.PageStart;
  }

  // ---------------------------------------------------------------- FatAccessCache

  /** Two accesses to adjacent ranges are one access. */
  lemma JoinAccesses(mode: IoMode, q: nat, l1: nat, l2: nat, at: nat, b: seq<Byte>, c: seq<Byte>)
    requires q + l1 + l2 <= |c| && at + l1 + l2 <= |b|
    ensures var (b1, c1) := AfterAccess(mode, q, l1, at, b, c);
      AfterAccess(mode, q + l1, l2, at + l1, b1, c1) == AfterAccess(mode, q, l1 + l2, at, b, c)
  {
    match mode
    case ReadDisk =>
      JoinSplices(b, at, c[q..q + l1], c[q + l1..q + l1 + l2]);
      JoinSlices(c, q, q + l1, q + l1 + l2);
    case WriteDisk =>
      JoinSplices(c, q, b[at..at + l1], b[at + l1..at + l1 + l2]);
      JoinSlices(b, at, at + l1, at + l1 + l2);
  }

  lemma EmptyAccess(mode: IoMode, q: nat, at: nat, b: seq<Byte>, c: seq<Byte>)
    requires q <= |c| && at <= |b|
    ensures AfterAccess(mode, q, 0, at, b, c) == (b, c)
  {
    assert b[at..at + 0] == c[q..q + 0] == [];
    assert Splice(b, at, []) == b && Splice(c, q, []) == c;
  }

  /** The data region in terms of positions on the disk. */
  lemma DataRegionFacts(v: Volume, q: nat, size: nat)
    requires v.CacheValid() && v.dataCache.base + q + size <= v.dataCache.limit
    ensures v.dataCache.Shape() && v.dataCache.base == v.rootPos && v.rootPos + q + size <= v.disk.Length
    ensures v.dataCache.limit <= v.disk.Length && |v.dataCache.contents| == v.dataCache.limit - v.dataCache.base
    ensures var region := v.RegionIn(v.disk[..], v.dataCache);
      && |region| == v.dataCache.limit - v.dataCache.base && v.dataCache.Coherent(region)
      && v.disk[v.rootPos + q..v.rootPos + q + size] == region[q..q + size]
  {
    hide DiskCache.Coherent;
    SliceOfSlice(v.disk[..], v.dataCache.base, v.dataCache.limit, q, q + size);
    assert v.disk[v.rootPos + q..v.rootPos + q + size] == v.disk[..][v.rootPos + q..v.rootPos + q + size];
  }

  /** Whole pages read without going through the cache; dirty pages of the cache replace what the disk has. */
  method ReadAlignedPages(v: Volume, pageNo: nat, stop: nat, buffer: array<Byte>, at: nat, alignedSize: nat)
    requires v.CacheValid() && buffer != v.disk
    requires pageNo <= stop && v.dataCache.base + v.dataCache.PageStart(stop) <= v.dataCache.limit
    requires alignedSize == v.dataCache.PageStart(stop) - v.dataCache.PageStart(pageNo)
    requires at + alignedSize <= buffer.Length
    modifies buffer
    ensures v.CacheValid()
    ensures (buffer[..], v.dataCache.contents) ==
      AfterAccess(ReadDisk, v.dataCache.PageStart(pageNo), alignedSize, at, old(buffer[..]), v.dataCache.contents)
  {
    var c := v.dataCache;
    DataRegionFacts(v, c.PageStart(pageNo), alignedSize);
    hide Splice, Volume.RegionIn, DiskCache.Shape, DiskCache.Coherent, DiskCache.PageStart;
    var data := ReadDevice(v, v.rootPos + c.PageStart(pageNo), alignedSize);
    OverlayRead(c, pageNo, stop, data, buffer, at, v.RegionIn(v.disk[..], c));
  }

  /** What was read from the disk, and the dirty pages of the cache over it. */
  method OverlayRead(c: DiskCache, start: nat, stop: nat, data: seq<Byte>, buffer: array<Byte>, at: nat,
                     ghost region: seq<Byte>)
    requires c.Shape() && |region| == c.limit - c.base && c.Coherent(region) && |c.contents| == c.limit - c.base
    requires start <= stop && c.PageStart(start) <= c.PageStart(stop) <= |region|
    requires data == region[c.PageStart(start)..c.PageStart(stop)] && at + |data| <= buffer.Length
    modifies buffer
    ensures buffer[..] == Splice(old(buffer[..]), at, c.contents[c.PageStart(start)..c.PageStart(stop)])
  {
    hide Splice, DiskCache.Shape, DiskCache.Coherent, DiskCache.PageStart;
    ghost var original := buffer[..];
    CopyMem(buffer, at, data);
    SliceInsideSplice(original, at, data, at, at + |data|);
    OverlayDirtyPages(c, start, stop, buffer, at, region);
    OverwrittenSplice(original, at, data, c.contents[c.PageStart(start)..c.PageStart(stop)]);
  }

  /** Whole pages written without going through the cache; the cache drops its older copies. */
  method WriteAlignedPages(v: Volume, pageNo: nat, stop: nat, data: seq<Byte>)
    requires v.CacheValid()
    requires pageNo <= stop && v.dataCache.base + v.dataCache.PageStart(stop) <= v.dataCache.limit
    requires |data| == v.dataCache.PageStart(stop) - v.dataCache.PageStart(pageNo)
    modifies v.disk, v.dataCache`contents, v.dataCache.tags
    ensures v.CacheValid() && v.dataCache.Shape()
    ensures v.dataCache.contents == Splice(old(v.dataCache.contents), v.dataCache.PageStart(pageNo), data)
  {
    hide Splice;
    var c := v.dataCache;
    ghost var before := v.disk[..];
    WriteDataRegion(v, c.PageStart(pageNo), data);
    InvalidatePages(c, pageNo, stop, data, v.RegionIn(before, c), v.RegionIn(v.disk[..], c));
  }

  /** The aligned part of a request on the data cache. */
  method AccessAlignedPages(v: Volume, mode: IoMode, pageNo: nat, stop: nat, buffer: array<Byte>, at: nat,
                            alignedSize: nat)
    requires v.CacheValid() && buffer != v.disk
    requires pageNo <= stop && v.dataCache.base + v.dataCache.PageStart(stop) <= v.dataCache.limit
    requires alignedSize == v.dataCache.PageStart(stop) - v.dataCache.PageStart(pageNo)
    requires at + alignedSize <= buffer.Length
    modifies v.disk, v.dataCache, v.dataCache.tags, buffer
    ensures v.CacheValid() && v.dataCache.Shape()
    ensures (buffer[..], v.dataCache.contents) ==
      AfterAccess(mode, v.dataCache.PageStart(pageNo), alignedSize, at, old(buffer[..]), old(v.dataCache.contents))
  {
    if mode == ReadDisk {
      ReadAlignedPages(v, pageNo, stop, buffer, at, alignedSize);
    } else {
      WriteAlignedPages(v, pageNo, stop, buffer[..][at..at + alignedSize]);
    }
  }

  lemma OverwrittenSplice<T>(s: seq<T>, at: nat, b1: seq<T>, b2: seq<T>)
    requires |b1| == |b2| && at + |b1| <= |s|
    ensures Splice(Splice(s, at, b1), at, b2) == Splice(s, at, b2)
  {}

  /** Bytes served from the page in which a request starts, unless it starts at a page boundary. */
  function UnderRunLength(c: DiskCache, q: nat, length: nat): (part: nat)
    requires 0 < c.pageSize
    ensures part <= length
  {
    var underRun := c.PageOffset(q);
    if underRun == 0 then 0 else if c.pageSize - underRun > length then length else c.pageSize - underRun
  }

  /** Bytes `q` to `q + length` lie in the region of the cache. */
  ghost predicate InRegion(c: DiskCache, q: nat, length: nat) {
    c.base + q + length <= c.limit
  }

  /** A request that is served from cache pages alone. */
  ghost predicate NoAlignedPart(c: DiskCache, q: nat, length: nat) {
    0 < c.pageSize ==> c.PageNo(length - UnderRunLength(c, q, length)) == 0
  }

  lemma NoAlignedFacts(c: DiskCache, q: nat, length: nat)
    requires 0 < c.pageSize
    ensures NoAlignedPart(c, q, length) ==> c.PageNo(length - UnderRunLength(c, q, length)) == 0
  {}

  lemma UnderRunFacts(c: DiskCache, q: nat, length: nat)
    requires c.Shape() && InRegion(c, q, length)
    ensures 0 < c.pageSize && q + length <= |c.contents|
    ensures var p, o, part := c.PageNo(q), c.PageOffset(q), UnderRunLength(c, q, length);
      && part == (if o == 0 then 0 else if c.pageSize - o > length then length else c.pageSize - o)
      && c.PageStart(p) + o == q
      && (o > 0 ==> c.HasPage(p) && o + part <= c.PageLength(p))
      && (part < length ==>
          && c.PageStart(c.PageNo(q + part)) == q + part
          && InRegion(c, c.PageStart(c.PageNo(q + part)), length - part))
  {
    var n := c.pageSize;
    var p, part := q / n, UnderRunLength(c, q, length);
    PageSplit(q, n);
    if q % n > 0 && part < length {
      NextMultiple(p, n);
      assert q + part == (p + 1) * n + 0;
      DivModOf(p + 1, 0, n);
    }
  }

  /** The leading part of a request that does not start at a page boundary. */
  method AccessUnderRun(v: Volume, t: CacheDataType, c: DiskCache, mode: IoMode, q: nat, length: nat,
                        buffer: array<Byte>, at: nat)
    returns (done: nat)
    requires v.CacheValid() && c == v.Cache(t) && buffer != v.disk
    requires c.Shape() && InRegion(c, q, length) && at + length <= buffer.Length
    modifies v.disk, c, c.tags, c.pages, buffer
    ensures v.CacheValid() && c.Shape()
    ensures done == UnderRunLength(c, q, length)
    ensures (buffer[..], c.contents) == AfterAccess(mode, q, done, at, old(buffer[..]), old(c.contents))
  {
    hide *;
    UnderRunFacts(c, q, length);
    done := 0;
    EmptyAccess(mode, q, at, buffer[..], c.contents);
    var pageNo, underRun := c.PageNo(q), c.PageOffset(q);
    if underRun > 0 {
      done := c.pageSize - underRun;
      if done > length {
        done := length;
      }
      FatAccessUnalignedCachePage(v, t, c, mode, pageNo, underRun, done, buffer, at);
    }
  }

  lemma CacheOfType(v: Volume, t: CacheDataType)
    ensures t == CacheData ==> v.Cache(t) == v.dataCache
    ensures t == CacheFat ==> v.Cache(t) == v.fatCache
  {}

  lemma PageFacts(c: DiskCache, pageNo: nat, length: nat)
    requires c.Shape() && InRegion(c, c.PageStart(pageNo), length)
    ensures 0 < c.pageSize && c.PageStart(pageNo) + length <= |c.contents|
    ensures var count := c.PageNo(length); var q, size := c.PageStart(pageNo), c.PageStart(count);
      && size <= length && (count > 0 <==> size > 0)
      && c.PageStart(pageNo + count) == q + size && c.base + q + size <= c.limit
      && (size < length ==> c.HasPage(pageNo + count) && length - size <= c.PageLength(pageNo + count))
  {
    PageSplit(length, c.pageSize);
    MulAdd(pageNo, length / c.pageSize, c.pageSize);
  }

  /** The whole pages and the trailing part of a request that starts at a page boundary. */
  method AccessPages(v: Volume, t: CacheDataType, c: DiskCache, mode: IoMode, pageNo: nat, length: nat,
                     buffer: array<Byte>, at: nat)
    requires v.CacheValid() && c == v.Cache(t) && buffer != v.disk
    requires c.Shape() && InRegion(c, c.PageStart(pageNo), length) && at + length <= buffer.Length
    requires t == CacheFat ==> c.PageNo(length) == 0
    modifies v.disk, c, c.tags, c.pages, buffer
    ensures v.CacheValid() && c.Shape()
    ensures (buffer[..], c.contents) ==
      AfterAccess(mode, c.PageStart(pageNo), length, at, old(buffer[..]), old(c.contents))
  {
    hide *;
    PageFacts(c, pageNo, length);
    CacheOfType(v, t);
    ghost var b0, c0 := buffer[..], c.contents;
    ghost var q: nat := c.PageStart(pageNo);
    var alignedPageCount := c.PageNo(length);
    var overRunPageNo := pageNo + alignedPageCount;
    var alignedSize := c.PageStart(alignedPageCount);
    EmptyAccess(mode, q, at, b0, c0);
    if alignedPageCount > 0 {
      AccessAlignedPages(v, mode, pageNo, overRunPageNo, buffer, at, alignedSize);
    }
    var overRun := length - alignedSize;
    if overRun > 0 {
      FatAccessUnalignedCachePage(v, t, c, mode, overRunPageNo, 0, overRun, buffer, at + alignedSize);
      JoinAccesses(mode, q, alignedSize, overRun, at, b0, c0);
    }
  }

  /** FatAccessCache, for a request given by its place in the region. */
  method AccessRegion(v: Volume, t: CacheDataType, c: DiskCache, mode: IoMode, q: nat, length: nat,
                      buffer: array<Byte>, at: nat)
    requires v.CacheValid() && c == v.Cache(t) && buffer != v.disk
    requires c.Shape() && InRegion(c, q, length) && at + length <= buffer.Length
    requires t == CacheFat ==> NoAlignedPart(c, q, length)
    modifies v.disk, c, c.tags, c.pages, buffer
    ensures v.CacheValid() && c.Shape()
    ensures (buffer[..], c.contents) == AfterAccess(mode, q, length, at, old(buffer[..]), old(c.contents))
  {
    hide *;
    UnderRunFacts(c, q, length);
    NoAlignedFacts(c, q, length);
    ghost var b0, c0 := buffer[..], c.contents;
    var done := AccessUnderRun(v, t, c, mode, q, length, buffer, at);
    if done < length {
      var pageNo := c.PageNo(q + done);
      assert c.Shape();
      assert InRegion(c, c.PageStart(pageNo), length - done);
      assert t == CacheFat ==> c.PageNo(length - done) == 0;
      AccessPages(v, t, c, mode, pageNo, length - done, buffer, at + done);
      JoinAccesses(mode, q, done, length - done, at, b0, c0);
    }
  }

  /**
   * FatAccessCache: read or write `length` bytes at disk position `offset`.  A request on the FAT cache
   * has no aligned part.
   */
  method FatAccessCache(v: Volume, t: CacheDataType, mode: IoMode, offset: nat, length: nat, buffer: array<Byte>,
                        at: nat)
    requires v.CacheValid() && buffer != v.disk
    requires v.Cache(t).base <= offset && offset + length <= v.Cache(t).limit && at + length <= buffer.Length
    requires t == CacheFat ==> NoAlignedPart(v.fatCache, offset - v.fatCache.base, length)
    modifies v.disk, v.Cache(t), v.Cache(t).tags, v.Cache(t).pages, buffer
    ensures v.CacheValid() && v.Cache(t).Shape()
    ensures (buffer[..], v.Cache(t).contents) ==
      AfterAccess(mode, offset - v.Cache(t).base, length, at, old(buffer[..]), old(v.Cache(t).contents))
  {
    var c := v.Cache(t);
    AccessRegion(v, t, c, mode, offset - c.base, length, buffer, at);
  }

  // ---------------------------------------------------------------- FatVolumeFlushCache

  /** One iteration of the flush loop over the caches. */
  method FlushCache(v: Volume, t: CacheDataType)
    requires v.CacheValid()
    modifies v.disk, v.Cache(t)`dirty, v.Cache(t).tags
    ensures v.CacheValid()
    ensures v.Cache(t).Clean()
  {
    var c := v.Cache(t);
    if c.dirty {
      for g := 0 to c.groupCount
        invariant v.CacheValid() && c.tags.Length == c.groupCount
        invariant forall h :: 0 <= h < g ==> !(c.tags[h].realSize > 0 && c.tags[h].dirty)
      {
        if c.tags[g].realSize > 0 && c.tags[g].dirty {
          ghost var before := c.tags[..];
          StoreCachePage(v, t, g);
          assert forall h :: 0 <= h < g ==> c.tags[h] == c.tags[..][h] == before[h];
        }
      }
      ClearDirty(v, t, c);
    } else {
      forall g | 0 <= g < c.groupCount
        ensures !(c.tags[g].realSize > 0 && c.tags[g].dirty)
      {
        assert c.GroupCoherent(g);
      }
    }
  }

  method ClearDirty(v: Volume, t: CacheDataType, c: DiskCache)
    requires v.CacheValid() && c == v.Cache(t) && c.Clean()
    modifies c`dirty
    ensures v.CacheValid() && c.Clean()
  {
    c.dirty := false;
    forall g | 0 <= g < c.groupCount
      ensures c.GroupCoherent(g)
    {
      assert old(c.GroupCoherent(g));
    }
    forall p: nat
      ensures c.DirtyPage(p) || c.OnDisk(v.RegionIn(v.disk[..], c), p)
    {
      assert old(c.DirtyPage(p)) || old(c.OnDisk(v.RegionIn(v.disk[..], c), p));
    }
  }

  /**
   * FatVolumeFlushCache: afterwards nothing is dirty, and every copy of the FAT and the data region hold the
   * contents.
   */
  method FatVolumeFlushCache(v: Volume)
    requires v.CacheValid()
    modifies v.disk, v.fatCache`dirty, v.fatCache.tags, v.dataCache`dirty, v.dataCache.tags
    ensures v.CacheValid() && v.Layout() && v.fatCache.Shape() && v.dataCache.Shape()
    ensures v.fatCache.Clean() && v.dataCache.Clean()
    ensures v.RegionIn(v.disk[..], v.dataCache) == v.dataCache.contents
    ensures forall k :: 0 <= k < v.numFats ==> v.CopyIn(v.disk[..], k) == v.fatCache.contents
  {
    FlushCache(v, CacheFat);
    FlushCache(v, CacheData);
    FlushedMeansOnDisk(v);
  }

  lemma FlushedMeansOnDisk(v: Volume)
    requires v.CacheValid() && v.fatCache.Clean() && v.dataCache.Clean()
    ensures v.RegionIn(v.disk[..], v.dataCache) == v.dataCache.contents
    ensures forall k :: 0 <= k < v.numFats ==> v.CopyIn(v.disk[..], k) == v.fatCache.contents
  {
    v.fatCache.CleanMeansOnDisk(v.RegionIn(v.disk[..], v.fatCache));
    v.dataCache.CleanMeansOnDisk(v.RegionIn(v.disk[..], v.dataCache));
    FirstCopy(v, v.disk[..]);
  }

  // ---------------------------------------------------------------- FatDiskIo

  /** FatDiskIo through a cache: the request must lie in the volume; a request that does not is refused. */
  method FatDiskIo(v: Volume, t: CacheDataType, mode: IoMode, offset: nat, length: nat, buffer: array<Byte>, at: nat)
    returns (status: Status)
    requires v.CacheValid() && buffer != v.disk && at + length <= buffer.Length
    requires offset + length <= v.volumeSize ==> v.Cache(t).base <= offset && offset + length <= v.Cache(t).limit
    requires t == CacheFat && offset + length <= v.volumeSize ==>
      NoAlignedPart(v.fatCache, offset - v.fatCache.base, length)
    modifies v`diskError, v.disk, v.Cache(t), v.Cache(t).tags, v.Cache(t).pages, buffer
    ensures v.CacheValid() && v.Cache(t).Shape()
    ensures status == (if offset + length <= v.volumeSize then Success else VolumeCorrupted)
    ensures v.diskError == (old(v.diskError) || status != Success)
    ensures (buffer[..], v.Cache(t).contents) ==
      if status == Success then AfterAccess(mode, offset - v.Cache(t).base, length, at, old(buffer[..]),
                                            old(v.Cache(t).contents))
      else (old(buffer[..]), old(v.Cache(t).contents))
  {
    if offset + length <= v.volumeSize {
      FatAccessCache(v, t, mode, offset, length, buffer, at);
      status := Success;
    } else {
      v.diskError := true;
      status := VolumeCorrupted;
    }
  }

  // ---------------------------------------------------------------- runs

  /** A request of a run. */
  datatype Request =
    | Read(t: CacheDataType, q: nat, length: nat)
    | Write(t: CacheDataType, q: nat, data: seq<Byte>)
    | Flush

  /** The two regions as flat byte arrays. */
  datatype Flat = Flat(fat: seq<Byte>, data: seq<Byte>) {
    function Of(t: CacheDataType): seq<Byte> {
      if t == CacheFat then fat else data
    }

    function With(t: CacheDataType, bytes: seq<Byte>): Flat {
      if t == CacheFat then this.(fat := bytes) else this.(data := bytes)
    }
  }

  ghost predicate Allowed(v: Volume, r: Request, sizes: Flat) {
    match r
    case Read(t, q, length) => q + length <= |sizes.Of(t)| && (t == CacheFat ==> NoAlignedPart(v.fatCache, q, length))
    case Write(t, q, data) => q + |data| <= |sizes.Of(t)| && (t == CacheFat ==> NoAlignedPart(v.fatCache, q, |data|))
    case Flush => true
  }

  /** A request on the flat arrays: what it returns and what it leaves. */
  ghost function FlatStep(r: Request, flat: Flat): (result: (seq<Byte>, Flat))
    requires !r.Flush? ==> r.q + (if r.Read? then r.length else |r.data|) <= |flat.Of(r.t)|
    ensures |result.1.fat| == |flat.fat| && |result.1.data| == |flat.data|
  {
    match r
    case Read(t, q, length) => (flat.Of(t)[q..q + length], flat)
    case Write(t, q, data) => ([], flat.With(t, Splice(flat.Of(t), q, data)))
    case Flush => ([], flat)
  }

  /** The results of a whole run on the flat arrays, and what it leaves. */
  ghost function FlatRun(v: Volume, rs: seq<Request>, flat: Flat): (result: (seq<seq<Byte>>, Flat))
    requires forall r :: r in rs ==> Allowed(v, r, flat)
    ensures |result.1.fat| == |flat.fat| && |result.1.data| == |flat.data|
  {
    if rs == [] then ([], flat)
    else
      var (results, flat1) := FlatRun(v, rs[..|rs| - 1], flat);
      assert Allowed(v, rs[|rs| - 1], flat);
      var (result, flat2) := FlatStep(rs[|rs| - 1], flat1);
      (results + [result], flat2)
  }

  method RunRead(v: Volume, t: CacheDataType, q: nat, length: nat) returns (result: seq<Byte>)
    requires v.CacheValid() && q + length <= |v.Cache(t).contents| && v.Cache(t).Shape()
    requires t == CacheFat ==> NoAlignedPart(v.fatCache, q, length)
    modifies v.disk, v.Cache(t), v.Cache(t).tags, v.Cache(t).pages
    ensures v.CacheValid() && v.Cache(t).Shape() && v.Cache(t).contents == old(v.Cache(t).contents)
    ensures result == v.Cache(t).contents[q..q + length]
  {
    hide Splice, Volume.CacheInvariant, NoAlignedPart;
    var buffer := NewBuffer(v, t, seq(length, _ => 0));
    WholeSplice(buffer[..], v.Cache(t).contents[q..q + length]);
    FatAccessCache(v, t, ReadDisk, v.Cache(t).base + q, length, buffer, 0);
    result := buffer[..];
  }

  method RunWrite(v: Volume, t: CacheDataType, q: nat, data: seq<Byte>)
    requires v.CacheValid() && q + |data| <= |v.Cache(t).contents| && v.Cache(t).Shape()
    requires t == CacheFat ==> NoAlignedPart(v.fatCache, q, |data|)
    modifies v.disk, v.Cache(t), v.Cache(t).tags, v.Cache(t).pages
    ensures v.CacheValid() && v.Cache(t).Shape() && v.Cache(t).contents == Splice(old(v.Cache(t).contents), q, data)
  {
    hide Splice, Volume.CacheInvariant, NoAlignedPart;
    var buffer := NewBuffer(v, t, data);
    FatAccessCache(v, t, WriteDisk, v.Cache(t).base + q, |data|, buffer, 0);
    assert data[0..0 + |data|] == data;
  }

  /** A buffer of the caller's that holds `bytes`. */
  method NewBuffer(v: Volume, t: CacheDataType, bytes: seq<Byte>) returns (buffer: array<Byte>)
    requires v.CacheValid() && v.Cache(t).Shape()
    ensures v.CacheValid() && v.Cache(t).Shape() && fresh(buffer) && buffer[..] == bytes
  {
    buffer := new Byte[|bytes|](i requires 0 <= i < |bytes| => bytes[i]);
  }

  method RunOne(v: Volume, r: Request) returns (result: seq<Byte>)
    requires v.CacheValid() && Allowed(v, r, Flat(v.fatCache.contents, v.dataCache.contents))
    modifies v.CacheRepr()
    ensures v.CacheValid()
    ensures (result, Flat(v.fatCache.contents, v.dataCache.contents)) ==
      FlatStep(r, Flat(old(v.fatCache.contents), old(v.dataCache.contents)))
  {
    assert v.fatCache != v.dataCache && v.fatCache.Shape() && v.dataCache.Shape();
    hide Splice, Volume.CacheValid;
    match r
    case Read(t, q, length) => result := RunRead(v, t, q, length);
    case Write(t, q, data) => RunWrite(v, t, q, data); result := [];
    case Flush => FatVolumeFlushCache(v); result := [];
  }

  lemma WholeSplice<T>(s: seq<T>, bytes: seq<T>)
    requires |s| == |bytes|
    ensures Splice(s, 0, bytes) == bytes
  {}

  /** Every run of reads, writes and flushes returns, and leaves, what it would on two flat byte arrays. */
  method RunRequests(v: Volume, rs: seq<Request>) returns (results: seq<seq<Byte>>)
    requires v.CacheValid()
    requires forall r :: r in rs ==> Allowed(v, r, Flat(v.fatCache.contents, v.dataCache.contents))
    modifies v.CacheRepr()
    ensures v.CacheValid()
    ensures (results, Flat(v.fatCache.contents, v.dataCache.contents)) ==
      FlatRun(v, rs, Flat(old(v.fatCache.contents), old(v.dataCache.contents)))
  {
    ghost var flat := Flat(v.fatCache.contents, v.dataCache.contents);
    results := [];
    for i := 0 to |rs|
      invariant v.CacheValid()
      invariant forall r :: r in rs[..i] ==> r in rs
      invariant (results, Flat(v.fatCache.contents, v.dataCache.contents)) == FlatRun(v, rs[..i], flat)
    {
      hide FlatStep, Splice;
      assert rs[..i + 1][..i] == rs[..i];
      assert Allowed(v, rs[i], flat);
      AllowedSizes(v, rs[i], flat, Flat(v.fatCache.contents, v.dataCache.contents));
      var result := RunOne(v, rs[i]);
      results := results + [result];
    }
    assert rs[..|rs|] == rs;
  }

  lemma AllowedSizes(v: Volume, r: Request, a: Flat, b: Flat)
    requires Allowed(v, r, a) && |a.fat| == |b.fat| && |a.data| == |b.data|
    ensures Allowed(v, r, b)
  {}
}
