/** Reading and writing an open file (ReadWrite.c: FatAccessOFile). */
module FileIo {
  import opened FatTypes
  import opened VolumeState
  import opened DiskCacheIo
  import opened FatTable
  import opened FreeSpace
  import opened Chains
  import opened FileSpace
  import opened FilePosition
  import opened FileContents

  /** The clusters of the volume, as an area of the data region. */
  ghost function AreaOf(v: Volume): Area
    requires v.rootPos <= v.firstClusterPos
  {
    Area(v.firstClusterPos - v.rootPos, v.clusterSize, v.maxCluster)
  }

  /** The cluster area lies between the root directory's place and the end of the volume. */
  ghost predicate AreaLayout(v: Volume) {
    0 < v.clusterSize && v.rootPos <= v.firstClusterPos
      && v.firstClusterPos + v.maxCluster * v.clusterSize <= v.volumeSize
  }

  /** An open file, its walk, and the data region fit together. */
  ghost predicate FileReady(o: OFile, path: seq<nat>)
    reads o, o.volume, o.volume.dataCache
  {
    && AreaLayout(o.volume) && LegalLinks(o.volume.fat)
    && |o.volume.dataCache.contents| == o.volume.volumeSize - o.volume.rootPos
    && if o.isFixedRootDir then o.fileSize <= |o.volume.dataCache.contents|
       else
         && Walk(o.volume.fat, o.fileCluster, path) && InArea(AreaOf(o.volume), path)
         && Cursor(o.volume.clusterSize, PlaceOf(o), o.position, path)
  }

  /** The file as a flat byte array. */
  ghost function Bytes(v: Volume, fixed: bool, fileSize: nat, path: seq<nat>, contents: seq<Byte>): seq<Byte>
    requires AreaLayout(v) && |contents| == v.volumeSize - v.rootPos
    requires if fixed then fileSize <= |contents| else InArea(AreaOf(v), path)
  {
    if fixed then contents[..fileSize] else FileBytes(AreaOf(v), contents, path)
  }

  /** The piece of the file that one seek makes reachable. */
  lemma SoughtPiece(o: OFile, position: nat, posLimit: int, path: seq<nat>, m: nat, length: nat)
    requires AreaLayout(o.volume) && InArea(AreaOf(o.volume), path) && position / o.volume.clusterSize < |path|
    requires Sought(o, position, posLimit, path, m) && length <= o.posRem
    ensures o.volume.rootPos <= o.posDisk && 0 < o.posRem
    ensures OnePiece(AreaOf(o.volume), path, position, length, o.posDisk - o.volume.rootPos)
  {
    var a, n := AreaOf(o.volume), position / o.volume.clusterSize;
    PageSplit(position, a.size);
    OneMore(m, a.size);
    MulLe(0, m - 1, a.size);
    RunIsPiece(a, path, position, length, n, m);
    MulLe(0, path[n] - 2, a.size);
    assert o.posDisk - o.volume.rootPos == Offset(a, path, position);
  }

  /** Where the next `length` bytes of the file lie in the data region. */
  ghost predicate PieceOf(v: Volume, fixed: bool, fileSize: nat, path: seq<nat>, position: nat, length: nat, q: nat)
    requires AreaLayout(v)
  {
    if fixed then q == position && position + length <= fileSize
    else OnePiece(AreaOf(v), path, position, length, q)
  }

  /** An access to a piece of the data region is an access to that part of the file. */
  lemma PieceAccess(v: Volume, fixed: bool, fileSize: nat, path: seq<nat>, contents: seq<Byte>, mode: IoMode,
                    position: nat, length: nat, q: nat, at: nat, buffer: seq<Byte>)
    requires AreaLayout(v) && |contents| == v.volumeSize - v.rootPos && 0 < length && at + length <= |buffer|
    requires if fixed then fileSize <= |contents| else InArea(AreaOf(v), path) && Distinct(path)
    requires PieceOf(v, fixed, fileSize, path, position, length, q)
    ensures q + length <= |contents| && position + length <= |Bytes(v, fixed, fileSize, path, contents)|
    ensures var (b, c) := AfterAccess(mode, q, length, at, buffer, contents);
      (b, Bytes(v, fixed, fileSize, path, c)) ==
        AfterAccess(mode, position, length, at, buffer, Bytes(v, fixed, fileSize, path, contents))
  {
    hide FileBytes, FileByte, At, Placed, Distinct, Splice;
    if fixed {
      SliceOfSlice(contents, 0, fileSize, position, position + length);
      SliceOfSplice(contents, q, buffer[at..at + length], 0, fileSize);
    } else {
      var a := AreaOf(v);
      ReadPiece(a, contents, path, position, length, q);
      WritePiece(a, contents, path, position, buffer[at..at + length], q);
    }
  }

  /** `other` is the chain of another file: it shares no cluster with this one. */
  ghost predicate Elsewhere(v: Volume, fixed: bool, fileSize: nat, path: seq<nat>, other: seq<nat>)
    requires AreaLayout(v)
  {
    InArea(AreaOf(v), other) && if fixed then fileSize <= AreaOf(v).base else forall c :: c in other ==> c !in path
  }

  /** What lies below the cluster area: the fixed root directory of FAT12 and FAT16. */
  ghost function RootPart(v: Volume, contents: seq<Byte>): (root: seq<Byte>)
    requires v.rootPos <= v.firstClusterPos
    ensures |root| <= AreaOf(v).base
  {
    if AreaOf(v).base <= |contents| then contents[..AreaOf(v).base] else []
  }

  /** What an access to a file leaves alone: the bytes of `other`, and the fixed root directory, if it is not that. */
  ghost function Others(v: Volume, fixed: bool, contents: seq<Byte>, other: seq<nat>): seq<Byte>
    requires AreaLayout(v) && |contents| == v.volumeSize - v.rootPos && InArea(AreaOf(v), other)
  {
    (if fixed then [] else RootPart(v, contents)) + FileBytes(AreaOf(v), contents, other)
  }

  /** An access to a piece of one file does not touch a file that shares no cluster with it. */
  lemma AccessElsewhere(v: Volume, fixed: bool, fileSize: nat, path: seq<nat>, contents: seq<Byte>, mode: IoMode,
                        position: nat, length: nat, q: nat, at: nat, buffer: seq<Byte>, other: seq<nat>)
    requires AreaLayout(v) && |contents| == v.volumeSize - v.rootPos && 0 < length && at + length <= |buffer|
    requires q + length <= |contents| && PieceOf(v, fixed, fileSize, path, position, length, q)
    requires Elsewhere(v, fixed, fileSize, path, other)
    ensures Others(v, fixed, AfterAccess(mode, q, length, at, buffer, contents).1, other) ==
      Others(v, fixed, contents, other)
  {
    var a, data := AreaOf(v), buffer[at..at + length];
    hide FileBytes;
    if fixed {
      BehindRoot(a, contents, q, data, other);
    } else {
      WriteElsewhere(a, contents, path, position, data, q, other);
      PieceBehindBase(a, path, position, length, q);
      SliceOfSplice(contents, q, data, 0, a.base);
    }
  }

  /** A write below the cluster area changes no byte of a chain. */
  lemma BehindRoot(a: Area, contents: seq<Byte>, q: nat, data: seq<Byte>, other: seq<nat>)
    requires Fits(a, contents) && InArea(a, other) && q + |data| <= a.base <= |contents|
    ensures FileBytes(a, Splice(contents, q, data), other) == FileBytes(a, contents, other)
  {
    var contents' := Splice(contents, q, data);
    hide At, FileByte;
    forall p | 0 <= p < |other| * a.size
      ensures FileByte(a, contents', other, p) == FileByte(a, contents, other, p)
    {
      var place := FileByteAt(a, other, p);
      ByteAt(a, contents, other, p, place);
      ByteAt(a, contents', other, p, place);
      BehindBase(a, other, p, place);
    }
  }

  lemma PieceBehindBase(a: Area, path: seq<nat>, position: nat, length: nat, q: nat)
    requires OnePiece(a, path, position, length, q) && 0 < length
    ensures a.base <= q
  {
    PieceAt(a, path, position, length, q, position);
    BehindBase(a, path, position, q);
  }

  /** Both, for one access. */
  lemma PieceMoved(v: Volume, fixed: bool, fileSize: nat, path: seq<nat>, contents: seq<Byte>, mode: IoMode,
                   position: nat, length: nat, q: nat, at: nat, buffer: seq<Byte>, other: seq<nat>)
    requires AreaLayout(v) && |contents| == v.volumeSize - v.rootPos && 0 < length && at + length <= |buffer|
    requires if fixed then fileSize <= |contents| else InArea(AreaOf(v), path) && Distinct(path)
    requires PieceOf(v, fixed, fileSize, path, position, length, q) && Elsewhere(v, fixed, fileSize, path, other)
    ensures q + length <= |contents| && position + length <= |Bytes(v, fixed, fileSize, path, contents)|
    ensures var (b, c) := AfterAccess(mode, q, length, at, buffer, contents);
      && |c| == |contents| && |Bytes(v, fixed, fileSize, path, c)| == |Bytes(v, fixed, fileSize, path, contents)|
      && (b, Bytes(v, fixed, fileSize, path, c)) ==
           AfterAccess(mode, position, length, at, buffer, Bytes(v, fixed, fileSize, path, contents))
      && InArea(AreaOf(v), other) && Others(v, fixed, c, other) == Others(v, fixed, contents, other)
  {
    hide PieceOf, FileBytes, Distinct, Splice;
    PieceAccess(v, fixed, fileSize, path, contents, mode, position, length, q, at, buffer);
    AccessElsewhere(v, fixed, fileSize, path, contents, mode, position, length, q, at, buffer, other);
  }

  lemma BehindBase(a: Area, path: seq<nat>, p: nat, q: nat)
    requires At(a, path, p, q)
    ensures a.base <= q
  {
    MulLe(0, path[p / a.size] - 2, a.size);
  }

  /** FatDiskIo through the data cache; the FAT is not involved. */
  method DataIo(v: Volume, mode: IoMode, offset: nat, length: nat, buffer: array<Byte>, at: nat)
    requires v.FatValid() && buffer != v.disk && buffer != v.fatEntryBuffer && at + length <= buffer.Length
    requires v.rootPos <= offset && offset + length <= v.volumeSize
    modifies v`diskError, v.disk, v.dataCache, v.dataCache.tags, v.dataCache.pages, buffer
    ensures v.FatValid() && v.diskError == old(v.diskError)
    ensures (buffer[..], v.dataCache.contents) ==
      AfterAccess(mode, offset - v.rootPos, length, at, old(buffer[..]), old(v.dataCache.contents))
  {
    hide Volume.FatValid, Volume.CacheValid, AfterAccess, Volume.FatLayout, Volume.FatDecoded,
      Volume.MarkHeld;
    FatParts(v);
    var status := FatDiskIo(v, CacheData, mode, offset, length, buffer, at);
    FatCacheShape(v);
    FatWhole(v);
  }

  lemma FatCacheShape(v: Volume)
    requires v.CacheValid()
    ensures v.fatCache.Shape() && v.fatCache != v.dataCache
  {}

  // ---------------------------------------------------------------- FatAccessOFile

  ghost function BytesOf(o: OFile, path: seq<nat>): seq<Byte>
    requires FileReady(o, path)
    reads o, o.volume, o.volume.dataCache
  {
    Bytes(o.volume, o.isFixedRootDir, o.fileSize, path, o.volume.dataCache.contents)
  }

  /** Clip a length to the run that a seek found. */
  function Clip(rest: nat, run: int): int {
    if rest > run then run else rest
  }

  lemma GoodIsAny(size: nat, place: Place, position: nat, path: seq<nat>)
    requires Cursor(size, place, position, path)
    ensures AnyCursor(size, place, position, path)
  {}

  lemma SoughtPositive(o: OFile, position: nat, posLimit: int, path: seq<nat>, m: nat)
    requires 0 < o.volume.clusterSize && position / o.volume.clusterSize < |path|
      && Sought(o, position, posLimit, path, m)
    ensures 0 < o.posRem
  {
    OneMore(m, o.volume.clusterSize);
    MulLe(0, m - 1, o.volume.clusterSize);
  }

  /** The seek of one round, in a file with a chain. */
  method SeekChainPiece(o: OFile, position: nat, rest: nat, ghost path: seq<nat>)
    requires o.volume.FatValid() && AreaLayout(o.volume) && LegalLinks(o.volume.fat) && !o.isFixedRootDir
    requires Walk(o.volume.fat, o.fileCluster, path) && InArea(AreaOf(o.volume), path)
    requires Cursor(o.volume.clusterSize, PlaceOf(o), o.position, path)
    requires 0 < rest && position / o.volume.clusterSize < |path|
    modifies o.volume`fatEntryPos, o.volume`diskError, FatRepr(o.volume)
    modifies o`posDisk, o`posRem, o`fileCurrentCluster, o`position
    ensures o.volume.FatValid() && o.volume.diskError == old(o.volume.diskError)
    ensures Cursor(o.volume.clusterSize, PlaceOf(o), o.position, path)
    ensures 0 < o.posRem && o.volume.rootPos <= o.posDisk
    ensures OnePiece(AreaOf(o.volume), path, position, Clip(rest, o.posRem), o.posDisk - o.volume.rootPos)
  {
    hide Volume.FatValid, LegalLinks, Walk, Sought, Cursor, InArea, OnePiece;
    var status;
    ghost var m;
    GoodCursorSeesAll(o.volume.fat, o.volume.clusterSize, PlaceOf(o), o.position, position, path);
    GoodIsAny(o.volume.clusterSize, PlaceOf(o), o.position, path);
    status, m := FatOFilePosition(o, position, rest, path);
    SoughtPositive(o, position, rest, path, m);
    SoughtPiece(o, position, rest, path, m, Clip(rest, o.posRem));
    SoughtCursor(o, position, rest, path, m);
  }

  /** The seek of one round: the bytes from `position` on that lie in one piece. */
  method SeekPiece(o: OFile, position: nat, rest: nat, ghost path: seq<nat>) returns (length: nat)
    requires o.volume.FatValid() && FileReady(o, path) && 0 < rest && position + rest <= |BytesOf(o, path)|
    modifies o.volume`fatEntryPos, o.volume`diskError, FatRepr(o.volume)
    modifies o`posDisk, o`posRem, o`fileCurrentCluster, o`position
    ensures o.volume.FatValid() && o.volume.diskError == old(o.volume.diskError) && FileReady(o, path)
    ensures 0 < length <= rest && o.volume.rootPos <= o.posDisk
    ensures PieceOf(o.volume, o.isFixedRootDir, o.fileSize, path, position, length, o.posDisk - o.volume.rootPos)
  {
    hide Volume.FatValid, LegalLinks, Walk, Cursor, InArea, OnePiece, FileBytes, SeekEffect, Sought, Seen, AnyCursor;
    CachesApart(o.volume);
    if o.isFixedRootDir {
      var status;
      ghost var m;
      status, m := FatOFilePosition(o, position, rest, path);
    } else {
      InPages(o.volume.clusterSize, |path|, position);
      SeekChainPiece(o, position, rest, path);
    }
    length := Clip(rest, o.posRem);
  }

  /** One round of FatAccessOFile: seek, then move as much as lies in one piece. */
  method AccessOnce(o: OFile, mode: IoMode, position: nat, rest: nat, buffer: array<Byte>, at: nat,
                    ghost path: seq<nat>, ghost other: seq<nat>)
    returns (length: nat)
    requires o.volume.FatValid() && FileReady(o, path) && 0 < rest && position + rest <= |BytesOf(o, path)|
    requires buffer != o.volume.disk && buffer != o.volume.fatEntryBuffer && at + rest <= buffer.Length
    requires Elsewhere(o.volume, o.isFixedRootDir, o.fileSize, path, other)
    modifies o.volume`fatEntryPos, o.volume`diskError, FatRepr(o.volume)
    modifies o.volume.dataCache, o.volume.dataCache.tags, o.volume.dataCache.pages, buffer
    modifies o`posDisk, o`posRem, o`fileCurrentCluster, o`position
    ensures o.volume.FatValid() && o.volume.diskError == old(o.volume.diskError) && FileReady(o, path)
    ensures 0 < length <= rest && |BytesOf(o, path)| == |old(BytesOf(o, path))|
    ensures (buffer[..], BytesOf(o, path)) ==
      AfterAccess(mode, position, length, at, old(buffer[..]), old(BytesOf(o, path)))
    ensures Others(o.volume, o.isFixedRootDir, o.volume.dataCache.contents, other) ==
      old(Others(o.volume, o.isFixedRootDir, o.volume.dataCache.contents, other))
    ensures mode == ReadDisk ==> o.volume.dataCache.contents == old(o.volume.dataCache.contents)
  {
    hide Others, Volume.FatValid, AfterAccess, Bytes, Walk, Cursor, LegalLinks, PieceOf, FileBytes, Elsewhere, Distinct;
    var v := o.volume;
    CachesApart(v);
    length := SeekPiece(o, position, rest, path);
    if !o.isFixedRootDir { ReadyDistinct(o, path); }
    PieceMoved(v, o.isFixedRootDir, o.fileSize, path, v.dataCache.contents, mode, position, length,
               o.posDisk - v.rootPos, at, buffer[..], other);
    ReadKeeps(mode, o.posDisk - v.rootPos, length, at, buffer[..], v.dataCache.contents);
    DataIo(v, mode, o.posDisk, length, buffer, at);
  }

  lemma ReadKeeps(mode: IoMode, pos: nat, length: nat, at: nat, buffer: seq<Byte>, contents: seq<Byte>)
    requires pos + length <= |contents| && at + length <= |buffer|
    ensures mode == ReadDisk ==> AfterAccess(mode, pos, length, at, buffer, contents).1 == contents
  {}

  lemma CachesApart(v: Volume)
    requires v.FatValid()
    ensures v.fatCache != v.dataCache
  {}

  lemma ReadyDistinct(o: OFile, path: seq<nat>)
    requires FileReady(o, path) && !o.isFixedRootDir
    ensures Distinct(path)
  {
    WalkDistinct(o.volume.fat, o.fileCluster, path);
  }

  /** The flags of a file that was written. */
  method MarkWritten(o: OFile, mode: IoMode, ghost path: seq<nat>)
    requires o.volume.FatValid() && FileReady(o, path)
    modifies o`dirty, o`archive
    ensures o.volume.FatValid() && FileReady(o, path)
    ensures BytesOf(o, path) == old(BytesOf(o, path))
    ensures mode == WriteDisk ==> o.dirty && o.archive
    ensures mode == ReadDisk ==> o.dirty == old(o.dirty) && o.archive == old(o.archive)
  {
    if mode == WriteDisk {
      o.dirty := true;
      o.archive := true;
    }
  }

  /** What holds after `done` bytes were moved: `b0` and `c0` are the buffer and the file before, `d0` the others. */
  ghost predicate Progress(o: OFile, mode: IoMode, position: nat, done: nat, buffer: array<Byte>, path: seq<nat>,
                           other: seq<nat>,
                           b0: seq<Byte>, c0: seq<Byte>, d0: seq<Byte>)
    requires position + done <= |c0| && done <= |b0|
    reads o, o.volume, o.volume.CacheRepr(), buffer
  {
    && o.volume.FatValid() && FileReady(o, path) && Elsewhere(o.volume, o.isFixedRootDir, o.fileSize, path, other)
    && buffer != o.volume.disk && buffer != o.volume.fatEntryBuffer && buffer.Length == |b0|
    && (buffer[..], BytesOf(o, path)) == AfterAccess(mode, position, done, 0, b0, c0)
    && Others(o.volume, o.isFixedRootDir, o.volume.dataCache.contents, other) == d0
    && (done > 0 && mode == WriteDisk ==> o.dirty && o.archive)
  }

  /** One round of the loop. */
  method AccessStep(o: OFile, mode: IoMode, position: nat, length: nat, done: nat, buffer: array<Byte>,
                    ghost path: seq<nat>, ghost other: seq<nat>,
                    ghost b0: seq<Byte>, ghost c0: seq<Byte>, ghost d0: seq<Byte>)
    returns (done': nat)
    requires done < length && position + length <= |c0| && length <= |b0|
    requires Progress(o, mode, position, done, buffer, path, other, b0, c0, d0)
    modifies o.volume`fatEntryPos, o.volume`diskError, FatRepr(o.volume)
    modifies o.volume.dataCache, o.volume.dataCache.tags, o.volume.dataCache.pages, buffer
    modifies o`posDisk, o`posRem, o`fileCurrentCluster, o`position, o`dirty, o`archive
    ensures done < done' <= length && o.volume.diskError == old(o.volume.diskError)
    ensures Progress(o, mode, position, done', buffer, path, other, b0, c0, d0)
    ensures mode == ReadDisk ==>
      && o.volume.dataCache.contents == old(o.volume.dataCache.contents)
      && o.dirty == old(o.dirty) && o.archive == old(o.archive)
  {
    hide Others, Volume.FatValid, AfterAccess, FileReady, Bytes, FileBytes, Elsewhere;
    var n := AccessOnce(o, mode, position + done, length - done, buffer, done, path, other);
    JoinAccesses(mode, position, done, n, 0, b0, c0);
    MarkWritten(o, mode, path);
    done' := done + n;
  }

  lemma ReadyShape(o: OFile, path: seq<nat>, other: seq<nat>)
    requires FileReady(o, path) && Elsewhere(o.volume, o.isFixedRootDir, o.fileSize, path, other)
    ensures AreaLayout(o.volume) && Fits(AreaOf(o.volume), o.volume.dataCache.contents)
      && |o.volume.dataCache.contents| == o.volume.volumeSize - o.volume.rootPos
      && InArea(AreaOf(o.volume), other)
  {}

  lemma ProgressAtFirst(o: OFile, mode: IoMode, position: nat, buffer: array<Byte>, path: seq<nat>, other: seq<nat>)
    requires o.volume.FatValid() && FileReady(o, path) && position <= |BytesOf(o, path)|
    requires buffer != o.volume.disk && buffer != o.volume.fatEntryBuffer
    requires Elsewhere(o.volume, o.isFixedRootDir, o.fileSize, path, other)
    ensures Progress(o, mode, position, 0, buffer, path, other, buffer[..], BytesOf(o, path),
                     Others(o.volume, o.isFixedRootDir, o.volume.dataCache.contents, other))
  {
    hide Others, Volume.FatValid, AfterAccess, FileReady, Bytes, BytesOf, FileBytes;
    EmptyAccess(mode, position, 0, buffer[..], BytesOf(o, path));
  }

  lemma ProgressAtLast(o: OFile, mode: IoMode, position: nat, done: nat, buffer: array<Byte>, path: seq<nat>,
                       other: seq<nat>,
                       b0: seq<Byte>, c0: seq<Byte>, d0: seq<Byte>)
    requires position + done <= |c0| && done <= |b0|
      && Progress(o, mode, position, done, buffer, path, other, b0, c0, d0)
    ensures o.volume.FatValid() && FileReady(o, path) && Elsewhere(o.volume, o.isFixedRootDir, o.fileSize, path, other)
    ensures (buffer[..], BytesOf(o, path)) == AfterAccess(mode, position, done, 0, b0, c0)
    ensures Others(o.volume, o.isFixedRootDir, o.volume.dataCache.contents, other) == d0
    ensures done > 0 && mode == WriteDisk ==> o.dirty && o.archive
  {
    hide Others, Volume.FatValid, AfterAccess, Bytes, BytesOf, FileBytes;
  }

  /**
   * FatAccessOFile: reading and writing a file is reading and writing a flat byte array, through seek, chain and
   * cache; a file that shares no cluster with it keeps its bytes, and so does the fixed root directory.
   */
  method FatAccessOFile(o: OFile, mode: IoMode, position: nat, length: nat, buffer: array<Byte>, ghost path: seq<nat>,
                        ghost other: seq<nat>)
    requires o.volume.FatValid() && FileReady(o, path) && position + length <= |BytesOf(o, path)|
    requires buffer != o.volume.disk && buffer != o.volume.fatEntryBuffer && length <= buffer.Length
    requires Elsewhere(o.volume, o.isFixedRootDir, o.fileSize, path, other)
    modifies o.volume`fatEntryPos, o.volume`diskError, FatRepr(o.volume)
    modifies o.volume.dataCache, o.volume.dataCache.tags, o.volume.dataCache.pages, buffer
    modifies o`posDisk, o`posRem, o`fileCurrentCluster, o`position, o`dirty, o`archive
    ensures o.volume.FatValid() && o.volume.diskError == old(o.volume.diskError) && FileReady(o, path)
    ensures (buffer[..], BytesOf(o, path)) ==
      AfterAccess(mode, position, length, 0, old(buffer[..]), old(BytesOf(o, path)))
    ensures FileBytes(AreaOf(o.volume), o.volume.dataCache.contents, other) ==
      old(FileBytes(AreaOf(o.volume), o.volume.dataCache.contents, other))
    ensures !o.isFixedRootDir ==>
      RootPart(o.volume, o.volume.dataCache.contents) == old(RootPart(o.volume, o.volume.dataCache.contents))
    ensures length > 0 && mode == WriteDisk ==> o.dirty && o.archive
    ensures mode == ReadDisk ==>
      && o.volume.dataCache.contents == old(o.volume.dataCache.contents)
      && o.dirty == old(o.dirty) && o.archive == old(o.archive)
  {
    hide Others, Volume.FatValid, AfterAccess, FileReady, Bytes, BytesOf, FileBytes, Elsewhere, Progress;
    ReadyShape(o, path, other);
    ghost var b0, c0, contents := buffer[..], BytesOf(o, path), o.volume.dataCache.contents;
    ghost var d0 := Others(o.volume, o.isFixedRootDir, contents, other);
    var done := 0;
    ProgressAtFirst(o, mode, position, buffer, path, other);
    while done < length
      invariant done <= length && o.volume.diskError == old(o.volume.diskError)
      invariant Progress(o, mode, position, done, buffer, path, other, b0, c0, d0)
      invariant mode == ReadDisk ==>
        && o.volume.dataCache.contents == contents && o.dirty == old(o.dirty) && o.archive == old(o.archive)
    {
      done := AccessStep(o, mode, position, length, done, buffer, path, other, b0, c0, d0);
    }
    ProgressAtLast(o, mode, position, done, buffer, path, other, b0, c0, d0);
    ReadyShape(o, path, other);
    OthersParts(o.volume, o.isFixedRootDir, contents, o.volume.dataCache.contents, other);
  }

  lemma OthersParts(v: Volume, fixed: bool, before: seq<Byte>, after: seq<Byte>, other: seq<nat>)
    requires AreaLayout(v) && |before| == |after| == v.volumeSize - v.rootPos && InArea(AreaOf(v), other)
    requires Others(v, fixed, before, other) == Others(v, fixed, after, other)
    ensures FileBytes(AreaOf(v), before, other) == FileBytes(AreaOf(v), after, other)
    ensures !fixed ==> RootPart(v, before) == RootPart(v, after)
  {
    var x, y := if fixed then [] else RootPart(v, before), if fixed then [] else RootPart(v, after);
    var n := |x|;
    assert Others(v, fixed, before, other)[n..] == FileBytes(AreaOf(v), before, other);
    assert Others(v, fixed, after, other)[n..] == FileBytes(AreaOf(v), after, other);
    assert Others(v, fixed, before, other)[..n] == x && Others(v, fixed, after, other)[..n] == y;
  }
}
