/**
 * The calls on an open file, and every run of them (ReadWrite.c: FatIFileAccess, FatExpandOFile; Info.c:
 * FatSetFileInfo).
 */
module OpenFile {
  import opened FatTypes
  import opened VolumeState
  import opened DiskCacheIo
  import opened FatTable
  import opened FreeSpace
  import opened Chains
  import opened FileSpace
  import opened FileContents
  import opened FileIo
  import opened FileRuns
  import opened FileArray

  // ---------------------------------------------------------------- the calls

  /** An open file whose bytes all have clusters, on a usable volume. */
  ghost predicate Open(o: OFile, path: seq<nat>)
    reads o, o.volume, o.volume.CacheRepr(), o.volume.dataCache
  {
    && !o.isFixedRootDir && Usable(o.volume) && AreaLayout(o.volume)
    && |o.volume.dataCache.contents| == o.volume.volumeSize - o.volume.rootPos
    && Ready(o.volume.clusterSize, StateOf(o, path)) && Good(o.volume.clusterSize, StateOf(o, path))
    && InVolume(AreaOf(o.volume), StateOf(o, path))
  }

  ghost function ContentOf(o: OFile, path: seq<nat>): (bytes: seq<Byte>)
    requires Open(o, path)
    reads o, o.volume, o.volume.CacheRepr(), o.volume.dataCache
    ensures |bytes| == o.fileSize
  {
    Content(AreaOf(o.volume), o.volume.dataCache.contents, StateOf(o, path))
  }

  /** The bytes of a file that this one shares no cluster with. */
  ghost function OtherBytes(o: OFile, path: seq<nat>, other: seq<nat>): seq<Byte>
    requires Open(o, path) && InArea(AreaOf(o.volume), other)
    reads o, o.volume, o.volume.CacheRepr(), o.volume.dataCache
  {
    FileBytes(AreaOf(o.volume), o.volume.dataCache.contents, other)
  }

  /** An access inside the file's size is an access to its bytes. */
  lemma AccessContent(mode: IoMode, position: nat, length: nat, buffer: seq<Byte>, all: seq<Byte>, size: nat)
    requires position + length <= size <= |all| && length <= |buffer|
    ensures AfterAccess(mode, position, length, 0, buffer, all[..size]) ==
      (AfterAccess(mode, position, length, 0, buffer, all).0,
       AfterAccess(mode, position, length, 0, buffer, all).1[..size])
  {
    SliceOfSlice(all, 0, size, position, position + length);
    SliceOfSplice(all, position, buffer[..length], 0, size);
  }

  /** FatAccessOFile, inside the size of a file. */
  method Access(o: OFile, mode: IoMode, position: nat, length: nat, buffer: array<Byte>, ghost path: seq<nat>,
                ghost other: seq<nat>)
    requires Open(o, path) && position + length <= o.fileSize && length <= buffer.Length
    requires buffer != o.volume.disk && buffer != o.volume.fatEntryBuffer
    requires InArea(AreaOf(o.volume), other) && forall c :: c in other ==> c !in path
    modifies o.volume`fatEntryPos, o.volume`diskError, FatRepr(o.volume)
    modifies o.volume.dataCache, o.volume.dataCache.tags, o.volume.dataCache.pages, buffer
    modifies o`posDisk, o`posRem, o`fileCurrentCluster, o`position, o`dirty, o`archive
    ensures Open(o, path)
    ensures (buffer[..], ContentOf(o, path)) ==
      AfterAccess(mode, position, length, 0, old(buffer[..]), old(ContentOf(o, path)))
    ensures OtherBytes(o, path, other) == old(OtherBytes(o, path, other))
  {
    hide Volume.FatValid, FileBytes, AfterAccess, LegalLinks, Walk, FreeClusters;
    FatAccessOFile(o, mode, position, length, buffer, path, other);
    AccessContent(mode, position, length, old(buffer[..]), old(BytesOf(o, path)), o.fileSize);
  }

  /** What an open file gives to the lemmas about its states. */
  lemma OpenParts(o: OFile, path: seq<nat>)
    requires Open(o, path)
    ensures var v := o.volume; var a := AreaOf(v);
      && Ready(v.clusterSize, StateOf(o, path)) && Good(v.clusterSize, StateOf(o, path))
        && InVolume(a, StateOf(o, path))
      && Fits(a, v.dataCache.contents) && a.size == v.clusterSize
      && ContentOf(o, path) == Content(a, v.dataCache.contents, StateOf(o, path))
    ensures o.volume.fatCache != o.volume.dataCache && Usable(o.volume) && !o.isFixedRootDir
  {}

  lemma OpenWhole(o: OFile, path: seq<nat>)
    requires !o.isFixedRootDir && Usable(o.volume) && AreaLayout(o.volume)
    requires |o.volume.dataCache.contents| == o.volume.volumeSize - o.volume.rootPos
    requires Ready(o.volume.clusterSize, StateOf(o, path)) && Good(o.volume.clusterSize, StateOf(o, path))
    requires InVolume(AreaOf(o.volume), StateOf(o, path))
    ensures Open(o, path)
  {}

  lemma UsableArea(v: Volume)
    requires Usable(v) && AreaLayout(v)
    ensures ClustersOf(AreaOf(v), v.fat)
  {
    forall c | c in v.fat
      ensures 2 <= c <= v.maxCluster + 1
    {
      InMap(v, c);
    }
  }

  /** What a growth does that is not short. */
  lemma WholeGrowth(v: Volume, a: Area, contents: seq<Byte>, s: FileState, newSize: nat, added: seq<nat>,
                    status: Status, s': FileState,
                    first: nat, other: seq<nat>)
    requires Ready(v.clusterSize, s) && Good(v.clusterSize, s) && a.size == v.clusterSize && Fits(a, contents)
      && InVolume(a, s)
    requires GrowStep(v, s, newSize, added, status, s') && !Short(v, s, newSize)
    requires ClustersOf(a, s'.fat) && Apart(s.fat, s.path, first, other)
    ensures Ready(v.clusterSize, s') && Good(v.clusterSize, s') && InVolume(a, s')
      && Apart(s'.fat, s'.path, first, other)
    ensures s'.fileSize == if status == Success then newSize else s.fileSize
    ensures SamePrefix(Content(a, contents, s), Content(a, contents, s'))
    ensures status != Success ==> Content(a, contents, s') == Content(a, contents, s)
  {
    GrowKeeps(v, s, newSize, added, status, s');
    ChainInArea(a, s'.fat, s'.place.first, s'.path);
    GrowApart(v, s, newSize, added, status, s', first, other);
    GrownArray(v, a, contents, s, newSize, added, status, s');
  }

  /** What a truncation does to a size that is not larger. */
  lemma WholeTruncation(v: Volume, a: Area, contents: seq<Byte>, s: FileState, newSize: nat, status: Status,
                        s': FileState,
                        first: nat, other: seq<nat>)
    requires Ready(v.clusterSize, s) && Good(v.clusterSize, s) && a.size == v.clusterSize && Fits(a, contents)
      && InVolume(a, s)
    requires TruncateStep(v, s, newSize, status, s') && newSize <= s.fileSize && Apart(s.fat, s.path, first, other)
    ensures Ready(v.clusterSize, s') && Good(v.clusterSize, s') && InVolume(a, s')
      && Apart(s'.fat, s'.path, first, other)
    ensures status == Success && Content(a, contents, s') == Content(a, contents, s)[..newSize]
    ensures Exact(v, s')
  {
    NeedsAtMost(v, newSize, |s.path|);
    TruncateKeeps(v, s, newSize, status, s');
    TruncatedArray(v, a, contents, s, newSize, status, s');
    ShrunkApart(s.fat, s.place, s.path, FatSizeToClusters(v, newSize), s'.fat, s'.place, status, first, other);
  }

  /** FatGrowEof, for an open file whose growth is not short: its bytes stay, and all of them when it fails. */
  method GrowOpen(o: OFile, newSize: nat, ghost path: seq<nat>, ghost first: nat, ghost other: seq<nat>)
    returns (status: Status, ghost path': seq<nat>)
    requires Open(o, path) && !Short(o.volume, StateOf(o, path), newSize)
    requires Apart(o.volume.fat, path, first, other) && InArea(AreaOf(o.volume), other)
    modifies VolumeRepr(o.volume), o
    ensures Open(o, path') && Apart(o.volume.fat, path', first, other)
    ensures o.fileSize == if status == Success then newSize else old(o.fileSize)
    ensures SamePrefix(old(ContentOf(o, path)), ContentOf(o, path'))
    ensures status != Success ==> ContentOf(o, path') == old(ContentOf(o, path))
    ensures OtherBytes(o, path', other) == old(OtherBytes(o, path, other))
    ensures Total(o.volume.fat, path') == old(Total(o.volume.fat, path))
    ensures old(Exact(o.volume, StateOf(o, path))) && old(o.fileSize) < newSize ==>
      Exact(o.volume, StateOf(o, path'))
        && status == Outcome(o.volume, old(Total(o.volume.fat, path)), old(o.fileSize), newSize)
  {
    hide Usable, FatSizeToClusters, Ready, Good, SamePrefix, Content, Apart, FileBytes, Short, GrowStep, InVolume,
      Fits, Total, Exact,
      Outcome;
    ghost var v, s, added := o.volume, StateOf(o, path), [];
    OpenParts(o, path);
    status, added, path' := Call(o, Grow(newSize), path);
    UsableArea(v);
    StepTotal(v, s, Grow(newSize), added, status, StateOf(o, path'));
    if Exact(v, s) && s.fileSize < newSize { ExactGrowth(v, s, newSize, added, status, StateOf(o, path')); }
    WholeGrowth(v, AreaOf(v), v.dataCache.contents, s, newSize, added, status, StateOf(o, path'), first, other);
    OpenWhole(o, path');
  }

  /** FatTruncateOFile, to a size that is not larger: it succeeds, and keeps the first bytes. */
  method TruncateOpen(o: OFile, newSize: nat, ghost path: seq<nat>, ghost first: nat, ghost other: seq<nat>)
    returns (status: Status, ghost path': seq<nat>)
    requires Open(o, path) && newSize <= o.fileSize
    requires Apart(o.volume.fat, path, first, other) && InArea(AreaOf(o.volume), other)
    modifies VolumeRepr(o.volume), o
    ensures Open(o, path') && Apart(o.volume.fat, path', first, other)
    ensures status == Success && ContentOf(o, path') == old(ContentOf(o, path))[..newSize]
    ensures Exact(o.volume, StateOf(o, path'))
    ensures OtherBytes(o, path', other) == old(OtherBytes(o, path, other))
    ensures Total(o.volume.fat, path') == old(Total(o.volume.fat, path))
  {
    hide Usable, FatSizeToClusters, Ready, Good, Content, Apart, FileBytes, TruncateStep, InVolume, Fits, Total, Exact;
    ghost var v, s, added := o.volume, StateOf(o, path), [];
    OpenParts(o, path);
    status, added, path' := Call(o, Truncate(newSize), path);
    StepTotal(v, s, Truncate(newSize), added, status, StateOf(o, path'));
    WholeTruncation(v, AreaOf(v), v.dataCache.contents, s, newSize, status, StateOf(o, path'), first, other);
    OpenWhole(o, path');
  }

  // ---------------------------------------------------------------- zeros behind the end

  const FAT_MAX_ALLOCATE_SIZE := 0xA0_0000

  ghost function Zeros(n: nat): seq<Byte> { seq(n, _ => 0) }

  /** `c` with its bytes from `start` up to `end` made zero. */
  ghost predicate ZeroedUpTo(c: seq<Byte>, start: nat, end: nat, c': seq<Byte>) {
    |c'| == |c| && start <= end <= |c| && c' == c[..start] + Zeros(end - start) + c[end..]
  }

  lemma MoreZeros(c: seq<Byte>, start: nat, end: nat, c1: seq<Byte>, n: nat, buffer: seq<Byte>)
    requires ZeroedUpTo(c, start, end, c1) && end + n <= |c| && n <= |buffer| && forall i :: 0 <= i < n ==>
      buffer[i] == 0
    ensures ZeroedUpTo(c, start, end + n, AfterAccess(WriteDisk, end, n, 0, buffer, c1).1)
  {
    var c2 := AfterAccess(WriteDisk, end, n, 0, buffer, c1).1;
    assert buffer[..n] == Zeros(n);
    assert c2 == c[..start] + Zeros(end + n - start) + c[end + n..];
  }

  /** One round of FatWriteZeroPool. */
  method WriteZeros(o: OFile, at: nat, n: nat, zeros: array<Byte>, ghost path: seq<nat>, ghost other: seq<nat>,
                    ghost c0: seq<Byte>, ghost start: nat)
    requires Open(o, path) && at + n <= o.fileSize == |c0| && n <= zeros.Length
      && ZeroedUpTo(c0, start, at, ContentOf(o, path))
    requires zeros != o.volume.disk && zeros != o.volume.fatEntryBuffer && forall i :: 0 <= i < zeros.Length ==>
      zeros[i] == 0
    requires InArea(AreaOf(o.volume), other) && forall c :: c in other ==> c !in path
    modifies o.volume`fatEntryPos, o.volume`diskError, FatRepr(o.volume)
    modifies o.volume.dataCache, o.volume.dataCache.tags, o.volume.dataCache.pages, zeros
    modifies o`posDisk, o`posRem, o`fileCurrentCluster, o`position, o`dirty, o`archive
    ensures Open(o, path) && ZeroedUpTo(c0, start, at + n, ContentOf(o, path))
    ensures forall i :: 0 <= i < zeros.Length ==> zeros[i] == 0
    ensures OtherBytes(o, path, other) == old(OtherBytes(o, path, other))
  {
    hide Open, AfterAccess, Content, FileBytes, ZeroedUpTo;
    ghost var c1 := ContentOf(o, path);
    MoreZeros(c0, start, at, c1, n, zeros[..]);
    Access(o, WriteDisk, at, n, zeros, path, other);
    WriteKeepsBuffer(at, n, old(zeros[..]), c1);
    assert zeros[..] == old(zeros[..]);
    assert forall i :: 0 <= i < zeros.Length ==> zeros[i] == zeros[..][i];
  }

  lemma WriteKeepsBuffer(position: nat, length: nat, buffer: seq<Byte>, contents: seq<Byte>)
    requires position + length <= |contents| && length <= |buffer|
    ensures AfterAccess(WriteDisk, position, length, 0, buffer, contents) ==
      (buffer, Splice(contents, position, buffer[..length]))
  {}

  /**
   * FatWriteZeroPool: zeros from `writePos` to the end of the file, in pieces of at most FAT_MAX_ALLOCATE_SIZE bytes.
   */
  method FatWriteZeroPool(o: OFile, writePos: nat, ghost path: seq<nat>, ghost other: seq<nat>)
    requires Open(o, path) && writePos <= o.fileSize
    requires InArea(AreaOf(o.volume), other) && forall c :: c in other ==> c !in path
    modifies o.volume`fatEntryPos, o.volume`diskError, FatRepr(o.volume)
    modifies o.volume.dataCache, o.volume.dataCache.tags, o.volume.dataCache.pages
    modifies o`posDisk, o`posRem, o`fileCurrentCluster, o`position, o`dirty, o`archive
    ensures Open(o, path)
    ensures ZeroedUpTo(old(ContentOf(o, path)), writePos, o.fileSize, ContentOf(o, path))
    ensures OtherBytes(o, path, other) == old(OtherBytes(o, path, other))
  {
    hide Open, AfterAccess, Content, FileBytes;
    ghost var c0 := ContentOf(o, path);
    var appended := o.fileSize - writePos;
    var size := if appended > FAT_MAX_ALLOCATE_SIZE then FAT_MAX_ALLOCATE_SIZE else appended;
    ghost var repr := o.volume.CacheRepr();
    assert forall x :: x in repr ==> allocated(x);
    var zeros := new Byte[size](_ => 0);
    assert zeros !in repr;
    var at := writePos;
    assert ZeroedUpTo(c0, writePos, at, c0);
    while true
      invariant Open(o, path) && at + appended == |c0| == o.fileSize
      invariant ZeroedUpTo(c0, writePos, at, ContentOf(o, path))
      invariant OtherBytes(o, path, other) == old(OtherBytes(o, path, other))
      invariant size > 0 || appended == 0
      invariant forall i :: 0 <= i < zeros.Length ==> zeros[i] == 0
      decreases appended
    {
      hide ZeroedUpTo, OtherBytes, ContentOf;
      var n := if appended > size then size else appended;
      appended := appended - n;
      WriteZeros(o, at, n, zeros, path, other, c0, writePos);
      at := at + n;
      if appended == 0 {
        break;
      }
    }
  }

  /** What making a file larger adds: zeros. */
  lemma OnlyZerosAdded(c: seq<Byte>, grown: seq<Byte>, c': seq<Byte>)
    requires |c| <= |grown| && SamePrefix(c, grown) && ZeroedUpTo(grown, |c|, |grown|, c')
    ensures c' == c + Zeros(|c'| - |c|)
  {
    assert grown[..|c|] == c && grown[|grown|..] == [];
  }

  /** FatExpandOFile, to a size that is not smaller: zeros are appended, or nothing changes. */
  method FatExpandOFile(o: OFile, expandedSize: nat, ghost path: seq<nat>, ghost first: nat, ghost other: seq<nat>)
    returns (status: Status, ghost path': seq<nat>)
    requires Open(o, path) && o.fileSize <= expandedSize && !Short(o.volume, StateOf(o, path), expandedSize)
    requires Apart(o.volume.fat, path, first, other) && InArea(AreaOf(o.volume), other)
    modifies VolumeRepr(o.volume), o.volume.dataCache, o.volume.dataCache.tags, o.volume.dataCache.pages, o
    ensures Open(o, path') && Apart(o.volume.fat, path', first, other)
    ensures ContentOf(o, path') ==
      old(ContentOf(o, path)) + if status == Success then Zeros(expandedSize - old(o.fileSize)) else []
    ensures OtherBytes(o, path', other) == old(OtherBytes(o, path, other))
    ensures Total(o.volume.fat, path') == old(Total(o.volume.fat, path))
    ensures old(Exact(o.volume, StateOf(o, path))) && old(o.fileSize) < expandedSize ==>
      && Exact(o.volume, StateOf(o, path'))
      && status == Outcome(o.volume, old(Total(o.volume.fat, path)), old(o.fileSize), expandedSize)
  {
    hide Open, Content, ContentOf, FileBytes, FreeClusters, Short, Chain, SamePrefix, ZeroedUpTo, FatSizeToClusters,
      Outcome;
    ghost var c0 := ContentOf(o, path);
    var writePos := o.fileSize;
    status, path' := GrowOpen(o, expandedSize, path, first, other);
    if status == Success {
      ghost var c1 := ContentOf(o, path');
      FatWriteZeroPool(o, writePos, path', other);
      OnlyZerosAdded(c0, c1, ContentOf(o, path'));
    }
  }

  // ---------------------------------------------------------------- reading and writing through a handle

  /** `c'` is `c`, made longer where that is needed, with `data` at `position`; what lies between is not determined. */
  ghost predicate Written(c: seq<Byte>, position: nat, data: seq<Byte>, c': seq<Byte>) {
    && |c'| == (if position + |data| > |c| then position + |data| else |c|)
    && c'[position..position + |data|] == data
    && forall i :: 0 <= i < |c| && !(position <= i < position + |data|) ==> c'[i] == c[i]
  }

  lemma WrittenAfterGrowth(c: seq<Byte>, grown: seq<Byte>, position: nat, length: nat, buffer: seq<Byte>)
    requires SamePrefix(c, grown) && position + length <= |grown| && length <= |buffer|
    requires |grown| == if position + length > |c| then position + length else |c|
    ensures AfterAccess(WriteDisk, position, length, 0, buffer, grown).0 == buffer
    ensures Written(c, position, buffer[..length], AfterAccess(WriteDisk, position, length, 0, buffer, grown).1)
  {
    SliceInsideSplice(grown, position, buffer[..length], position, position + length);
  }

  lemma ReadGives(c: seq<Byte>, position: nat, length: nat, buffer: seq<Byte>)
    requires position + length <= |c| && length <= |buffer|
    ensures AfterAccess(ReadDisk, position, length, 0, buffer, c) ==
      (Splice(buffer, 0, c[position..position + length]), c)
  {}

  /** How many bytes a read of `length` bytes gets. */
  function ReadLength(position: nat, length: nat, fileSize: nat): nat
    requires position <= fileSize
  {
    if position + length > fileSize then fileSize - position else length
  }

  /** A read puts the bytes there are at the start of the buffer; one that begins behind the end is refused. */
  ghost predicate ReadInto(c: seq<Byte>, position: nat, length: nat, buffer: seq<Byte>, status: Status, done: nat,
                           buffer': seq<Byte>)
    requires length <= |buffer|
  {
    if position > |c| then status == DeviceError && buffer' == buffer
    else
      && status == Success && done == ReadLength(position, length, |c|)
      && buffer' == Splice(buffer, 0, c[position..position + done])
  }

  /** FatIFileAccess, reading. */
  method ReadHandle(o: OFile, position: nat, length: nat, buffer: array<Byte>, ghost path: seq<nat>,
                    ghost other: seq<nat>)
    returns (status: Status, done: nat)
    requires Open(o, path) && length <= buffer.Length && buffer != o.volume.disk && buffer != o.volume.fatEntryBuffer
    requires InArea(AreaOf(o.volume), other) && forall c :: c in other ==> c !in path
    modifies o.volume`fatEntryPos, o.volume`diskError, FatRepr(o.volume)
    modifies o.volume.dataCache, o.volume.dataCache.tags, o.volume.dataCache.pages, buffer
    modifies o`posDisk, o`posRem, o`fileCurrentCluster, o`position, o`dirty, o`archive
    ensures Open(o, path) && ContentOf(o, path) == old(ContentOf(o, path))
    ensures ReadInto(old(ContentOf(o, path)), position, length, old(buffer[..]), status, done, buffer[..])
    ensures OtherBytes(o, path, other) == old(OtherBytes(o, path, other))
  {
    hide Open, Content, ContentOf, FileBytes, AfterAccess, Splice;
    if position > o.fileSize {
      return DeviceError, length;
    }
    done := ReadLength(position, length, o.fileSize);
    ReadGives(ContentOf(o, path), position, done, buffer[..]);
    Access(o, ReadDisk, position, done, buffer, path, other);
    status := Success;
  }

  /** FatIFileAccess, writing. */
  method WriteHandle(o: OFile, position: nat, length: nat, buffer: array<Byte>,
                     ghost path: seq<nat>, ghost first: nat, ghost other: seq<nat>)
    returns (status: Status, done: nat, ghost path': seq<nat>)
    requires Open(o, path) && length <= buffer.Length && buffer != o.volume.disk && buffer != o.volume.fatEntryBuffer
    requires !Short(o.volume, StateOf(o, path), position + length)
    requires Apart(o.volume.fat, path, first, other) && InArea(AreaOf(o.volume), other)
    modifies VolumeRepr(o.volume), o.volume.dataCache, o.volume.dataCache.tags, o.volume.dataCache.pages, o, buffer
    ensures Open(o, path') && Apart(o.volume.fat, path', first, other)
    ensures buffer[..] == old(buffer[..]) && done == if status == Success then length else 0
    ensures if status == Success then Written(old(ContentOf(o, path)), position, old(buffer[..length]),
                                              ContentOf(o, path'))
      else ContentOf(o, path') == old(ContentOf(o, path))
    ensures OtherBytes(o, path', other) == old(OtherBytes(o, path, other))
    ensures Total(o.volume.fat, path') == old(Total(o.volume.fat, path))
    ensures old(Exact(o.volume, StateOf(o, path))) ==>
      && Exact(o.volume, StateOf(o, path'))
      && status == Outcome(o.volume, old(Total(o.volume.fat, path)), old(o.fileSize), position + length)
  {
    hide Open, Content, ContentOf, FileBytes, FreeClusters, Short, Chain, SamePrefix, Written, AfterAccess,
      FatSizeToClusters;
    ghost var c0 := ContentOf(o, path);
    path' := path;
    SameIsPrefix(c0);
    if position + length > o.fileSize {
      status, path' := GrowOpen(o, position + length, path, first, other);
      if status != Success {
        return status, 0, path';
      }
    }
    WrittenAfterGrowth(c0, ContentOf(o, path'), position, length, buffer[..]);
    Access(o, WriteDisk, position, length, buffer, path', other);
    assert buffer[..][..length] == buffer[..length];
    status, done := Success, length;
  }

  lemma SameIsPrefix(c: seq<Byte>)
    ensures SamePrefix(c, c)
  {}

  /**
   * FatIFileAccess, for a file: a read gives the bytes there are, and is refused when it starts behind the end; a write
   * that reaches behind the end makes the file longer, or changes nothing.  `done` is the BufferSize that is returned.
   */
  method FatIFileAccess(o: OFile, mode: IoMode, position: nat, length: nat, buffer: array<Byte>,
                        ghost path: seq<nat>, ghost first: nat, ghost other: seq<nat>)
    returns (status: Status, done: nat, ghost path': seq<nat>)
    requires Open(o, path) && length <= buffer.Length && buffer != o.volume.disk && buffer != o.volume.fatEntryBuffer
    requires mode == WriteDisk ==> !Short(o.volume, StateOf(o, path), position + length)
    requires Apart(o.volume.fat, path, first, other) && InArea(AreaOf(o.volume), other)
    modifies VolumeRepr(o.volume), o.volume.dataCache, o.volume.dataCache.tags, o.volume.dataCache.pages, o, buffer
    ensures Open(o, path') && Apart(o.volume.fat, path', first, other)
    ensures mode == ReadDisk ==> path' == path && ContentOf(o, path') == old(ContentOf(o, path))
    ensures mode == ReadDisk ==>
      ReadInto(old(ContentOf(o, path)), position, length, old(buffer[..]), status, done, buffer[..])
    ensures mode == WriteDisk ==> buffer[..] == old(buffer[..]) && done == if status == Success then length else 0
    ensures mode == WriteDisk ==>
      if status == Success then Written(old(ContentOf(o, path)), position, old(buffer[..length]), ContentOf(o, path'))
      else ContentOf(o, path') == old(ContentOf(o, path))
    ensures OtherBytes(o, path', other) == old(OtherBytes(o, path, other))
    ensures Total(o.volume.fat, path') == old(Total(o.volume.fat, path))
    ensures old(Exact(o.volume, StateOf(o, path))) ==>
      && Exact(o.volume, StateOf(o, path'))
      && (mode == WriteDisk ==>
            status == Outcome(o.volume, old(Total(o.volume.fat, path)), old(o.fileSize), position + length))
  {
    hide Open, Content, ContentOf, FileBytes, FreeClusters, Short, Chain, SamePrefix, Written, AfterAccess,
      FatSizeToClusters, Outcome;
    path' := path;
    if mode == ReadDisk {
      status, done := ReadHandle(o, position, length, buffer, path, other);
    } else {
      status, done, path' := WriteHandle(o, position, length, buffer, path, first, other);
    }
  }

  // ---------------------------------------------------------------- every run

  /** What a caller may ask of a file: read, write, or set the size (Info.c: FatSetFileInfo). */
  datatype FileRequest = ReadAt(position: nat, length: nat) | WriteAt(position: nat,
    data: seq<Byte>) | SetSize(newSize: nat)

  datatype FileReply = FileReply(status: Status, bytes: seq<Byte>)

  /** The size that a request needs. */
  function SizeFor(r: FileRequest): nat {
    match r
    case ReadAt(_, _) => 0
    case WriteAt(position, data) => position + |data|
    case SetSize(newSize) => newSize
  }

  /** A byte array that can be resized, with room for `total` clusters: what a request gives and what it changes. */
  ghost predicate Answers(v: Volume, total: nat, c: seq<Byte>, r: FileRequest, reply: FileReply, c': seq<Byte>)
    requires 0 < v.clusterSize
  {
    match r
    case ReadAt(position, length) =>
      && c' == c
      && reply == if position > |c| then FileReply(DeviceError, [])
                  else FileReply(Success, c[position..position + ReadLength(position, length, |c|)])
    case WriteAt(position, data) =>
      && reply == FileReply(Outcome(v, total, |c|, position + |data|), [])
      && if reply.status == Success then Written(c, position, data, c') else c' == c
    case SetSize(newSize) =>
      && reply == FileReply(Outcome(v, total, |c|, newSize), [])
      && c' == if newSize <= |c| then c[..newSize] else if reply.status == Success then c + Zeros(newSize - |c|) else c
  }

  /** The file may be asked for: its size does not need exactly one cluster more than there are. */
  predicate Askable(v: Volume, total: nat, r: FileRequest)
    requires 0 < v.clusterSize
  {
    FatSizeToClusters(v, SizeFor(r)) != total + 1
  }

  /** What holds between the requests of a run. */
  ghost predicate Between(o: OFile, total: nat, path: seq<nat>, first: nat, other: seq<nat>)
    reads o, o.volume, o.volume.CacheRepr(), o.volume.dataCache
  {
    && Open(o, path) && Exact(o.volume, StateOf(o, path)) && Total(o.volume.fat, path) == total
    && Apart(o.volume.fat, path, first, other) && InArea(AreaOf(o.volume), other)
  }

  lemma NotShort(o: OFile, total: nat, path: seq<nat>, first: nat, other: seq<nat>, r: FileRequest)
    requires Between(o, total, path, first, other) && Askable(o.volume, total, r)
    ensures !Short(o.volume, StateOf(o, path), SizeFor(r))
  {
    if Short(o.volume, StateOf(o, path), SizeFor(r)) {
      ShortNeedsOneMore(o.volume, StateOf(o, path), SizeFor(r));
    }
  }

  method ServeRead(o: OFile, position: nat, length: nat, ghost path: seq<nat>, ghost first: nat,
                   ghost other: seq<nat>) returns (reply: FileReply)
    requires Open(o, path) && Apart(o.volume.fat, path, first, other) && InArea(AreaOf(o.volume), other)
    modifies VolumeRepr(o.volume), o.volume.dataCache, o.volume.dataCache.tags, o.volume.dataCache.pages, o
    ensures Open(o, path) && Apart(o.volume.fat, path, first, other) && ContentOf(o, path) == old(ContentOf(o, path))
    ensures Answers(o.volume, 0, old(ContentOf(o, path)), ReadAt(position, length), reply, ContentOf(o, path))
    ensures OtherBytes(o, path, other) == old(OtherBytes(o, path, other))
    ensures Total(o.volume.fat, path) == old(Total(o.volume.fat, path))
    ensures old(Exact(o.volume, StateOf(o, path))) ==> Exact(o.volume, StateOf(o, path))
  {
    hide Open, Content, ContentOf, FileBytes, FreeClusters, Short, Chain, FatSizeToClusters, Outcome, Exact, Total,
      Apart;
    ghost var c0, repr := ContentOf(o, path), o.volume.CacheRepr();
    assert forall x :: x in repr ==> allocated(x);
    var buffer := new Byte[length](_ => 0);
    assert buffer !in repr;
    ghost var b0 := buffer[..];
    var status, done;
    ghost var path';
    status, done, path' := FatIFileAccess(o, ReadDisk, position, length, buffer, path, first, other);
    if status == Success {
      reply := FileReply(Success, buffer[..done]);
      StartOfSplice(b0, c0[position..position + done]);
      assert buffer[..done] == buffer[..][..done];
    } else {
      reply := FileReply(status, []);
    }
  }

  lemma StartOfSplice(buffer: seq<Byte>, data: seq<Byte>)
    requires |data| <= |buffer|
    ensures Splice(buffer, 0, data)[..|data|] == data
  {}

  method ServeWrite(o: OFile, position: nat, data: seq<Byte>, ghost path: seq<nat>, ghost first: nat,
                    ghost other: seq<nat>)
    returns (status: Status, ghost path': seq<nat>)
    requires Open(o, path) && Apart(o.volume.fat, path, first, other) && InArea(AreaOf(o.volume), other)
    requires !Short(o.volume, StateOf(o, path), position + |data|)
    modifies VolumeRepr(o.volume), o.volume.dataCache, o.volume.dataCache.tags, o.volume.dataCache.pages, o
    ensures Open(o, path') && Apart(o.volume.fat, path', first, other)
    ensures if status == Success then Written(old(ContentOf(o, path)), position, data, ContentOf(o, path'))
      else ContentOf(o, path') == old(ContentOf(o, path))
    ensures OtherBytes(o, path', other) == old(OtherBytes(o, path, other))
    ensures Total(o.volume.fat, path') == old(Total(o.volume.fat, path))
    ensures old(Exact(o.volume, StateOf(o, path))) ==>
      && Exact(o.volume, StateOf(o, path'))
      && status == Outcome(o.volume, old(Total(o.volume.fat, path)), old(o.fileSize), position + |data|)
  {
    hide Open, Content, ContentOf, FileBytes, FreeClusters, Short, Chain, FatSizeToClusters, Outcome, Exact, Total,
      Apart, Written;
    ghost var repr := o.volume.CacheRepr();
    assert forall x :: x in repr ==> allocated(x);
    var buffer := new Byte[|data|](i requires 0 <= i < |data| => data[i]);
    assert buffer !in repr;
    assert buffer[..] == data && buffer[..|data|] == data;
    var done;
    status, done, path' := FatIFileAccess(o, WriteDisk, position, |data|, buffer, path, first, other);
  }

  /** One request. */
  method Serve(o: OFile, r: FileRequest, ghost total: nat, ghost path: seq<nat>, ghost first: nat,
               ghost other: seq<nat>)
    returns (reply: FileReply, ghost path': seq<nat>)
    requires Between(o, total, path, first, other) && Askable(o.volume, total, r)
    modifies VolumeRepr(o.volume), o.volume.dataCache, o.volume.dataCache.tags, o.volume.dataCache.pages, o
    ensures Between(o, total, path', first, other)
    ensures Answers(o.volume, total, old(ContentOf(o, path)), r, reply, ContentOf(o, path'))
    ensures OtherBytes(o, path', other) == old(OtherBytes(o, path, other))
  {
    hide Open, Content, ContentOf, FileBytes, FreeClusters, Short, Chain, Written, FatSizeToClusters, Exact, Total,
      Apart;
    NotShort(o, total, path, first, other, r);
    var status;
    path' := path;
    match r
    case ReadAt(position, length) =>
      reply := ServeRead(o, position, length, path, first, other);
    case WriteAt(position, data) =>
      status, path' := ServeWrite(o, position, data, path, first, other);
      reply := FileReply(status, []);
    case SetSize(newSize) =>
      status := Success;
      ghost var c0 := ContentOf(o, path);
      assert c0[..|c0|] == c0 && c0 + [] == c0;
      if newSize > o.fileSize {
        status, path' := FatExpandOFile(o, newSize, path, first, other);
      } else if newSize < o.fileSize {
        status, path' := TruncateOpen(o, newSize, path, first, other);
      }
      reply := FileReply(status, []);
  }

  /** A run of requests, with the replies and the contents that it passes through. */
  ghost predicate Answered(v: Volume, total: nat, requests: seq<FileRequest>, replies: seq<FileReply>,
                           contents: seq<seq<Byte>>)
    requires 0 < v.clusterSize
  {
    && |requests| == |replies| == |contents| - 1
    && forall i :: 0 <= i < |requests| ==> Answers(v, total, contents[i], requests[i], replies[i], contents[i + 1])
  }

  lemma BetweenParts(o: OFile, total: nat, path: seq<nat>, first: nat, other: seq<nat>)
    requires Between(o, total, path, first, other)
    ensures Open(o, path) && InArea(AreaOf(o.volume), other) && AreaLayout(o.volume)
  {}

  lemma AnsweredMore(v: Volume, total: nat, requests: seq<FileRequest>, replies: seq<FileReply>,
                     contents: seq<seq<Byte>>,
                     r: FileRequest, reply: FileReply, c: seq<Byte>)
    requires 0 < v.clusterSize && Answered(v, total, requests, replies, contents)
    requires Answers(v, total, contents[|requests|], r, reply, c)
    ensures Answered(v, total, requests + [r], replies + [reply], contents + [c])
  {
    hide Answers;
  }

  /** What holds after some requests of a run: `c0` are the bytes at its beginning, `d0` those of another file. */
  ghost predicate Served(o: OFile, total: nat, path: seq<nat>, first: nat, other: seq<nat>, requests: seq<FileRequest>,
                         replies: seq<FileReply>, contents: seq<seq<Byte>>, c0: seq<Byte>, d0: seq<Byte>)
    reads o, o.volume, o.volume.CacheRepr(), o.volume.dataCache
  {
    && Between(o, total, path, first, other) && AreaLayout(o.volume)
    && Answered(o.volume, total, requests, replies, contents)
    && contents[0] == c0 && contents[|requests|] == ContentOf(o, path) && OtherBytes(o, path, other) == d0
  }

  method ServeNext(o: OFile, r: FileRequest, ghost total: nat, ghost path: seq<nat>, ghost first: nat,
                   ghost other: seq<nat>,
                   ghost requests: seq<FileRequest>, ghost replies: seq<FileReply>, ghost contents: seq<seq<Byte>>,
                   ghost c0: seq<Byte>, ghost d0: seq<Byte>)
    returns (reply: FileReply, ghost path': seq<nat>, ghost c: seq<Byte>)
    requires Served(o, total, path, first, other, requests, replies, contents, c0, d0) && 0 < o.volume.clusterSize
    requires Askable(o.volume, total, r)
    modifies VolumeRepr(o.volume), o.volume.dataCache, o.volume.dataCache.tags, o.volume.dataCache.pages, o
    ensures Served(o, total, path', first, other, requests + [r], replies + [reply], contents + [c], c0, d0)
  {
    hide Open, Content, ContentOf, FileBytes, Answers, Exact, Total, Apart, Askable, OtherBytes, Answered, InArea;
    assert |contents| == |requests| + 1 by {
      AnsweredLength(o.volume, total, requests, replies, contents);
    }
    reply, path' := Serve(o, r, total, path, first, other);
    c := ContentOf(o, path');
    AnsweredMore(o.volume, total, requests, replies, contents, r, reply, c);
  }

  lemma AnsweredLength(v: Volume, total: nat, requests: seq<FileRequest>, replies: seq<FileReply>,
                       contents: seq<seq<Byte>>)
    requires 0 < v.clusterSize && Answered(v, total, requests, replies, contents)
    ensures |contents| == |requests| + 1 == |replies| + 1
  {}

  lemma ServedAtFirst(o: OFile, total: nat, path: seq<nat>, first: nat, other: seq<nat>)
    requires Between(o, total, path, first, other)
    ensures Served(o, total, path, first, other, [], [], [ContentOf(o, path)], ContentOf(o, path),
                   OtherBytes(o, path, other))
    ensures 0 < o.volume.clusterSize
  {}

  lemma ServedAtLast(o: OFile, total: nat, path: seq<nat>, first: nat, other: seq<nat>, requests: seq<FileRequest>,
                     replies: seq<FileReply>, contents: seq<seq<Byte>>, c0: seq<Byte>, d0: seq<Byte>)
    requires Served(o, total, path, first, other, requests, replies, contents, c0, d0)
    ensures Between(o, total, path, first, other) && Open(o, path) && InArea(AreaOf(o.volume), other)
    ensures 0 < o.volume.clusterSize && |contents| == |requests| + 1
      && Answered(o.volume, total, requests, replies, contents)
    ensures contents[0] == c0 && contents[|requests|] == ContentOf(o, path) && OtherBytes(o, path, other) == d0
  {}

  lemma Prefixes(requests: seq<FileRequest>)
    ensures requests[..0] == [] && requests[..|requests|] == requests
    ensures forall i :: 0 <= i < |requests| ==> requests[..i + 1] == requests[..i] + [requests[i]]
  {}

  /**
   * Every run of reads, writes and changes of size gives the answers of one byte array that can be resized, and leaves
   * the bytes of the other files alone.
   */
  method RunFile(o: OFile, requests: seq<FileRequest>, ghost total: nat, ghost path: seq<nat>, ghost first: nat,
                 ghost other: seq<nat>)
    returns (replies: seq<FileReply>, ghost contents: seq<seq<Byte>>, ghost path': seq<nat>)
    requires Between(o, total, path, first, other) && forall r :: r in requests ==> Askable(o.volume, total, r)
    modifies VolumeRepr(o.volume), o.volume.dataCache, o.volume.dataCache.tags, o.volume.dataCache.pages, o
    ensures Between(o, total, path', first, other) && Answered(o.volume, total, requests, replies, contents)
    ensures contents[0] == old(ContentOf(o, path)) && contents[|requests|] == ContentOf(o, path')
    ensures OtherBytes(o, path', other) == old(OtherBytes(o, path, other))
  {
    BetweenParts(o, total, path, first, other);
    hide Between, Open, ContentOf, OtherBytes, InArea, AreaLayout, Answered, Askable, Served;
    ghost var c0, d0 := ContentOf(o, path), OtherBytes(o, path, other);
    replies, contents, path' := [], [c0], path;
    ServedAtFirst(o, total, path, first, other);
    Prefixes(requests);
    for i := 0 to |requests|
      invariant Served(o, total, path', first, other, requests[..i], replies, contents, c0, d0)
    {
      var reply;
      ghost var c;
      reply, path', c := ServeNext(o, requests[i], total, path', first, other, requests[..i], replies, contents, c0,
                                   d0);
      replies, contents := replies + [reply], contents + [c];
    }
    ServedAtLast(o, total, path', first, other, requests, replies, contents, c0, d0);
  }

  // ---------------------------------------------------------------- what was written is read

  /** The request does not touch the bytes from `lo` up to `hi`. */
  predicate Leaves(r: FileRequest, lo: nat, hi: nat) {
    match r
    case ReadAt(_, _) => true
    case WriteAt(position, data) => position + |data| <= lo || hi <= position
    case SetSize(newSize) => hi <= newSize
  }

  lemma LeavesBytes(v: Volume, total: nat, c: seq<Byte>, r: FileRequest, reply: FileReply, c': seq<Byte>, lo: nat,
                    hi: nat)
    requires 0 < v.clusterSize && Answers(v, total, c, r, reply, c') && lo <= hi <= |c| && Leaves(r, lo, hi)
    ensures hi <= |c'| && c'[lo..hi] == c[lo..hi]
  {
    hide Outcome;
  }

  lemma {:induction false} KeptAlong(v: Volume, total: nat, requests: seq<FileRequest>, replies: seq<FileReply>,
                                     contents: seq<seq<Byte>>,
                                     j: nat, k: nat, lo: nat, hi: nat)
    requires 0 < v.clusterSize && Answered(v, total, requests, replies, contents)
    requires j <= k < |contents| && lo <= hi <= |contents[j]| && forall i :: j <= i < k ==> Leaves(requests[i], lo, hi)
    ensures hi <= |contents[k]| && contents[k][lo..hi] == contents[j][lo..hi]
  {
    hide Answers, Leaves;
    if j < k {
      KeptAlong(v, total, requests, replies, contents, j, k - 1, lo, hi);
      LeavesBytes(v, total, contents[k - 1], requests[k - 1], replies[k - 1], contents[k], lo, hi);
    }
  }

  /** In every run, a read gives what the last successful write to its bytes stored. */
  lemma LastWriteIsRead(v: Volume, total: nat, requests: seq<FileRequest>, replies: seq<FileReply>,
                        contents: seq<seq<Byte>>,
                        j: nat, k: nat, position: nat, data: seq<Byte>)
    requires 0 < v.clusterSize && Answered(v, total, requests, replies, contents)
    requires j < k < |requests| && requests[j] == WriteAt(position, data) && replies[j].status == Success
    requires forall i :: j < i < k ==> Leaves(requests[i], position, position + |data|)
    requires requests[k] == ReadAt(position, |data|)
    ensures replies[k] == FileReply(Success, data)
  {
    assert Answers(v, total, contents[j], requests[j], replies[j], contents[j + 1]);
    assert Answers(v, total, contents[k], requests[k], replies[k], contents[k + 1]);
    KeptAlong(v, total, requests, replies, contents, j + 1, k, position, position + |data|);
  }
}
