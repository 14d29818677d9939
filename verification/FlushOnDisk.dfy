/**
 * A flush as the disk sees it: the entries of a file and of its directories are stored in the directories' files
 * (Flush.c: FatOFileFlush, over DirectoryManage.c: FatStoreDirEnt).
 */
module FlushOnDisk {
  import opened FatTypes
  import opened VolumeState
  import opened FatTable
  import opened FreeSpace
  import opened Chains
  import opened FilePosition
  import opened FileRuns
  import opened FileSpace
  import opened FileContents
  import opened FileIo
  import opened ShortName
  import opened DirSlots
  import opened DirOnDisk
  import opened FlushPath

  // ---------------------------------------------------------------- the fields that flushing sets

  const FAT_ATTRIBUTE_ARCHIVE := 0x20

  function ArchiveBit(s: Slot): bool { Attributes(s) / FAT_ATTRIBUTE_ARCHIVE % 2 == 1 }

  function LastAccess(s: Slot): nat { Pair(s[18], s[19]) }

  function Modified(s: Slot): FatTime { FatTime(Pair(s[24], s[25]), Pair(s[22], s[23])) }

  /** FAT_DIRECTORY_ENTRY: the first cluster, in two halves, and the size. */
  function ClusterField(s: Slot): nat { Pair(s[26], s[27]) + 0x1_0000 * Pair(s[20], s[21]) }

  function SizeField(s: Slot): nat { Pair(s[28], s[29]) + 0x1_0000 * Pair(s[30], s[31]) }

  function WithArchive(attributes: Byte): (a: Byte)
    ensures a / FAT_ATTRIBUTE_ARCHIVE % 2 == 1 && a / 8 % 2 == attributes / 8 % 2
    ensures attributes / FAT_ATTRIBUTE_ARCHIVE % 2 == 1 ==> a == attributes
  {
    if attributes / FAT_ATTRIBUTE_ARCHIVE % 2 == 1 then attributes
    else
      BitFive(attributes);
      attributes + FAT_ATTRIBUTE_ARCHIVE
  }

  lemma BitFive(b: Byte)
    requires b / FAT_ATTRIBUTE_ARCHIVE % 2 == 0
    ensures b + FAT_ATTRIBUTE_ARCHIVE < 0x100 && (b + FAT_ATTRIBUTE_ARCHIVE) / FAT_ATTRIBUTE_ARCHIVE % 2 == 1
    ensures (b + FAT_ATTRIBUTE_ARCHIVE) / 8 % 2 == b / 8 % 2
  {
    assert (b + FAT_ATTRIBUTE_ARCHIVE) / FAT_ATTRIBUTE_ARCHIVE == b / FAT_ATTRIBUTE_ARCHIVE + 1;
    assert (b + FAT_ATTRIBUTE_ARCHIVE) / 8 == b / 8 + 4;
  }

  predicate ClockRuns(now: FatTime) { now.date < 0x1_0000 && now.time < 0x1_0000 }

  /** The entry of a dirty file when it is written: FatOFileFlush sets the times and the archive attribute. */
  function Stamped(s: Slot, preserve: bool, archive: bool, now: FatTime): Slot
    requires ClockRuns(now)
  {
    var day := [now.date % 0x100, now.date / 0x100];
    var time := if preserve then s[22..26] else [now.time % 0x100, now.time / 0x100] + day;
    s[..11] + [if archive then WithArchive(s[11]) else s[11]] + s[12..18] + day + s[20..22] + time + s[26..]
  }

  /** The fields of a written entry; what names the file and finds it is as it was. */
  lemma StampedFields(s: Slot, preserve: bool, archive: bool, now: FatTime)
    requires ClockRuns(now)
    ensures var t := Stamped(s, preserve, archive, now);
      && LastAccess(t) == now.date && Modified(t) == (if preserve then Modified(s) else now)
      && ArchiveBit(t) == (ArchiveBit(s) || archive)
      && t[..11] == s[..11] && t[12] == s[12] && VolumeIdBit(t) == VolumeIdBit(s)
      && ClusterField(t) == ClusterField(s) && SizeField(t) == SizeField(s)
  {
    var t := Stamped(s, preserve, archive, now);
    assert forall i :: 26 <= i < 32 ==> t[i] == s[i];
  }

  // ---------------------------------------------------------------- several directories

  /** Two directories share no place of the data region. */
  ghost predicate AreApart(v: Volume, x: OFile, px: seq<nat>, y: OFile, py: seq<nat>)
    requires AreaLayout(v)
    reads x, y
  {
    && !(x.isFixedRootDir && y.isFixedRootDir)
    && (x.isFixedRootDir ==> x.fileSize <= AreaOf(v).base) && (y.isFixedRootDir ==> y.fileSize <= AreaOf(v).base)
    && (!x.isFixedRootDir && !y.isFixedRootDir ==> forall c :: c in px ==> c !in py)
  }

  /** The k-th of some directories shares nothing with the others, nor with the chain `rest`. */
  ghost predicate Lone(v: Volume, fs: seq<OFile>, paths: seq<seq<nat>>, rest: seq<nat>, k: nat)
    requires k < |fs| == |paths| && AreaLayout(v)
    reads fs
  {
    && Elsewhere(v, fs[k].isFixedRootDir, fs[k].fileSize, paths[k], rest)
    && forall j :: 0 <= j < |fs| && j != k ==> fs[j] != fs[k] && AreApart(v, fs[k], paths[k], fs[j], paths[j])
  }

  ghost predicate OneDir(v: Volume, fs: seq<OFile>, paths: seq<seq<nat>>, rest: seq<nat>, k: nat)
    requires k < |fs| == |paths|
    reads fs, v, v.CacheRepr(), v.dataCache
  {
    fs[k].volume == v && DirReady(fs[k], paths[k]) && Lone(v, fs, paths, rest, k)
  }

  /** Open directories of a volume that share nothing. */
  ghost predicate DirsReady(v: Volume, fs: seq<OFile>, paths: seq<seq<nat>>, rest: seq<nat>)
    reads fs, v, v.CacheRepr(), v.dataCache
  {
    v.FatValid() && |fs| == |paths| && forall k {:trigger fs[k]} :: 0 <= k < |fs| ==> OneDir(v, fs, paths, rest, k)
  }

  /** The clusters of all the directories but the k-th, and of `rest`. */
  ghost function AllBut(fs: seq<OFile>, paths: seq<seq<nat>>, rest: seq<nat>, k: nat, n: nat): seq<nat>
    requires n <= |fs| == |paths|
  {
    if n == 0 then rest
    else AllBut(fs, paths, rest, k, n - 1) + if n - 1 == k || fs[n - 1].isFixedRootDir then [] else paths[n - 1]
  }

  lemma {:induction false} InAllBut(fs: seq<OFile>, paths: seq<seq<nat>>, rest: seq<nat>, k: nat, n: nat)
    requires n <= |fs| == |paths|
    ensures forall c :: c in AllBut(fs, paths, rest, k, n) <==>
      c in rest || exists j :: 0 <= j < n && j != k && !fs[j].isFixedRootDir && c in paths[j]
  {
    if n > 0 { InAllBut(fs, paths, rest, k, n - 1); }
  }

  /** The bytes of a file beside the one that is written. */
  lemma KeptBeside(v: Volume, written: bool, before: seq<Byte>, after: seq<Byte>, others: seq<nat>, fixed: bool,
                   fileSize: nat, path: seq<nat>)
    requires AreaLayout(v) && |before| == |after| == v.volumeSize - v.rootPos && InArea(AreaOf(v), others)
    requires Others(v, written, before, others) == Others(v, written, after, others)
    requires if fixed then !written && fileSize <= AreaOf(v).base && fileSize <= |before|
      else InArea(AreaOf(v), path) && forall c :: c in path ==> c in others
    ensures Bytes(v, fixed, fileSize, path, before) == Bytes(v, fixed, fileSize, path, after)
  {
    OthersParts(v, written, before, after, others);
    hide Others;
    if fixed {
      SliceOfSlice(before, 0, AreaOf(v).base, 0, fileSize);
      SliceOfSlice(after, 0, AreaOf(v).base, 0, fileSize);
    } else {
      hide FileBytes;
      KeptWithin(AreaOf(v), before, after, others, path);
    }
  }

  ghost function SlotsAt(v: Volume, fs: seq<OFile>, paths: seq<seq<nat>>, rest: seq<nat>, k: nat): seq<Slot>
    requires k < |fs| && DirsReady(v, fs, paths, rest)
    reads fs, v, v.CacheRepr(), v.dataCache
  {
    assert OneDir(v, fs, paths, rest, k);
    SlotsOn(fs[k], paths[k])
  }

  /** The slots of all the directories. */
  ghost function SlotsOfAll(v: Volume, fs: seq<OFile>, paths: seq<seq<nat>>, rest: seq<nat>): (all: seq<seq<Slot>>)
    requires DirsReady(v, fs, paths, rest)
    reads fs, v, v.CacheRepr(), v.dataCache
    ensures |all| == |fs| && forall k :: 0 <= k < |fs| ==> all[k] == SlotsAt(v, fs, paths, rest, k)
  {
    seq(|fs|, k requires 0 <= k < |fs| && DirsReady(v, fs, paths, rest) reads fs, v, v.CacheRepr(), v.dataCache =>
      SlotsAt(v, fs, paths, rest, k))
  }

  /** Everything beside the k-th directory is in one chain that the directory shares no cluster with. */
  lemma OthersElsewhere(v: Volume, fs: seq<OFile>, paths: seq<seq<nat>>, rest: seq<nat>, k: nat)
    requires DirsReady(v, fs, paths, rest) && k < |fs|
    ensures AreaLayout(v) && fs[k].volume == v && DirReady(fs[k], paths[k])
    ensures Elsewhere(v, fs[k].isFixedRootDir, fs[k].fileSize, paths[k], AllBut(fs, paths, rest, k, |fs|))
  {
    hide DirReady;
    assert OneDir(v, fs, paths, rest, k);
    DirArea(fs[k], paths[k]);
    var others := AllBut(fs, paths, rest, k, |fs|);
    InAllBut(fs, paths, rest, k, |fs|);
    forall c | c in others
      ensures 2 <= c <= AreaOf(v).maxCluster + 1 && (!fs[k].isFixedRootDir ==> c !in paths[k])
    {
      if c !in rest {
        var j :| 0 <= j < |fs| && j != k && !fs[j].isFixedRootDir && c in paths[j];
        assert OneDir(v, fs, paths, rest, j);
        DirArea(fs[j], paths[j]);
        assert AreApart(v, fs[k], paths[k], fs[j], paths[j]);
      }
    }
    assert forall i :: 0 <= i < |others| ==> others[i] in others;
    hide AllBut;
  }

  // A directory by the values that it depends on: the state of its file, and the contents of the data region.

  ghost predicate DirState(v: Volume, fixed: bool, s: FileState, contents: seq<Byte>) {
    && AreaLayout(v) && LegalLinks(s.fat) && |contents| == v.volumeSize - v.rootPos && s.fileSize % SLOT_SIZE == 0
    && if fixed then s.fileSize <= |contents|
       else
         && Walk(s.fat, s.place.first, s.path) && InArea(AreaOf(v), s.path) && |s.path| * v.clusterSize == s.fileSize
         && Cursor(v.clusterSize, s.place, s.position, s.path)
  }

  ghost function SlotsIn(v: Volume, fixed: bool, s: FileState, contents: seq<Byte>): seq<Slot>
    requires DirState(v, fixed, s, contents)
  {
    SlotsOf(Bytes(v, fixed, s.fileSize, s.path, contents))
  }

  lemma DirIs(o: OFile, path: seq<nat>)
    ensures var v := o.volume; var s := StateOf(o, path);
      && (DirReady(o, path) <==> v.FatValid() && DirState(v, o.isFixedRootDir, s, v.dataCache.contents))
      && (DirReady(o, path) ==> SlotsOn(o, path) == SlotsIn(v, o.isFixedRootDir, s, v.dataCache.contents))
  {
    hide Volume.FatValid, LegalLinks, Walk, Cursor, FileBytes;
  }

  /** A directory beside the one that is written. */
  lemma StaysReady(v: Volume, written: bool, others: seq<nat>, fixed: bool, s: FileState, before: seq<Byte>,
                   after: seq<Byte>)
    requires DirState(v, fixed, s, before) && |after| == |before| && InArea(AreaOf(v), others)
    requires Others(v, written, before, others) == Others(v, written, after, others)
    requires if fixed then !written && s.fileSize <= AreaOf(v).base else forall c :: c in s.path ==> c in others
    ensures DirState(v, fixed, s, after) && SlotsIn(v, fixed, s, after) == SlotsIn(v, fixed, s, before)
  {
    hide LegalLinks, Walk, Cursor, Others, Bytes;
    KeptBeside(v, written, before, after, others, fixed, s.fileSize, s.path);
  }

  ghost function StatesOf(fs: seq<OFile>, paths: seq<seq<nat>>): (states: seq<FileState>)
    requires |fs| == |paths|
    reads fs, set f | f in fs :: f.volume
    ensures |states| == |fs| && forall j :: 0 <= j < |fs| ==> states[j] == StateOf(fs[j], paths[j])
  {
    seq(|fs|, j requires 0 <= j < |fs| reads fs, set f | f in fs :: f.volume => StateOf(fs[j], paths[j]))
  }

  /** The directories, seen as values. */
  lemma AllStates(v: Volume, fs: seq<OFile>, paths: seq<seq<nat>>, rest: seq<nat>)
    requires DirsReady(v, fs, paths, rest)
    ensures forall j :: 0 <= j < |fs| ==>
      && DirState(v, fs[j].isFixedRootDir, StatesOf(fs, paths)[j], v.dataCache.contents)
      && SlotsAt(v, fs, paths, rest, j) ==
           SlotsIn(v, fs[j].isFixedRootDir, StatesOf(fs, paths)[j], v.dataCache.contents)
  {
    forall j | 0 <= j < |fs|
      ensures DirState(v, fs[j].isFixedRootDir, StatesOf(fs, paths)[j], v.dataCache.contents)
      ensures SlotsAt(v, fs, paths, rest, j) ==
        SlotsIn(v, fs[j].isFixedRootDir, StatesOf(fs, paths)[j], v.dataCache.contents)
    {
      assert OneDir(v, fs, paths, rest, j);
      DirIs(fs[j], paths[j]);
    }
  }

  /** And back: what the states and the contents say of the directories. */
  lemma FromStates(v: Volume, fs: seq<OFile>, paths: seq<seq<nat>>, rest: seq<nat>, slots: seq<seq<Slot>>)
    requires v.FatValid() && |fs| == |paths| == |slots|
    requires forall j :: 0 <= j < |fs| ==>
      && fs[j].volume == v && DirState(v, fs[j].isFixedRootDir, StatesOf(fs, paths)[j], v.dataCache.contents)
      && slots[j] == SlotsIn(v, fs[j].isFixedRootDir, StatesOf(fs, paths)[j], v.dataCache.contents)
      && AreaLayout(v) && Lone(v, fs, paths, rest, j)
    ensures DirsReady(v, fs, paths, rest) && SlotsOfAll(v, fs, paths, rest) == slots
  {
    hide DirReady, SlotsOn, SlotsIn, DirState, Volume.FatValid, Lone;
    forall k | 0 <= k < |fs|
      ensures OneDir(v, fs, paths, rest, k) && slots[k] == SlotsOn(fs[k], paths[k])
    {
      DirIs(fs[k], paths[k]);
    }
  }

  /** One of the other directories, after the k-th was written. */
  lemma OtherStays(v: Volume, fs: seq<OFile>, paths: seq<seq<nat>>, rest: seq<nat>, k: nat, j: nat, others: seq<nat>,
                   states: seq<FileState>, before: seq<Byte>)
    requires j < |fs| == |paths| && k < |fs| && j != k && |states| == |fs| && states[j] == StateOf(fs[j], paths[j])
    requires DirState(v, fs[j].isFixedRootDir, states[j], before) && AreApart(v, fs[k], paths[k], fs[j], paths[j])
    requires fs[j].volume == v && v.FatValid() && |v.dataCache.contents| == |before|
    requires others == AllBut(fs, paths, rest, k, |fs|) && InArea(AreaOf(v), others)
    requires Others(v, fs[k].isFixedRootDir, before, others) ==
      Others(v, fs[k].isFixedRootDir, v.dataCache.contents, others)
    ensures DirReady(fs[j], paths[j])
    ensures SlotsOn(fs[j], paths[j]) == SlotsIn(v, fs[j].isFixedRootDir, states[j], before)
  {
    InAllBut(fs, paths, rest, k, |fs|);
    hide Volume.FatValid, DirState, Others, DirReady, SlotsOn, SlotsIn;
    StaysReady(v, fs[k].isFixedRootDir, others, fs[j].isFixedRootDir, states[j], before, v.dataCache.contents);
    DirIs(fs[j], paths[j]);
  }

  /** The same for all of them; what `rest` holds stays as well. */
  lemma OthersStay(v: Volume, fs: seq<OFile>, paths: seq<seq<nat>>, rest: seq<nat>, k: nat, others: seq<nat>,
                   states: seq<FileState>, before: seq<Byte>)
    requires k < |fs| == |paths| && |states| == |fs| && AreaLayout(v) && |before| == v.volumeSize - v.rootPos
    requires fs[k].volume == v && DirReady(fs[k], paths[k]) && |v.dataCache.contents| == |before|
    requires Elsewhere(v, fs[k].isFixedRootDir, fs[k].fileSize, paths[k], rest)
    requires forall j :: 0 <= j < |fs| && j != k ==>
      && fs[j] != fs[k] && fs[j].volume == v && states[j] == StateOf(fs[j], paths[j])
      && DirState(v, fs[j].isFixedRootDir, states[j], before)
      && Elsewhere(v, fs[j].isFixedRootDir, fs[j].fileSize, paths[j], rest)
      && forall i :: 0 <= i < |fs| && i != j ==> fs[i] != fs[j] && AreApart(v, fs[j], paths[j], fs[i], paths[i])
    requires others == AllBut(fs, paths, rest, k, |fs|) && InArea(AreaOf(v), others)
    requires Others(v, fs[k].isFixedRootDir, before, others) ==
      Others(v, fs[k].isFixedRootDir, v.dataCache.contents, others)
    ensures DirsReady(v, fs, paths, rest)
    ensures forall j :: 0 <= j < |fs| && j != k ==>
      SlotsAt(v, fs, paths, rest, j) == SlotsIn(v, fs[j].isFixedRootDir, states[j], before)
    ensures FileBytes(AreaOf(v), before, rest) == FileBytes(AreaOf(v), v.dataCache.contents, rest)
  {
    hide DirReady, SlotsOn, SlotsIn, DirState, FileBytes, Others;
    InAllBut(fs, paths, rest, k, |fs|);
    ReadyValid(fs[k], paths[k]);
    OthersParts(v, fs[k].isFixedRootDir, before, v.dataCache.contents, others);
    KeptWithin(AreaOf(v), before, v.dataCache.contents, others, rest);
    forall j | 0 <= j < |fs| && j != k
      ensures AreApart(v, fs[k], paths[k], fs[j], paths[j])
      ensures DirReady(fs[j], paths[j])
      ensures SlotsOn(fs[j], paths[j]) == SlotsIn(v, fs[j].isFixedRootDir, states[j], before)
    {
      assert AreApart(v, fs[j], paths[j], fs[k], paths[k]);
      OtherStays(v, fs, paths, rest, k, j, others, states, before);
    }
    hide AllBut, AreApart, Elsewhere;
    forall j | 0 <= j < |fs|
      ensures OneDir(v, fs, paths, rest, j)
    {}
  }

  /** The bytes of the chain `rest`. */
  ghost function RestBytes(v: Volume, contents: seq<Byte>, rest: seq<nat>): seq<Byte> {
    if AreaLayout(v) && FileContents.Fits(AreaOf(v), contents)
      && InArea(AreaOf(v), rest) then FileBytes(AreaOf(v), contents, rest)
    else []
  }

  /** FatStoreDirEnt into one of the directories: the others stay as they are, and so does the chain `rest`. */
  method StoreIn(v: Volume, parent: OFile, pos: nat, count: nat, name: Str, entry: Slot, ghost fs: seq<OFile>,
                 ghost k: nat, ghost paths: seq<seq<nat>>, ghost rest: seq<nat>)
    requires DirsReady(v, fs, paths, rest) && k < |fs| && fs[k] == parent
    requires DirSlots.Fits(SlotsAt(v, fs, paths, rest, k), pos, count)
    modifies v`fatEntryPos, v`diskError, FatRepr(v), v.dataCache, v.dataCache.tags, v.dataCache.pages
    modifies parent`posDisk, parent`posRem, parent`fileCurrentCluster, parent`position, parent`dirty, parent`archive
    ensures DirsReady(v, fs, paths, rest) && parent.dirty && parent.archive
    ensures SlotsOfAll(v, fs, paths, rest) == old(SlotsOfAll(v, fs, paths, rest))
      [k := Stored(old(SlotsAt(v, fs, paths, rest, k)), pos, count, name, entry, false)]
    ensures RestBytes(v, v.dataCache.contents, rest) == old(RestBytes(v, v.dataCache.contents, rest))
  {
    hide DirReady, SlotsOn, SlotsIn, DirState, FileBytes, Others, Stored, AllBut;
    OthersElsewhere(v, fs, paths, rest, k);
    AllStates(v, fs, paths, rest);
    assert OneDir(v, fs, paths, rest, k);
    DirArea(parent, paths[k]);
    AsideOf(parent, paths[k], AllBut(fs, paths, rest, k, |fs|));
    ghost var others, before, states := AllBut(fs, paths, rest, k, |fs|), v.dataCache.contents, StatesOf(fs, paths);
    StoreDirEnt(parent, pos, count, name, entry, false, paths[k], others,
                Others(v, parent.isFixedRootDir, before, others));
    DirArea(parent, paths[k]);
    OthersStay(v, fs, paths, rest, k, others, states, before);
    assert OneDir(v, fs, paths, rest, k);
  }

  // ---------------------------------------------------------------- a path of open files

  /**
   * An open file with its directory entry, whose last slot lies at `pos` in the parent's file; `lasting` says that it
   * has one: it is not the root, nor deleted.
   */
  class Held {
    const file: OFile
    const pos: nat
    const count: nat
    const name: Str
    const lasting: bool
    const failed: bool
    var entry: Slot
    var preserve: bool

    constructor (file: OFile, pos: nat, count: nat, name: Str, lasting: bool, failed: bool, entry: Slot)
      ensures this.file == file && this.pos == pos && this.count == count && this.name == name
      ensures this.lasting == lasting && this.failed == failed && this.entry == entry && !preserve
    {
      this.file, this.pos, this.count, this.name := file, pos, count, name;
      this.lasting, this.failed, this.entry, preserve := lasting, failed, entry, false;
    }

    ghost function Info(): EntryInfo
      reads this, file
    {
      EntryInfo(file.dirty, preserve, file.archive, LastAccess(entry), Modified(entry), ArchiveBit(entry))
    }
  }

  /** The directories of a path: every file's parent. */
  function Dirs(p: seq<Held>): (fs: seq<OFile>)
    requires p != []
    ensures |fs| == |p| - 1 && forall i :: 0 <= i < |fs| ==> fs[i] == p[i + 1].file
  {
    seq(|p| - 1, i requires 0 <= i < |p| - 1 => p[i + 1].file)
  }

  ghost function FilesOf(p: seq<Held>): set<OFile> { set h | h in p :: h.file }

  ghost function InfosOf(p: seq<Held>): (infos: seq<EntryInfo>)
    reads p, FilesOf(p)
    ensures |infos| == |p| && forall i :: 0 <= i < |p| ==> infos[i] == p[i].Info()
  {
    seq(|p|, i requires 0 <= i < |p| reads p, FilesOf(p) => p[i].Info())
  }

  ghost function EntriesOf(p: seq<Held>): (entries: seq<Slot>)
    reads p
    ensures |entries| == |p| && forall i :: 0 <= i < |p| ==> entries[i] == p[i].entry
  {
    seq(|p|, i requires 0 <= i < |p| reads p => p[i].entry)
  }

  ghost function NodesOf(p: seq<Held>): (nodes: seq<Node>)
    reads p, FilesOf(p)
    ensures |nodes| == |p|
    ensures forall i :: 0 <= i < |p| ==> nodes[i] == Node(p[i].Info(), p[i].lasting, p[i].failed)
  {
    seq(|p|, i requires 0 <= i < |p| reads p, FilesOf(p) => Node(p[i].Info(), p[i].lasting, p[i].failed))
  }

  /** Different files, each with its entry inside the file of its parent, up to the root. */
  ghost predicate EntriesFit(p: seq<Held>, slots: seq<seq<Slot>>) {
    && p != [] && |slots| == |p| - 1 && !p[|p| - 1].lasting
    && (forall i, j :: 0 <= i < j < |p| ==> p[i] != p[j] && p[i].file != p[j].file)
    && forall i :: 0 <= i < |p| - 1 && p[i].lasting ==> DirSlots.Fits(slots[i], p[i].pos, p[i].count)
  }

  ghost predicate PathReady(v: Volume, p: seq<Held>, paths: seq<seq<nat>>, rest: seq<nat>)
    reads p, FilesOf(p), v, v.CacheRepr(), v.dataCache
  {
    p != [] && DirsReady(v, Dirs(p), paths, rest) && EntriesFit(p, SlotsOfAll(v, Dirs(p), paths, rest))
  }

  // Paths are built from the root down.

  lemma PathOfRoot(v: Volume, root: Held, rest: seq<nat>)
    requires v.FatValid() && !root.lasting
    ensures PathReady(v, [root], [], rest)
  {
    assert Dirs([root]) == [];
  }

  /** A file whose entry lies in an open directory, and that shares no cluster with the directories above it. */
  lemma PathDown(v: Volume, p: seq<Held>, h: Held, paths: seq<seq<nat>>, dirPath: seq<nat>, path: seq<nat>)
    requires PathReady(v, p, paths, dirPath) && p[0].file.volume == v && DirReady(p[0].file, dirPath)
    requires p[0].file.isFixedRootDir ==> |p| == 1
    requires h.lasting && DirSlots.Fits(SlotsOn(p[0].file, dirPath), h.pos, h.count)
    requires forall i :: 0 <= i < |p| ==> p[i] != h && p[i].file != h.file && (0 < i ==> p[i].file != p[0].file)
    requires AreaLayout(v) && Elsewhere(v, p[0].file.isFixedRootDir, p[0].file.fileSize, dirPath, path)
    requires forall k :: 0 <= k < |paths| ==>
      k + 1 < |p| && Elsewhere(v, p[k + 1].file.isFixedRootDir, p[k + 1].file.fileSize, paths[k], path)
    ensures PathReady(v, [h] + p, [dirPath] + paths, path)
  {
    hide DirReady, SlotsOn, Volume.FatValid;
    var q, fs, qs, all := [h] + p, Dirs(p), Dirs([h] + p), [dirPath] + paths;
    assert qs == [p[0].file] + fs;
    AllLone(v, fs, paths, dirPath);
    forall k | 0 <= k < |qs|
      ensures OneDir(v, qs, all, path, k)
    {
      if k > 0 { assert OneDir(v, fs, paths, dirPath, k - 1); }
      LoneBelow(v, p[0].file, fs, paths, dirPath, path, k);
    }
    assert forall k :: 0 < k < |qs| ==> SlotsAt(v, qs, all, path, k) == SlotsAt(v, fs, paths, dirPath, k - 1);
  }

  lemma LoneBelow(v: Volume, o: OFile, fs: seq<OFile>, paths: seq<seq<nat>>, dirPath: seq<nat>, path: seq<nat>, k: nat)
    requires AreaLayout(v) && |fs| == |paths| && k <= |fs| && (o.isFixedRootDir ==> fs == [])
    requires forall j :: 0 <= j < |fs| ==> fs[j] != o && Lone(v, fs, paths, dirPath, j)
    requires Elsewhere(v, o.isFixedRootDir, o.fileSize, dirPath, path)
    requires forall j :: 0 <= j < |fs| ==> Elsewhere(v, fs[j].isFixedRootDir, fs[j].fileSize, paths[j], path)
    ensures Lone(v, [o] + fs, [dirPath] + paths, path, k)
  {
    var qs, all := [o] + fs, [dirPath] + paths;
    forall j | 0 <= j < |qs| && j != k
      ensures qs[j] != qs[k] && AreApart(v, qs[k], all[k], qs[j], all[j])
    {
      if k > 0 { assert Lone(v, fs, paths, dirPath, k - 1); }
      if j > 0 { assert Lone(v, fs, paths, dirPath, j - 1); }
      if j > 0 && k > 0 { assert fs[j - 1] != fs[k - 1]; }
    }
  }

  // ---------------------------------------------------------------- one step up the path

  function EntryAfter(entry: Slot, e: EntryInfo, now: FatTime): Slot
    requires ClockRuns(now)
  {
    if e.dirty then Stamped(entry, e.preserve, e.archive, now) else entry
  }

  function InfosAfter(infos: seq<EntryInfo>, i: nat, wrote: bool, now: FatTime): seq<EntryInfo>
    requires i < |infos|
  {
    var left := infos[i := if infos[i].dirty then Flushed(infos[i], now) else infos[i]];
    if wrote && i + 1 < |infos| then left[i + 1 := Touched(left[i + 1])] else left
  }

  /** The flags of a file say nothing about the directories' bytes. */
  method SetFlags(v: Volume, f: OFile, dirty: bool, archive: bool, ghost fs: seq<OFile>, ghost paths: seq<seq<nat>>,
                  ghost rest: seq<nat>)
    requires DirsReady(v, fs, paths, rest)
    modifies f`dirty, f`archive
    ensures DirsReady(v, fs, paths, rest) && SlotsOfAll(v, fs, paths, rest) == old(SlotsOfAll(v, fs, paths, rest))
    ensures f.dirty == dirty && f.archive == archive
  {
    hide DirReady, SlotsOn, SlotsIn, DirState, Volume.FatValid, Elsewhere;
    AllStates(v, fs, paths, rest);
    AllLone(v, fs, paths, rest);
    ghost var slots, states, repr := SlotsOfAll(v, fs, paths, rest), StatesOf(fs, paths), v.CacheRepr();
    assert f !in repr;
    f.dirty, f.archive := dirty, archive;
    assert StatesOf(fs, paths) == states;
    FromStates(v, fs, paths, rest, slots);
  }

  lemma AllLone(v: Volume, fs: seq<OFile>, paths: seq<seq<nat>>, rest: seq<nat>)
    requires DirsReady(v, fs, paths, rest)
    ensures v.FatValid()
    ensures forall k :: 0 <= k < |fs| ==> fs[k].volume == v && AreaLayout(v) && Lone(v, fs, paths, rest, k)
  {
    hide Lone;
    forall k | 0 <= k < |fs|
      ensures fs[k].volume == v && AreaLayout(v) && Lone(v, fs, paths, rest, k)
    {
      assert OneDir(v, fs, paths, rest, k);
      DirArea(fs[k], paths[k]);
    }
  }

  /** The fields of a dirty file and of its entry, before the entry is written. */
  method Stamp(v: Volume, h: Held, now: FatTime, ghost p: seq<Held>, ghost paths: seq<seq<nat>>, ghost rest: seq<nat>)
    requires PathReady(v, p, paths, rest) && h in p && ClockRuns(now)
    modifies h`entry, h`preserve, h.file`dirty, h.file`archive
    ensures PathReady(v, p, paths, rest)
    ensures SlotsOfAll(v, Dirs(p), paths, rest) == old(SlotsOfAll(v, Dirs(p), paths, rest))
    ensures h.entry == Stamped(old(h.entry), old(h.preserve), old(h.file.archive), now)
    ensures h.Info() == Flushed(old(h.Info()), now).(dirty := old(h.file.dirty))
  {
    hide DirsReady, SlotsOfAll, Stamped, LastAccess, Modified, ArchiveBit, EntriesFit;
    StampedFields(h.entry, h.preserve, h.file.archive, now);
    ghost var repr := v.CacheRepr();
    assert h !in repr && p[0] in p;
    h.entry := Stamped(h.entry, h.preserve, h.file.archive, now);
    h.preserve := false;
    SetFlags(v, h.file, h.file.dirty, false, Dirs(p), paths, rest);
  }

  lemma StillPlaced(p: seq<Held>, slots: seq<seq<Slot>>, i: nat, s: seq<Slot>)
    requires EntriesFit(p, slots) && i < |slots| && |s| == |slots[i]|
    ensures EntriesFit(p, slots[i := s])
  {}

  lemma PlacedAt(p: seq<Held>, slots: seq<seq<Slot>>, i: nat)
    requires EntriesFit(p, slots) && i < |p| && p[i].lasting
    ensures i + 1 < |p| && DirSlots.Fits(slots[i], p[i].pos, p[i].count)
  {}

  /** The entry of a file is written in its directory. */
  method WriteEntry(v: Volume, h: Held, parent: OFile, ghost i: nat, ghost p: seq<Held>, ghost paths: seq<seq<nat>>,
                    ghost rest: seq<nat>)
    requires PathReady(v, p, paths, rest) && i + 1 < |p| && p[i] == h && p[i + 1].file == parent && h.lasting
    modifies v`fatEntryPos, v`diskError, FatRepr(v), v.dataCache, v.dataCache.tags, v.dataCache.pages
    modifies parent`posDisk, parent`posRem, parent`fileCurrentCluster, parent`position, parent`dirty, parent`archive
    ensures PathReady(v, p, paths, rest) && parent.dirty && parent.archive
    ensures var before := old(SlotsOfAll(v, Dirs(p), paths, rest));
      && DirSlots.Fits(before[i], h.pos, h.count)
      && SlotsOfAll(v, Dirs(p), paths, rest) == before[i := Stored(before[i], h.pos, h.count, h.name, h.entry, false)]
    ensures RestBytes(v, v.dataCache.contents, rest) == old(RestBytes(v, v.dataCache.contents, rest))
  {
    hide DirsReady, SlotsAt, Stored, RestBytes, EntriesFit;
    PlacedAt(p, SlotsOfAll(v, Dirs(p), paths, rest), i);
    ghost var before := SlotsOfAll(v, Dirs(p), paths, rest);
    StoreIn(v, parent, h.pos, h.count, h.name, h.entry, Dirs(p), i, paths, rest);
    StillPlaced(p, before, i, Stored(before[i], h.pos, h.count, h.name, h.entry, false));
  }

  lemma DifferentFiles(p: seq<Held>, slots: seq<seq<Slot>>)
    requires EntriesFit(p, slots)
    ensures forall i, j :: 0 <= i < j < |p| ==> p[i] != p[j] && p[i].file != p[j].file
  {}

  /** The slots after the entry of file `i` is written, if it is. */
  ghost function SlotsAfter(slots: seq<seq<Slot>>, i: nat, wrote: bool, pos: nat, count: nat, name: Str, entry: Slot)
    : seq<seq<Slot>>
  {
    if wrote && i < |slots| && DirSlots.Fits(slots[i], pos, count)
    then slots[i := Stored(slots[i], pos, count, name, entry, false)] else slots
  }

  /** A dirty file is stamped, and its entry written, which makes its directory dirty. */
  method FlushDirty(v: Volume, h: Held, parent: OFile?, now: FatTime, ghost i: nat, ghost p: seq<Held>,
                    ghost paths: seq<seq<nat>>, ghost rest: seq<nat>)
    requires PathReady(v, p, paths, rest) && i < |p| && p[i] == h && h.file.dirty && ClockRuns(now)
    requires if h.lasting then i + 1 < |p| && parent == p[i + 1].file else parent == null
    modifies v`fatEntryPos, v`diskError, FatRepr(v), v.dataCache, v.dataCache.tags, v.dataCache.pages
    modifies h`entry, h`preserve, FilesOf(p)`posDisk, FilesOf(p)`posRem, FilesOf(p)`fileCurrentCluster
    modifies FilesOf(p)`position, FilesOf(p)`dirty, FilesOf(p)`archive
    ensures PathReady(v, p, paths, rest)
    ensures h.Info() == Flushed(old(h.Info()), now)
    ensures h.entry == EntryAfter(old(h.entry), old(h.Info()), now)
    ensures h.lasting ==> p[i + 1].Info() == Touched(old(p[i + 1].Info()))
    ensures forall j :: 0 <= j < |p| && j != i && !(h.lasting && j == i + 1) ==> p[j].Info() == old(p[j].Info())
    ensures SlotsOfAll(v, Dirs(p), paths, rest) ==
      SlotsAfter(old(SlotsOfAll(v, Dirs(p), paths, rest)), i, h.lasting, h.pos, h.count, h.name, h.entry)
    ensures RestBytes(v, v.dataCache.contents, rest) == old(RestBytes(v, v.dataCache.contents, rest))
  {
    hide DirsReady, SlotsAt, Stamped, Stored, RestBytes, EntriesFit, LastAccess, Modified, ArchiveBit;
    DifferentFiles(p, SlotsOfAll(v, Dirs(p), paths, rest));
    Stamp(v, h, now, p, paths, rest);
    if parent != null {
      WriteEntry(v, h, parent, i, p, paths, rest);
    }
    SetFlags(v, h.file, false, h.file.archive, Dirs(p), paths, rest);
  }

  // ---------------------------------------------------------------- the whole flush

  function InfoUpTo(nodes: seq<Node>, j: nat, n: nat, now: FatTime): EntryInfo
    requires j < |nodes|
  {
    if j < n then Left(nodes, j, now) else if j == n then Before(nodes, j) else nodes[j].info
  }

  function EntryUpTo(nodes: seq<Node>, entry: Slot, j: nat, n: nat, now: FatTime): Slot
    requires j < |nodes| && ClockRuns(now)
  {
    if j < n then EntryAfter(entry, Before(nodes, j), now) else entry
  }

  /** The slots of the j-th directory, when the flush has come to file `n`. */
  ghost function SlotsUpTo(h: Held, nodes: seq<Node>, entry: Slot, slots: seq<Slot>, j: nat, n: nat, now: FatTime)
    : seq<Slot>
    requires j < |nodes| && ClockRuns(now)
  {
    if j < n && Writes(nodes, j) && DirSlots.Fits(slots, h.pos, h.count)
    then Stored(slots, h.pos, h.count, h.name, EntryUpTo(nodes, entry, j, n, now), false) else slots
  }

  /** The path when the flush has come to file `n`. */
  ghost predicate UpTo(p: seq<Held>, nodes: seq<Node>, entries0: seq<Slot>, slots0: seq<seq<Slot>>, n: nat,
                       now: FatTime,
                       infos: seq<EntryInfo>, entries: seq<Slot>, slots: seq<seq<Slot>>)
    requires |nodes| == |p| == |entries0| == |slots0| + 1 && ClockRuns(now)
  {
    && |infos| == |p| == |entries| == |slots| + 1
    && (forall j :: 0 <= j < |p| ==> infos[j] == InfoUpTo(nodes, j, n, now))
    && (forall j :: 0 <= j < |p| ==> entries[j] == EntryUpTo(nodes, entries0[j], j, n, now))
    && (forall j :: 0 <= j < |slots| ==> slots[j] == SlotsUpTo(p[j], nodes, entries0[j], slots0[j], j, n, now))
  }

  /** One more file, from what a turn of the loop does. */
  lemma {:induction false} UpToNext(p: seq<Held>, nodes: seq<Node>, entries0: seq<Slot>, slots0: seq<seq<Slot>>,
                                    n: nat, now: FatTime,
                 infos: seq<EntryInfo>, entries: seq<Slot>, slots: seq<seq<Slot>>,
                 infos': seq<EntryInfo>, entries': seq<Slot>, slots': seq<seq<Slot>>)
    requires |nodes| == |p| == |entries0| == |slots0| + 1 && ClockRuns(now) && n < |p|
    requires UpTo(p, nodes, entries0, slots0, n, now, infos, entries, slots)
    requires p[n].lasting == nodes[n].lasting && (p[n].lasting ==> n + 1 < |p|)
    requires |infos'| == |entries'| == |p|
    requires var e := infos[n]; var wrote := e.dirty && p[n].lasting;
      && infos'[n] == (if e.dirty then Flushed(e, now) else e) && (wrote ==> infos'[n + 1] == Touched(infos[n + 1]))
      && (forall j :: 0 <= j < |p| && j != n && !(wrote && j == n + 1) ==> infos'[j] == infos[j])
      && entries'[n] == EntryAfter(entries[n], e, now)
      && (forall j :: 0 <= j < |p| && j != n ==> entries'[j] == entries[j])
      && slots' == SlotsAfter(slots, n, wrote, p[n].pos, p[n].count, p[n].name, entries'[n])
    ensures UpTo(p, nodes, entries0, slots0, n + 1, now, infos', entries', slots')
  {
    hide Stored, Stamped, Flushed, DirSlots.Fits;
    assert Writes(nodes, n) <==> infos[n].dirty && p[n].lasting;
    forall j | 0 <= j < |p|
      ensures infos'[j] == InfoUpTo(nodes, j, n + 1, now)
    {}
  }

  lemma LastingFits(p: seq<Held>, slots: seq<seq<Slot>>)
    requires EntriesFit(p, slots)
    ensures forall i :: 0 <= i < |p| && p[i].lasting ==> i + 1 < |p|
  {}

  /** What a turn of the loop does to the path. */
  method FlushLevel(v: Volume, p: seq<Held>, n: nat, now: FatTime, ghost paths: seq<seq<nat>>, ghost rest: seq<nat>)
    requires PathReady(v, p, paths, rest) && n < |p| && ClockRuns(now)
    modifies v`fatEntryPos, v`diskError, FatRepr(v), v.dataCache, v.dataCache.tags, v.dataCache.pages
    modifies p`entry, p`preserve, FilesOf(p)`posDisk, FilesOf(p)`posRem, FilesOf(p)`fileCurrentCluster
    modifies FilesOf(p)`position, FilesOf(p)`dirty, FilesOf(p)`archive
    ensures PathReady(v, p, paths, rest) && (p[n].lasting ==> n + 1 < |p|)
    ensures var e := old(p[n].Info()); var wrote := e.dirty && p[n].lasting;
      && p[n].Info() == (if e.dirty then Flushed(e, now) else e) && p[n].entry == EntryAfter(old(p[n].entry), e, now)
      && (wrote ==> p[n + 1].Info() == Touched(old(p[n + 1].Info())))
      && (forall j :: 0 <= j < |p| && j != n && !(wrote && j == n + 1) ==> p[j].Info() == old(p[j].Info()))
      && (forall j :: 0 <= j < |p| && j != n ==> p[j].entry == old(p[j].entry))
      && DirSlotsOf(v, p, paths, rest) ==
           SlotsAfter(old(DirSlotsOf(v, p, paths, rest)), n, wrote, p[n].pos, p[n].count, p[n].name, p[n].entry)
    ensures RestBytes(v, v.dataCache.contents, rest) == old(RestBytes(v, v.dataCache.contents, rest))
  {
    hide DirsReady, SlotsAt, Stamped, Stored, RestBytes, EntriesFit, LastAccess, Modified, ArchiveBit, Held.Info;
    LastingFits(p, SlotsOfAll(v, Dirs(p), paths, rest));
    DifferentFiles(p, SlotsOfAll(v, Dirs(p), paths, rest));
    InfoDirty(p[n]);
    if p[n].file.dirty {
      FlushDirty(v, p[n], if p[n].lasting then p[n + 1].file else null, now, n, p, paths, rest);
    }
  }

  /** One turn of the loop. */
  method FlushTurn(v: Volume, p: seq<Held>, n: nat, now: FatTime, ghost paths: seq<seq<nat>>, ghost rest: seq<nat>,
                   ghost nodes: seq<Node>, ghost entries0: seq<Slot>, ghost slots0: seq<seq<Slot>>)
    requires PathReady(v, p, paths, rest) && n < |p| && ClockRuns(now)
    requires |nodes| == |p| == |entries0| == |slots0| + 1 && nodes[n].lasting == p[n].lasting
    requires UpTo(p, nodes, entries0, slots0, n, now, InfosOf(p), EntriesOf(p), DirSlotsOf(v, p, paths, rest))
    modifies v`fatEntryPos, v`diskError, FatRepr(v), v.dataCache, v.dataCache.tags, v.dataCache.pages
    modifies p`entry, p`preserve, FilesOf(p)`posDisk, FilesOf(p)`posRem, FilesOf(p)`fileCurrentCluster
    modifies FilesOf(p)`position, FilesOf(p)`dirty, FilesOf(p)`archive
    ensures PathReady(v, p, paths, rest)
    ensures UpTo(p, nodes, entries0, slots0, n + 1, now, InfosOf(p), EntriesOf(p), DirSlotsOf(v, p, paths, rest))
    ensures RestBytes(v, v.dataCache.contents, rest) == old(RestBytes(v, v.dataCache.contents, rest))
  {
    hide PathReady, SlotsAfter, DirSlotsOf, EntryAfter, RestBytes, UpTo, Held.Info, Flushed, Touched;
    ghost var infos, entries, slots := InfosOf(p), EntriesOf(p), DirSlotsOf(v, p, paths, rest);
    FlushLevel(v, p, n, now, paths, rest);
    UpToNext(p, nodes, entries0, slots0, n, now, infos, entries, slots,
             InfosOf(p), EntriesOf(p), DirSlotsOf(v, p, paths, rest));
  }

  lemma InfoDirty(h: Held)
    ensures h.Info().dirty == h.file.dirty
  {}

  /**
   * The path after a flush: the flags and the fields that flushing sets are those of FlushPath, and in each directory
   * exactly the entry that is to be written is stored, as it then is.
   */
  ghost predicate Flushes(p: seq<Held>, nodes: seq<Node>, entries0: seq<Slot>, slots0: seq<seq<Slot>>, now: FatTime,
                          infos: seq<EntryInfo>, entries: seq<Slot>, slots: seq<seq<Slot>>)
    requires |nodes| == |p| == |entries0| == |slots0| + 1 && ClockRuns(now)
  {
    var n := Reach(nodes);
    && |infos| == |p| == |entries| == |slots| + 1
    && (forall j :: 0 <= j < |p| ==> infos[j] == After(nodes, j, now))
    && (forall j :: 0 <= j < |p| ==> entries[j] == EntryUpTo(nodes, entries0[j], j, n, now))
    && (forall j :: 0 <= j < |slots| ==> slots[j] == SlotsUpTo(p[j], nodes, entries0[j], slots0[j], j, n, now))
  }

  /**
   * FatOFileFlush on the disk.  The chain `rest` keeps its bytes.
   */
  method FatOFileFlush(v: Volume, p: seq<Held>, now: FatTime, ghost paths: seq<seq<nat>>, ghost rest: seq<nat>)
    returns (ok: bool)
    requires PathReady(v, p, paths, rest) && ClockRuns(now)
    modifies v`fatEntryPos, v`diskError, FatRepr(v), v.dataCache, v.dataCache.tags, v.dataCache.pages
    modifies p`entry, p`preserve, FilesOf(p)`posDisk, FilesOf(p)`posRem, FilesOf(p)`fileCurrentCluster
    modifies FilesOf(p)`position, FilesOf(p)`dirty, FilesOf(p)`archive
    ensures PathReady(v, p, paths, rest) && (ok <==> forall h :: h in p ==> !h.failed)
    ensures Flushes(p, old(NodesOf(p)), old(EntriesOf(p)), old(DirSlotsOf(v, p, paths, rest)), now,
                    InfosOf(p), EntriesOf(p), DirSlotsOf(v, p, paths, rest))
    ensures RestBytes(v, v.dataCache.contents, rest) == old(RestBytes(v, v.dataCache.contents, rest))
  {
    hide DirSlotsOf, RestBytes, EntriesFit, UpTo, Held.Info, PathReady, Flushes, Reach;
    ghost var nodes, entries0, slots0 := NodesOf(p), EntriesOf(p), DirSlotsOf(v, p, paths, rest);
    UpToFirst(v, p, paths, rest, now);
    var n := 0;
    while n < |p|
      invariant n <= Reach(nodes) && PathReady(v, p, paths, rest)
      invariant UpTo(p, nodes, entries0, slots0, n, now, InfosOf(p), EntriesOf(p), DirSlotsOf(v, p, paths, rest))
      invariant RestBytes(v, v.dataCache.contents, rest) == old(RestBytes(v, v.dataCache.contents, rest))
    {
      assert nodes[n].failed == p[n].failed;
      if p[n].failed {
        break;
      }
      assert n < Reach(nodes);
      FlushTurn(v, p, n, now, paths, rest, nodes, entries0, slots0);
      n := n + 1;
    }
    ok := n == |p|;
    ReachesAll(p, nodes);
    UpToLast(p, nodes, entries0, slots0, n, now, InfosOf(p), EntriesOf(p), DirSlotsOf(v, p, paths, rest));
  }

  lemma ReachesAll(p: seq<Held>, nodes: seq<Node>)
    requires |nodes| == |p| && forall i :: 0 <= i < |p| ==> nodes[i].failed == p[i].failed
    ensures Reach(nodes) == |p| <==> forall h :: h in p ==> !h.failed
  {
    hide Reach;
    if Reach(nodes) < |p| { assert p[Reach(nodes)] in p; }
  }

  ghost function DirSlotsOf(v: Volume, p: seq<Held>, paths: seq<seq<nat>>, rest: seq<nat>): (slots: seq<seq<Slot>>)
    requires PathReady(v, p, paths, rest)
    reads p, FilesOf(p), v, v.CacheRepr(), v.dataCache
    ensures |slots| == |p| - 1
  {
    SlotsOfAll(v, Dirs(p), paths, rest)
  }

  lemma UpToFirst(v: Volume, p: seq<Held>, paths: seq<seq<nat>>, rest: seq<nat>, now: FatTime)
    requires PathReady(v, p, paths, rest) && ClockRuns(now)
    ensures UpTo(p, NodesOf(p), EntriesOf(p), DirSlotsOf(v, p, paths, rest), 0, now, InfosOf(p), EntriesOf(p),
                 DirSlotsOf(v, p, paths, rest))
  {}

  lemma {:induction false} UpToLast(p: seq<Held>, nodes: seq<Node>, entries0: seq<Slot>, slots0: seq<seq<Slot>>, n: nat,
                                    now: FatTime, infos: seq<EntryInfo>, entries: seq<Slot>, slots: seq<seq<Slot>>)
    requires |nodes| == |p| == |entries0| == |slots0| + 1 && ClockRuns(now) && n == Reach(nodes)
    requires UpTo(p, nodes, entries0, slots0, n, now, infos, entries, slots)
    ensures Flushes(p, nodes, entries0, slots0, now, infos, entries, slots)
  {}
}
