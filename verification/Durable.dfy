/**
 * What was flushed is there when the volume is mounted again: a file is flushed with its directories, the volume is
 * cleaned up, and the driver, started anew on the same disk, opens the same path (Flush.c: FatFlushEx;
 * DirectoryManage.c: FatOpenDirEnt; FileSpace.c: FatPhysicalDirSize).
 */
module Durable {
  import opened FatTypes
  import opened FatEntry
  import opened VolumeState
  import opened FatTable
  import opened FreeSpace
  import opened Chains
  import opened FileSpace
  import opened FileContents
  import opened FileIo
  import opened FileRuns
  import opened ShortName
  import opened DirSlots
  import opened DirScan
  import opened DirStore
  import opened DirOnDisk
  import opened FlushPath
  import opened FlushOnDisk
  import opened Cleanup

  // ---------------------------------------------------------------- what a flush leaves in the directories

  /** The entry that a file has in memory is on the disk, unless the file is dirty. */
  ghost predicate InStep(p: seq<Held>, infos: seq<EntryInfo>, entries: seq<Slot>, slots: seq<seq<Slot>>)
    requires |p| == |infos| == |entries| == |slots| + 1
  {
    forall i :: 0 <= i < |slots| && p[i].lasting ==> infos[i].dirty || DirSlots.At(slots[i], p[i].pos) == entries[i]
  }

  lemma StoredThere(slots: seq<Slot>, pos: nat, count: nat, name: Str, entry: Slot)
    requires DirSlots.Fits(slots, pos, count)
    ensures DirSlots.At(Stored(slots, pos, count, name, entry, false), pos) == entry
  {
    StoredSlots(slots, pos, count, name, entry, false);
  }

  /** After a flush that meets no error, every entry is on the disk as it is in memory. */
  lemma FlushedEntry(h: Held, nodes: seq<Node>, entry: Slot, slots: seq<Slot>, i: nat, now: FatTime)
    requires i < |nodes| && ClockRuns(now) && h.lasting && nodes[i].lasting && DirSlots.Fits(slots, h.pos, h.count)
    requires nodes[i].info.dirty || DirSlots.At(slots, h.pos) == entry
    ensures DirSlots.At(SlotsUpTo(h, nodes, entry, slots, i, |nodes|, now), h.pos) ==
      EntryUpTo(nodes, entry, i, |nodes|, now)
  {
    hide Stored, Stamped, DirSlots.Fits;
    StoredThere(slots, h.pos, h.count, h.name, EntryUpTo(nodes, entry, i, |nodes|, now));
  }

  /** What names a file and finds it stays as it is in its entry. */
  lemma SameNameAndPlace(nodes: seq<Node>, entry: Slot, i: nat, n: nat, now: FatTime)
    requires i < |nodes| && ClockRuns(now)
    ensures var e := EntryUpTo(nodes, entry, i, n, now);
      && e[..11] == entry[..11] && e[12] == entry[12] && (Listed(e) <==> Listed(entry))
      && ClusterField(e) == ClusterField(entry) && SizeField(e) == SizeField(entry)
  {
    var b := Before(nodes, i);
    StampedFields(entry, b.preserve, b.archive, now);
    hide Stamped, ClusterField, SizeField, VolumeIdBit, Before;
    assert entry[0] == entry[..11][0];
    assert Stamped(entry, b.preserve, b.archive, now)[0] == Stamped(entry, b.preserve, b.archive, now)[..11][0];
  }

  /** The listing of a directory is the same before and after the entry of one of its files was written by a flush. */
  lemma FlushKeepsListing(h: Held, nodes: seq<Node>, entry: Slot, slots: seq<Slot>, i: nat, n: nat, now: FatTime,
                          k: nat)
    requires i < |nodes| && ClockRuns(now) && k < |Listing(slots)| && Listed(entry)
    requires var r := Listing(slots)[k];
      && r.pos == h.pos && r.count == h.count && r.name == h.name
      && entry[..11] == DirSlots.At(slots, h.pos)[..11] && entry[12] == DirSlots.At(slots, h.pos)[12]
    ensures Listing(SlotsUpTo(h, nodes, entry, slots, i, n, now)) == Listing(slots)
    ensures OrphanFree(slots) ==> OrphanFree(SlotsUpTo(h, nodes, entry, slots, i, n, now))
  {
    SameNameAndPlace(nodes, entry, i, n, now);
    hide Stored, Listing, OrphanFree, EntryUpTo, DirSlots.Fits, Listed;
    RestoredDirectory(slots, k, EntryUpTo(nodes, entry, i, n, now));
  }

  // ---------------------------------------------------------------- flushing a file

  ghost function ClustersOf(p: seq<Held>): (clusters: seq<nat>)
    reads FilesOf(p)`fileCluster
    ensures |clusters| == |p| && forall i :: 0 <= i < |p| ==> clusters[i] == p[i].file.fileCluster
  {
    if p == [] then [] else [p[0].file.fileCluster] + ClustersOf(p[1..])
  }

  /** Where the files lie: the FAT, the first clusters of the files, and the size of the one at the end of the path. */
  datatype Places = Places(fat: map<nat, nat>, clusters: seq<nat>, size: nat)

  ghost function Whereabouts(v: Volume, p: seq<Held>): Places
    reads v, FilesOf(p)
  {
    Places(v.fat, ClustersOf(p), if p == [] then 0 else p[0].file.fileSize)
  }

  /** FatCleanupVolume writes the caches back; the directories are as they were. */
  method CleanUp(v: Volume, ghost p: seq<Held>, ghost paths: seq<seq<nat>>, ghost rest: seq<nat>)
    requires PathReady(v, p, paths, rest) && v.FatValid()
    modifies v`diskError, v`fatDirty, v.disk, v.fatCache, v.fatCache.tags, v.fatCache.pages
    modifies v.dataCache`dirty, v.dataCache.tags
    ensures PathReady(v, p, paths, rest) && v.FatValid() && v.Layout() && v.FatLayout()
    ensures v.dataCache.contents == old(v.dataCache.contents)
    ensures DirSlotsOf(v, p, paths, rest) == old(DirSlotsOf(v, p, paths, rest))
    ensures Whereabouts(v, p) == old(Whereabouts(v, p))
    ensures v.fatType != Fat12 ==> !v.fatDirty
    ensures HeldBy(v, v.disk[..], v.fatCache.contents, v.notDirtyValue, v.dataCache.contents)
  {
    hide DirReady, SlotsOn, SlotsIn, DirState, Volume.FatValid, Volume.FatLayout, HeldBy, Lone, EntriesFit,
      DiskCache.Clean;
    ghost var fs := Dirs(p);
    AllStates(v, fs, paths, rest);
    AllLone(v, fs, paths, rest);
    ghost var slots, states := SlotsOfAll(v, fs, paths, rest), StatesOf(fs, paths);
    ghost var clusters := ClustersOf(p);
    FatCleanupVolume(v);
    SameClusters(p, clusters);
    assert StatesOf(fs, paths) == states;
    FromStates(v, fs, paths, rest, slots);
  }

  lemma PathValid(v: Volume, p: seq<Held>, paths: seq<seq<nat>>, rest: seq<nat>)
    requires PathReady(v, p, paths, rest)
    ensures v.FatValid() && EntriesFit(p, DirSlotsOf(v, p, paths, rest)) && p != [] && |paths| == |p| - 1
  {}

  /** All the entries of a path without errors, after the flush. */
  lemma {:induction false} FlushedEntries(p: seq<Held>, nodes: seq<Node>, entries0: seq<Slot>, slots0: seq<seq<Slot>>,
                                          now: FatTime, entries: seq<Slot>, slots: seq<seq<Slot>>)
    requires |p| == |nodes| == |entries0| == |slots0| + 1 && |entries| == |p| == |slots| + 1 && ClockRuns(now)
    requires EntriesFit(p, slots0) && (forall i :: 0 <= i < |p| ==> nodes[i].lasting == p[i].lasting)
    requires forall i :: 0 <= i < |slots| && p[i].lasting ==>
      nodes[i].info.dirty || DirSlots.At(slots0[i], p[i].pos) == entries0[i]
    requires forall i :: 0 <= i < |p| ==> entries[i] == EntryUpTo(nodes, entries0[i], i, |p|, now)
    requires forall i :: 0 <= i < |slots| ==> slots[i] == SlotsUpTo(p[i], nodes, entries0[i], slots0[i], i, |p|, now)
    ensures forall i :: 0 <= i < |slots| && p[i].lasting ==> DirSlots.At(slots[i], p[i].pos) == entries[i]
  {
    hide EntryUpTo, SlotsUpTo, DirSlots.At, DirSlots.Fits;
    forall i | 0 <= i < |slots| && p[i].lasting
      ensures DirSlots.At(slots[i], p[i].pos) == entries[i]
    {
      FlushedEntry(p[i], nodes, entries0[i], slots0[i], i, now);
    }
  }

  /** The entries on the disk are those in memory. */
  ghost predicate AllStored(p: seq<Held>, entries: seq<Slot>, slots: seq<seq<Slot>>)
    requires |p| == |entries| == |slots| + 1
  {
    forall i :: 0 <= i < |slots| && p[i].lasting ==> DirSlots.At(slots[i], p[i].pos) == entries[i]
  }

  /** What finds the files is the same in two lists of entries. */
  ghost predicate SamePlaces(entries: seq<Slot>, entries': seq<Slot>) {
    && |entries| == |entries'|
    && forall i :: 0 <= i < |entries| ==>
      ClusterField(entries'[i]) == ClusterField(entries[i]) && SizeField(entries'[i]) == SizeField(entries[i])
  }

  /** What a flush leaves of the entries. */
  lemma {:induction false} EntriesAfter(p: seq<Held>, nodes: seq<Node>, entries0: seq<Slot>, slots0: seq<seq<Slot>>,
                                        now: FatTime, infos: seq<EntryInfo>, entries: seq<Slot>, slots: seq<seq<Slot>>)
    requires |p| == |nodes| == |entries0| == |slots0| + 1 && ClockRuns(now)
    requires Flushes(p, nodes, entries0, slots0, now, infos, entries, slots) && EntriesFit(p, slots0)
    requires forall i :: 0 <= i < |p| ==> nodes[i].lasting == p[i].lasting && nodes[i].failed == p[i].failed
    requires forall i :: 0 <= i < |slots0| && p[i].lasting ==>
      nodes[i].info.dirty || DirSlots.At(slots0[i], p[i].pos) == entries0[i]
    ensures |p| == |entries| == |slots| + 1 && SamePlaces(entries0, entries)
    ensures (forall h :: h in p ==> !h.failed) ==> AllStored(p, entries, slots)
  {
    hide EntryUpTo, SlotsUpTo, After, ClusterField, SizeField, EntriesFit, DirSlots.At;
    if forall h :: h in p ==> !h.failed {
      ReachesAll(p, nodes);
      FlushedEntries(p, nodes, entries0, slots0, now, entries, slots);
    }
    forall i | 0 <= i < |p|
      ensures ClusterField(entries[i]) == ClusterField(entries0[i]) && SizeField(entries[i]) == SizeField(entries0[i])
    {
      SameNameAndPlace(nodes, entries0[i], i, Reach(nodes), now);
    }
  }

  /** What an access to the data region writes, besides the fields of the volume and of the files. */
  ghost function AccessRepr(v: Volume): set<object>
    reads v
  {
    FatRepr(v) + {v.dataCache, v.dataCache.tags, v.dataCache.pages}
  }

  lemma FilesOutside(v: Volume, p: seq<Held>)
    ensures v !in AccessRepr(v) && (forall i :: 0 <= i < |p| ==> p[i].file !in AccessRepr(v))
  {}

  /** FatOFileFlush moves no file. */
  method FlushInPlace(v: Volume, p: seq<Held>, now: FatTime, ghost paths: seq<seq<nat>>, ghost rest: seq<nat>)
    returns (ok: bool)
    requires PathReady(v, p, paths, rest) && ClockRuns(now)
    modifies v`fatEntryPos, v`diskError, AccessRepr(v)
    modifies p`entry, p`preserve, FilesOf(p)`posDisk, FilesOf(p)`posRem, FilesOf(p)`fileCurrentCluster
    modifies FilesOf(p)`position, FilesOf(p)`dirty, FilesOf(p)`archive
    ensures PathReady(v, p, paths, rest) && (ok <==> forall h :: h in p ==> !h.failed)
    ensures Whereabouts(v, p) == old(Whereabouts(v, p))
    ensures Flushes(p, old(NodesOf(p)), old(EntriesOf(p)), old(DirSlotsOf(v, p, paths, rest)), now,
                    InfosOf(p), EntriesOf(p), DirSlotsOf(v, p, paths, rest))
    ensures RestBytes(v, v.dataCache.contents, rest) == old(RestBytes(v, v.dataCache.contents, rest))
  {
    hide DirSlotsOf, RestBytes, PathReady, Flushes, FilesOf, FatRepr, NodesOf, EntriesOf, InfosOf;
    FilesOutside(v, p);
    ghost var clusters := ClustersOf(p);
    ok := FatOFileFlush(v, p, now, paths, rest);
    SameClusters(p, clusters);
  }

  method FlushThePath(v: Volume, p: seq<Held>, now: FatTime, ghost paths: seq<seq<nat>>, ghost rest: seq<nat>)
    returns (ok: bool)
    requires PathReady(v, p, paths, rest) && ClockRuns(now)
    requires InStep(p, InfosOf(p), EntriesOf(p), DirSlotsOf(v, p, paths, rest))
    modifies v`fatEntryPos, v`diskError, FatRepr(v), v.dataCache, v.dataCache.tags, v.dataCache.pages
    modifies p`entry, p`preserve, FilesOf(p)`posDisk, FilesOf(p)`posRem, FilesOf(p)`fileCurrentCluster
    modifies FilesOf(p)`position, FilesOf(p)`dirty, FilesOf(p)`archive
    ensures PathReady(v, p, paths, rest) && v.FatValid() && (ok <==> forall h :: h in p ==> !h.failed)
    ensures Whereabouts(v, p) == old(Whereabouts(v, p))
    ensures ok ==> AllStored(p, EntriesOf(p), DirSlotsOf(v, p, paths, rest))
    ensures SamePlaces(old(EntriesOf(p)), EntriesOf(p))
    ensures RestBytes(v, v.dataCache.contents, rest) == old(RestBytes(v, v.dataCache.contents, rest))
  {
    hide DirSlotsOf, RestBytes, PathReady, Flushes, AllStored, SamePlaces, Volume.FatValid, EntriesFit, DirSlots.At,
      Held.Info, FilesOf, FatRepr, Whereabouts;
    ghost var nodes, entries, slots := NodesOf(p), EntriesOf(p), DirSlotsOf(v, p, paths, rest);
    PathValid(v, p, paths, rest);
    ok := FlushInPlace(v, p, now, paths, rest);
    PathValid(v, p, paths, rest);
    EntriesAfter(p, nodes, entries, slots, now, InfosOf(p), EntriesOf(p), DirSlotsOf(v, p, paths, rest));
  }

  lemma SameClusters(p: seq<Held>, clusters: seq<nat>)
    requires |clusters| == |p| && forall i :: 0 <= i < |p| ==> p[i].file.fileCluster == clusters[i]
    ensures ClustersOf(p) == clusters
  {}

  /**
   * FatFlushEx without a token: the path is flushed and the volume is cleaned up.  If no file of the path has an
   * error, every entry on the disk is then the one in memory.
   */
  method FatFlush(v: Volume, p: seq<Held>, now: FatTime, ghost paths: seq<seq<nat>>, ghost rest: seq<nat>)
    returns (ok: bool)
    requires PathReady(v, p, paths, rest) && ClockRuns(now)
    requires InStep(p, InfosOf(p), EntriesOf(p), DirSlotsOf(v, p, paths, rest))
    modifies v`fatEntryPos, v`diskError, v`fatDirty, FatRepr(v), v.dataCache, v.dataCache.tags, v.dataCache.pages
    modifies p`entry, p`preserve, FilesOf(p)`posDisk, FilesOf(p)`posRem, FilesOf(p)`fileCurrentCluster
    modifies FilesOf(p)`position, FilesOf(p)`dirty, FilesOf(p)`archive
    ensures PathReady(v, p, paths, rest) && v.FatValid() && v.Layout() && v.FatLayout()
    ensures ok <==> forall h :: h in p ==> !h.failed
    ensures ok ==> AllStored(p, EntriesOf(p), DirSlotsOf(v, p, paths, rest))
    ensures SamePlaces(old(EntriesOf(p)), EntriesOf(p))
    ensures RestBytes(v, v.dataCache.contents, rest) == old(RestBytes(v, v.dataCache.contents, rest))
    ensures Whereabouts(v, p) == old(Whereabouts(v, p))
    ensures HeldBy(v, v.disk[..], v.fatCache.contents, v.notDirtyValue, v.dataCache.contents)
  {
    hide RestBytes, PathReady, HeldBy, Volume.FatValid, Volume.FatLayout, AllStored, SamePlaces, DirSlotsOf, InStep,
      FilesOf, EntriesOf, InfosOf, Whereabouts, DiskCache.Clean;
    ok := FlushThePath(v, p, now, paths, rest);
    CleanUp(v, p, paths, rest);
  }

  // ---------------------------------------------------------------- opening the path again

  /** FatPhysicalDirSize: the clusters of a chain, or 0 when it does not end in an end mark. */
  method FatPhysicalDirSize(w: Volume, first: nat, ghost path: seq<nat>) returns (size: nat)
    requires w.FatValid() && LegalLinks(w.fat) && Walk(w.fat, first, path)
    modifies w`fatEntryPos, w`diskError, FatRepr(w)
    ensures w.FatValid() && w.diskError == old(w.diskError)
    ensures size == if path == [] || EndOfChain(Stop(w.fat, first, path)) then |path| * w.clusterSize else 0
  {
    hide Volume.FatValid, LegalLinks;
    size := 0;
    ghost var n := 0;
    if first != CLUSTER_FREE {
      var cluster := first;
      while !EndOfChain(cluster)
        invariant w.FatValid() && w.diskError == old(w.diskError) && n <= |path| && size == n * w.clusterSize
        invariant cluster == if n < |path| then path[n] else Stop(w.fat, first, path)
        decreases |path| - n
      {
        if n < |path| { InWalk(w.fat, first, path, n); }
        if cluster == CLUSTER_FREE || cluster >= SPECIAL {
          return 0;
        }
        MulAdd(n, 1, w.clusterSize);
        size := size + w.clusterSize;
        cluster := FatGetFatEntry(w, cluster);
        n := n + 1;
      }
    }
    if n < |path| {
      InWalk(w.fat, first, path, n);
      assert false;
    }
  }

  /** A file that was opened just now. */
  ghost function Reopened(s: FileState): FileState {
    s.(place := Place(s.place.first, s.place.first, CLUSTER_FREE), position := 0)
  }

  /** A directory is the same on two volumes that agree, opened again or not. */
  lemma ReopenedState(v: Volume, w: Volume, fixed: bool, s: FileState, contents: seq<Byte>)
    requires DirState(v, fixed, s, contents) && GeometryOf(v) == GeometryOf(w)
    ensures DirState(w, fixed, Reopened(s), contents)
    ensures SlotsIn(w, fixed, Reopened(s), contents) == SlotsIn(v, fixed, s, contents)
  {
    hide LegalLinks, Walk, FileBytes;
  }

  lemma NothingElse(o: OFile, path: seq<nat>)
    requires DirReady(o, path) && AreaLayout(o.volume)
    requires o.isFixedRootDir ==> o.fileSize <= AreaOf(o.volume).base
    ensures Elsewhere(o.volume, o.isFixedRootDir, o.fileSize, path, [])
  {}

  /** FatOpenDirEnt, for the entry at `pos` of an open directory. */
  method OpenChild(w: Volume, parent: OFile, pos: nat, isDir: bool, ghost parentPath: seq<nat>, ghost path: seq<nat>)
    returns (o: OFile)
    requires parent.volume == w && DirReady(parent, parentPath) && LegalLinks(w.fat) && AreaLayout(w)
    requires parent.isFixedRootDir ==> parent.fileSize <= AreaOf(w).base
    requires isDir ==> Walk(w.fat, ClusterField(DirSlots.At(SlotsOn(parent, parentPath), pos)), path)
    modifies w`fatEntryPos, w`diskError, FatRepr(w), w.dataCache, w.dataCache.tags, w.dataCache.pages
    modifies parent`posDisk, parent`posRem, parent`fileCurrentCluster, parent`position, parent`dirty, parent`archive
    ensures fresh(o) && o.volume == w && w.FatValid() && w.dataCache.contents == old(w.dataCache.contents)
    ensures var entry := old(DirSlots.At(SlotsOn(parent, parentPath), pos));
      && !o.isFixedRootDir && PlaceOf(o) == Place(ClusterField(entry), ClusterField(entry), CLUSTER_FREE)
      && o.position == 0
      && o.fileSize == if !isDir then SizeField(entry)
        else if path == [] || EndOfChain(Stop(w.fat, ClusterField(entry), path)) then |path| * w.clusterSize
        else 0
  {
    hide DirReady, SlotsOn, Volume.FatValid, Walk, LegalLinks, ClusterField, SizeField, Others, DirSlots.At, Aside;
    DirArea(parent, parentPath);
    NothingElse(parent, parentPath);
    AsideOf(parent, parentPath, []);
    ReadyValid(parent, parentPath);
    var entry := ReadSlot(parent, pos, parentPath, [], Others(w, parent.isFixedRootDir, w.dataCache.contents, []));
    ReadyValid(parent, parentPath);
    CachesApart(w);
    var size := SizeField(entry);
    if isDir {
      size := FatPhysicalDirSize(w, ClusterField(entry), path);
    }
    ghost var repr := w.CacheRepr();
    assert forall x :: x in repr ==> allocated(x);
    o := new OFile(w, false, size, ClusterField(entry));
  }

  /** A file and the directories above it, as values: `slots[i]` are those of the directory of file `i`. */
  datatype Snapshot = Snapshot(file: FileState, dirs: seq<FileState>, entries: seq<Slot>, slots: seq<seq<Slot>>,
                               contents: seq<Byte>)

  /** The directory above file `i`; if the file is a directory, its entry tells its chain. */
  ghost predicate LeadsAt(w: Volume, p: seq<Held>, t: Snapshot, i: nat)
    requires |p| == |t.entries| == |t.slots| + 1 == |t.dirs| + 1 && i < |t.slots|
  {
    var fixed := p[i + 1].file.isFixedRootDir;
    && t.dirs[i].fat == t.file.fat
    && DirState(w, fixed, t.dirs[i], t.contents) && SlotsIn(w, fixed, t.dirs[i], t.contents) == t.slots[i]
    && (fixed ==> t.dirs[i].fileSize <= AreaOf(w).base)
    && (i + 1 < |t.slots| ==> !fixed && ClusterField(t.entries[i + 1]) == t.dirs[i].place.first)
    && (!fixed && t.dirs[i].path != [] ==> EndOfChain(Stop(t.file.fat, t.dirs[i].place.first, t.dirs[i].path)))
  }

  /** The file's own chain, which its entry tells. */
  ghost predicate FileThere(w: Volume, t: Snapshot)
    requires t.entries != []
  {
    && AreaLayout(w) && LegalLinks(t.file.fat) && |t.contents| == w.volumeSize - w.rootPos
    && Walk(t.file.fat, t.file.place.first, t.file.path) && InArea(AreaOf(w), t.file.path)
    && ClusterField(t.entries[0]) == t.file.place.first && SizeField(t.entries[0]) == t.file.fileSize
  }

  /** A path whose entries on the disk lead from the root to the file. */
  ghost predicate Leads(w: Volume, p: seq<Held>, t: Snapshot) {
    && |p| == |t.entries| == |t.slots| + 1 == |t.dirs| + 1 && 1 < |p|
    && AllStored(p, t.entries, t.slots) && FileThere(w, t)
    && forall i :: 0 <= i < |p| - 1 ==> p[i].lasting && LeadsAt(w, p, t, i)
  }

  ghost function FileAt(t: Snapshot, i: nat): FileState
    requires i <= |t.dirs|
  {
    if i == 0 then t.file else t.dirs[i - 1]
  }

  /** What the entry of file `i`, read from its directory, tells. */
  lemma EntryTells(w: Volume, p: seq<Held>, t: Snapshot, i: nat)
    requires Leads(w, p, t) && i + 1 < |p|
    ensures |p| == |t.entries| == |t.dirs| + 1
    ensures var fixed, dir, entry := p[i + 1].file.isFixedRootDir, Reopened(t.dirs[i]), t.entries[i];
      && AreaLayout(w) && LegalLinks(t.file.fat) && (fixed ==> dir.fileSize <= AreaOf(w).base)
      && DirState(w, fixed, dir, t.contents)
      && DirSlots.At(SlotsIn(w, fixed, dir, t.contents), p[i].pos) == entry
      && ClusterField(entry) == FileAt(t, i).place.first && FileAt(t, i).fat == dir.fat == t.file.fat
      && (i == 0 ==> SizeField(entry) == FileAt(t, i).fileSize)
      && (i > 0 ==> !p[i].file.isFixedRootDir && DirChain(w, FileAt(t, i)))
  {
    assert LeadsAt(w, p, t, i);
    ReopenedState(w, w, p[i + 1].file.isFixedRootDir, t.dirs[i], t.contents);
    if i > 0 { assert LeadsAt(w, p, t, i - 1); }
    hide SlotsIn, LegalLinks, ClusterField, SizeField, DirSlots.At, Walk, Stop;
  }

  /** The chain of a directory, and its size. */
  ghost predicate DirChain(w: Volume, s: FileState) {
    && Walk(s.fat, s.place.first, s.path)
    && s.fileSize == if s.path == [] || EndOfChain(Stop(s.fat, s.place.first, s.path)) then |s.path| * w.clusterSize
                     else 0
  }

  /** File `i` of the path has been opened again. */
  ghost predicate OpenedAt(w: Volume, p: seq<Held>, t: Snapshot, i: nat, o: OFile)
    requires i < |p| && i <= |t.dirs|
    reads w, w.CacheRepr(), w.dataCache, o
  {
    && o.volume == w && w.FatValid() && w.fat == t.file.fat && w.dataCache.contents == t.contents
    && o.isFixedRootDir == (i > 0 && p[i].file.isFixedRootDir)
    && StateOf(o, FileAt(t, i).path) == Reopened(FileAt(t, i))
  }

  /** One step down. */
  method OpenNext(w: Volume, p: seq<Held>, i: nat, parent: OFile, ghost t: Snapshot) returns (o: OFile)
    requires Leads(w, p, t) && i + 1 < |p| && OpenedAt(w, p, t, i + 1, parent)
    modifies w`fatEntryPos, w`diskError, FatRepr(w), w.dataCache, w.dataCache.tags, w.dataCache.pages
    modifies parent`posDisk, parent`posRem, parent`fileCurrentCluster, parent`position, parent`dirty, parent`archive
    ensures OpenedAt(w, p, t, i, o) && fresh(o)
  {
    hide Leads, DirState, SlotsIn, Volume.FatValid, Walk, LegalLinks, DirReady, SlotsOn, DirSlots.At, ClusterField,
      SizeField, Stop;
    EntryTells(w, p, t, i);
    DirIs(parent, t.dirs[i].path);
    o := OpenChild(w, parent, p[i].pos, i > 0, t.dirs[i].path, FileAt(t, i).path);
  }

  lemma LeadsToRoot(w: Volume, p: seq<Held>, t: Snapshot)
    requires Leads(w, p, t)
    ensures 1 < |p| == |t.dirs| + 1
  {}

  /** Opening the path from the root down. */
  method OpenPath(w: Volume, p: seq<Held>, root: OFile, ghost t: Snapshot) returns (o: OFile)
    requires Leads(w, p, t) && |p| == |t.dirs| + 1 && OpenedAt(w, p, t, |p| - 1, root)
    modifies w`fatEntryPos, w`diskError, FatRepr(w), w.dataCache, w.dataCache.tags, w.dataCache.pages, root
    ensures OpenedAt(w, p, t, 0, o) && !o.isFixedRootDir && (o == root || fresh(o))
  {
    hide Leads, Volume.FatValid;
    LeadsToRoot(w, p, t);
    o := root;
    var i := |p| - 1;
    while i > 0
      invariant 0 <= i < |p| && OpenedAt(w, p, t, i, o) && (o == root || fresh(o))
    {
      o := OpenNext(w, p, i - 1, o, t);
      i := i - 1;
    }
  }

  // ---------------------------------------------------------------- flushed, and found again

  /** The path and the file as values. */
  ghost function SnapshotOf(v: Volume, p: seq<Held>, paths: seq<seq<nat>>, path: seq<nat>): (t: Snapshot)
    requires PathReady(v, p, paths, path)
    reads p, FilesOf(p), v, v.CacheRepr(), v.dataCache, set h | h in p :: h.file.volume
  {
    Snapshot(StateOf(p[0].file, path), StatesOf(Dirs(p), paths), EntriesOf(p), DirSlotsOf(v, p, paths, path),
             v.dataCache.contents)
  }

  /**
   * The entries of the path tell where the files lie: their first clusters, and the size of the file; their chains
   * are whole.
   */
  ghost predicate TellsAt(fat: map<nat, nat>, p: seq<Held>, paths: seq<seq<nat>>, entries: seq<Slot>,
                          clusters: seq<nat>, size: nat)
    requires p != [] && |paths| == |p| - 1 && |entries| == |clusters| == |p|
  {
    && ClusterField(entries[0]) == clusters[0] && SizeField(entries[0]) == size
    && (forall i :: 1 <= i < |p| - 1 ==> !p[i].file.isFixedRootDir && ClusterField(entries[i]) == clusters[i])
    && forall i :: 1 <= i < |p| && !p[i].file.isFixedRootDir ==> Chain(fat, clusters[i], paths[i - 1])
  }

  lemma StillTells(fat: map<nat, nat>, p: seq<Held>, paths: seq<seq<nat>>, entries: seq<Slot>, entries': seq<Slot>,
                   clusters: seq<nat>, size: nat)
    requires p != [] && |paths| == |p| - 1 && |entries| == |clusters| == |p| && SamePlaces(entries, entries')
    requires TellsAt(fat, p, paths, entries, clusters, size)
    ensures TellsAt(fat, p, paths, entries', clusters, size)
  {
    hide Chain, ClusterField, SizeField;
  }

  ghost predicate Tells(v: Volume, p: seq<Held>, paths: seq<seq<nat>>)
    requires p != [] && |paths| == |p| - 1
    reads p, FilesOf(p), v
  {
    TellsAt(v.fat, p, paths, EntriesOf(p), ClustersOf(p), p[0].file.fileSize)
  }

  /** The file at the end of the path is open, is not a directory of the path, and all files have entries. */
  ghost predicate Living(v: Volume, p: seq<Held>, paths: seq<seq<nat>>, path: seq<nat>)
    requires PathReady(v, p, paths, path)
    reads p, FilesOf(p), v, v.CacheRepr(), v.dataCache
  {
    && 1 < |p| && (forall i :: 0 <= i < |p| - 1 ==> p[i].lasting) && (forall h :: h in p ==> !h.failed)
    && p[0].file.volume == v && !p[0].file.isFixedRootDir && FileReady(p[0].file, path)
    && Tells(v, p, paths)
  }

  lemma LeadsFrom(v: Volume, p: seq<Held>, paths: seq<seq<nat>>, path: seq<nat>)
    requires PathReady(v, p, paths, path) && Tells(v, p, paths) && 1 < |p| && p[0].file.volume == v
    requires AllStored(p, EntriesOf(p), DirSlotsOf(v, p, paths, path)) && forall i :: 0 <= i < |p| - 1 ==> p[i].lasting
    requires FileThere(v, SnapshotOf(v, p, paths, path))
    ensures Leads(v, p, SnapshotOf(v, p, paths, path))
  {
    hide DirState, SlotsIn, FileThere, AllStored, DirReady, ClusterField, SizeField, Elsewhere, AreApart, EntriesFit,
      Volume.FatValid, LegalLinks, Walk, Stop;
    var t, fs := SnapshotOf(v, p, paths, path), Dirs(p);
    AllStates(v, fs, paths, path);
    AllLone(v, fs, paths, path);
    forall i | 0 <= i < |p| - 1
      ensures LeadsAt(v, p, t, i)
    {
      assert fs[i] == p[i + 1].file && fs[i].volume == v;
      LoneRoot(v, fs, paths, path, i);
      if !fs[i].isFixedRootDir { ChainEnds(v.fat, p[i + 1].file.fileCluster, paths[i]); }
    }
  }

  lemma ChainEnds(fat: map<nat, nat>, first: nat, path: seq<nat>)
    requires Chain(fat, first, path)
    ensures Walk(fat, first, path) && (path == [] || EndOfChain(Stop(fat, first, path)))
  {}

  lemma LoneRoot(v: Volume, fs: seq<OFile>, paths: seq<seq<nat>>, rest: seq<nat>, k: nat)
    requires k < |fs| == |paths| && AreaLayout(v) && Lone(v, fs, paths, rest, k)
    ensures fs[k].isFixedRootDir ==> fs[k].fileSize <= AreaOf(v).base
  {}

  lemma SameState(v: Volume, w: Volume, fixed: bool, s: FileState, contents: seq<Byte>)
    requires DirState(v, fixed, s, contents) && GeometryOf(v) == GeometryOf(w)
    ensures DirState(w, fixed, s, contents) && SlotsIn(w, fixed, s, contents) == SlotsIn(v, fixed, s, contents)
    ensures AreaLayout(v) && AreaLayout(w) && AreaOf(v) == AreaOf(w)
  {
    hide LegalLinks, Walk, FileBytes;
  }

  lemma LeadsSame(v: Volume, w: Volume, p: seq<Held>, t: Snapshot)
    requires Leads(v, p, t) && GeometryOf(v) == GeometryOf(w)
    ensures Leads(w, p, t)
  {
    hide DirState, SlotsIn, AllStored, LegalLinks, Walk, ClusterField, SizeField, Stop;
    forall i | 0 <= i < |p| - 1
      ensures LeadsAt(w, p, t, i)
    {
      assert LeadsAt(v, p, t, i);
      SameState(v, w, p[i + 1].file.isFixedRootDir, t.dirs[i], t.contents);
    }
    hide LeadsAt;
  }

  /** What is known of the file before the flush. */
  lemma FileIsThere(v: Volume, p: seq<Held>, paths: seq<seq<nat>>, path: seq<nat>)
    requires PathReady(v, p, paths, path) && Living(v, p, paths, path)
    ensures FileThere(v, SnapshotOf(v, p, paths, path))
    ensures RestBytes(v, v.dataCache.contents, path) == BytesOf(p[0].file, path)
  {
    hide Volume.FatValid, LegalLinks, Walk, FileBytes, DirsReady, EntriesFit, SlotsOfAll, ClusterField, SizeField;
  }

  /** The same facts after the flush: what the entries tell, and where the files lie, is as before. */
  lemma StillThere(v: Volume, p: seq<Held>, paths: seq<seq<nat>>, path: seq<nat>, t0: Snapshot, entries0: seq<Slot>)
    requires PathReady(v, p, paths, path) && 1 < |p| && p[0].file.volume == v
    requires t0.entries != [] && FileThere(v, t0) && t0.file.fat == v.fat && t0.file.path == path
    requires t0.file.place.first == p[0].file.fileCluster && t0.file.fileSize == p[0].file.fileSize
    requires SamePlaces(entries0, EntriesOf(p)) && t0.entries == entries0
    ensures FileThere(v, SnapshotOf(v, p, paths, path))
  {
    hide Volume.FatValid, LegalLinks, Walk, ClusterField, SizeField, DirReady;
    var fs := Dirs(p);
    AllLone(v, fs, paths, path);
    assert OneDir(v, fs, paths, path, 0);
    DirArea(fs[0], paths[0]);
  }

  /** The flush of a path without errors: on the disk the entries lead to the file. */
  method FlushLiving(v: Volume, p: seq<Held>, now: FatTime, ghost paths: seq<seq<nat>>, ghost path: seq<nat>)
    requires PathReady(v, p, paths, path) && ClockRuns(now) && Living(v, p, paths, path)
    requires InStep(p, InfosOf(p), EntriesOf(p), DirSlotsOf(v, p, paths, path))
    modifies v`fatEntryPos, v`diskError, v`fatDirty, FatRepr(v), v.dataCache, v.dataCache.tags, v.dataCache.pages
    modifies p`entry, p`preserve, FilesOf(p)`posDisk, FilesOf(p)`posRem, FilesOf(p)`fileCurrentCluster
    modifies FilesOf(p)`position, FilesOf(p)`dirty, FilesOf(p)`archive
    ensures PathReady(v, p, paths, path) && v.FatValid() && v.Layout() && v.FatLayout()
    ensures HeldBy(v, v.disk[..], v.fatCache.contents, v.notDirtyValue, v.dataCache.contents)
    ensures Leads(v, p, SnapshotOf(v, p, paths, path))
    ensures RestBytes(v, v.dataCache.contents, path) == old(BytesOf(p[0].file, path))
  {
    hide PathReady, HeldBy, Volume.FatValid, Volume.FatLayout, AllStored, DirSlotsOf, InStep, FileReady, BytesOf,
      RestBytes, FileThere, Leads, TellsAt, DirsReady;
    ghost var t0, where := SnapshotOf(v, p, paths, path), Whereabouts(v, p);
    FileIsThere(v, p, paths, path);
    PathValid(v, p, paths, path);
    var ok := FatFlush(v, p, now, paths, path);
    StillTells(where.fat, p, paths, t0.entries, EntriesOf(p), where.clusters, where.size);
    StillThere(v, p, paths, path, t0, t0.entries);
    LeadsFrom(v, p, paths, path);
  }

  /** FatOpenDirEnt for the root: its first cluster and, in a fixed root directory, its size are in the boot sector. */
  method OpenRoot(w: Volume, p: seq<Held>, fixed: bool, cluster: nat, rootSize: nat, ghost t: Snapshot)
    returns (o: OFile)
    requires Leads(w, p, t) && w.FatValid() && w.fat == t.file.fat && w.dataCache.contents == t.contents
    requires |p| == |t.dirs| + 1 && fixed == p[|p| - 1].file.isFixedRootDir
    requires var root := t.dirs[|p| - 2]; cluster == root.place.first && (fixed ==> rootSize == root.fileSize)
    modifies w`fatEntryPos, w`diskError, FatRepr(w)
    ensures fresh(o) && OpenedAt(w, p, t, |p| - 1, o)
  {
    hide Volume.FatValid, SlotsIn, FileThere, AllStored, Walk, LegalLinks, ClusterField, SizeField;
    assert LeadsAt(w, p, t, |p| - 2);
    CachesApart(w);
    var size := rootSize;
    if !fixed {
      RootChain(w, t.dirs[|p| - 2], t.contents);
      size := FatPhysicalDirSize(w, cluster, t.dirs[|p| - 2].path);
    }
    ghost var repr := w.CacheRepr();
    assert forall x :: x in repr ==> allocated(x);
    o := new OFile(w, fixed, size, cluster);
  }

  lemma RootChain(w: Volume, s: FileState, contents: seq<Byte>)
    requires DirState(w, false, s, contents)
    ensures LegalLinks(s.fat) && Walk(s.fat, s.place.first, s.path) && |s.path| * w.clusterSize == s.fileSize
  {}

  /** The file that was opened again has the bytes of the chain. */
  lemma FoundAgain(v: Volume, w: Volume, p: seq<Held>, t: Snapshot, o: OFile)
    requires Leads(w, p, t) && 0 < |p| && OpenedAt(w, p, t, 0, o) && GeometryOf(v) == GeometryOf(w)
    ensures FileReady(o, t.file.path) && BytesOf(o, t.file.path) == RestBytes(v, t.contents, t.file.path)
    ensures o.fileSize == t.file.fileSize
  {
    hide Volume.FatValid, LegalLinks, Walk, FileBytes, LeadsAt, AllStored, ClusterField, SizeField;
  }

  /** The driver, started anew, opens the path. */
  method MountAndOpen(v: Volume, p: seq<Held>, valid: bool, count: nat, next: nat, fixed: bool, cluster: nat,
                      rootSize: nat, ghost t: Snapshot) returns (w: Volume, o: OFile)
    requires v.FatValid() && v.Layout() && v.FatLayout() && v.fat == t.file.fat && v.dataCache.contents == t.contents
    requires HeldBy(v, v.disk[..], v.fatCache.contents, v.notDirtyValue, v.dataCache.contents)
    requires Leads(v, p, t) && 1 < |p| == |t.dirs| + 1 && fixed == p[|p| - 1].file.isFixedRootDir
    requires var root := t.dirs[|p| - 2]; cluster == root.place.first && (fixed ==> rootSize == root.fileSize)
    modifies v.disk
    ensures fresh(w) && w.disk == v.disk && fresh(o) && o.volume == w && w.FatValid()
    ensures FileReady(o, t.file.path) && o.fileSize == t.file.fileSize
    ensures BytesOf(o, t.file.path) == RestBytes(v, t.contents, t.file.path)
  {
    hide HeldBy, Volume.FatValid, FileReady, BytesOf, RestBytes, Leads, Volume.FatDecoded;
    w := Remount(v, valid, count, next);
    LeadsSame(v, w, p, t);
    ReprOf(w);
    var root := OpenRoot(w, p, fixed, cluster, rootSize, t);
    o := OpenPath(w, p, root, t);
    FoundAgain(v, w, p, t, o);
  }

  lemma ReprOf(w: Volume)
    ensures FatRepr(w) <= w.CacheRepr() + {w.fatEntryBuffer}
    ensures w.dataCache in w.CacheRepr() && w.dataCache.tags in w.CacheRepr() && w.dataCache.pages in w.CacheRepr()
  {}

  /**
   * Flushed, and found again: after a file is flushed, the driver, started anew on the same disk, finds it on the same
   * path, with the same size and the same bytes; each step down the path reads the entry from the directory's file,
   * through chain and cache.
   */
  method FlushAndRemount(v: Volume, p: seq<Held>, now: FatTime, valid: bool, count: nat, next: nat,
                         ghost paths: seq<seq<nat>>, ghost path: seq<nat>) returns (w: Volume, o: OFile)
    requires PathReady(v, p, paths, path) && ClockRuns(now) && Living(v, p, paths, path)
    requires InStep(p, InfosOf(p), EntriesOf(p), DirSlotsOf(v, p, paths, path))
    modifies v`fatEntryPos, v`diskError, v`fatDirty, FatRepr(v), v.dataCache, v.dataCache.tags, v.dataCache.pages
    modifies p`entry, p`preserve, FilesOf(p)`posDisk, FilesOf(p)`posRem, FilesOf(p)`fileCurrentCluster
    modifies FilesOf(p)`position, FilesOf(p)`dirty, FilesOf(p)`archive
    ensures fresh(w) && w.disk == v.disk && fresh(o) && o.volume == w && w.FatValid()
    ensures FileReady(o, path) && o.fileSize == p[0].file.fileSize
    ensures BytesOf(o, path) == old(BytesOf(p[0].file, path))
  {
    hide PathReady, HeldBy, Volume.FatValid, Volume.FatLayout, FileReady, BytesOf, RestBytes, Leads, InStep;
    FlushLiving(v, p, now, paths, path);
    ghost var t := SnapshotOf(v, p, paths, path);
    LeadsToRoot(v, p, t);
    var last := p[|p| - 1].file;
    w, o := MountAndOpen(v, p, valid, count, next, last.isFixedRootDir, last.fileCluster, last.fileSize, t);
  }
}

