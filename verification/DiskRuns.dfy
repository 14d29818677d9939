/**
 * Runs over a directory whose slots are the bytes of an open file: what is created and removed in memory is stored
 * through chain and cache, the directory's chain grows as the volume has room, and reading the file again gives the
 * listing that the run made.
 */
module DiskRuns {
  import opened FatTypes
  import opened FatTable
  import opened Chains
  import opened Growth
  import opened FileSpace
  import opened FileContents
  import opened FileIo
  import opened FileArray
  import opened OpenFile
  import opened ShortName
  import opened DirSlots
  import opened DirScan
  import opened DirStore
  import opened NameIndex
  import opened EntryNames
  import opened Directory
  import opened DirRuns
  import opened DirOnDisk

  ghost function DiskRepr(o: OFile): set<object> {
    {o, o.volume, o.volume.fatEntryBuffer} + o.volume.CacheRepr()
  }

  lemma ReprFacts(o: OFile)
    ensures o.volume in DiskRepr(o) && o in DiskRepr(o) && forall x :: x in DiskRepr(o) ==> allocated(x)
  {}

  /** The open file of a directory; `other` is the chain of another file. */
  ghost predicate OnDisk(o: OFile, path: seq<nat>, first: nat, other: seq<nat>)
    reads DiskRepr(o)
  {
    DirOpen(o, path) && DirReady(o, path) && Apart(o.volume.fat, path, first, other)
      && InArea(AreaOf(o.volume), other)
  }

  ghost function DiskSlots(o: OFile, path: seq<nat>, first: nat, other: seq<nat>): (slots: seq<Slot>)
    requires OnDisk(o, path, first, other)
    reads DiskRepr(o)
    ensures |slots| * SLOT_SIZE == |path| * o.volume.clusterSize
  {
    SlotsOn(o, path)
  }

  ghost function DiskOther(o: OFile, path: seq<nat>, first: nat, other: seq<nat>): seq<Byte>
    requires OnDisk(o, path, first, other)
    reads DiskRepr(o)
  {
    OtherBytes(o, path, other)
  }

  ghost function DiskTotal(o: OFile, path: seq<nat>): nat
    reads o.volume
  {
    Total(o.volume.fat, path)
  }

  /** The directory in memory is that on the disk. */
  ghost predicate Mirrors(dir: Directory, o: OFile, path: seq<nat>, first: nat, other: seq<nat>)
    reads dir, dir.file, dir.shortTable, dir.longTable, dir.shortTable.heads, dir.longTable.heads,
      NodesOf(dir.children), dir.shortTable.nodes, dir.longTable.nodes, DiskRepr(o)
  {
    && dir.Valid() && (dir.currentCursor != null ==> dir.currentCursor in dir.children)
    && OnDisk(o, path, first, other) && DiskSlots(o, path, first, other) == dir.file.slots
    && !dir.isFixedRootDir && o.volume.clusterSize == dir.clusterSlots * SLOT_SIZE && dir.Repr() !! DiskRepr(o)
  }

  /** A cluster can be added to a directory of this length, on a volume with room for `total` of its clusters. */
  predicate CanGrow(dir: Directory, slots: seq<Slot>, total: nat) {
    |slots| < total * dir.clusterSlots && (|slots| + dir.clusterSlots) * SLOT_SIZE <= 0xFFFF_FFFF
  }

  /** The operation, with what growing the directory would give. */
  function Grounded(op: Op, grows: bool): Op {
    if op.Create? then op.(grows := grows) else op
  }

  /** Growing matters only where a cluster is needed. */
  lemma GrowthMatters(dir: Directory, slots: seq<Slot>, op: Op, c: Change, grows: bool, grows': bool)
    requires op.Create? && Fulfils(dir, slots, Grounded(op, grows), c)
    requires dir.NeedsCluster(slots, EntryCountOf(op.name)) ==> grows == grows'
    ensures Fulfils(dir, slots, Grounded(op, grows'), c)
  {
    hide Listing, EndOf, Present, Directory.AtCapacity, GapFound, EntryCountOf, Directory.AppendFits,
      Directory.ReadsBack, NameFree, SomeNameFree, Directory.NewPos;
  }

  lemma MayStill(dir: Directory, slots: seq<Slot>, op: Op, grows: bool)
    requires op.Create? && MayCreate(dir, slots, op)
    ensures MayCreate(dir, slots, Grounded(op, grows))
  {}

  /** Adding a cluster to the directory's chain. */
  method Expand(dir: Directory, o: OFile, ghost path: seq<nat>, ghost first: nat, ghost other: seq<nat>)
    returns (grows: bool, ghost path': seq<nat>)
    requires Mirrors(dir, o, path, first, other)
    modifies DiskRepr(o)
    ensures OnDisk(o, path', first, other) && dir.Valid() && dir.Repr() !! DiskRepr(o)
    ensures grows == CanGrow(dir, dir.file.slots, old(DiskTotal(o, path)))
      && DiskTotal(o, path') == old(DiskTotal(o, path))
    ensures DiskSlots(o, path', first, other) ==
      dir.file.slots + if grows then EmptySlots(dir.clusterSlots) else []
    ensures DiskOther(o, path', first, other) == old(DiskOther(o, path, first, other))
  {
    hide Directory.Valid, DirOpen, DirReady, Apart, InArea, SlotsOn, OtherBytes, Total, EmptySlots, CanGrow;
    NodesInside(dir);
    SizeOfDir(o, path);
    GrowthTold(dir, dir.file.slots, |path|, o.volume.clusterSize, DiskTotal(o, path));
    var status;
    status, path' := FatExpandODir(o, path, first, other);
    grows := status == Success;
  }

  /** When FatExpandODir succeeds, in slots. */
  lemma GrowthTold(dir: Directory, slots: seq<Slot>, n: nat, size: nat, total: nat)
    requires size == dir.clusterSlots * SLOT_SIZE && |slots| * SLOT_SIZE == n * size && 0 < dir.clusterSlots
    ensures CanGrow(dir, slots, total) <==> n < total && n * size + size <= 0xFFFF_FFFF
  {
    var k := dir.clusterSlots;
    assert n * size == n * k * SLOT_SIZE;
    if n < total { MulLe(n + 1, total, k); MulAdd(n, 1, k); } else { MulLe(total, n, k); }
  }

  lemma NodesInside(dir: Directory)
    requires dir.Valid()
    ensures NodesOf(dir.children) <= dir.Repr() && dir.shortTable.nodes <= dir.Repr()
      && dir.longTable.nodes <= dir.Repr()
    ensures 0 < dir.clusterSlots
  {}

  lemma SizeOfDir(o: OFile, path: seq<nat>)
    requires DirOpen(o, path)
    ensures o.fileSize == |path| * o.volume.clusterSize
  {}

  /** Storing an entry in the file of the directory. */
  method Store(dir: Directory, o: OFile, record: Record, entry: Slot, invalid: bool, ghost slots: seq<Slot>,
               ghost path: seq<nat>, ghost first: nat, ghost other: seq<nat>)
    requires dir.Valid() && OnDisk(o, path, first, other) && dir.Repr() !! DiskRepr(o)
    requires DiskSlots(o, path, first, other) == slots && DirSlots.Fits(slots, record.pos, record.count)
    requires dir.file.slots == Stored(slots, record.pos, record.count, record.name, entry, invalid)
    modifies DiskRepr(o)
    ensures dir.Valid() && OnDisk(o, path, first, other) && dir.Repr() !! DiskRepr(o)
    ensures DiskSlots(o, path, first, other) == dir.file.slots && DiskTotal(o, path) == old(DiskTotal(o, path))
    ensures DiskOther(o, path, first, other) == old(DiskOther(o, path, first, other))
  {
    hide Directory.Valid, DirOpen, DirReady, Apart, InArea, SlotsOn, OtherBytes, Stored, DirSlots.Fits;
    NodesInside(dir);
    StoreInDir(o, record.pos, record.count, record.name, entry, invalid, path, first, other);
  }

  /** What was done to the file is what the creation needs. */
  lemma PlaceFor(dir: Directory, slots: seq<Slot>, op: Op, c: Change, grew: bool)
    requires op.Create? && !Present(slots, op.name) && MayCreate(dir, slots, op) && Fulfils(dir, slots, op, c)
    requires grew == (op.grows && dir.NeedsCluster(slots, EntryCountOf(op.name)))
    ensures if c.Added? then
        dir.WithRoom(slots, c.record.count) == if grew then slots + EmptySlots(dir.clusterSlots) else slots
      else c == Unchanged && !grew
  {
    hide Listing, EndOf, Present, MayCreate, GapFound, EntryCountOf, Directory.NewPos;
  }

  lemma AddedSlots(dir: Directory, slots: seq<Slot>, c: Change)
    requires c.Added? && DirSlots.Fits(dir.WithRoom(slots, c.record.count), c.record.pos, c.record.count)
    ensures ApplySlots(dir, slots, c) ==
      Stored(dir.WithRoom(slots, c.record.count), c.record.pos, c.record.count, c.record.name, c.entry, false)
  {}

  lemma NothingAdded(dir: Directory, slots: seq<Slot>)
    ensures ApplySlots(dir, slots, Unchanged) == slots
  {}

  /** The entry is created in memory, and then stored in the file. */
  method CreateAndStore(dir: Directory, o: OFile, op: Op, ghost slots0: seq<Slot>, ghost grew: bool,
                        ghost path: seq<nat>, ghost first: nat, ghost other: seq<nat>) returns (ghost c: Change)
    requires op.Create? && dir.Valid() && dir.endOfDir && !Present(dir.file.slots, op.name)
    requires (dir.currentCursor != null ==> dir.currentCursor in dir.children) && dir.Repr() !! DiskRepr(o)
    requires OnDisk(o, path, first, other) && dir.file.slots == slots0
    requires MayCreate(dir, slots0, op) && grew == (op.grows && dir.NeedsCluster(slots0, EntryCountOf(op.name)))
    requires DiskSlots(o, path, first, other) == if grew then slots0 + EmptySlots(dir.clusterSlots) else slots0
    modifies dir.Repr(), DiskRepr(o)
    ensures dir.Valid() && fresh(dir.Repr() - old(dir.Repr())) && dir.Repr() !! DiskRepr(o)
    ensures OnDisk(o, path, first, other) && DiskSlots(o, path, first, other) == dir.file.slots
    ensures Fulfils(dir, slots0, op, c) && dir.file.slots == ApplySlots(dir, slots0, c)
    ensures Listing(dir.file.slots) == Apply(Listing(slots0), c)
    ensures DiskTotal(o, path) == old(DiskTotal(o, path))
    ensures DiskOther(o, path, first, other) == old(DiskOther(o, path, first, other))
  {
    hide Directory.Valid, OnDisk, DiskSlots, DiskOther, Stored, DirSlots.Fits, Listing, Fulfils, Directory.NeedsCluster,
      ApplySlots, Apply, MayCreate, Present, Directory.WithRoom, EmptySlots;
    hide DiskRepr;
    ReprFacts(o);
    var d;
    d, c := CreateAbsent(dir, op);
    PlaceFor(dir, slots0, op, c, grew);
    NothingAdded(dir, slots0);
    if d != null {
      AddedSlots(dir, slots0, c);
      Store(dir, o, d.record, d.entry, false, dir.WithRoom(slots0, d.record.count), path, first, other);
    }
  }

  /**
   * After an operation on a directory with these slots, on a volume with room for `total` clusters of the directory;
   * `bytes` are those of the other file.
   */
  ghost predicate StepDone(dir: Directory, o: OFile, path: seq<nat>, first: nat, other: seq<nat>, slots: seq<Slot>,
                           op: Op, c: Change, total: nat, bytes: seq<Byte>)
    reads dir, dir.file, dir.shortTable, dir.longTable, dir.shortTable.heads, dir.longTable.heads,
      NodesOf(dir.children), dir.shortTable.nodes, dir.longTable.nodes, DiskRepr(o)
  {
    && Mirrors(dir, o, path, first, other) && Fulfils(dir, slots, Grounded(op, CanGrow(dir, slots, total)), c)
    && dir.file.slots == ApplySlots(dir, slots, c) && Listing(dir.file.slots) == Apply(Listing(slots), c)
    && DiskTotal(o, path) == total && DiskOther(o, path, first, other) == bytes
  }

  /** FatSearchODir reads ahead in memory; the file stays as it is. */
  method Search(dir: Directory, o: OFile, name: Str, ghost path: seq<nat>, ghost first: nat, ghost other: seq<nat>)
    returns (d: DirEnt?)
    requires Mirrors(dir, o, path, first, other)
    modifies dir.Repr()
    ensures Mirrors(dir, o, path, first, other) && fresh(dir.Repr() - old(dir.Repr()))
    ensures dir.file.slots == old(dir.file.slots) && (d != null <==> Present(dir.file.slots, name))
    ensures d == null ==> dir.endOfDir
    ensures DiskTotal(o, path) == old(DiskTotal(o, path))
    ensures DiskOther(o, path, first, other) == old(DiskOther(o, path, first, other))
  {
    hide Directory.Valid, OnDisk, DiskSlots, DiskOther, Listing, Matches, DiskRepr, DiskTotal;
    ReprFacts(o);
    d := dir.FatSearchODir(name);
    dir.CursorInside();
  }

  /** FatCreateDirEnt over the file, where it may be called: a cluster is added if one is needed. */
  method CreateThere(dir: Directory, o: OFile, op: Op, ghost path: seq<nat>, ghost first: nat, ghost other: seq<nat>,
                     ghost slots: seq<Slot>, ghost total: nat, ghost bytes: seq<Byte>)
    returns (ghost path': seq<nat>, ghost c: Change)
    requires op.Create? && Mirrors(dir, o, path, first, other) && dir.endOfDir
    requires !Present(dir.file.slots, op.name) && MayCreate(dir, dir.file.slots, op)
    requires DiskTotal(o, path) == total && DiskOther(o, path, first, other) == bytes && slots == dir.file.slots
    modifies dir.Repr(), DiskRepr(o)
    ensures fresh(dir.Repr() - old(dir.Repr())) && StepDone(dir, o, path', first, other, slots, op, c, total, bytes)
  {
    ReprFacts(o);
    hide Directory.Valid, OnDisk, DiskSlots, DiskOther, Listing, Fulfils, Directory.NeedsCluster, ApplySlots, Apply,
      MayCreate, CanGrow, DiskRepr, EmptySlots, Present, DiskTotal;
    path' := path;
    var grows := false;
    var needed := dir.NeedsCluster(dir.file.slots, EntryCountOf(op.name));
    if needed {
      grows, path' := Expand(dir, o, path, first, other);
    }
    MayStill(dir, slots, op, grows);
    c := CreateAndStore(dir, o, Grounded(op, grows), slots, grows, path', first, other);
    GrowthMatters(dir, slots, op, c, grows, CanGrow(dir, slots, total));
    dir.CursorInside();
  }

  /** FatCreateDirEnt over the file, after a search that finds nothing. */
  method CreateOnDisk(dir: Directory, o: OFile, op: Op, ghost path: seq<nat>, ghost first: nat, ghost other: seq<nat>,
                      ghost slots: seq<Slot>, ghost total: nat, ghost bytes: seq<Byte>)
    returns (ghost path': seq<nat>, ghost c: Change)
    requires op.Create? && Mirrors(dir, o, path, first, other)
    requires DiskTotal(o, path) == total && DiskOther(o, path, first, other) == bytes && slots == dir.file.slots
    modifies dir.Repr(), DiskRepr(o)
    ensures fresh(dir.Repr() - old(dir.Repr())) && StepDone(dir, o, path', first, other, slots, op, c, total, bytes)
  {
    hide Mirrors, Listing, Fulfils, ApplySlots, Apply, MayCreate, CanGrow, Present, DiskRepr, DiskTotal, DiskOther;
    path', c := path, Unchanged;
    var found := Search(dir, o, op.name, path, first, other);
    if found == null && MayCreate(dir, dir.file.slots, op) {
      path', c := CreateThere(dir, o, op, path, first, other, slots, total, bytes);
    } else {
      NotCreated(dir, slots, op, CanGrow(dir, slots, total));
    }
  }

  lemma NotCreated(dir: Directory, slots: seq<Slot>, op: Op, grows: bool)
    requires op.Create? && (Present(slots, op.name) || !MayCreate(dir, slots, op))
    ensures Fulfils(dir, slots, Grounded(op, grows), Unchanged)
    ensures ApplySlots(dir, slots, Unchanged) == slots && Apply(Listing(slots), Unchanged) == Listing(slots)
  {
    hide Listing, EntryCountOf, Directory.AppendFits, Directory.ReadsBack, NameFree, SomeNameFree, Matches;
  }

  /** FatRemoveDirEnt over the file. */
  method RemoveFromDisk(dir: Directory, o: OFile, name: Str, ghost path: seq<nat>, ghost first: nat,
                        ghost other: seq<nat>, ghost slots: seq<Slot>, ghost total: nat, ghost bytes: seq<Byte>)
    returns (ghost c: Change)
    requires Mirrors(dir, o, path, first, other)
    requires DiskTotal(o, path) == total && DiskOther(o, path, first, other) == bytes && slots == dir.file.slots
    modifies dir.Repr(), DiskRepr(o)
    ensures fresh(dir.Repr() - old(dir.Repr()))
    ensures StepDone(dir, o, path, first, other, slots, Remove(name), c, total, bytes)
  {
    ReprFacts(o);
    hide Directory.Valid, OnDisk, DiskSlots, DiskOther, Listing, Fulfils, ApplySlots, Apply, CanGrow, DiskRepr, Present,
      DiskTotal, Stored, DirSlots.Fits;
    var d;
    d, c := RemoveStep(dir, name);
    if d != null {
      RemovedSlots(dir, slots, c);
      Store(dir, o, d.record, d.entry, true, slots, path, first, other);
    } else {
      NothingAdded(dir, slots);
    }
    dir.CursorInside();
  }

  lemma RemovedSlots(dir: Directory, slots: seq<Slot>, c: Change)
    requires c.Removed? && c.at < |Listing(slots)|
    requires DirSlots.Fits(slots, Listing(slots)[c.at].pos, Listing(slots)[c.at].count)
    ensures var r := Listing(slots)[c.at];
      ApplySlots(dir, slots, c) == Stored(slots, r.pos, r.count, r.name, c.entry, true)
  {}

  /** The operations that change nothing on the disk. */
  method ReadOnly(dir: Directory, o: OFile, op: Op, ghost path: seq<nat>, ghost first: nat, ghost other: seq<nat>,
                  ghost slots: seq<Slot>, ghost total: nat, ghost bytes: seq<Byte>)
    returns (ghost c: Change)
    requires (op.Find? || op.Next? || op.Reset?) && Mirrors(dir, o, path, first, other)
    requires DiskTotal(o, path) == total && DiskOther(o, path, first, other) == bytes && slots == dir.file.slots
    modifies dir.Repr()
    ensures fresh(dir.Repr() - old(dir.Repr()))
    ensures StepDone(dir, o, path, first, other, slots, op, c, total, bytes)
  {
    ReprFacts(o);
    hide Directory.Valid, OnDisk, DiskSlots, DiskOther, Listing, Fulfils, ApplySlots, Apply, CanGrow, DiskRepr, Present,
      DiskTotal;
    c := DirRuns.Step(dir, op);
    Unstored(dir, slots, op, c);
  }

  lemma Unstored(dir: Directory, slots: seq<Slot>, op: Op, c: Change)
    requires (op.Find? || op.Next? || op.Reset?) && Fulfils(dir, slots, op, c)
    ensures ApplySlots(dir, slots, c) == slots
  {}

  /** An operation over the directory and its file. */
  method StepOnDisk(dir: Directory, o: OFile, op: Op, ghost path: seq<nat>, ghost first: nat, ghost other: seq<nat>,
                    ghost slots: seq<Slot>, ghost total: nat, ghost bytes: seq<Byte>)
    returns (ghost path': seq<nat>, ghost c: Change)
    requires Mirrors(dir, o, path, first, other)
    requires DiskTotal(o, path) == total && DiskOther(o, path, first, other) == bytes && slots == dir.file.slots
    modifies dir.Repr(), DiskRepr(o)
    ensures fresh(dir.Repr() - old(dir.Repr()))
    ensures StepDone(dir, o, path', first, other, slots, op, c, total, bytes)
  {
    hide Mirrors, StepDone, DiskTotal, DiskOther, DiskRepr;
    path' := path;
    match op {
      case Create(_, _, _, _, _) =>
        path', c := CreateOnDisk(dir, o, op, path, first, other, slots, total, bytes);
      case Remove(name) =>
        c := RemoveFromDisk(dir, o, name, path, first, other, slots, total, bytes);
      case _ =>
        c := ReadOnly(dir, o, op, path, first, other, slots, total, bytes);
    }
  }

  // ---------------------------------------------------------------- whole runs

  /** One operation of a run, on what those before it leave; a directory grows as the volume has room. */
  ghost predicate FulfilsAt(dir: Directory, slots: seq<Slot>, total: nat, op: Op, c: Change) {
    Fulfils(dir, slots, Grounded(op, CanGrow(dir, slots, total)), c)
  }

  ghost predicate FulfilsOnDisk(dir: Directory, slots: seq<Slot>, total: nat, ops: seq<Op>, changes: seq<Change>) {
    && |ops| == |changes|
    && forall k :: 0 <= k < |ops| ==> FulfilsAt(dir, SlotsAfter(dir, slots, changes[..k]), total, ops[k], changes[k])
  }

  lemma OneMore(dir: Directory, slots: seq<Slot>, total: nat, listing: seq<Record>, ops: seq<Op>, changes: seq<Change>,
                op: Op, c: Change)
    requires FulfilsOnDisk(dir, slots, total, ops, changes)
    requires FulfilsAt(dir, SlotsAfter(dir, slots, changes), total, op, c)
    ensures FulfilsOnDisk(dir, slots, total, ops + [op], changes + [c])
    ensures SlotsAfter(dir, slots, changes + [c]) == ApplySlots(dir, SlotsAfter(dir, slots, changes), c)
    ensures ApplyAll(listing, changes + [c]) == Apply(ApplyAll(listing, changes), c)
  {
    hide FulfilsAt, ApplySlots, Apply;
    assert (changes + [c])[..|changes|] == changes;
    forall k | 0 <= k < |ops|
      ensures (changes + [c])[..k] == changes[..k]
    {}
  }

  lemma StepFacts(dir: Directory, o: OFile, path: seq<nat>, first: nat, other: seq<nat>, slots: seq<Slot>, op: Op,
                  c: Change, total: nat, bytes: seq<Byte>)
    requires StepDone(dir, o, path, first, other, slots, op, c, total, bytes)
    ensures Mirrors(dir, o, path, first, other) && FulfilsAt(dir, slots, total, op, c)
    ensures dir.file.slots == ApplySlots(dir, slots, c) && Listing(dir.file.slots) == Apply(Listing(slots), c)
    ensures DiskTotal(o, path) == total && DiskOther(o, path, first, other) == bytes
  {
    hide Directory.Valid, OnDisk, DiskSlots, DiskOther, Listing, Fulfils, ApplySlots, Apply, CanGrow, DiskRepr,
      DiskTotal;
  }

  /** Any operations over the directory and its file. */
  method RunOnDisk(dir: Directory, o: OFile, ops: seq<Op>, ghost path: seq<nat>, ghost first: nat,
                   ghost other: seq<nat>)
    returns (ghost path': seq<nat>, ghost changes: seq<Change>)
    requires Mirrors(dir, o, path, first, other)
    modifies dir.Repr(), DiskRepr(o)
    ensures fresh(dir.Repr() - old(dir.Repr())) && Mirrors(dir, o, path', first, other)
    ensures FulfilsOnDisk(dir, old(dir.file.slots), old(DiskTotal(o, path)), ops, changes)
    ensures dir.file.slots == SlotsAfter(dir, old(dir.file.slots), changes)
    ensures Listing(dir.file.slots) == ApplyAll(old(Listing(dir.file.slots)), changes)
    ensures DiskTotal(o, path') == old(DiskTotal(o, path))
    ensures DiskOther(o, path', first, other) == old(DiskOther(o, path, first, other))
  {
    hide Listing, FulfilsAt, Apply, ApplySlots, DiskTotal, DiskOther, DiskRepr, DiskSlots, StepDone, OnDisk,
      Directory.Valid;
    ghost var slots, total, bytes := dir.file.slots, DiskTotal(o, path), DiskOther(o, path, first, other);
    path', changes := path, [];
    OpPrefixes(ops);
    for k := 0 to |ops|
      invariant fresh(dir.Repr() - old(dir.Repr())) && Mirrors(dir, o, path', first, other)
      invariant FulfilsOnDisk(dir, slots, total, ops[..k], changes)
      invariant dir.file.slots == SlotsAfter(dir, slots, changes)
      invariant Listing(dir.file.slots) == ApplyAll(Listing(slots), changes)
      invariant DiskTotal(o, path') == total && DiskOther(o, path', first, other) == bytes
    {
      hide FulfilsOnDisk, ApplyAll, SlotsAfter;
      ghost var now := dir.file.slots;
      ghost var c;
      path', c := StepOnDisk(dir, o, ops[k], path', first, other, now, total, bytes);
      StepFacts(dir, o, path', first, other, now, ops[k], c, total, bytes);
      OneMore(dir, slots, total, Listing(slots), ops[..k], changes, ops[k], c);
      changes := changes + [c];
    }
  }

  /** Reading all the slots of the directory's file. */
  method LoadSlots(o: OFile, ghost path: seq<nat>, ghost first: nat, ghost other: seq<nat>) returns (slots: seq<Slot>)
    requires OnDisk(o, path, first, other)
    modifies o.volume`fatEntryPos, o.volume`diskError, FatRepr(o.volume)
    modifies o.volume.dataCache, o.volume.dataCache.tags, o.volume.dataCache.pages
    modifies o`posDisk, o`posRem, o`fileCurrentCluster, o`position, o`dirty, o`archive
    ensures OnDisk(o, path, first, other)
    ensures slots == DiskSlots(o, path, first, other) == old(DiskSlots(o, path, first, other))
    ensures DiskOther(o, path, first, other) == old(DiskOther(o, path, first, other))
  {
    hide DirOpen, DirReady, Apart, InArea, SlotsOn, Others, FileReady, Elsewhere, Aside, Chain, LastOf, FileBytes;
    DirParts(o, path, first, other);
    SizeOfSlots(o, path);
    ghost var all, bytes := SlotsOn(o, path), Others(o.volume, o.isFixedRootDir, o.volume.dataCache.contents, other);
    ghost var contents := o.volume.dataCache.contents;
    AsideOf(o, path, other);
    slots := [];
    var pos := 0;
    while pos * SLOT_SIZE < o.fileSize
      invariant DirReady(o, path) && Aside(o, path, other, bytes) && SlotsOn(o, path) == all
      invariant pos <= |all| && slots == all[..pos] && |all| * SLOT_SIZE == o.fileSize
      invariant o.volume.dataCache.contents == contents && !o.volume.diskError
      decreases |all| - pos
    {
      var entry := ReadSlot(o, pos, path, other, bytes);
      assert all[..pos + 1] == all[..pos] + [all[pos]];
      slots := slots + [entry];
      pos := pos + 1;
    }
    assert all[..pos] == all;
    StillOpen(o, path);
  }

  /** FatRequestODir over an open file: such a run can begin. */
  method OpenDirectory(o: OFile, isRoot: bool, isFat32: bool, hash: seq<Char16> -> nat, ghost path: seq<nat>,
                       ghost first: nat, ghost other: seq<nat>) returns (dir: Directory)
    requires OnDisk(o, path, first, other) && 0 < o.volume.clusterSize
    requires var slots := DiskSlots(o, path, first, other);
      EmptyTail(slots) && UniqueNames(Listing(slots)) && |slots| <= MAX_SLOTS
    requires var n := o.volume.clusterSize / SLOT_SIZE; 0 < n && MAX_SLOTS % n == 0
    modifies DiskRepr(o)
    ensures Mirrors(dir, o, path, first, other) && fresh(dir.Repr())
    ensures DiskSlots(o, path, first, other) == old(DiskSlots(o, path, first, other))
    ensures DiskOther(o, path, first, other) == old(DiskOther(o, path, first, other))
  {
    hide OnDisk, DiskSlots, DiskOther, EmptyTail, Listing, UniqueNames, Directory.Valid;
    WholeClusters(o, path, first, other);
    var slots := LoadSlots(o, path, first, other);
    ReprFacts(o);
    var file := new DirFile(slots);
    dir := new Directory(file, false, isRoot, o.volume.clusterSize / SLOT_SIZE, isFat32, hash);
  }

  lemma WholeClusters(o: OFile, path: seq<nat>, first: nat, other: seq<nat>)
    requires OnDisk(o, path, first, other) && 0 < o.volume.clusterSize / SLOT_SIZE
    ensures var n := o.volume.clusterSize / SLOT_SIZE;
      o.volume.clusterSize == n * SLOT_SIZE && |DiskSlots(o, path, first, other)| % n == 0
  {
    hide DirReady, Apart, InArea, Open, SlotsOn;
    var n, slots := o.volume.clusterSize / SLOT_SIZE, DiskSlots(o, path, first, other);
    assert |slots| * SLOT_SIZE == |path| * n * SLOT_SIZE;
    DivModOf(|path|, 0, n);
  }

  /**
   * A run over a directory on the disk, and the reload: the slots are read again through chain and cache, and scanned.
   * The list is what the run's changes make of the one before, and a file that shares no cluster with the directory
   * keeps its bytes.
   */
  method RunAndReload(dir: Directory, o: OFile, ops: seq<Op>, hash: seq<Char16> -> nat, ghost path: seq<nat>,
                      ghost first: nat, ghost other: seq<nat>)
    returns (records: seq<Record>, ghost path': seq<nat>, ghost changes: seq<Change>)
    requires Mirrors(dir, o, path, first, other)
    modifies dir.Repr(), DiskRepr(o)
    ensures FulfilsOnDisk(dir, old(dir.file.slots), old(DiskTotal(o, path)), ops, changes)
    ensures records == ApplyAll(old(Listing(dir.file.slots)), changes)
    ensures OnDisk(o, path', first, other) && DiskOther(o, path', first, other) == old(DiskOther(o, path, first, other))
  {
    hide Listing, FulfilsOnDisk, ApplyAll, SlotsAfter, DiskTotal, DiskOther, DiskSlots, OnDisk, Directory.Invariant,
      EmptyTail, UniqueNames;
    path', changes := RunOnDisk(dir, o, ops, path, first, other);
    Reopenable(dir);
    var slots := LoadSlots(o, path', first, other);
    var file := new DirFile(slots);
    records := ScanAgain(file, dir.isFixedRootDir, dir.isRoot, dir.clusterSlots, dir.isFat32, hash);
  }
}
