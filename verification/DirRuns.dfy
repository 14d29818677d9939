/** Whole runs over a directory: reloading it after any operations, and enumerating it while entries are removed. */
module DirRuns {
  import opened FatTypes
  import opened ShortName
  import opened DirSlots
  import opened DirScan
  import opened DirStore
  import opened NameIndex
  import opened EntryNames
  import opened Directory

  datatype Op =
    | Create(name: Str, attributes: Byte, info: seq<Byte>, crc: nat, grows: bool)
    | Remove(name: Str)
    | Find(name: Str)
    | Next
    | Reset

  /** What an operation does to the listing: an entry joins it, one leaves it, or it tells whether a name is there. */
  datatype Change =
    | Added(at: nat, record: Record, entry: Slot)
    | Removed(at: nat, entry: Slot)
    | Found(found: bool)
    | Unchanged

  predicate Present(slots: seq<Slot>, name: Str) {
    exists r :: r in Listing(slots) && Matches(r, name)
  }

  /** What the callers of FatCreateDirEnt see to, and that the new entry reads back. */
  predicate MayCreate(dir: Directory, slots: seq<Slot>, op: Op)
    requires op.Create?
  {
    var listing, count := Listing(slots), EntryCountOf(op.name);
    && NewName(op.name) && |op.info| == 19 && op.attributes / 8 % 2 == 0
    && NameFree(listing, op.name) && dir.AppendFits(slots, count) && dir.ReadsBack(slots, op.name)
    && (HasOwnShort(op.name) || SomeNameFree(listing, op.name, op.crc))
  }

  function Apply(listing: seq<Record>, c: Change): seq<Record> {
    match c
    case Added(at, record, _) => if at <= |listing| then With(listing, at, record) else listing
    case Removed(at, _) => if at < |listing| then Without(listing, at) else listing
    case Found(_) => listing
    case Unchanged => listing
  }

  /** The same for the slots of the directory's file. */
  ghost function ApplySlots(dir: Directory, slots: seq<Slot>, c: Change): seq<Slot> {
    match c
    case Added(_, r, entry) =>
      var more := dir.WithRoom(slots, r.count);
      if Fits(more, r.pos, r.count) then Stored(more, r.pos, r.count, r.name, entry, false) else slots
    case Removed(at, entry) =>
      if at < |Listing(slots)| && Fits(slots, Listing(slots)[at].pos, Listing(slots)[at].count)
      then Stored(slots, Listing(slots)[at].pos, Listing(slots)[at].count, Listing(slots)[at].name, entry, true)
      else slots
    case Found(_) => slots
    case Unchanged => slots
  }

  /** The entry that a creation adds: where it goes, what it is called, and what is stored. */
  ghost predicate AddedBy(dir: Directory, slots: seq<Slot>, op: Op, c: Change)
    requires op.Create?
  {
    && c.Added? && c.at <= |Listing(slots)| && 1 <= EntryCountOf(op.name)
    && c.record == Record(dir.NewPos(slots, EntryCountOf(op.name)), EntryCountOf(op.name), op.name, c.record.short)
    && (HasOwnShort(op.name) ==> c.record.short == OwnShort(op.name))
    && |op.info| == 19 && c.entry == EntryOf(c.record.short, op.attributes, OwnFlag(op.name), op.info)
  }

  /**
   * What an operation does in a directory with these slots: a name that may be created and is not there is added
   * whenever there is room, and one that is there is removed.
   */
  ghost predicate Fulfils(dir: Directory, slots: seq<Slot>, op: Op, c: Change) {
    match op
    case Create(name, _, _, _, grows) =>
      if !Present(slots, name) && MayCreate(dir, slots, op) && dir.Room(slots, EntryCountOf(name), grows)
      then AddedBy(dir, slots, op, c) else c == Unchanged
    case Remove(name) =>
      if Present(slots, name)
      then c.Removed? && c.at < |Listing(slots)| && Matches(Listing(slots)[c.at], name)
        && c.entry[0] == DELETE_ENTRY_MARK
      else c == Unchanged
    case Find(name) => c == Found(Present(slots, name))
    case Next => c == Unchanged
    case Reset => c == Unchanged
  }

  /** The listing and the slots after some changes. */
  function ApplyAll(listing: seq<Record>, changes: seq<Change>): seq<Record> {
    if changes == [] then listing else Apply(ApplyAll(listing, changes[..|changes| - 1]), changes[|changes| - 1])
  }

  ghost function SlotsAfter(dir: Directory, slots: seq<Slot>, changes: seq<Change>): seq<Slot> {
    if changes == [] then slots
    else ApplySlots(dir, SlotsAfter(dir, slots, changes[..|changes| - 1]), changes[|changes| - 1])
  }

  /** Each change is what its operation does to the slots that those before it leave. */
  ghost predicate FulfilsAll(dir: Directory, slots: seq<Slot>, ops: seq<Op>, changes: seq<Change>) {
    && |ops| == |changes|
    && forall k :: 0 <= k < |ops| ==> Fulfils(dir, SlotsAfter(dir, slots, changes[..k]), ops[k], changes[k])
  }

  lemma FulfilsMore(dir: Directory, slots: seq<Slot>, listing: seq<Record>, ops: seq<Op>, changes: seq<Change>, op: Op,
                    c: Change)
    requires FulfilsAll(dir, slots, ops, changes) && Fulfils(dir, SlotsAfter(dir, slots, changes), op, c)
    ensures FulfilsAll(dir, slots, ops + [op], changes + [c])
    ensures SlotsAfter(dir, slots, changes + [c]) == ApplySlots(dir, SlotsAfter(dir, slots, changes), c)
    ensures ApplyAll(listing, changes + [c]) == Apply(ApplyAll(listing, changes), c)
  {
    hide Fulfils, ApplySlots, Apply;
    assert (changes + [c])[..|changes|] == changes;
    forall k | 0 <= k < |ops|
      ensures (changes + [c])[..k] == changes[..k]
    {}
  }

  /** FatCreateDirEnt, after a search that found nothing, where it may be called; `d` is the new entry. */
  method CreateAbsent(dir: Directory, op: Op) returns (d: DirEnt?, ghost c: Change)
    requires op.Create? && dir.Valid() && dir.endOfDir && !Present(dir.file.slots, op.name)
    modifies dir.Repr()
    ensures dir.Valid() && fresh(dir.Repr() - old(dir.Repr()))
    ensures old(OrphanFree(dir.file.slots)) ==> OrphanFree(dir.file.slots)
    ensures Fulfils(dir, old(dir.file.slots), op, c) && dir.file.slots == ApplySlots(dir, old(dir.file.slots), c)
    ensures Listing(dir.file.slots) == Apply(old(Listing(dir.file.slots)), c)
    ensures if d == null then c == Unchanged
      else
        && c.Added? && c.record == d.record && c.entry == d.entry
        && Fits(dir.WithRoom(old(dir.file.slots), d.record.count), d.record.pos, d.record.count)
  {
    hide Directory.Invariant, OrphanFree, Listing, With, EntryCountOf, Stored, Fits, Directory.Room, Directory.NewPos,
      Directory.WithRoom, Matches, EntryOf, OwnFlag, OwnShort, HasOwnShort;
    d, c := null, Unchanged;
    if MayCreate(dir, dir.file.slots, op) {
      CreateAllowed(dir, op);
      var status, added, index, listed := dir.FatCreateDirEnt(op.name, op.attributes, op.info, op.crc, op.grows);
      if status == Success {
        d, c := added, Added(index, listed, added.entry);
      }
    }
  }

  method CreateStep(dir: Directory, op: Op) returns (ghost c: Change)
    requires op.Create? && dir.Valid()
    modifies dir.Repr()
    ensures dir.Valid() && fresh(dir.Repr() - old(dir.Repr()))
    ensures old(OrphanFree(dir.file.slots)) ==> OrphanFree(dir.file.slots)
    ensures Fulfils(dir, old(dir.file.slots), op, c) && dir.file.slots == ApplySlots(dir, old(dir.file.slots), c)
    ensures Listing(dir.file.slots) == Apply(old(Listing(dir.file.slots)), c)
  {
    hide Directory.Invariant, OrphanFree, Listing, With, EntryCountOf, AddedBy, MayCreate, Directory.Room, Matches;
    c := Unchanged;
    var found := dir.FatSearchODir(op.name);
    if found == null {
      var d;
      d, c := CreateAbsent(dir, op);
    }
  }

  lemma CreateAllowed(dir: Directory, op: Op)
    requires op.Create? && MayCreate(dir, dir.file.slots, op)
    ensures NewName(op.name) && |op.info| == 19 && op.attributes / 8 % 2 == 0 && 1 <= EntryCountOf(op.name)
    ensures NameFree(Listing(dir.file.slots), op.name) && dir.AppendFits(dir.file.slots, EntryCountOf(op.name))
      && dir.ReadsBack(dir.file.slots, op.name)
    ensures HasOwnShort(op.name) || SomeNameFree(Listing(dir.file.slots), op.name, op.crc)
  {
    CountPositive(op.name);
  }

  /** FatRemoveDirEnt, for the entry that a search finds. */
  method RemoveStep(dir: Directory, name: Str) returns (d: DirEnt?, ghost c: Change)
    requires dir.Valid()
    modifies dir.Repr()
    ensures dir.Valid() && fresh(dir.Repr() - old(dir.Repr()))
    ensures old(OrphanFree(dir.file.slots)) ==> OrphanFree(dir.file.slots)
    ensures Fulfils(dir, old(dir.file.slots), Remove(name), c)
    ensures dir.file.slots == ApplySlots(dir, old(dir.file.slots), c)
    ensures Listing(dir.file.slots) == Apply(old(Listing(dir.file.slots)), c)
    ensures if d == null then c == Unchanged
      else
        && c.Removed? && c.at < |old(Listing(dir.file.slots))| && d.record == old(Listing(dir.file.slots))[c.at]
        && d.entry == c.entry && Fits(old(dir.file.slots), d.record.pos, d.record.count)
  {
    hide Directory.Invariant, OrphanFree, Listing, IndexOf, Without, Stored, Fits, Matches, Fulfils, ApplySlots, Apply;
    ghost var slots := dir.file.slots;
    c := Unchanged;
    d := dir.FatSearchODir(name);
    if d != null {
      ghost var i := IndexOf(dir.children, d);
      dir.ChildrenAreListed();
      assert RecordsOf(dir.children)[i] == Listing(dir.file.slots)[i];
      dir.FatRemoveDirEnt(d);
      c := Removed(i, d.entry);
      RemovedIs(dir, slots, name, i, d.record, d.entry);
    } else {
      NothingRemoved(dir, slots, name);
    }
  }

  lemma RemovedIs(dir: Directory, slots: seq<Slot>, name: Str, i: nat, r: Record, entry: Slot)
    requires i < |Listing(slots)| && Listing(slots)[i] == r && Matches(r, name) && Fits(slots, r.pos, r.count)
    requires entry[0] == DELETE_ENTRY_MARK
    ensures Fulfils(dir, slots, Remove(name), Removed(i, entry))
    ensures ApplySlots(dir, slots, Removed(i, entry)) == Stored(slots, r.pos, r.count, r.name, entry, true)
    ensures Apply(Listing(slots), Removed(i, entry)) == Without(Listing(slots), i)
  {
    hide Listing, Matches, Without;
    assert r in Listing(slots);
  }

  lemma NothingRemoved(dir: Directory, slots: seq<Slot>, name: Str)
    requires !Present(slots, name)
    ensures Fulfils(dir, slots, Remove(name), Unchanged)
    ensures ApplySlots(dir, slots, Unchanged) == slots && Apply(Listing(slots), Unchanged) == Listing(slots)
  {
    hide Listing, Matches;
  }

  method Step(dir: Directory, op: Op) returns (ghost c: Change)
    requires dir.Valid() && (dir.currentCursor != null ==> dir.currentCursor in dir.children)
    modifies dir.Repr()
    ensures dir.Valid() && fresh(dir.Repr() - old(dir.Repr()))
    ensures dir.currentCursor != null ==> dir.currentCursor in dir.children
    ensures old(OrphanFree(dir.file.slots)) ==> OrphanFree(dir.file.slots)
    ensures Fulfils(dir, old(dir.file.slots), op, c) && dir.file.slots == ApplySlots(dir, old(dir.file.slots), c)
    ensures Listing(dir.file.slots) == Apply(old(Listing(dir.file.slots)), c)
  {
    hide Directory.Invariant, OrphanFree, Listing, With, Without, EntryCountOf, Matches, Stored, Fits, MayCreate;
    c := Unchanged;
    match op {
      case Create(_, _, _, _, _) =>
        c := CreateStep(dir, op);
      case Remove(name) =>
        var d;
        d, c := RemoveStep(dir, name);
      case Find(name) =>
        var d := dir.FatSearchODir(name);
        c := Found(d != null);
      case Next =>
        var d := dir.FatGetNextDirEnt();
      case Reset =>
        dir.FatResetODirCursor();
    }
    dir.CursorInside();
  }

  lemma OpPrefixes(ops: seq<Op>)
    ensures ops[..0] == [] && ops[..|ops|] == ops
    ensures forall k :: 0 <= k < |ops| ==> ops[..k + 1] == ops[..k] + [ops[k]]
  {}

  method Run(dir: Directory, ops: seq<Op>) returns (ghost changes: seq<Change>)
    requires dir.Valid()
    modifies dir.Repr()
    ensures dir.Valid() && fresh(dir.Repr() - old(dir.Repr()))
    ensures old(OrphanFree(dir.file.slots)) ==> OrphanFree(dir.file.slots)
    ensures FulfilsAll(dir, old(dir.file.slots), ops, changes)
    ensures dir.file.slots == SlotsAfter(dir, old(dir.file.slots), changes)
    ensures Listing(dir.file.slots) == ApplyAll(old(Listing(dir.file.slots)), changes)
  {
    hide Directory.Invariant, OrphanFree, Listing, Fulfils, Apply, ApplySlots;
    dir.CursorInside();
    ghost var slots, listing := dir.file.slots, Listing(dir.file.slots);
    changes := [];
    OpPrefixes(ops);
    for k := 0 to |ops|
      invariant dir.Valid() && fresh(dir.Repr() - old(dir.Repr()))
      invariant dir.currentCursor != null ==> dir.currentCursor in dir.children
      invariant old(OrphanFree(dir.file.slots)) ==> OrphanFree(dir.file.slots)
      invariant FulfilsAll(dir, slots, ops[..k], changes) && dir.file.slots == SlotsAfter(dir, slots, changes)
      invariant Listing(dir.file.slots) == ApplyAll(listing, changes)
    {
      hide FulfilsAll, ApplyAll, SlotsAfter;
      ghost var c := Step(dir, ops[k]);
      FulfilsMore(dir, slots, listing, ops[..k], changes, ops[k], c);
      changes := changes + [c];
    }
  }

  /**
   * The reload round trip: after any run in which only entries that read back are created, throwing the memory state
   * away and scanning the directory file again gives the same ordered list of names, short names, positions and slot
   * counts, and that list is what the operations make of the one before.  (An entry that does not read back breaks it
   * at once; see FatCreateDirEnt.)
   */
  method RunThenReload(dir: Directory, ops: seq<Op>, hash: seq<Char16> -> nat)
      returns (before: seq<Record>, after: seq<Record>, ghost changes: seq<Change>)
    requires dir.Valid()
    modifies dir.Repr()
    ensures before == after == Listing(dir.file.slots) && Separate(before)
    ensures FulfilsAll(dir, old(dir.file.slots), ops, changes)
    ensures after == ApplyAll(old(Listing(dir.file.slots)), changes)
  {
    hide Directory.Invariant, Listing, FulfilsAll, ApplyAll, Separate, SlotsAfter;
    changes := Run(dir, ops);
    dir.LoadAll();
    dir.ChildrenAreListed();
    before := RecordsOf(dir.children);
    after := Reload(dir, hash);
    ListingSeparate(dir.file.slots);
  }

  lemma ListingSeparate(slots: seq<Slot>)
    ensures Separate(Listing(slots))
  {
    LiveSeparate(slots, 0, EndOf(slots));
  }

  method Reload(dir: Directory, hash: seq<Char16> -> nat) returns (records: seq<Record>)
    requires dir.Valid()
    ensures records == Listing(dir.file.slots)
  {
    Reopenable(dir);
    hide *;
    records := ScanAgain(dir.file, dir.isFixedRootDir, dir.isRoot, dir.clusterSlots, dir.isFat32, hash);
  }

  /** A directory opened anew, and loaded to its end. */
  method ScanAgain(file: DirFile, fixed: bool, isRoot: bool, clusterSlots: nat, isFat32: bool, hash: seq<Char16> -> nat)
    returns (records: seq<Record>)
    requires EmptyTail(file.slots) && UniqueNames(Listing(file.slots)) && |file.slots| <= MAX_SLOTS && 0 < clusterSlots
    requires !fixed ==> |file.slots| % clusterSlots == 0 && MAX_SLOTS % clusterSlots == 0
    ensures records == Listing(file.slots)
  {
    hide Directory.Invariant, Listing, EmptyTail, UniqueNames, Directory.SizeValid, RecordsOf;
    var again := new Directory(file, fixed, isRoot, clusterSlots, isFat32, hash);
    again.LoadAll();
    again.ChildrenAreListed();
    records := RecordsOf(again.children);
  }

  lemma Reopenable(dir: Directory)
    requires dir.Valid()
    ensures EmptyTail(dir.file.slots) && UniqueNames(Listing(dir.file.slots)) && |dir.file.slots| <= MAX_SLOTS
      && 0 < dir.clusterSlots
    ensures !dir.isFixedRootDir ==> |dir.file.slots| % dir.clusterSlots == 0 && MAX_SLOTS % dir.clusterSlots == 0
  {}

  // ---------------------------------------------------------------- enumeration under deletion

  /** The records that are not removed. */
  function Kept(records: seq<Record>, remove: nat -> bool): seq<Record> {
    if records == [] then []
    else
      var n := |records| - 1;
      Kept(records[..n], remove) + if remove(n) then [] else [records[n]]
  }

  /** The node before a removed one keeps its place. */
  lemma BeforeCut(s: seq<DirEnt>, i: nat)
    requires i < |s| && forall j, k :: 0 <= j < k < |s| ==> s[j] != s[k]
    ensures i > 0 ==> s[i - 1] in Without(s, i) && IndexOf(Without(s, i), s[i - 1]) == i - 1
  {
    if i > 0 { IndexOfIs(Without(s, i), s[i - 1], i - 1); }
  }

  /** Removing the entry that the cursor stands on: the next call goes on with the entry behind it. */
  method RemoveCurrent(dir: Directory, d: DirEnt)
    requires dir.Valid() && dir.currentCursor == d && d in dir.children && 0 < dir.Passed()
    modifies dir.Repr()
    ensures dir.Valid() && fresh(dir.Repr() - old(dir.Repr()))
    ensures (dir.currentCursor != null ==> dir.currentCursor in dir.children) && dir.Passed() == old(dir.Passed()) - 1
    ensures old(dir.Passed()) <= |old(Listing(dir.file.slots))|
    ensures Listing(dir.file.slots) == Without(old(Listing(dir.file.slots)), old(dir.Passed()) - 1)
  {
    hide Directory.Invariant, Listing, IndexOf, Without;
    dir.DistinctChildren();
    BeforeCut(dir.children, IndexOf(dir.children, d));
    dir.FatRemoveDirEnt(d);
  }

  // How far an enumeration has come: of the entries `all` there were, those `visited`, and what is left in the listing.

  ghost predicate Progress(all: seq<Record>, visited: seq<Record>, listing: seq<Record>, passed: nat,
                           remove: nat -> bool) {
    && |visited| <= |all| && visited == all[..|visited|]
    && passed == |Kept(visited, remove)| && listing == Kept(visited, remove) + all[|visited|..]
  }

  lemma ProgressStart(all: seq<Record>, remove: nat -> bool)
    ensures Progress(all, [], all, 0, remove)
  {
    assert all[..0] == [] && [] + all[0..] == all;
  }

  lemma ProgressNext(all: seq<Record>, visited: seq<Record>, listing: seq<Record>, passed: nat, remove: nat -> bool)
    requires Progress(all, visited, listing, passed, remove) && passed < |listing|
    ensures var n := |visited|;
      && n < |all| && listing[passed] == all[n]
      && (!remove(n) ==> Progress(all, visited + [all[n]], listing, passed + 1, remove))
      && (remove(n) ==> Progress(all, visited + [all[n]], Without(listing, passed), passed, remove))
  {
    hide Kept, Without;
    var n, kept := |visited|, Kept(visited, remove);
    NextIs(all, n, kept, listing, passed);
    KeptOne(visited, all[n], remove);
    SplitAt(all, n);
    Regroup(kept, all[n], all[n + 1..]);
  }

  lemma NextIs(all: seq<Record>, n: nat, kept: seq<Record>, listing: seq<Record>, passed: nat)
    requires n <= |all| && passed == |kept| < |listing| && listing == kept + all[n..]
    ensures n < |all| && listing[passed] == all[n]
  {}

  lemma ProgressEnd(all: seq<Record>, visited: seq<Record>, listing: seq<Record>, passed: nat, remove: nat -> bool)
    requires Progress(all, visited, listing, passed, remove) && passed == |listing|
    ensures visited == all && listing == Kept(all, remove)
  {
    assert all[|visited|..] == [];
  }

  lemma Regroup<T>(a: seq<T>, x: T, b: seq<T>)
    ensures a + ([x] + b) == (a + [x]) + b && (a + ([x] + b))[|a|] == x
    ensures Without(a + ([x] + b), |a|) == a + b
  {}

  lemma KeptOne(visited: seq<Record>, r: Record, remove: nat -> bool)
    ensures Kept(visited + [r], remove) == if remove(|visited|) then Kept(visited, remove)
      else Kept(visited, remove) + [r]
  {
    assert (visited + [r])[..|visited|] == visited;
  }

  lemma SplitAt<T>(s: seq<T>, n: nat)
    requires n < |s|
    ensures s[n..] == [s[n]] + s[n + 1..] && s[..n + 1] == s[..n] + [s[n]]
  {}

  /** Every entry is visited once, in the order of the disk, whichever of the visited ones are removed on the way. */
  method EnumerateAndRemove(dir: Directory, remove: nat -> bool) returns (visited: seq<Record>)
    requires dir.Valid()
    modifies dir.Repr()
    ensures dir.Valid() && visited == old(Listing(dir.file.slots))
    ensures Listing(dir.file.slots) == Kept(old(Listing(dir.file.slots)), remove)
  {
    hide Directory.Invariant, Listing, Without, Kept, Directory.Passed, Progress;
    dir.FatResetODirCursor();
    visited := [];
    ghost var all := Listing(dir.file.slots);
    ProgressStart(all, remove);
    ghost var left := |all|;
    while true
      invariant dir.Valid() && fresh(dir.Repr() - old(dir.Repr()))
      invariant dir.currentCursor != null ==> dir.currentCursor in dir.children
      invariant Progress(all, visited, Listing(dir.file.slots), dir.Passed(), remove)
      invariant left + |visited| == |all|
      decreases left
    {
      ghost var listing, passed := Listing(dir.file.slots), dir.Passed();
      var d := dir.FatGetNextDirEnt();
      if d == null {
        ProgressEnd(all, visited, listing, passed, remove);
        break;
      }
      ProgressNext(all, visited, listing, passed, remove);
      if remove(|visited|) { RemoveCurrent(dir, d); }
      visited, left := visited + [d.record], left - 1;
    }
  }

  // ---------------------------------------------------------------- empty directories

  /** A directory that may be deleted: its two dot entries, and nothing else. */
  predicate OnlyDots(listing: seq<Record>) {
    |listing| == 2 && IsDots(listing[0].name) && IsDots(listing[1].name)
  }

  /** The loop of FatDelete that looks at the first three entries. */
  method FatIsEmptyDir(dir: Directory) returns (empty: bool)
    requires dir.Valid()
    modifies dir.Repr()
    ensures dir.Valid() && fresh(dir.Repr() - old(dir.Repr())) && dir.file.slots == old(dir.file.slots)
    ensures empty <==> OnlyDots(Listing(dir.file.slots))
  {
    hide Directory.Invariant, Listing, Directory.Passed, IsDots;
    dir.FatResetODirCursor();
    ghost var listing := Listing(dir.file.slots);
    var round := 0;
    while round < 3
      invariant 0 <= round <= 3 && dir.Valid() && fresh(dir.Repr() - old(dir.Repr()))
      invariant dir.file.slots == old(dir.file.slots)
        && (dir.currentCursor != null ==> dir.currentCursor in dir.children)
      invariant round <= 2 ==> dir.Passed() == round <= |listing|
      invariant round == 3 ==> |listing| == 2
      invariant round >= 1 ==> |listing| >= 1 && IsDots(listing[0].name)
      invariant round >= 2 ==> |listing| >= 2 && IsDots(listing[1].name)
    {
      var d := dir.FatGetNextDirEnt();
      if round < 2 && (d == null || !IsDots(d.record.name)) {
        return false;
      }
      if round == 2 && d != null {
        return false;
      }
      round := round + 1;
    }
    empty := true;
  }
}
