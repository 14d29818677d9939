/**
 * An open directory: the list of its entries, loaded from the directory file as far as needed, its name index and
 * its cursor (DirectoryManage.c).
 */
module Directory {
  import opened FatTypes
  import opened ShortName
  import opened DirSlots
  import opened DirScan
  import opened DirStore
  import opened NameIndex
  import opened EntryNames

  const FAT_MAX_DIRENTRY_COUNT := 0xFFFF
  const MAX_SLOTS := 0x1_0000

  function RecordsOf(children: seq<DirEnt>): (r: seq<Record>)
    ensures |r| == |children|
  {
    seq(|children|, i requires 0 <= i < |children| => children[i].record)
  }

  ghost function NodesOf(children: seq<DirEnt>): set<DirEnt> { set d | d in children }

  lemma NodesWith(children: seq<DirEnt>, i: nat, d: DirEnt)
    requires i <= |children|
    ensures NodesOf(With(children, i, d)) == NodesOf(children) + {d}
  {
    assert children == children[..i] + children[i..];
  }

  /** FatSearchODir's test: the long name without regard to case, or the short name if the name has that form. */
  predicate Matches(r: Record, name: Str) {
    SameName(name, r.name) || (Is8Dot3(name) && BaseName(name) == r.short)
  }

  ghost predicate UniqueNames(records: seq<Record>) {
    forall i, j :: 0 <= i < j < |records| ==>
      && !SameName(records[i].name, records[j].name)
      && records[i].short != records[j].short
  }

  /** The part of the listing below `e` is in memory; all of it, once the end was seen. */
  ghost predicate InMemory(slots: seq<Slot>, records: seq<Record>, e: nat, done: bool) {
    && records == Live(slots, 0, e) && e <= EndOf(slots) && (done ==> e == EndOf(slots))
    && EmptyTail(slots) && UniqueNames(Listing(slots)) && |slots| <= MAX_SLOTS
  }

  class Directory {
    const file: DirFile
    const isFixedRootDir: bool
    const isRoot: bool
    const clusterSlots: nat
    const isFat32: bool
    const shortTable: NameTable
    const longTable: NameTable
    var children: seq<DirEnt>
    var currentEndPos: nat
    var endOfDir: bool
    var currentCursor: DirEnt?  // the head of the list is `null`
    var currentPos: nat

    ghost function TableRepr(): set<object> {
      {shortTable, longTable, shortTable.heads, longTable.heads}
    }

    ghost function Repr(): set<object>
      reads this`children
    {
      {this, file} + TableRepr() + NodesOf(children)
    }

    /** The sizes a directory file may have. */
    ghost predicate SizeValid(length: nat) {
      && length <= MAX_SLOTS && 0 < clusterSlots
      && (!isFixedRootDir ==> length % clusterSlots == 0 && MAX_SLOTS % clusterSlots == 0)
    }

    /** Every entry in memory is a live one, with the short name it is indexed by. */
    ghost predicate EntriesValid()
      reads this`children, NodesOf(children)
    {
      forall d :: d in NodesOf(children) ==> !d.invalid && Listed(d.entry) && ShortNameOf(d.entry) == d.record.short
    }

    ghost predicate Invariant()
      reads this, file, shortTable, longTable, shortTable.heads, longTable.heads, NodesOf(children), shortTable.nodes,
        longTable.nodes
    {
      && InMemory(file.slots, RecordsOf(children), currentEndPos, endOfDir)
      && SizeValid(|file.slots|)
      && IndexValid(shortTable, longTable) && shortTable.nodes == NodesOf(children)
      && EntriesValid()
      && (currentCursor != null ==> currentCursor in children)
    }

    /** The invariant as a single fact. */
    ghost predicate Valid()
      reads this, file, shortTable, longTable, shortTable.heads, longTable.heads, NodesOf(children), shortTable.nodes,
        longTable.nodes
    {
      Invariant() == true
    }

    /** FatRequestODir for a directory that is not cached: nothing is loaded yet. */
    constructor (file: DirFile, isFixedRootDir: bool, isRoot: bool, clusterSlots: nat, isFat32: bool,
                 hash: seq<Char16> -> nat)
      requires EmptyTail(file.slots) && UniqueNames(Listing(file.slots)) && |file.slots| <= MAX_SLOTS
        && 0 < clusterSlots
      requires !isFixedRootDir ==> |file.slots| % clusterSlots == 0 && MAX_SLOTS % clusterSlots == 0
      ensures Valid() && fresh(Repr() - {file}) && this.file == file
      ensures this.isFixedRootDir == isFixedRootDir && this.isRoot == isRoot && this.clusterSlots == clusterSlots
      ensures children == [] && !endOfDir && currentCursor == null
    {
      this.file, this.isFixedRootDir, this.isRoot := file, isFixedRootDir, isRoot;
      this.clusterSlots, this.isFat32 := clusterSlots, isFat32;
      shortTable := new NameTable(ByShortName, hash);
      longTable := new NameTable(ByLongName, hash);
      children, currentEndPos, endOfDir, currentCursor, currentPos := [], 0, false, null, 0;
    }

    // ---------------------------------------------------------------- loading

    /** FatAddDirEnt: the entry is linked in front of the i-th child, and indexed. */
    method FatAddDirEnt(d: DirEnt, i: nat)
      requires IndexValid(shortTable, longTable) && shortTable.nodes == NodesOf(children) && d !in NodesOf(children)
        && i <= |children|
      requires EntriesValid() && !d.invalid && Listed(d.entry) && ShortNameOf(d.entry) == d.record.short
      modifies this`children, TableRepr()
      modifies d`longNameForwardLink, d`shortNameForwardLink
      ensures IndexValid(shortTable, longTable) && shortTable.nodes == NodesOf(children) && EntriesValid()
      ensures children == With(old(children), i, d)
    {
      hide Listed, ShortNameOf, With, IndexInvariant;
      FatInsertToHashTable(shortTable, longTable, d);
      LinkChild(d, i);
    }

    /** The node is linked in front of the i-th child. */
    method LinkChild(d: DirEnt, i: nat)
      requires IndexValid(shortTable, longTable) && shortTable.nodes == NodesOf(children) + {d} && i <= |children|
      requires EntriesValid() && !d.invalid && Listed(d.entry) && ShortNameOf(d.entry) == d.record.short
      modifies this`children
      ensures IndexValid(shortTable, longTable) && shortTable.nodes == NodesOf(children) && EntriesValid()
      ensures children == With(old(children), i, d)
    {
      hide Listed, ShortNameOf, With, IndexInvariant;
      NodesWith(children, i, d);
      children := With(children, i, d);
    }

    method SkipOne()
      requires Valid() && Skips(At(file.slots, currentEndPos))
      modifies this`currentEndPos
      ensures Valid() && currentEndPos == old(currentEndPos) + 1 <= EndOf(file.slots)
    {
      SkippedOne(file.slots, RecordsOf(children), currentEndPos, endOfDir);
      hide InMemory, IndexValid, RecordsOf;
      currentEndPos := currentEndPos + 1;
    }

    /** The loop of FatLoadNextDirEnt: the next position that is not skipped. */
    method SkipToNext() returns (entry: Slot)
      requires Valid()
      modifies this`currentEndPos
      ensures Valid() && entry == At(file.slots, currentEndPos) && !Skips(entry) && currentEndPos >= old(currentEndPos)
    {
      hide Invariant, Skips, At;
      entry := file.ReadEntry(currentEndPos);
      while Skips(entry)
        invariant Valid() && entry == At(file.slots, currentEndPos) && currentEndPos >= old(currentEndPos)
        decreases EndOf(file.slots) - currentEndPos
      {
        SkipOne();
        entry := file.ReadEntry(currentEndPos);
      }
    }

    /** A node for the entry at the current end. */
    method NewDirEnt(slot: Slot) returns (d: DirEnt)
      requires Valid() && slot == At(file.slots, currentEndPos) && Listed(slot)
      ensures Valid() && fresh(d) && d.record == RecordAt(file.slots, currentEndPos)
      ensures !d.invalid && Listed(d.entry) && ShortNameOf(d.entry) == d.record.short
    {
      hide *;
      var entry := if isFat32 then slot else slot[20 := 0][21 := 0];
      var count, name := LoadLongName(entry);
      LoadedRecord(file.slots, currentEndPos, slot, entry, count, name);
      d := MakeDirEnt(Record(currentEndPos % 0x1_0000, count, name, ShortNameOf(entry)), entry);
    }

    method LoadLongName(entry: Slot) returns (count: nat, name: Str)
      requires Valid()
      ensures Valid() && |file.slots| <= MAX_SLOTS && Loaded(count, name) == LoadName(file.slots, currentEndPos, entry)
    {
      count, name := file.FatLoadLongNameEntry(currentEndPos, entry);
    }

    method MakeDirEnt(record: Record, entry: Slot) returns (d: DirEnt)
      requires Valid()
      ensures Valid() && fresh(d) && d.record == record && d.entry == entry && !d.invalid
    {
      d := new DirEnt(record, entry);
    }

    /** The node just loaded becomes the last child. */
    method AddLast(d: DirEnt)
      requires Valid() && Listed(At(file.slots, currentEndPos)) && d.record == RecordAt(file.slots, currentEndPos)
      requires d !in NodesOf(children) && !d.invalid && Listed(d.entry) && ShortNameOf(d.entry) == d.record.short
      modifies this`children, this`currentEndPos, TableRepr()
      modifies d`longNameForwardLink, d`shortNameForwardLink
      ensures Valid() && children == old(children) + [d] && currentEndPos == old(currentEndPos) + 1
    {
      hide Invariant, InMemory, Live, EntriesValid, IndexValid, Listed, RecordAt, RecordsOf, With, SizeValid, At,
        ShortNameOf;
      Parts();
      LoadedOne(file.slots, RecordsOf(children), currentEndPos, endOfDir);
      LinkedLast(children, d);
      Advance();
      FatAddDirEnt(d, |children|);
      Whole();
    }

    lemma Parts()
      requires Valid()
      ensures InMemory(file.slots, RecordsOf(children), currentEndPos, endOfDir) && SizeValid(|file.slots|)
      ensures IndexValid(shortTable, longTable) && shortTable.nodes == NodesOf(children) && EntriesValid()
      ensures currentCursor != null ==> currentCursor in children
    {}

    lemma Whole()
      requires InMemory(file.slots, RecordsOf(children), currentEndPos, endOfDir) && SizeValid(|file.slots|)
      requires IndexValid(shortTable, longTable) && shortTable.nodes == NodesOf(children) && EntriesValid()
      requires currentCursor != null ==> currentCursor in children
      ensures Valid()
    {}

    method Advance()
      requires IndexValid(shortTable, longTable) && EntriesValid()
      modifies this`currentEndPos
      ensures IndexValid(shortTable, longTable) && EntriesValid() && currentEndPos == old(currentEndPos) + 1
    {
      currentEndPos := currentEndPos + 1;
    }

    method AtEnd()
      requires Valid() && Ends(At(file.slots, currentEndPos))
      modifies this`endOfDir
      ensures Valid() && endOfDir
    {
      EndFound(file.slots, currentEndPos);
      hide IndexValid, RecordsOf, EndOf;
      endOfDir := true;
    }

    /** FatLoadNextDirEnt: the next entry of the listing, or nothing at the end of the directory. */
    method FatLoadNextDirEnt() returns (d: DirEnt?)
      requires Valid() && !endOfDir
      modifies this`children, this`currentEndPos, this`endOfDir, TableRepr()
      ensures Valid() && fresh(Repr() - old(Repr()))
      ensures d == null ==> endOfDir && children == old(children)
      ensures d != null ==>
        && !endOfDir && children == old(children) + [d] && currentEndPos > old(currentEndPos)
        && fresh(d)
    {
      hide Invariant;
      var entry := SkipToNext();
      EndIsNear(file.slots, currentEndPos);
      if entry[0] == EMPTY_ENTRY_MARK {
        AtEnd();
        return null;
      }
      d := NewDirEnt(entry);
      AddLast(d);
    }

    /** Load what is left of the directory. */
    method LoadAll()
      requires Valid()
      modifies this`children, this`currentEndPos, this`endOfDir, TableRepr()
      ensures Valid() && fresh(Repr() - old(Repr())) && endOfDir && old(children) <= children
    {
      hide Invariant;
      while !endOfDir
        invariant Valid() && fresh(Repr() - old(Repr())) && old(children) <= children
        decreases !endOfDir, EndOf(file.slots) - currentEndPos
      {
        InBounds();
        var d := FatLoadNextDirEnt();
        InBounds();
      }
    }

    lemma InBounds()
      requires Valid()
      ensures currentEndPos <= EndOf(file.slots)
    {}

    /** The children are the first entries of the listing; all of them, at the end of the directory. */
    lemma ChildrenAreListed()
      requires Valid()
      ensures |children| <= |Listing(file.slots)| && RecordsOf(children) == Listing(file.slots)[..|children|]
      ensures endOfDir ==> RecordsOf(children) == Listing(file.slots)
      ensures UniqueNames(Listing(file.slots)) && UniqueNames(RecordsOf(children))
    {
      LiveJoin(file.slots, 0, currentEndPos, EndOf(file.slots));
    }

    // ---------------------------------------------------------------- searching

    /** The search of both tables: the long name first, then the short name if the name has that form. */
    method SearchTables(name: Str, possible: bool, short: Name83) returns (d: DirEnt?)
      requires Valid() && possible == Is8Dot3(name) && short == BaseName(name)
      ensures Valid()
      ensures d != null ==> d in children && Matches(d.record, name)
      ensures d == null ==> forall c :: c in children ==> !Matches(c.record, name)
    {
      hide InMemory, EntriesValid, NameTable.Valid, Is8Dot3, BaseName, Upper, Widened;
      ghost var nodes := longTable.nodes;
      assert nodes == NodesOf(children) == shortTable.nodes;
      d := FindLong(name);
      if d == null && possible {
        d := FindShort(short);
      }
    }

    method FindLong(name: Str) returns (d: DirEnt?)
      requires IndexValid(shortTable, longTable)
      ensures d != null ==> d in longTable.nodes && SameName(name, d.record.name)
      ensures d == null ==> forall c :: c in longTable.nodes ==> !SameName(name, c.record.name)
    {
      var previous;
      ghost var i;
      previous, d, i := longTable.Search(Upper(name));
      hide Upper;
      forall c | c in longTable.nodes && d == null
        ensures !SameName(name, c.record.name)
      {
        assert c.Key(ByLongName) != Upper(name);
      }
    }

    method FindShort(short: Name83) returns (d: DirEnt?)
      requires IndexValid(shortTable, longTable)
      ensures d != null ==> d in shortTable.nodes && d.record.short == short
      ensures d == null ==> forall c :: c in shortTable.nodes ==> c.record.short != short
    {
      var previous;
      ghost var i;
      previous, d, i := shortTable.Search(Widened(short));
      SameShort(d, short);
      hide Widened;
      forall c | c in shortTable.nodes && d == null
        ensures c.record.short != short
      {
        assert c.Key(ByShortName) != Widened(short);
      }
    }

    method CheckName(name: Str) returns (possible: bool, short: Name83)
      requires Valid()
      ensures Valid() && possible == Is8Dot3(name) && short == BaseName(name)
    {
      possible, short := FatCheckIs8Dot3Name(name);
    }

    /** FatSearchODir: an entry that matches the name, if a scan of the whole directory file lists one. */
    method FatSearchODir(name: Str) returns (d: DirEnt?)
      requires Valid()
      modifies this`children, this`currentEndPos, this`endOfDir, TableRepr()
      ensures Valid() && fresh(Repr() - old(Repr())) && old(children) <= children
      ensures d != null ==> d in children && Matches(d.record, name) && d.record in Listing(file.slots)
      ensures d != null <==> exists r :: r in Listing(file.slots) && Matches(r, name)
      ensures d == null ==> endOfDir
    {
      hide Invariant, Is8Dot3, BaseName, SameName;
      var possible, short := CheckName(name);
      d := SearchTables(name, possible, short);
      if d == null {
        while !endOfDir
          invariant Valid() && fresh(Repr() - old(Repr())) && old(children) <= children
          invariant d == null && forall c :: c in children ==> !Matches(c.record, name)
          decreases !endOfDir, EndOf(file.slots) - currentEndPos
        {
          InBounds();
          d := FatLoadNextDirEnt();
          InBounds();
          if d != null {
            if SameName(name, d.record.name) { break; }
            if possible && short == d.record.short { break; }
          }
          d := null;
        }
      }
      FoundIffListed(d, name);
    }

    lemma FoundIffListed(d: DirEnt?, name: Str)
      requires Valid()
      requires d != null ==> d in children && Matches(d.record, name)
      requires d == null ==> endOfDir && forall c :: c in children ==> !Matches(c.record, name)
      ensures d != null ==> d.record in Listing(file.slots)
      ensures d != null <==> exists r :: r in Listing(file.slots) && Matches(r, name)
    {
      ChildrenAreListed();
      hide Invariant, Matches;
      if d != null {
        var i :| 0 <= i < |children| && children[i] == d;
        assert Listing(file.slots)[i] == RecordsOf(children)[i] == d.record;
      } else {
        forall i | 0 <= i < |Listing(file.slots)|
          ensures !Matches(Listing(file.slots)[i], name)
        {
          assert Listing(file.slots)[i] == children[i].record;
        }
      }
    }

    // ---------------------------------------------------------------- enumerating

    /** How many children the cursor has passed. */
    function Passed(): (n: nat)
      requires currentCursor != null ==> currentCursor in children
      reads this`currentCursor, this`children
      ensures n <= |children|
    {
      if currentCursor == null then 0 else IndexOf(children, currentCursor) + 1
    }

    lemma CursorInside()
      requires Valid()
      ensures currentCursor != null ==> currentCursor in children
    {}

    /** FatResetODirCursor. */
    method FatResetODirCursor()
      requires Valid()
      modifies this`currentCursor, this`currentPos
      ensures Valid() && currentCursor == null && Passed() == 0
    {
      currentCursor, currentPos := null, 0;
    }

    method MoveCursor(d: DirEnt)
      requires Valid() && d in children
      modifies this`currentCursor, this`currentPos
      ensures Valid() && currentCursor == d && currentPos == d.record.pos + 1
    {
      currentCursor, currentPos := d, d.record.pos + 1;
    }

    method StayAtEnd()
      requires Valid()
      modifies this`currentPos
      ensures Valid() && currentPos == currentEndPos
    {
      currentPos := currentEndPos;
    }

    /** FatGetNextDirEnt: the next entry of the listing, which is loaded if it was not. */
    method FatGetNextDirEnt() returns (d: DirEnt?)
      requires Valid() && (currentCursor != null ==> currentCursor in children)
      modifies this`children, this`currentEndPos, this`endOfDir, this`currentCursor, this`currentPos, TableRepr()
      ensures Valid() && fresh(Repr() - old(Repr())) && (currentCursor != null ==> currentCursor in children)
      ensures old(Passed()) <= |Listing(file.slots)|
      ensures d == null <==> old(Passed()) == |Listing(file.slots)|
      ensures d == null ==> Passed() == old(Passed()) && endOfDir && currentPos == currentEndPos
      ensures d != null ==>
        && d in children && d.record == Listing(file.slots)[old(Passed())]
        && Passed() == old(Passed()) + 1 && currentCursor == d && currentPos == d.record.pos + 1
    {
      hide Invariant, Listing;
      DistinctChildren();
      ghost var passed := Passed();
      if Passed() == |children| && !endOfDir {
        var loaded := FatLoadNextDirEnt();
        DistinctChildren();
      }
      ChildrenAreListed();
      CursorInside();
      if Passed() == |children| {
        d := null;
        StayAtEnd();
      } else {
        d := children[Passed()];
        assert RecordsOf(children)[Passed()] == d.record;
        MoveCursor(d);
        IndexOfIs(children, d, passed);
      }
    }

    lemma DistinctChildren()
      requires Valid()
      ensures forall i, j :: 0 <= i < j < |children| ==> children[i] != children[j]
    {
      LiveSeparate(file.slots, 0, currentEndPos);
      forall i, j | 0 <= i < j < |children|
        ensures children[i] != children[j]
      {
        var records := RecordsOf(children);
        assert records[i].pos + records[j].count <= records[j].pos;
        LiveFits(file.slots, currentEndPos, j);
      }
    }

    // ---------------------------------------------------------------- removing

    /** A cursor on the entry moves to the one before it. */
    method StepBack(d: DirEnt)
      requires Valid() && d in children
      modifies this`currentCursor
      ensures Valid()
      ensures currentCursor == if old(currentCursor) != d then old(currentCursor)
        else if IndexOf(children, d) == 0 then null else children[IndexOf(children, d) - 1]
      ensures currentCursor != d && (currentCursor != null ==> currentCursor in children)
    {
      DistinctChildren();
      hide InMemory, IndexInvariant, RecordsOf, Listed;
      if currentCursor == d {
        var i := IndexOf(children, d);
        currentCursor := if i == 0 then null else children[i - 1];
      }
    }

    /** No other entry has this one's names. */
    lemma OnlyKeys(d: DirEnt)
      requires UniqueNames(RecordsOf(children)) && d in children
      requires shortTable.nodes == longTable.nodes == NodesOf(children)
      requires shortTable.kind == ByShortName && longTable.kind == ByLongName
      ensures shortTable.OnlyKey(d) && longTable.OnlyKey(d)
    {
      var i :| 0 <= i < |children| && children[i] == d;
      forall e | e in children
        ensures SameName(e.record.name, d.record.name) || e.record.short == d.record.short ==> e == d
      {
        var j :| 0 <= j < |children| && children[j] == e;
        assert RecordsOf(children)[i] == d.record && RecordsOf(children)[j] == e.record;
      }
      forall e | e in children
        ensures e.Key(ByShortName) == d.Key(ByShortName) ==> e.record.short == d.record.short
      {
        WidenedInjective(e.record.short, d.record.short);
      }
    }

    /** The entry leaves the list and the index. */
    method UnlinkChild(d: DirEnt)
      requires IndexValid(shortTable, longTable) && shortTable.nodes == NodesOf(children) && EntriesValid()
      requires UniqueNames(RecordsOf(children)) && d in children
      requires forall i, j :: 0 <= i < j < |children| ==> children[i] != children[j]
      modifies this`children, TableRepr(), NodesOf(children)`longNameForwardLink, NodesOf(children)`shortNameForwardLink
      ensures IndexValid(shortTable, longTable) && shortTable.nodes == NodesOf(children) && EntriesValid()
      ensures children == Without(old(children), IndexOf(old(children), d)) && d !in children
    {
      hide IndexInvariant, NameTable.OnlyKey, RecordsOf, UniqueNames, Listed, NodesOf, IndexOf, Without;
      BeforeUnlink(d);
      UnlinkFromTables(d);
      children := Without(children, IndexOf(children, d));
    }

    lemma BeforeUnlink(d: DirEnt)
      requires IndexValid(shortTable, longTable) && shortTable.nodes == NodesOf(children)
      requires UniqueNames(RecordsOf(children)) && d in children
      requires forall i, j :: 0 <= i < j < |children| ==> children[i] != children[j]
      ensures shortTable.OnlyKey(d) && longTable.OnlyKey(d) && d in NodesOf(children)
      ensures var i := IndexOf(children, d);
        NodesOf(Without(children, i)) == NodesOf(children) - {d} && d !in Without(children, i)
    {
      TablesAlike();
      OnlyKeys(d);
      NodesWithout(children, IndexOf(children, d));
    }

    lemma TablesAlike()
      requires IndexValid(shortTable, longTable)
      ensures shortTable.nodes == longTable.nodes && shortTable.kind == ByShortName && longTable.kind == ByLongName
    {}

    method UnlinkFromTables(d: DirEnt)
      requires IndexValid(shortTable, longTable) && shortTable.nodes == NodesOf(children) && EntriesValid()
        && d in NodesOf(children)
      requires shortTable.OnlyKey(d) && longTable.OnlyKey(d)
      modifies TableRepr(), NodesOf(children)`longNameForwardLink, NodesOf(children)`shortNameForwardLink
      ensures IndexValid(shortTable, longTable) && shortTable.nodes == NodesOf(children) - {d} && EntriesValid()
    {
      hide IndexInvariant, NameTable.OnlyKey, Listed;
      FatDeleteFromHashTable(shortTable, longTable, d);
    }

    /** The entry is marked deleted, in memory and on the disk. */
    method StoreDeleted(d: DirEnt, ghost records: seq<Record>, ghost i: nat)
      requires IndexValid(shortTable, longTable) && shortTable.nodes == NodesOf(children) && EntriesValid()
        && d !in children
      requires currentCursor != null ==> currentCursor in children
      requires InMemory(file.slots, records, currentEndPos, endOfDir) && SizeValid(|file.slots|)
      requires i < |records| && records[i] == d.record && RecordsOf(children) == Without(records, i) && Listed(d.entry)
      modifies file, d`entry, d`invalid
      ensures Valid() && d.invalid && d.entry == old(d.entry)[0 := DELETE_ENTRY_MARK]
      ensures Fits(old(file.slots), d.record.pos, d.record.count)
      ensures file.slots == Stored(old(file.slots), d.record.pos, d.record.count, d.record.name, d.entry, true)
      ensures i < |old(Listing(file.slots))| && Listing(file.slots) == Without(old(Listing(file.slots)), i)
      ensures old(OrphanFree(file.slots)) ==> OrphanFree(file.slots)
    {
      hide InMemory, Live, EndFrom, Stored, RecordsOf, Without, NameTable.Valid, SizeValid, OrphanFree;
      RemovedInMemory(file.slots, records, currentEndPos, endOfDir, i, d.entry[0 := DELETE_ENTRY_MARK]);
      StillListed(d.entry);
      MarkDeleted(d);
      file.FatStoreDirEnt(d.record.pos, d.record.count, d.record.name, d.entry, d.invalid);
    }

    method MarkDeleted(d: DirEnt)
      requires IndexValid(shortTable, longTable) && shortTable.nodes == NodesOf(children) && EntriesValid()
        && d !in children
      modifies d`entry, d`invalid
      ensures IndexValid(shortTable, longTable) && shortTable.nodes == NodesOf(children) && EntriesValid()
      ensures d.entry == old(d.entry)[0 := DELETE_ENTRY_MARK] && d.invalid
    {
      hide NameTable.Valid;
      d.entry := d.entry[0 := DELETE_ENTRY_MARK];
      d.invalid := true;
    }

    /** FatRemoveDirEnt: the entry leaves the listing, the list and the index; a cursor on it steps back. */
    method FatRemoveDirEnt(d: DirEnt)
      requires Valid() && d in children
      modifies this`children, this`currentCursor, TableRepr(), file, NodesOf(children)
      ensures Valid() && Repr() <= old(Repr()) && d.invalid && d.entry == old(d.entry)[0 := DELETE_ENTRY_MARK]
      ensures Fits(old(file.slots), d.record.pos, d.record.count)
      ensures file.slots == Stored(old(file.slots), d.record.pos, d.record.count, d.record.name, d.entry, true)
      ensures var i := IndexOf(old(children), d);
        && i < |old(Listing(file.slots))| && Listing(file.slots) == Without(old(Listing(file.slots)), i)
        && children == Without(old(children), i)
        && currentCursor == if old(currentCursor) != d then old(currentCursor) else if i == 0 then null
          else old(children)[i - 1]
      ensures endOfDir == old(endOfDir) && currentEndPos == old(currentEndPos)
      ensures old(OrphanFree(file.slots)) ==> OrphanFree(file.slots)
    {
      hide Invariant, InMemory, Live, EntriesValid, IndexValid, Listed, RecordAt, RecordsOf, SizeValid, At,
        ShortNameOf, Stored, Without;
      ghost var i, before := IndexOf(children, d), children;
      ghost var records := RecordsOf(children);
      StepBack(d);
      Parts();
      ChildrenAreListed();
      DistinctChildren();
      LiveChild(d);
      RecordsWithout(children, i);
      UnlinkChild(d);
      KeptIn(before, i, currentCursor);
      StoreDeleted(d, records, i);
    }

    lemma LiveChild(d: DirEnt)
      requires EntriesValid() && d in children
      ensures Listed(d.entry)
    {}

    // ---------------------------------------------------------------- a place for a new entry

    /** FatSeekVolumeId: the position of the volume label, if there is one. */
    method FatSeekVolumeId() returns (label_: int)
      ensures label_ == SeekLabel(file.slots, 0)
    {
      var p: nat := 0;
      while true
        invariant SeekLabel(file.slots, 0) == SeekLabel(file.slots, p)
        decreases |file.slots| - p
      {
        var entry := file.ReadEntry(p);
        if IsLabel(entry) { return p; }
        if entry[0] == EMPTY_ENTRY_MARK { return -1; }
        p := p + 1;
      }
    }

    /** The position of the label that the first fit avoids: 0 when there is none, and outside the root. */
    function LabelPos(slots: seq<Slot>): nat {
      if isRoot && SeekLabel(slots, 0) >= 0 then SeekLabel(slots, 0) else 0
    }

    method SeekLabelPos() returns (labelPos: nat)
      ensures labelPos == LabelPos(file.slots)
    {
      labelPos := 0;
      if isRoot {
        var found := FatSeekVolumeId();
        if found >= 0 { labelPos := found; }
      }
    }

    /** The loop of FatFirstFitInsertDirEnt. */
    method FindGap(count: nat, labelPos: nat) returns (index: nat, pos: nat)
      ensures index <= |children| && pos == PrevPos(RecordsOf(children), index) + count
      ensures index == FirstGap(RecordsOf(children), labelPos, count, 0)
    {
      ghost var records := RecordsOf(children);
      hide GapFits, LabelClear;
      var currentPos := 0;
      pos, index := count, 0;
      while index < |children|
        invariant index <= |children| && currentPos == PrevPos(records, index) && pos == currentPos + count
        invariant FirstGap(records, labelPos, count, 0) == FirstGap(records, labelPos, count, index)
      {
        var current := children[index].record;
        GapTest(records, index, count, labelPos, currentPos, current);
        if pos + current.count <= current.pos && (labelPos > pos || labelPos <= currentPos) {
          return;
        }
        currentPos := current.pos;
        pos := currentPos + count;
        index := index + 1;
      }
    }

    /** FatFirstFitInsertDirEnt: the first gap that holds `count` slots and does not hold the label; or the last gap. */
    method FatFirstFitInsertDirEnt(count: nat) returns (status: Status, pos: nat, index: nat)
      requires Valid() && endOfDir && 1 <= count
      ensures Valid() && (status == Success || status == VolumeFull)
      ensures status == Success <==> GapFound(RecordsOf(children), currentEndPos, LabelPos(file.slots), count)
      ensures status == Success ==> FirstFit(RecordsOf(children), currentEndPos, LabelPos(file.slots), count, index)
      ensures status == Success ==>
        index == FirstGap(RecordsOf(children), LabelPos(file.slots), count, 0)
          && pos == PrevPos(RecordsOf(children), index) + count
      ensures status != Success ==> NoFit(RecordsOf(children), currentEndPos, LabelPos(file.slots), count)
    {
      var labelPos := SeekLabelPos();
      index, pos := FindGap(count, labelPos);
      FirstGapFits(RecordsOf(children), labelPos, count, 0);
      hide Invariant, NoneBefore, GapFits, LabelClear, FirstGap, LabelPos;
      status := if index == |children| && pos >= currentEndPos then VolumeFull else Success;
    }

    // What a creation finds in a directory with these slots.

    /** The directory may not hold this many slots any more. */
    predicate AtCapacity(slots: seq<Slot>, newEnd: nat) {
      newEnd >= if isFixedRootDir then |slots| else FAT_MAX_DIRENTRY_COUNT
    }

    /** An entry of `count` slots does not fit behind the end. */
    predicate TooShort(slots: seq<Slot>, count: nat) { EndOf(slots) + count > |slots| }

    /** A cluster is added for it, and not a gap looked for. */
    predicate NeedsCluster(slots: seq<Slot>, count: nat) {
      TooShort(slots, count) && !AtCapacity(slots, EndOf(slots) + count)
    }

    /** The one cluster that is added holds what is appended; the code asserts this of its caller. */
    predicate AppendFits(slots: seq<Slot>, count: nat) {
      NeedsCluster(slots, count) ==> EndOf(slots) + count <= |slots| + clusterSlots
    }

    /** There is a place for it, if a cluster can be added (`grows`). */
    predicate Room(slots: seq<Slot>, count: nat, grows: bool) {
      TooShort(slots, count) ==>
        if AtCapacity(slots, EndOf(slots) + count) then GapFound(Listing(slots), EndOf(slots), LabelPos(slots), count)
        else grows
    }

    /** The slots in which it is then stored. */
    function WithRoom(slots: seq<Slot>, count: nat): seq<Slot> {
      if NeedsCluster(slots, count) then slots + EmptySlots(clusterSlots) else slots
    }

    /** Where an entry of `count` slots goes, if it is created. */
    function NewPos(slots: seq<Slot>, count: nat): nat
      requires 1 <= count
    {
      var e, records := EndOf(slots), Listing(slots);
      if TooShort(slots, count) && AtCapacity(slots, e + count)
      then PrevPos(records, FirstGap(records, LabelPos(slots), count, 0)) + count
      else e + count - 1
    }

    /**
     * An entry created with this name will be read back: it has long-name slots, or its characters survive the short
     * name and nothing below it is taken for a long-name slot.
     */
    predicate ReadsBack(slots: seq<Slot>, name: Str) {
      EntryCountOf(name) == 1 && HasOwnShort(name) ==> ReadsBackAt(slots, NewPos(slots, 1), 1, name, OwnShort(name))
    }

    /** All is in memory, while the current end already counts the new entry. */
    ghost predicate WholeInMemory()
      reads this, file, shortTable, longTable, shortTable.heads, longTable.heads, NodesOf(children), shortTable.nodes,
        longTable.nodes
    {
      && InMemory(file.slots, RecordsOf(children), EndOf(file.slots), true) && endOfDir && SizeValid(|file.slots|)
      && IndexValid(shortTable, longTable) && shortTable.nodes == NodesOf(children) && EntriesValid()
      && (currentCursor != null ==> currentCursor in children)
    }

    lemma AllInMemory()
      requires Valid() && endOfDir
      ensures WholeInMemory() && currentEndPos == EndOf(file.slots)
    {}

    /** Where the new entry goes: behind the end, or into a gap. */
    ghost predicate Placed(pos: nat, count: nat, index: nat)
      reads this`currentEndPos, this`children, file
    {
      PlacedIn(file.slots, pos, count, index, currentEndPos)
    }

    method ExpandOne()
      requires WholeInMemory() && !isFixedRootDir && |file.slots| < FAT_MAX_DIRENTRY_COUNT
      modifies file
      ensures WholeInMemory()
      ensures file.slots == old(file.slots) + EmptySlots(clusterSlots)
        && forall p: nat :: At(file.slots, p) == old(At(file.slots, p))
      ensures old(OrphanFree(file.slots)) ==> OrphanFree(file.slots)
      ensures EndOf(file.slots) == old(EndOf(file.slots)) && Listing(file.slots) == old(Listing(file.slots))
    {
      hide Live, EmptyTail, OrphanFree, RecordsOf, UniqueNames, EndFrom, IndexInvariant, RecordAt, One;
      ExpandedReadsSame(file.slots, clusterSlots);
      NextCluster(|file.slots|, clusterSlots);
      file.Expand(clusterSlots);
    }

    method SetEnd(newEnd: nat)
      requires WholeInMemory()
      modifies this`currentEndPos
      ensures WholeInMemory() && currentEndPos == newEnd
    {
      hide InMemory, IndexInvariant, RecordsOf;
      currentEndPos := newEnd;
    }

    /**
     * FatNewEntryPos: behind the end, in an added cluster if needed; in a gap when the directory is as long as it may
     * be.
     */
    method FatNewEntryPos(count: nat, grows: bool) returns (status: Status, pos: nat, index: nat)
      requires Valid() && 1 <= count && AppendFits(file.slots, count)
      modifies this`children, this`currentEndPos, this`endOfDir, TableRepr(), file
      ensures WholeInMemory() && endOfDir && fresh(Repr() - old(Repr())) && old(children) <= children
      ensures status == if Room(old(file.slots), count, grows) then Success else VolumeFull
      ensures file.slots == if status == Success then WithRoom(old(file.slots), count) else old(file.slots)
      ensures EndOf(file.slots) == old(EndOf(file.slots)) && Listing(file.slots) == old(Listing(file.slots))
      ensures forall p: nat :: At(file.slots, p) == old(At(file.slots, p))
      ensures old(OrphanFree(file.slots)) ==> OrphanFree(file.slots)
      ensures status == Success ==>
        Placed(pos, count, index) && pos < MAX_SLOTS && pos == NewPos(old(file.slots), count)
      ensures status != Success ==> Valid()
    {
      hide Invariant, WholeInMemory, InMemory, Live, Placed, AppendFits, OrphanFree, FirstGap, EndFrom, GapFound;
      LoadAll();
      AllInMemory();
      if currentEndPos + count > |file.slots| {
        if AtCapacity(file.slots, currentEndPos + count) {
          status, pos, index := PlaceInGap(count);
          return;
        }
        if !grows {
          return VolumeFull, 0, 0;
        }
        ClusterHolds(count);
        ExpandOne();
      }
      pos, index := PlaceAtEnd(count);
      status := Success;
    }

    lemma ClusterHolds(count: nat)
      requires WholeInMemory() && currentEndPos == EndOf(file.slots) && AppendFits(file.slots, count)
      requires NeedsCluster(file.slots, count)
      ensures !isFixedRootDir && |file.slots| < FAT_MAX_DIRENTRY_COUNT
        && currentEndPos + count <= |file.slots| + clusterSlots
    {}

    method PlaceInGap(count: nat) returns (status: Status, pos: nat, index: nat)
      requires Valid() && endOfDir && 1 <= count
      ensures WholeInMemory() && Valid() && (status == Success || status == VolumeFull)
      ensures status == Success <==>
        GapFound(Listing(file.slots), EndOf(file.slots), LabelPos(file.slots), count)
      ensures status == Success ==> Placed(pos, count, index) && pos < MAX_SLOTS
      ensures status == Success ==>
        pos == PrevPos(Listing(file.slots), FirstGap(Listing(file.slots), LabelPos(file.slots), count, 0)) + count
    {
      hide Invariant, InMemory, Live, FirstGap, GapFound;
      status, pos, index := FatFirstFitInsertDirEnt(count);
      AllInMemory();
      ChildrenAreListed();
      if status == Success {
        FitIsGap(Listing(file.slots), currentEndPos, LabelPos(file.slots), count, index);
        GapInside(pos, count, index);
      }
    }

    method PlaceAtEnd(count: nat) returns (pos: nat, index: nat)
      requires WholeInMemory() && currentEndPos == EndOf(file.slots) && 1 <= count
        && currentEndPos + count <= |file.slots|
      modifies this`currentEndPos
      ensures WholeInMemory() && Placed(pos, count, index) && pos < MAX_SLOTS && pos == EndOf(file.slots) + count - 1
    {
      hide WholeInMemory, Live, Listing, EndFrom, EndOf, InMemory, GapHolds;
      SizeFacts();
      WholeListing();
      BehindTheEnd(file.slots, count, currentEndPos + count);
      SetEnd(currentEndPos + count);
      pos, index := (currentEndPos - 1) % 0x1_0000, |children|;
    }

    lemma SizeFacts()
      requires WholeInMemory()
      ensures |file.slots| <= MAX_SLOTS && EndOf(file.slots) <= |file.slots|
    {
      EndInside(file.slots);
    }

    lemma GapInside(pos: nat, count: nat, index: nat)
      requires WholeInMemory() && GapHolds(Listing(file.slots), index, EndOf(file.slots), pos, count)
      ensures pos < MAX_SLOTS
    {
      GapFacts(file.slots, index, pos, count);
      EndInside(file.slots);
    }

    lemma WholeListing()
      requires WholeInMemory()
      ensures RecordsOf(children) == Listing(file.slots) && |children| == |Listing(file.slots)|
      ensures forall short: Name83 :: !ShortTaken(shortTable, short) ==>
        forall r :: r in Listing(file.slots) ==> r.short != short
    {
      forall short: Name83, r | !ShortTaken(shortTable, short) && r in Listing(file.slots)
        ensures r.short != short
      {
        var i :| 0 <= i < |Listing(file.slots)| && Listing(file.slots)[i] == r;
        assert children[i].record == r && children[i] in shortTable.nodes;
      }
    }

    // ---------------------------------------------------------------- creating

    /** FatSetEntryCount, for a directory whose entries are all in memory unless the name has its own short name. */
    method NameTheEntry(name: Str, crc: nat) returns (count: nat, short: Name83, flag: Byte)
      requires Valid() && NewName(name) && NameFree(Listing(file.slots), name)
      requires HasOwnShort(name) || (endOfDir && SomeNameFree(Listing(file.slots), name, crc))
      ensures Valid() && count == EntryCountOf(name) && flag == OwnFlag(name) && LiveFirst(short)
      ensures HasOwnShort(name) ==> short == OwnShort(name)
      ensures forall r :: r in Listing(file.slots) ==> r.short != short
    {
      if !HasOwnShort(name) {
        AllInMemory();
        WholeListing();
        NameIsFree(name, crc);
      }
      hide InMemory, Live, EntriesValid, Is8Dot3, BaseName, HashedName;
      count, short, flag := FatSetEntryCount(shortTable, name, crc);
    }

    lemma NameIsFree(name: Str, crc: nat)
      requires RecordsOf(children) == Listing(file.slots) && shortTable.nodes == NodesOf(children)
      requires SomeNameFree(Listing(file.slots), name, crc)
      ensures CandidateFree(BaseName(name), crc, shortTable)
    {
      var r: nat :| r < CANDIDATES && NotTaken(Listing(file.slots), Candidate(BaseName(name), crc, r));
      hide Candidate, BaseName;
      forall d | d in shortTable.nodes
        ensures d.record.short != Candidate(BaseName(name), crc, r)
      {
        var j :| 0 <= j < |children| && children[j] == d;
        assert Listing(file.slots)[j] == d.record;
      }
    }

    /** The new node is linked and indexed, and its slots are written; `listed` is what a scan makes of them. */
    method LinkAndStore(d: DirEnt, index: nat) returns (ghost listed: Record)
      requires WholeInMemory() && d !in children && !d.invalid && Listed(d.entry)
        && ShortNameOf(d.entry) == d.record.short
      requires Readable(d.record.name, d.record.count, d.entry) && Placed(d.record.pos, d.record.count, index)
      requires forall r :: r in Listing(file.slots) ==> !SameName(d.record.name, r.name) && r.short != d.record.short
      modifies this`children, TableRepr(), file, d`longNameForwardLink, d`shortNameForwardLink
      ensures endOfDir && index <= |old(children)| && index <= |old(Listing(file.slots))|
      ensures children == With(old(children), index, d)
        && Listing(file.slots) == With(old(Listing(file.slots)), index, listed)
      ensures ListedAs(old(file.slots), d.record, listed) && (listed == d.record ==> Valid())
      ensures Fits(old(file.slots), d.record.pos, d.record.count)
      ensures file.slots ==
        Stored(old(file.slots), d.record.pos, d.record.count, d.record.name, d.entry, false)
      ensures old(OrphanFree(file.slots)) ==> OrphanFree(file.slots)
    {
      hide InMemory, Live, Listed, ShortNameOf, Readable, PlacedIn, Stored, With, EndFrom, RecordsOf, IndexValid,
        EntriesValid,
        WholeInMemory, Listing, SameName, SizeValid, Invariant, OrphanFree, ListedAs;
      WholeParts();
      WholeListing();
      PlacedPure(d.record.pos, d.record.count, index);
      listed := CreatedInMemory(file.slots, d.record, d.entry, index, currentEndPos);
      LinkedAt(children, d, index);
      StillIn(children, d, index, currentCursor);
      FatAddDirEnt(d, index);
      StoreNode(d);
      if listed == d.record { Whole(); }
    }

    lemma WholeParts()
      requires WholeInMemory()
      ensures InMemory(file.slots, RecordsOf(children), EndOf(file.slots), true) && endOfDir && SizeValid(|file.slots|)
      ensures IndexValid(shortTable, longTable) && shortTable.nodes == NodesOf(children) && EntriesValid()
      ensures currentCursor != null ==> currentCursor in children
    {}

    lemma PlacedPure(pos: nat, count: nat, index: nat)
      requires Placed(pos, count, index)
      ensures PlacedIn(file.slots, pos, count, index, currentEndPos)
    {}

    method StoreNode(d: DirEnt)
      requires IndexValid(shortTable, longTable) && EntriesValid() && Fits(file.slots, d.record.pos, d.record.count)
        && !d.invalid
      modifies file
      ensures IndexValid(shortTable, longTable) && EntriesValid()
      ensures file.slots == Stored(old(file.slots), d.record.pos, d.record.count, d.record.name, d.entry, false)
    {
      hide IndexInvariant, Stored;
      file.FatStoreDirEnt(d.record.pos, d.record.count, d.record.name, d.entry, d.invalid);
    }

    method NewNode(record: Record, entry: Slot) returns (d: DirEnt)
      requires WholeInMemory()
      ensures WholeInMemory() && fresh(d) && d.record == record && d.entry == entry && !d.invalid
    {
      hide InMemory, RecordsOf;
      d := new DirEnt(record, entry);
    }

    /**
     * FatCreateDirEnt: a new entry with this name joins the listing, the list and the index, at the same place in each.
     * `listed` is what a scan lists there: the new entry, exactly when it reads back.
     */
    method FatCreateDirEnt(name: Str, attributes: Byte, info: seq<Byte>, crc: nat, grows: bool)
      returns (status: Status, d: DirEnt?, ghost index: nat, ghost listed: Record)
      requires Valid() && NewName(name) && |info| == 19 && attributes / 8 % 2 == 0
      requires NameFree(Listing(file.slots), name) && AppendFits(file.slots, EntryCountOf(name))
      requires HasOwnShort(name) || (endOfDir && SomeNameFree(Listing(file.slots), name, crc))
      modifies this`children, this`currentEndPos, this`endOfDir, TableRepr(), file
      ensures endOfDir && fresh(Repr() - old(Repr()))
      ensures status == if Room(old(file.slots), EntryCountOf(name), grows) then Success else VolumeFull
      ensures status != Success ==> Valid() && d == null && file.slots == old(file.slots)
      ensures status == Success ==>
        && d != null && fresh(d) && d in children
        && d.record == Record(NewPos(old(file.slots), EntryCountOf(name)), EntryCountOf(name), name, d.record.short)
        && (HasOwnShort(name) ==> d.record.short == OwnShort(name))
        && d.entry == EntryOf(d.record.short, attributes, OwnFlag(name), info)
        && Fits(WithRoom(old(file.slots), d.record.count), d.record.pos, d.record.count)
        && file.slots == Stored(WithRoom(old(file.slots), d.record.count), d.record.pos, d.record.count, name, d.entry,
                                false)
        && index <= |old(Listing(file.slots))| && Listing(file.slots) == With(old(Listing(file.slots)), index, listed)
        && RecordsOf(children) == With(old(Listing(file.slots)), index, d.record)
        && listed.pos == d.record.pos && listed.short == d.record.short
        && (listed == d.record <==> ReadsBack(old(file.slots), name))
        && (ReadsBack(old(file.slots), name) ==> Valid())
      ensures old(OrphanFree(file.slots)) ==> OrphanFree(file.slots)
    {
      hide Invariant, WholeInMemory, Live, EntryCountOf, NewName, Is8Dot3, SameName, Placed, AppendFits, EntryOf,
        Readable, Listed, With, OwnFlag, OwnShort, HasOwnShort, LiveFirst, Listing, EndFrom, SomeNameFree, ShortNameOf,
        OrphanFree, ReadsBackAt, ReadsBack, NewPos, RecordsOf, Room, WithRoom, Stored, Fits, TooShort, NeedsCluster;
      d, index, listed := null, 0, Record(0, 0, [], seq(11, _ => 0));
      ghost var slots0 := file.slots;
      var count, short, flag := NameTheEntry(name, crc);
      CountPositive(name);
      var pos, at;
      status, pos, at := FatNewEntryPos(count, grows);
      if status != Success {
        return;
      }
      ReadsBackThere(slots0, file.slots, pos, name, short);
      WholeListing();
      var entry := EntryOf(short, attributes, flag, info);
      NewEntryFacts(name, short, attributes, info);
      d := NewNode(Record(pos, count, name, short), entry);
      ghost var before := children;
      listed := LinkAndStore(d, at);
      LinkedAt(before, d, at);
      index := at;
      InWith(before, children, d, index);
    }

    /** Whether an entry reads back is told by the slots before the call. */
    lemma ReadsBackThere(slots: seq<Slot>, slots': seq<Slot>, pos: nat, name: Str, short: Name83)
      requires NewName(name) && 1 <= EntryCountOf(name) && pos == NewPos(slots, EntryCountOf(name))
      requires HasOwnShort(name) ==> short == OwnShort(name)
      requires forall p: nat :: At(slots', p) == At(slots, p)
      ensures ReadsBackAt(slots', pos, EntryCountOf(name), name, short) <==> ReadsBack(slots, name)
    {
      SameBelow(slots, slots', pos, EntryCountOf(name), name, short);
      if EntryCountOf(name) == 1 { OneSlotHasOwnShort(name); }
      hide EntryCountOf, NewPos, HasOwnShort, OwnShort, At;
    }

    /** In a directory without left-over slots every entry created reads back, if its characters survive. */
    lemma OrphanFreeNamesReadBack(name: Str)
      requires OrphanFree(file.slots) && (EntryCountOf(name) == 1 ==> Told(name))
      requires EndOf(file.slots) + 1 > |file.slots| && AtCapacity(file.slots, EndOf(file.slots) + 1) ==>
        exists i :: FirstFit(Listing(file.slots), EndOf(file.slots), LabelPos(file.slots), 1, i)
      ensures ReadsBack(file.slots, name)
    {
      if EntryCountOf(name) == 1 && HasOwnShort(name) {
        var e, records := EndOf(file.slots), Listing(file.slots);
        hide EntryCountOf, OwnShort, HasOwnShort, Listing, EndOf, OrphanFree, ReadsBackAt;
        var g := FirstGap(records, LabelPos(file.slots), 1, 0);
        if e + 1 > |file.slots| && AtCapacity(file.slots, e + 1) {
          var i :| FirstFit(records, e, LabelPos(file.slots), 1, i);
          FirstGapIs(records, e, LabelPos(file.slots), 1, i, 0);
          FitIsGap(records, e, LabelPos(file.slots), 1, i);
          OrphanFreeReadsBack(file.slots, i, NewPos(file.slots, 1), 1, name, OwnShort(name));
        } else {
          OrphanFreeReadsBack(file.slots, 0, NewPos(file.slots, 1), 1, name, OwnShort(name));
        }
      }
    }
  }

  /** The test of the loop of FatFirstFitInsertDirEnt. */
  lemma GapTest(records: seq<Record>, i: nat, count: nat, labelPos: nat, currentPos: nat, r: Record)
    requires i < |records| && currentPos == PrevPos(records, i) && r == records[i]
    ensures GapFits(records, i, count) && LabelClear(records, i, count, labelPos)
      <==> currentPos + count + r.count <= r.pos && (labelPos > currentPos + count || labelPos <= currentPos)
  {}

  lemma {:induction false} FirstGapFits(records: seq<Record>, labelPos: nat, count: nat, j: nat)
    requires j <= |records| && NoneBefore(records, labelPos, count, j)
    ensures var g := FirstGap(records, labelPos, count, j);
      && NoneBefore(records, labelPos, count, g)
      && (g < |records| ==> GapFits(records, g, count) && LabelClear(records, g, count, labelPos))
    decreases |records| - j
  {
    if j < |records| && !(GapFits(records, j, count) && LabelClear(records, j, count, labelPos)) {
      FirstGapFits(records, labelPos, count, j + 1);
    }
  }

  lemma {:induction false} FirstGapIs(records: seq<Record>, e: nat, labelPos: nat, count: nat, i: nat, j: nat)
    requires FirstFit(records, e, labelPos, count, i) && j <= i
    ensures FirstGap(records, labelPos, count, j) == i
    decreases i - j
  {
    if j < i { FirstGapIs(records, e, labelPos, count, i, j + 1); }
  }

  /** What a new entry reads back as depends on the slot below it alone. */
  lemma SameBelow(slots: seq<Slot>, slots': seq<Slot>, pos: nat, count: nat, name: Str, short: Name83)
    requires forall p: nat :: At(slots, p) == At(slots', p)
    ensures ReadsBackAt(slots, pos, count, name, short) == ReadsBackAt(slots', pos, count, name, short)
    ensures count != 1 ==> ReadsBackAt(slots, pos, count, name, short)
  {}

  /** No entry has the new name, nor its own short name if it has one. */
  predicate NameFree(records: seq<Record>, name: Str) {
    forall r :: r in records ==> !SameName(name, r.name) && (HasOwnShort(name) ==> r.short != OwnShort(name))
  }

  /** A name may be created exactly when FatSearchODir finds nothing for it. */
  lemma FreeIffNotFound(records: seq<Record>, name: Str)
    requires !IsDots(name)
    ensures NameFree(records, name) <==> forall r :: r in records ==> !Matches(r, name)
  {}

  predicate NotTaken(records: seq<Record>, short: Name83) {
    forall r :: r in records ==> r.short != short
  }

  /** Some generated short name is still free. */
  predicate SomeNameFree(records: seq<Record>, name: Str, crc: nat) {
    exists r: nat :: r < CANDIDATES && NotTaken(records, Candidate(BaseName(name), crc, r))
  }

  ghost predicate PlacedIn(slots: seq<Slot>, pos: nat, count: nat, index: nat, newEnd: nat) {
    var e := EndOf(slots);
    || (pos == e + count - 1 && index == |Listing(slots)| && e + count <= |slots| && newEnd == e + count)
    || (GapHolds(Listing(slots), index, e, pos, count) && newEnd == e)
  }

  lemma BehindTheEnd(slots: seq<Slot>, count: nat, newEnd: nat)
    requires 1 <= count && newEnd == EndOf(slots) + count <= |slots| <= MAX_SLOTS
    ensures (newEnd - 1) % 0x1_0000 == newEnd - 1 && PlacedIn(slots, newEnd - 1, count, |Listing(slots)|, newEnd)
  {
    hide EndOf, Listing, GapHolds;
  }

  lemma CountPositive(name: Str)
    ensures 1 <= EntryCountOf(name)
  {}

  lemma InWith(before: seq<DirEnt>, after: seq<DirEnt>, d: DirEnt, i: nat)
    requires i <= |before| && after == With(before, i, d)
    ensures d in after && NodesOf(after) == NodesOf(before) + {d}
  {
    assert after[i] == d;
    forall j | 0 <= j < |before|
      ensures before[j] in after
    {
      assert after[if j < i then j else j + 1] == before[j];
    }
  }

  lemma StillIn(children: seq<DirEnt>, d: DirEnt, i: nat, c: DirEnt?)
    requires i <= |children| && (c != null ==> c in children)
    ensures c != null ==> c in With(children, i, d)
  {
    if c != null {
      var j :| 0 <= j < |children| && children[j] == c;
      assert With(children, i, d)[if j < i then j else j + 1] == c;
    }
  }

  lemma LinkedAt(children: seq<DirEnt>, d: DirEnt, i: nat)
    requires i <= |children|
    ensures RecordsOf(With(children, i, d)) == With(RecordsOf(children), i, d.record)
  {}

  lemma NewEntryFacts(name: Str, short: Name83, attributes: Byte, info: seq<Byte>)
    requires NewName(name) && |info| == 19 && attributes / 8 % 2 == 0 && LiveFirst(short)
    requires HasOwnShort(name) ==> short == OwnShort(name)
    ensures var entry := EntryOf(short, attributes, OwnFlag(name), info);
      Listed(entry) && ShortNameOf(entry) == short && Readable(name, EntryCountOf(name), entry)
  {
    NewEntryReadable(name, short, attributes, info);
    hide Readable, OwnFlag, EntryCountOf, Is8Dot3, NewName, HasOwnShort;
    var entry := EntryOf(short, attributes, OwnFlag(name), info);
    assert entry[0] == short[0] && entry[11] == attributes && entry[..11] == short;
  }

  /** With the new entry stored, what is in memory is again the listing, if the entry reads back. */
  lemma CreatedInMemory(slots: seq<Slot>, r: Record, entry: Slot, index: nat, newEnd: nat) returns (listed: Record)
    requires InMemory(slots, Listing(slots), EndOf(slots), true) && PlacedIn(slots, r.pos, r.count, index, newEnd)
    requires Listed(entry) && Readable(r.name, r.count, entry) && ShortNameOf(entry) == r.short
    requires forall q :: q in Listing(slots) ==> !SameName(r.name, q.name) && q.short != r.short
    ensures Fits(slots, r.pos, r.count) && index <= |Listing(slots)| && ListedAs(slots, r, listed)
    ensures var after := Stored(slots, r.pos, r.count, r.name, entry, false);
      && Listing(after) == With(Listing(slots), index, listed) && EndOf(after) == newEnd
      && (listed == r ==> InMemory(after, With(Listing(slots), index, r), newEnd, true))
      && (OrphanFree(slots) ==> OrphanFree(after))
  {
    hide Stored, Live, Readable, EndFrom, EndOf, SameName, GapHolds, Listed, ShortNameOf, UniqueNames, EmptyTail,
      OrphanFree, At, Listing, With,
      ReadsBackAt;
    EndInside(slots);
    if GapHolds(Listing(slots), index, EndOf(slots), r.pos, r.count) && newEnd == EndOf(slots) {
      listed := InsertedInListing(slots, index, r.pos, r.count, r.name, entry);
    } else {
      listed := AppendedToListing(slots, r.count, r.name, entry);
      WithLast(Listing(slots), listed);
    }
    UniqueWith(Listing(slots), index, r);
    if listed == r { Assembled(slots, Stored(slots, r.pos, r.count, r.name, entry, false),
                               With(Listing(slots), index, r)); }
  }

  lemma WithLast(records: seq<Record>, r: Record)
    ensures With(records, |records|, r) == records + [r]
  {}

  /** A whole directory in memory. */
  lemma Assembled(slots: seq<Slot>, after: seq<Slot>, records: seq<Record>)
    requires EmptyTail(after) && Listing(after) == records && UniqueNames(records) && |after| == |slots| <= MAX_SLOTS
    ensures InMemory(after, records, EndOf(after), true)
  {
    hide EmptyTail, EndFrom, Live, UniqueNames;
  }

  lemma UniqueWith(records: seq<Record>, i: nat, r: Record)
    requires UniqueNames(records) && forall q :: q in records ==> !SameName(r.name, q.name) && q.short != r.short
    ensures i <= |records| ==> UniqueNames(With(records, i, r))
  {
    if i <= |records| {
      var after := With(records, i, r);
      forall j, k | 0 <= j < k < |after|
        ensures !SameName(after[j].name, after[k].name) && after[j].short != after[k].short
      {
        var j', k' := if j < i then j else j - 1, if k < i then k else k - 1;
        if j != i { assert after[j] == records[j']; }
        if k != i { assert after[k] == records[k']; }
      }
    }
  }

  // ---------------------------------------------------------------- first fit

  /** A volume label: an entry with the volume attribute and at most the archive attribute besides. */
  predicate IsLabel(s: Slot) {
    s[0] != DELETE_ENTRY_MARK && (Attributes(s) == 0x08 || Attributes(s) == 0x28)
  }

  function SeekLabel(slots: seq<Slot>, p: nat): int
    decreases |slots| - p
  {
    if IsLabel(At(slots, p)) then p else if At(slots, p)[0] == EMPTY_ENTRY_MARK then -1 else SeekLabel(slots, p + 1)
  }

  /** The position that the gap in front of the i-th entry begins behind; slot 0 is never in a gap. */
  function PrevPos(records: seq<Record>, i: nat): nat
    requires i <= |records|
  {
    if i == 0 then 0 else records[i - 1].pos
  }

  /** The first gap between entries that will do, or the one behind the last entry. */
  function FirstGap(records: seq<Record>, labelPos: nat, count: nat, i: nat): (g: nat)
    requires i <= |records|
    ensures i <= g <= |records|
    decreases |records| - i
  {
    if i < |records| && !(GapFits(records, i, count) && LabelClear(records, i, count, labelPos))
    then FirstGap(records, labelPos, count, i + 1) else i
  }

  /** The first gap that will do holds the entry. */
  predicate GapFound(records: seq<Record>, e: nat, labelPos: nat, count: nat) {
    var g := FirstGap(records, labelPos, count, 0);
    g < |records| || PrevPos(records, g) + count < e
  }

  predicate GapFits(records: seq<Record>, i: nat, count: nat)
    requires i < |records|
  {
    PrevPos(records, i) + count + records[i].count <= records[i].pos
  }

  predicate LabelClear(records: seq<Record>, i: nat, count: nat, labelPos: nat)
    requires i <= |records|
  {
    labelPos > PrevPos(records, i) + count || labelPos <= PrevPos(records, i)
  }

  /** No gap between entries will do before the i-th. */
  ghost predicate NoneBefore(records: seq<Record>, labelPos: nat, count: nat, i: nat)
    requires i <= |records|
  {
    forall j :: 0 <= j < i ==> !(GapFits(records, j, count) && LabelClear(records, j, count, labelPos))
  }

  ghost predicate FirstFit(records: seq<Record>, e: nat, labelPos: nat, count: nat, i: nat) {
    && i <= |records| && NoneBefore(records, labelPos, count, i)
    && if i < |records| then GapFits(records, i, count) && LabelClear(records, i, count, labelPos)
       else PrevPos(records, i) + count < e
  }

  ghost predicate NoFit(records: seq<Record>, e: nat, labelPos: nat, count: nat) {
    NoneBefore(records, labelPos, count, |records|) && PrevPos(records, |records|) + count >= e
  }

  /** What the first fit finds is a gap that holds the new entry. */
  lemma FitIsGap(records: seq<Record>, e: nat, labelPos: nat, count: nat, i: nat)
    requires FirstFit(records, e, labelPos, count, i) && 1 <= count
    ensures GapHolds(records, i, e, PrevPos(records, i) + count, count)
  {}

  /**
   * The first fit does not look at the label in the last gap: when the new entry is stored, the volume label is
   * still there exactly when some gap between entries would do, or the label lies outside the slots that are taken
   * of the last gap.
   */
  lemma LabelKeptIff(slots: seq<Slot>, i: nat, count: nat, name: Str, entry: Slot)
    requires SeekLabel(slots, 0) >= 0 && Listed(entry) && 1 <= count <= MAX_LFN_ENTRIES + 1
    requires FirstFit(Listing(slots), EndOf(slots), SeekLabel(slots, 0), count, i)
    ensures var records, label_: nat := Listing(slots), SeekLabel(slots, 0);
      && Fits(slots, PrevPos(records, i) + count, count)
      && (IsLabel(At(Stored(slots, PrevPos(records, i) + count, count, name, entry, false), label_))
          <==> !NoneBefore(records, label_, count, |records|) || LabelClear(records, |records|, count, label_))
  {
    var records, label_: nat := Listing(slots), SeekLabel(slots, 0);
    var pos := PrevPos(records, i) + count;
    SoughtLabel(slots, 0);
    FitIsGap(records, EndOf(slots), label_, count, i);
    hide Listing, EndOf, Stored, GapHolds, SeekLabel, IsLabel, At;
    GapFacts(slots, i, pos, count);
    EndInside(slots);
    NewSlotsNoLabel(slots, pos, count, name, entry, label_);
  }

  lemma {:induction false} SoughtLabel(slots: seq<Slot>, p: nat)
    ensures SeekLabel(slots, p) >= 0 ==> IsLabel(At(slots, SeekLabel(slots, p)))
    decreases |slots| - p
  {
    if !IsLabel(At(slots, p)) && At(slots, p)[0] != EMPTY_ENTRY_MARK { SoughtLabel(slots, p + 1); }
  }

  /** None of the slots that a new entry takes holds a label afterwards, and every other slot is as before. */
  lemma NewSlotsNoLabel(slots: seq<Slot>, pos: nat, count: nat, name: Str, entry: Slot, p: nat)
    requires Fits(slots, pos, count) && Listed(entry)
    ensures var after := Stored(slots, pos, count, name, entry, false);
      if pos - count < p <= pos then !IsLabel(At(after, p)) else At(after, p) == At(slots, p)
  {
    var after := Stored(slots, pos, count, name, entry, false);
    if pos - count < p < pos {
      assert At(after, p) == StoredLfn(name, count - 1, pos - p, CheckSumOf(ShortNameOf(entry)), false);
      StoredLfnFields(name, count - 1, pos - p, CheckSumOf(ShortNameOf(entry)), false);
    }
  }

  /**
   * A directory of three slots, with the label in the middle one and no entries, in which a new entry overwrites the
   * label.
   */
  lemma LabelLost(name: Str, entry: Slot, deleted: Slot, label_: Slot)
    requires Listed(entry) && deleted[0] == DELETE_ENTRY_MARK && IsLabel(label_) && label_[0] != EMPTY_ENTRY_MARK
    ensures var slots := [deleted, label_, deleted];
      && EndOf(slots) == 3 && Listing(slots) == [] && SeekLabel(slots, 0) == 1
      && FirstFit(Listing(slots), EndOf(slots), 1, 1, 0) && PrevPos(Listing(slots), 0) + 1 == 1
      && !IsLabel(At(Stored(slots, 1, 1, name, entry, false), 1))
  {
    var slots := [deleted, label_, deleted];
    assert At(slots, 0) == deleted && At(slots, 1) == label_ && At(slots, 2) == deleted;
    assert Skips(deleted) && Skips(label_) && Ends(At(slots, 3));
    assert EndOf(slots) == 3;
    LiveNone(slots, 0, 3);
    NewSlotsNoLabel(slots, 1, 1, name, entry, 1);
    assert SeekLabel(slots, 0) == SeekLabel(slots, 1);
  }

  lemma NextCluster(length: nat, n: nat)
    requires 0 < n && length % n == 0 && MAX_SLOTS % n == 0 && length < MAX_SLOTS
    ensures length + n <= MAX_SLOTS && (length + n) % n == 0
  {
    var a, b := length / n, MAX_SLOTS / n;
    PageSplit(length, n);
    PageSplit(MAX_SLOTS, n);
    if b <= a { MulLe(b, a, n); } else { MulLe(a + 1, b, n); }
    DivAddOne(length, n);
  }

  lemma RecordsWithout(children: seq<DirEnt>, i: nat)
    requires i < |children|
    ensures RecordsOf(Without(children, i)) == Without(RecordsOf(children), i)
      && RecordsOf(children)[i] == children[i].record
    ensures forall d :: d in Without(children, i) ==> d in children
  {}

  lemma NodesWithout(children: seq<DirEnt>, i: nat)
    requires i < |children| && forall j, k :: 0 <= j < k < |children| ==> children[j] != children[k]
    ensures NodesOf(Without(children, i)) == NodesOf(children) - {children[i]}
    ensures children[i] !in Without(children, i) && children[i] in NodesOf(children)
  {
    forall j | 0 <= j < |children| && j != i
      ensures children[j] in Without(children, i)
    {
      assert children[j] == Without(children, i)[if j < i then j else j - 1];
    }
  }

  lemma KeptIn(children: seq<DirEnt>, i: nat, c: DirEnt?)
    requires i < |children| && c != children[i] && (c != null ==> c in children)
    ensures c != null ==> c in Without(children, i)
  {
    if c != null {
      var j :| 0 <= j < |children| && children[j] == c;
      assert j < i ==> Without(children, i)[j] == c;
      assert j > i ==> Without(children, i)[j - 1] == c;
    }
  }

  lemma StillListed(entry: Slot)
    requires Listed(entry)
    ensures !VolumeIdBit(entry[0 := DELETE_ENTRY_MARK])
  {}

  /** What stays in memory when the i-th entry is removed is again the first part of the listing. */
  lemma RemovedInMemory(slots: seq<Slot>, records: seq<Record>, e: nat, done: bool, i: nat, entry: Slot)
    requires InMemory(slots, records, e, done) && i < |records| && entry[0] == DELETE_ENTRY_MARK && !VolumeIdBit(entry)
    ensures var r := records[i];
      && Fits(slots, r.pos, r.count)
      && i < |Listing(slots)|
      && InMemory(Stored(slots, r.pos, r.count, r.name, entry, true), Without(records, i), e, done)
      && Listing(Stored(slots, r.pos, r.count, r.name, entry, true)) == Without(Listing(slots), i)
      && (OrphanFree(slots) ==> OrphanFree(Stored(slots, r.pos, r.count, r.name, entry, true)))
  {
    LiveJoin(slots, 0, e, EndOf(slots));
    RemovedFromListing(slots, e, i, entry);
    RemovedFromListing(slots, EndOf(slots), i, entry);
    RemovedKeeps(slots, i, entry);
    hide Stored, Live, RecordAt;
    UniqueWithout(Listing(slots), i);
  }

  lemma UniqueWithout(records: seq<Record>, i: nat)
    requires UniqueNames(records) && i < |records|
    ensures UniqueNames(Without(records, i))
  {}

  /** The first place of a node in a list. */
  function IndexOf(s: seq<DirEnt>, d: DirEnt): (i: nat)
    requires d in s
    ensures i < |s| && s[i] == d
  {
    if s[0] == d then 0 else IndexOf(s[1..], d) + 1
  }

  lemma {:induction false} IndexOfIs(s: seq<DirEnt>, d: DirEnt, i: nat)
    requires i < |s| && s[i] == d && forall j :: 0 <= j < i ==> s[j] != d
    ensures d in s && IndexOf(s, d) == i
  {
    if i > 0 { IndexOfIs(s[1..], d, i - 1); }
  }

  /** Comparing short names as strings compares their bytes. */
  lemma SameShort(d: DirEnt?, short: Name83)
    ensures d != null && Widened(d.record.short) == Widened(short) ==> d.record.short == short
  {
    if d != null { WidenedInjective(d.record.short, short); }
  }

  lemma LinkedLast(children: seq<DirEnt>, d: DirEnt)
    ensures With(children, |children|, d) == children + [d]
    ensures RecordsOf(children + [d]) == RecordsOf(children) + [d.record]
  {}

  lemma SkippedOne(slots: seq<Slot>, records: seq<Record>, e: nat, done: bool)
    requires InMemory(slots, records, e, done) && Skips(At(slots, e))
    ensures InMemory(slots, records, e + 1, done)
  {}

  lemma LoadedOne(slots: seq<Slot>, records: seq<Record>, e: nat, done: bool)
    requires InMemory(slots, records, e, done) && Listed(At(slots, e))
    ensures InMemory(slots, records + [RecordAt(slots, e)], e + 1, done) && !done
  {}

  /** A listed position lies inside the file. */
  lemma EndIsNear(slots: seq<Slot>, e: nat)
    ensures Listed(At(slots, e)) ==> e < |slots|
  {}

  /** The node's fields are the record of its slot, whether or not the high cluster bytes were cleared. */
  lemma LoadedRecord(slots: seq<Slot>, e: nat, slot: Slot, entry: Slot, count: nat, name: Str)
    requires slot == At(slots, e) && Listed(slot) && (entry == slot || entry == slot[20 := 0][21 := 0])
      && |slots| <= MAX_SLOTS
    requires Loaded(count, name) == LoadName(slots, e, entry)
    ensures Record(e % 0x1_0000, count, name, ShortNameOf(entry)) == RecordAt(slots, e) && Listed(entry)
  {
    hide NameViaCaseFlag, CheckSumOf, ReadRun, CString;
    EndIsNear(slots, e);
    assert ShortNameOf(entry) == ShortNameOf(slot) && CaseFlagField(entry) == CaseFlagField(slot);
  }

  lemma EndFound(slots: seq<Slot>, e: nat)
    requires Ends(At(slots, e)) && e <= EndOf(slots)
    ensures e == EndOf(slots)
  {}
}
