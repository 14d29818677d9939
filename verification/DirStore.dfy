/**
 * What storing, removing and appending an entry does to the listing of a directory file, and the reload round
 * trip that follows (DirectoryManage.c: FatStoreDirEnt as used by FatCreateDirEnt and FatRemoveDirEnt).
 */
module DirStore {
  import opened FatTypes
  import opened ShortName
  import opened DirSlots
  import opened DirScan

  /** `count` slots tell the name: long-name slots hold it, or the case flags tell it, if its characters survive. */
  predicate Readable(name: Str, count: nat, entry: Slot) {
    && 1 <= count <= MAX_LFN_ENTRIES + 1
    && if count == 1 then NameViaCaseFlag(ShortNameOf(entry), CaseFlagField(entry)) == name <==> Told(name)
       else |name| <= LFN_CHAR_TOTAL * (count - 1)
  }

  /** A directory that is empty from its end on. */
  ghost predicate EmptyTail(slots: seq<Slot>) {
    TailEmpty(slots, EndOf(slots))
  }

  /** A directory without left-over long-name slots. */
  ghost predicate OrphanFree(slots: seq<Slot>) {
    NoOrphans(slots, EndOf(slots), EndOf(slots))
  }

  ghost predicate TailEmpty(slots: seq<Slot>, e: nat) {
    forall p: nat :: e <= p ==> Ends(At(slots, p))
  }

  lemma LfnAttributes(s: Slot)
    requires Attributes(s) == FAT_ATTRIBUTE_LFN
    ensures VolumeIdBit(s) && Skips(s)
  {}

  /** The slots that a store changes, and what it leaves in them. */
  lemma StoredSlots(slots: seq<Slot>, pos: nat, count: nat, name: Str, entry: Slot, invalid: bool)
    requires Fits(slots, pos, count)
    ensures var after := Stored(slots, pos, count, name, entry, invalid);
      && DiffersIn(slots, after, pos - count + 1, pos) && At(after, pos) == entry
      && (forall q :: pos - count < q < pos ==> Skips(At(after, q)) && (invalid ==> Barrier(At(after, q))))
  {
    hide StoredLfn, CheckSumOf, ShortNameOf, VolumeIdBit, Attributes, Skips;
    var after := Stored(slots, pos, count, name, entry, invalid);
    forall q | pos - count < q < pos
      ensures Skips(At(after, q)) && (invalid ==> Barrier(At(after, q)))
    {
      StoredSlot(slots, pos, count, name, entry, invalid, pos - q);
      hide Stored, At;
      StoredLfnFields(name, count - 1, pos - q, CheckSumOf(ShortNameOf(entry)), invalid);
      LfnAttributes(At(after, q));
    }
  }

  lemma StoredLfnFields(name: Str, n: nat, k: nat, sum: Byte, invalid: bool)
    requires 1 <= k <= n <= MAX_LFN_ENTRIES
    ensures var s := StoredLfn(name, n, k, sum, invalid);
      Attributes(s) == FAT_ATTRIBUTE_LFN && (invalid ==> s[0] == DELETE_ENTRY_MARK)
  {
    hide LfnSlot, LfnBuffer, LfnChars;
    LfnSlotFields(if invalid then DELETE_ENTRY_MARK else if k == n then k + FAT_LFN_LAST else k, sum,
                  LfnBuffer(name, n)[LFN_CHAR_TOTAL * (k - 1)..LFN_CHAR_TOTAL * k]);
  }

  /** A new entry of one slot: its characters survive, and the slot below is not taken for its long-name slot. */
  predicate ReadsBackAt(slots: seq<Slot>, pos: nat, count: nat, name: Str, short: Name83) {
    count == 1 ==> Told(name) && (pos > 0 ==> !Continues(At(slots, pos - 1), CheckSumOf(short), 1))
  }

  /** A stored entry is loaded at its place, and as what was stored exactly when it reads back. */
  lemma StoredLoads(slots: seq<Slot>, pos: nat, count: nat, name: Str, entry: Slot)
    requires Fits(slots, pos, count) && Readable(name, count, entry)
    ensures var r := RecordAt(Stored(slots, pos, count, name, entry, false), pos);
      && r.pos == pos && r.short == ShortNameOf(entry) && count <= r.count
      && (r == Record(pos, count, name, ShortNameOf(entry)) <==>
          ReadsBackAt(slots, pos, count, name, ShortNameOf(entry)))
  {
    var after := Stored(slots, pos, count, name, entry, false);
    StoredSlots(slots, pos, count, name, entry, false);
    RecordSlots(after, pos);
    if count == 1 {
      ShortEntryLoads(slots, pos, name, entry);
      LoadWithoutRun(after, pos, entry);
    } else {
      LongNameRoundTrip(slots, pos, count, name, entry);
    }
    hide NameViaCaseFlag, CheckSumOf, ReadRun, Stored;
  }

  lemma ListedIsBarrier(s: Slot)
    ensures Listed(s) || Ends(s) ==> Barrier(s)
    ensures s[0] == DELETE_ENTRY_MARK ==> Barrier(s) && Skips(s)
  {}

  /** The scan ends at the same place when no slot changes between ending it and not. */
  lemma SameEnd(slots: seq<Slot>, slots': seq<Slot>)
    requires forall p: nat :: Ends(At(slots, p)) == Ends(At(slots', p))
    ensures EndOf(slots) == EndOf(slots')
    ensures TailEmpty(slots, EndOf(slots)) ==> TailEmpty(slots', EndOf(slots'))
  {
    var e, e' := EndOf(slots), EndOf(slots');
    assert Ends(At(slots, e)) && Ends(At(slots, e'));
    assert Ends(At(slots', e)) && Ends(At(slots', e'));
  }

  lemma SameEnds(slots: seq<Slot>, slots': seq<Slot>, a: nat, b: nat)
    requires DiffersIn(slots, slots', a, b)
    requires forall q :: a <= q <= b ==> !Ends(At(slots, q)) && !Ends(At(slots', q))
    ensures EndOf(slots) == EndOf(slots')
    ensures TailEmpty(slots, EndOf(slots)) ==> TailEmpty(slots', EndOf(slots'))
  {
    forall p: nat
      ensures Ends(At(slots, p)) == Ends(At(slots', p))
    {
      if p < a || b < p { assert At(slots, p) == At(slots', p); }
    }
    SameEnd(slots, slots');
  }

  // ---------------------------------------------------------------- removing

  function Without<T>(s: seq<T>, i: nat): seq<T>
    requires i < |s|
  {
    s[..i] + s[i + 1..]
  }

  lemma {:induction false} LiveFits(slots: seq<Slot>, hi: nat, i: nat)
    requires i < |Live(slots, 0, hi)|
    ensures var r := Live(slots, 0, hi)[i];
      && Listed(At(slots, r.pos)) && r == RecordAt(slots, r.pos) && r.pos < hi && Fits(slots, r.pos, r.count)
  {
    LiveMembers(slots, 0, hi);
    RecordSlots(slots, Live(slots, 0, hi)[i].pos);
  }

  /** Removing the i-th entry removes it from the listing, and nothing else. */
  lemma RemovedFromListing(slots: seq<Slot>, hi: nat, i: nat, entry: Slot)
    requires i < |Live(slots, 0, hi)| && entry[0] == DELETE_ENTRY_MARK && !VolumeIdBit(entry)
    ensures var r := Live(slots, 0, hi)[i];
      && Fits(slots, r.pos, r.count)
      && Live(Stored(slots, r.pos, r.count, r.name, entry, true), 0, hi) == Without(Live(slots, 0, hi), i)
  {
    hide Stored, Skips, RecordAt, Live, Barrier, At, DiffersIn, VolumeIdBit, ClearAbove;
    var r := Live(slots, 0, hi)[i];
    LiveFits(slots, hi, i);
    var slots', a := Stored(slots, r.pos, r.count, r.name, entry, true), r.pos - r.count + 1;
    RemovalFacts(slots, hi, i, entry);
    ReplaceOne(slots, slots', a, r.pos, hi);
    CutAtRecord(slots, hi, i);
  }

  lemma RemovalFacts(slots: seq<Slot>, hi: nat, i: nat, entry: Slot)
    requires i < |Live(slots, 0, hi)| && entry[0] == DELETE_ENTRY_MARK && !VolumeIdBit(entry)
    requires Fits(slots, Live(slots, 0, hi)[i].pos, Live(slots, 0, hi)[i].count)
    ensures var r := Live(slots, 0, hi)[i];
      var slots', a := Stored(slots, r.pos, r.count, r.name, entry, true), r.pos - r.count + 1;
      && DiffersIn(slots, slots', a, r.pos) && ClearAbove(slots, r.pos) && Barrier(At(slots', r.pos))
      && (forall q :: a <= q < r.pos ==> Skips(At(slots, q)) && Skips(At(slots', q)) && Barrier(At(slots', q)))
      && Listed(At(slots, r.pos)) && Skips(At(slots', r.pos)) && RecordAt(slots, r.pos) == r
  {
    var r := Live(slots, 0, hi)[i];
    LiveFits(slots, hi, i);
    StoredSlots(slots, r.pos, r.count, r.name, entry, true);
    RecordSlots(slots, r.pos);
    ListedIsClear(slots, r.pos);
    ListedIsBarrier(entry);
  }

  lemma RecordPositions(all: seq<Record>, i: nat)
    requires Separate(all) && i < |all| && forall j :: 0 <= j < |all| ==> 1 <= all[j].count
    ensures forall j :: 0 <= j < i ==> all[j].pos < all[i].pos - all[i].count + 1 && all[j].pos < all[i].pos + 1
    ensures forall j :: i <= j < |all| ==> all[i].pos - all[i].count + 1 <= all[j].pos
    ensures forall j :: i < j < |all| ==> all[i].pos + 1 <= all[j].pos
  {}

  /** The listing around its i-th entry. */
  lemma CutAtRecord(slots: seq<Slot>, hi: nat, i: nat)
    requires i < |Live(slots, 0, hi)|
    ensures var r := Live(slots, 0, hi)[i];
      && r.count <= r.pos + 1 && r.pos < hi
      && Live(slots, 0, r.pos - r.count + 1) == Live(slots, 0, hi)[..i]
        && Live(slots, r.pos + 1, hi) == Live(slots, 0, hi)[i + 1..]
  {
    hide *;
    var all := Live(slots, 0, hi);
    var r := all[i];
    LiveFits(slots, hi, i);
    LiveSeparate(slots, 0, hi);
    forall j | 0 <= j < |all|
      ensures 1 <= all[j].count
    {
      LiveFits(slots, hi, j);
    }
    RecordPositions(all, i);
    LiveCut(slots, hi, r.pos - r.count + 1, i);
    LiveCut(slots, hi, r.pos + 1, i + 1);
  }

  /** When an entry is removed the directory ends where it did, and no long-name slot is left over. */
  lemma RemovedKeeps(slots: seq<Slot>, i: nat, entry: Slot)
    requires i < |Listing(slots)| && entry[0] == DELETE_ENTRY_MARK && !VolumeIdBit(entry)
    ensures var r := Listing(slots)[i];
      && Fits(slots, r.pos, r.count)
      && var after := Stored(slots, r.pos, r.count, r.name, entry, true);
      && EndOf(after) == EndOf(slots) && (EmptyTail(slots) ==> EmptyTail(after))
        && (OrphanFree(slots) ==> OrphanFree(after))
  {
    var hi := EndOf(slots);
    var r := Listing(slots)[i];
    LiveFits(slots, hi, i);
    RemovalFacts(slots, hi, i, entry);
    Replaced(slots, Stored(slots, r.pos, r.count, r.name, entry, true), r.pos - r.count + 1, r.pos);
  }

  lemma Replaced(slots: seq<Slot>, after: seq<Slot>, a: nat, b: nat)
    requires a <= b < EndOf(slots) && DiffersIn(slots, after, a, b) && ClearAbove(slots, b) && Barrier(At(after, b))
    requires forall q :: a <= q < b ==>
      && Skips(At(slots, q)) && Skips(At(after, q))
      && (Barrier(At(after, q)) || OwnedBy(after, q, b))
    requires !Ends(At(slots, b)) && !Ends(At(after, b))
      && (Listed(At(slots, b)) ==> RecordAt(slots, b).count == b - a + 1)
    ensures EndOf(after) == EndOf(slots) && (EmptyTail(slots) ==> EmptyTail(after))
      && (OrphanFree(slots) ==> OrphanFree(after))
  {
    SameEnds(slots, after, a, b);
    hide RecordAt, EndFrom, Skips, At, TailEmpty, DiffersIn, ClearAbove;
    if OrphanFree(slots) { ReplaceLeavesNoOrphans(slots, after, a, b, EndOf(slots), EndOf(slots)); }
  }

  // ---------------------------------------------------------------- inserting

  function With<T>(s: seq<T>, i: nat, x: T): seq<T>
    requires i <= |s|
  {
    s[..i] + [x] + s[i..]
  }

  /** `count` slots up to `pos` lie in the gap in front of the i-th entry. */
  predicate GapHolds(records: seq<Record>, i: nat, hi: nat, pos: nat, count: nat) {
    && i <= |records| && 1 <= count <= pos + 1
    && InGap(records, i, hi, pos - count + 1) && InGap(records, i, hi, pos)
  }

  lemma GapFacts(slots: seq<Slot>, i: nat, pos: nat, count: nat)
    requires GapHolds(Listing(slots), i, EndOf(slots), pos, count)
    ensures pos < EndOf(slots) && ClearAbove(slots, pos)
    ensures forall q :: pos - count < q <= pos ==> Skips(At(slots, q))
    ensures Live(slots, 0, pos - count + 1) == Listing(slots)[..i]
      && Live(slots, pos + 1, EndOf(slots)) == Listing(slots)[i..]
    ensures OrphanFree(slots) && pos >= count ==> Barrier(At(slots, pos - count))
  {
    var hi := EndOf(slots);
    hide Live, Skips, RecordAt, EndFrom, ClearAbove, NoOrphans, Barrier, At;
    forall q | pos - count < q <= pos
      ensures Skips(At(slots, q)) && q < hi
    {
      InsideGap(slots, i, pos, count, q);
    }
    InsideGap(slots, i, pos, count, pos);
    if OrphanFree(slots) && pos >= count { BelowGap(slots, i, pos, count); }
    GapCut(slots, i, pos, count);
    GapIsClear(slots, i, pos, count);
  }

  /** No entry's slots reach down into a gap, not even those of what may be left behind the end. */
  lemma GapIsClear(slots: seq<Slot>, i: nat, pos: nat, count: nat)
    requires GapHolds(Listing(slots), i, EndOf(slots), pos, count) && pos < EndOf(slots)
    ensures ClearAbove(slots, pos)
  {
    var e, all := EndOf(slots), Listing(slots);
    assert !VolumeIdBit(At(slots, e));
    ListedIsClear(slots, e);
    LiveSeparate(slots, 0, e);
    hide Live, RecordAt, EndFrom, Listed, At;
    forall p | pos < p && Listed(At(slots, p))
      ensures pos + RecordAt(slots, p).count <= p
    {
      if p < e {
        LiveHas(slots, 0, e, p);
        var j :| 0 <= j < |all| && all[j] == RecordAt(slots, p);
        AboveGap(all, i, e, pos, j);
      }
    }
  }

  lemma AboveGap(all: seq<Record>, i: nat, hi: nat, pos: nat, j: nat)
    requires Separate(all) && i <= |all| && j < |all| && InGap(all, i, hi, pos) && pos < all[j].pos
    ensures pos + all[j].count <= all[j].pos
  {
    if i < j { assert all[i].pos + all[j].count <= all[j].pos; }
  }

  lemma InsideGap(slots: seq<Slot>, i: nat, pos: nat, count: nat, q: nat)
    requires GapHolds(Listing(slots), i, EndOf(slots), pos, count) && pos - count < q <= pos
    ensures Skips(At(slots, q)) && q < EndOf(slots)
  {
    GapSlots(slots, EndOf(slots), i, q);
  }

  lemma BelowGap(slots: seq<Slot>, i: nat, pos: nat, count: nat)
    requires OrphanFree(slots) && GapHolds(Listing(slots), i, EndOf(slots), pos, count) && count <= pos
    ensures Barrier(At(slots, pos - count))
  {
    hide Live, RecordAt, EndFrom, Skips, Barrier, At, NoOrphans;
    var all := Listing(slots);
    if i > 0 && all[i - 1].pos == pos - count {
      LiveFits(slots, EndOf(slots), i - 1);
      ListedIsBarrier(At(slots, pos - count));
    } else {
      GapSlots(slots, EndOf(slots), i, pos - count);
    }
  }

  lemma GapPositions(all: seq<Record>, i: nat, hi: nat, pos: nat, count: nat)
    requires Separate(all) && GapHolds(all, i, hi, pos, count) && forall j :: 0 <= j < |all| ==> 1 <= all[j].count
    ensures forall j :: 0 <= j < i ==> all[j].pos < pos - count + 1 && all[j].pos < pos + 1
    ensures forall j :: i <= j < |all| ==> pos + 1 <= all[j].pos && pos - count + 1 <= all[j].pos
  {
    forall j | 0 <= j < |all|
      ensures j < i ==> all[j].pos < pos - count + 1
      ensures i <= j ==> pos + 1 <= all[j].pos
    {
      if j < i - 1 { assert all[j].pos + all[i - 1].count <= all[i - 1].pos; }
      if i < j { assert all[i].pos + all[j].count <= all[j].pos; }
    }
  }

  lemma GapCut(slots: seq<Slot>, i: nat, pos: nat, count: nat)
    requires GapHolds(Listing(slots), i, EndOf(slots), pos, count) && pos < EndOf(slots)
    ensures Live(slots, 0, pos - count + 1) == Listing(slots)[..i]
      && Live(slots, pos + 1, EndOf(slots)) == Listing(slots)[i..]
  {
    hide Live, InGap, EndFrom, EndOf, RecordAt, Listed, At, Separate;
    var hi := EndOf(slots);
    var all := Listing(slots);
    LiveSeparate(slots, 0, hi);
    forall j | 0 <= j < |all|
      ensures 1 <= all[j].count
    {
      LiveFits(slots, hi, j);
    }
    GapPositions(all, i, hi, pos, count);
    LiveCut(slots, hi, pos - count + 1, i);
    LiveCut(slots, hi, pos + 1, i);
  }

  /**
   * What a new entry is listed as: at its place, with its short name, and as what was stored exactly when it reads
   * back.
   */
  ghost predicate ListedAs(slots: seq<Slot>, r: Record, listed: Record) {
    && listed.pos == r.pos && listed.short == r.short
    && (listed == r <==> ReadsBackAt(slots, r.pos, r.count, r.name, r.short))
  }

  /** An entry stored in a gap takes its place in the listing, and nothing else changes. */
  lemma InsertedInListing(slots: seq<Slot>, i: nat, pos: nat, count: nat, name: Str, entry: Slot)
      returns (listed: Record)
    requires GapHolds(Listing(slots), i, EndOf(slots), pos, count)
    requires Readable(name, count, entry) && Listed(entry)
    ensures Fits(slots, pos, count) && i <= |Listing(slots)|
    ensures ListedAs(slots, Record(pos, count, name, ShortNameOf(entry)), listed)
    ensures var after := Stored(slots, pos, count, name, entry, false);
      && Listing(after) == With(Listing(slots), i, listed) && EndOf(after) == EndOf(slots)
      && (EmptyTail(slots) ==> EmptyTail(after)) && (OrphanFree(slots) ==> OrphanFree(after))
  {
    hide Live, InGap, EndFrom, EndOf, RecordAt, Listed, At, EmptyTail, OrphanFree, Stored, DiffersIn, Listing, Barrier,
      Skips, ClearAbove,
      ReadsBackAt, OwnedBy;
    GapFacts(slots, i, pos, count);
    EndInside(slots);
    listed := StoredNew(slots, pos, count, name, entry);
    InsertChange(slots, Stored(slots, pos, count, name, entry, false), i, pos - count + 1, pos, listed);
  }

  lemma InsertChange(slots: seq<Slot>, after: seq<Slot>, i: nat, a: nat, b: nat, r: Record)
    requires a <= b < EndOf(slots) && DiffersIn(slots, after, a, b) && ClearAbove(slots, b) && i <= |Listing(slots)|
    requires Barrier(At(after, b)) && Listed(At(after, b)) && RecordAt(after, b) == r
    requires forall q :: a <= q < b ==> Skips(At(after, q)) && OwnedBy(after, q, b)
    requires forall q :: a <= q <= b ==> Skips(At(slots, q))
    requires Live(slots, 0, a) == Listing(slots)[..i] && Live(slots, b + 1, EndOf(slots)) == Listing(slots)[i..]
    ensures EndOf(after) == EndOf(slots) && Listing(after) == With(Listing(slots), i, r)
    ensures (EmptyTail(slots) ==> EmptyTail(after)) && (OrphanFree(slots) ==> OrphanFree(after))
  {
    hide RecordAt, Live, EndFrom, Skips, Barrier, At, TailEmpty, DiffersIn, ClearAbove, OwnedBy, NoOrphans;
    ReplaceOne(slots, after, a, b, EndOf(slots));
    Replaced(slots, after, a, b);
  }

  /** The scan ends at the end of the file at the latest. */
  lemma EndInside(slots: seq<Slot>)
    ensures EndOf(slots) <= |slots|
  {
    assert Ends(At(slots, |slots|));
  }

  // ---------------------------------------------------------------- appending

  /** An entry stored behind the end is listed last, and the scan then ends behind it. */
  lemma AppendedToListing(slots: seq<Slot>, count: nat, name: Str, entry: Slot) returns (listed: Record)
    requires EmptyTail(slots) && Readable(name, count, entry) && Listed(entry) && EndOf(slots) + count <= |slots|
    ensures 1 <= count && Fits(slots, EndOf(slots) + count - 1, count)
    ensures ListedAs(slots, Record(EndOf(slots) + count - 1, count, name, ShortNameOf(entry)), listed)
    ensures var e := EndOf(slots); var after := Stored(slots, e + count - 1, count, name, entry, false);
      && EmptyTail(after) && EndOf(after) == e + count && (OrphanFree(slots) ==> OrphanFree(after))
      && Listing(after) == Listing(slots) + [listed]
  {
    hide *;
    AppendedFits(slots, count, name, entry);
    var e := EndOf(slots);
    var pos := e + count - 1;
    AppendFacts(slots, count);
    listed := StoredNew(slots, pos, count, name, entry);
    AppendChange(slots, Stored(slots, pos, count, name, entry, false), e, pos, listed);
  }

  lemma AppendedFits(slots: seq<Slot>, count: nat, name: Str, entry: Slot)
    requires Readable(name, count, entry) && EndOf(slots) + count <= |slots|
    ensures 1 <= count && Fits(slots, EndOf(slots) + count - 1, count)
  {
    hide EndOf;
  }

  /** What storing a new entry leaves in its slots. */
  lemma StoredNew(slots: seq<Slot>, pos: nat, count: nat, name: Str, entry: Slot) returns (listed: Record)
    requires Fits(slots, pos, count) && Readable(name, count, entry) && Listed(entry)
    ensures var after := Stored(slots, pos, count, name, entry, false);
      && DiffersIn(slots, after, pos - count + 1, pos) && Barrier(At(after, pos)) && Listed(At(after, pos))
      && (forall q :: pos - count < q < pos ==> Skips(At(after, q)) && OwnedBy(after, q, pos))
      && RecordAt(after, pos) == listed && ListedAs(slots, Record(pos, count, name, ShortNameOf(entry)), listed)
  {
    StoredSlots(slots, pos, count, name, entry, false);
    StoredLoads(slots, pos, count, name, entry);
    ListedIsBarrier(entry);
    hide RecordAt, Stored, ReadsBackAt, Skips;
    listed := RecordAt(Stored(slots, pos, count, name, entry, false), pos);
  }

  lemma AppendChange(slots: seq<Slot>, after: seq<Slot>, e: nat, pos: nat, r: Record)
    requires e == EndOf(slots) && e <= pos && EmptyTail(slots) && DiffersIn(slots, after, e, pos)
    requires Barrier(At(after, pos)) && Listed(At(after, pos)) && RecordAt(after, pos) == r
    requires forall q :: e <= q < pos ==> Skips(At(after, q)) && OwnedBy(after, q, pos)
    requires forall q: nat :: e <= q ==> !Listed(At(slots, q))
    requires ClearAbove(slots, pos) && (OrphanFree(slots) ==> NoOrphans(slots, e, pos + 1))
    ensures EmptyTail(after) && EndOf(after) == pos + 1 && Listing(after) == Listing(slots) + [r]
    ensures OrphanFree(slots) ==> OrphanFree(after)
  {
    hide RecordAt, Live, EndFrom, EndOf, Barrier, At, DiffersIn, ClearAbove, OwnedBy, TailEmpty, NoOrphans, VolumeIdBit;
    AppendedEnd(slots, after, e, pos);
    LiveUnfold(slots, pos);
    LastOne(slots, after, pos, r);
    ReplaceOne(slots, after, e, pos, pos + 1);
    NothingBehind(Live(slots, 0, e), One(slots, pos), r);
    if OrphanFree(slots) { ReplaceLeavesNoOrphans(slots, after, e, pos, e, pos + 1); }
  }

  lemma LastOne(slots: seq<Slot>, after: seq<Slot>, pos: nat, r: Record)
    requires Listed(At(after, pos)) && RecordAt(after, pos) == r
    ensures One(after, pos) == [r]
  {
    hide RecordAt, Listed, At;
  }

  lemma NothingBehind(x: seq<Record>, y: seq<Record>, r: Record)
    ensures x + [r] + [] == x + [r]
  {}

  lemma LiveUnfold(slots: seq<Slot>, pos: nat)
    ensures Live(slots, pos + 1, pos + 1) == []
  {}

  lemma AppendFacts(slots: seq<Slot>, count: nat)
    requires EmptyTail(slots) && count >= 1
    ensures var e := EndOf(slots);
      && (forall q: nat :: e <= q ==> !Listed(At(slots, q)))
      && ClearAbove(slots, e + count - 1)
      && (OrphanFree(slots) ==> NoOrphans(slots, e, e + count))
  {
    var e := EndOf(slots);
    forall p | 0 <= p < e && OrphanFree(slots)
      ensures Barrier(At(slots, p)) || exists q :: p < q < e + count && OwnedBy(slots, p, q)
    {
      if !Barrier(At(slots, p)) {
        var q :| p < q < e && OwnedBy(slots, p, q);
      }
    }
  }

  /** In a directory without left-over slots every new entry reads back, if its characters survive. */
  lemma OrphanFreeReadsBack(slots: seq<Slot>, i: nat, pos: nat, count: nat, name: Str, short: Name83)
    requires OrphanFree(slots) && 1 <= count && (count == 1 ==> Told(name))
    requires GapHolds(Listing(slots), i, EndOf(slots), pos, count) || pos == EndOf(slots) + count - 1
    ensures ReadsBackAt(slots, pos, count, name, short)
  {
    if count == 1 && pos > 0 {
      hide Live, Continues, RecordAt, EndFrom;
      if pos == EndOf(slots) { assert Barrier(At(slots, pos - 1)); } else { BelowGap(slots, i, pos, count); }
      BarrierStops(At(slots, pos - 1), CheckSumOf(short), 1);
    }
  }

  lemma AppendedEnd(slots: seq<Slot>, after: seq<Slot>, e: nat, pos: nat)
    requires e == EndOf(slots) && e <= pos && TailEmpty(slots, e) && DiffersIn(slots, after, e, pos)
    requires forall q :: e <= q <= pos ==> !Ends(At(after, q))
    ensures EndOf(after) == pos + 1 && TailEmpty(after, pos + 1)
  {
    assert At(after, pos + 1) == At(slots, pos + 1);
    forall q | 0 <= q <= pos
      ensures !Ends(At(after, q))
    {
      if q < e { assert At(after, q) == At(slots, q); }
    }
    forall p: nat | pos + 1 <= p
      ensures Ends(At(after, p))
    {
      assert At(after, p) == At(slots, p);
    }
  }

  /** Empty slots added at the end of the file change nothing that is read. */
  lemma ExpandedReadsSame(slots: seq<Slot>, n: nat)
    ensures var after := slots + EmptySlots(n);
      && EndOf(after) == EndOf(slots) && Listing(after) == Listing(slots)
      && (EmptyTail(slots) ==> EmptyTail(after)) && (OrphanFree(slots) ==> OrphanFree(after))
  {
    var after := slots + EmptySlots(n);
    forall p: nat
      ensures At(after, p) == At(slots, p)
    {}
    ReadsSame(slots, after);
  }

  lemma ReadsSame(slots: seq<Slot>, slots': seq<Slot>)
    requires forall p: nat :: At(slots, p) == At(slots', p)
    ensures EndOf(slots') == EndOf(slots) && Listing(slots') == Listing(slots)
    ensures (EmptyTail(slots) ==> EmptyTail(slots')) && (OrphanFree(slots) ==> OrphanFree(slots'))
  {
    hide RecordAt, Live, EndFrom, TailEmpty, NoOrphans, At;
    SameEnd(slots, slots');
    var hi := EndOf(slots);
    forall p: nat
      ensures RecordAt(slots, p) == RecordAt(slots', p) && One(slots, p) == One(slots', p)
    {
      OneBelow(slots, slots', p);
    }
    LiveSame(slots, slots', 0, hi);
    if OrphanFree(slots) { SameOrphans(slots, slots', hi); }
  }

  lemma SameOrphans(slots: seq<Slot>, slots': seq<Slot>, hi: nat)
    requires forall p: nat :: At(slots, p) == At(slots', p)
    requires forall p: nat :: RecordAt(slots, p) == RecordAt(slots', p)
    requires NoOrphans(slots, hi, hi)
    ensures NoOrphans(slots', hi, hi)
  {
    hide RecordAt, At;
    forall p | 0 <= p < hi
      ensures Barrier(At(slots', p)) || exists q :: p < q < hi && OwnedBy(slots', p, q)
    {
      if !Barrier(At(slots', p)) {
        var q :| p < q < hi && OwnedBy(slots, p, q);
        assert OwnedBy(slots', p, q);
      }
    }
  }

  // ---------------------------------------------------------------- rewriting in place

  lemma {:induction false} RunChars(slots: seq<Slot>, p: nat, sum: Byte, ordinal: nat)
    ensures var r := ReadRun(slots, p, sum, ordinal);
      ordinal <= r.next && |r.chars| == LFN_CHAR_TOTAL * (r.next - ordinal) && (r.next == ordinal ==> !r.complete)
    decreases p
  {
    if p > 0 { RunChars(slots, p - 1, sum, ordinal + 1); }
  }

  /** Whatever the slots hold, a loaded name can be stored again in as many slots. */
  lemma LoadedReadable(slots: seq<Slot>, p: nat)
    ensures RecordAt(slots, p).count > 1 ==> Readable(RecordAt(slots, p).name, RecordAt(slots, p).count, At(slots, p))
  {
    var entry := At(slots, p);
    RunChars(slots, p, CheckSumOf(ShortNameOf(entry)), 1);
    RecordSlots(slots, p);
    var byFlag := NameViaCaseFlag(ShortNameOf(entry), CaseFlagField(entry));
    assert |byFlag| <= FAT_MAIN_NAME_LEN + 1 + FAT_EXTEND_NAME_LEN;
  }

  /** Storing an entry again with other attributes, times or sizes leaves the listing as it is. */
  lemma RestoredListing(slots: seq<Slot>, hi: nat, i: nat, entry: Slot)
    requires i < |Live(slots, 0, hi)| && Listed(entry)
    requires entry[..11] == At(slots, Live(slots, 0, hi)[i].pos)[..11]
      && entry[12] == At(slots, Live(slots, 0, hi)[i].pos)[12]
    ensures var r := Live(slots, 0, hi)[i];
      && Fits(slots, r.pos, r.count)
      && Live(Stored(slots, r.pos, r.count, r.name, entry, false), 0, hi) == Live(slots, 0, hi)
  {
    var r := Live(slots, 0, hi)[i];
    LiveFits(slots, hi, i);
    LoadedReadable(slots, r.pos);
    RestoredFacts(slots, r.pos, entry);
    hide Stored, RecordAt, Live, Readable;
    ReplaceOne(slots, Stored(slots, r.pos, r.count, r.name, entry, false), r.pos - r.count + 1, r.pos, hi);
  }

  /** And it leaves the end of the directory, what lies behind it, and the absence of orphans as they are. */
  lemma RestoredDirectory(slots: seq<Slot>, i: nat, entry: Slot)
    requires i < |Listing(slots)| && Listed(entry)
    requires entry[..11] == At(slots, Listing(slots)[i].pos)[..11] && entry[12] == At(slots, Listing(slots)[i].pos)[12]
    ensures var r := Listing(slots)[i];
      && Fits(slots, r.pos, r.count)
      && var after := Stored(slots, r.pos, r.count, r.name, entry, false);
      && EndOf(after) == EndOf(slots) && Listing(after) == Listing(slots)
      && (EmptyTail(slots) ==> EmptyTail(after)) && (OrphanFree(slots) ==> OrphanFree(after))
  {
    var r := Listing(slots)[i];
    RestoredListing(slots, EndOf(slots), i, entry);
    LiveFits(slots, EndOf(slots), i);
    LoadedReadable(slots, r.pos);
    RestoredFacts(slots, r.pos, entry);
    ListedIsBarrier(entry);
    hide Stored, RecordAt, Live, Readable, EndFrom, EmptyTail, OrphanFree;
    Replaced(slots, Stored(slots, r.pos, r.count, r.name, entry, false), r.pos - r.count + 1, r.pos);
  }

  lemma RestoredFacts(slots: seq<Slot>, p: nat, entry: Slot)
    requires Listed(At(slots, p)) && Listed(entry) && entry[..11] == At(slots, p)[..11] && entry[12] == At(slots, p)[12]
    requires Fits(slots, p, RecordAt(slots, p).count)
      && (RecordAt(slots, p).count > 1 ==> Readable(RecordAt(slots, p).name, RecordAt(slots, p).count, At(slots, p)))
    ensures var r := RecordAt(slots, p); var after := Stored(slots, p, r.count, r.name, entry, false);
      && DiffersIn(slots, after, p - r.count + 1, p) && ClearAbove(slots, p) && Barrier(At(after, p))
      && (forall q :: p - r.count < q < p ==> Skips(At(slots, q)) && Skips(At(after, q)) && OwnedBy(after, q, p))
      && Listed(At(after, p)) && One(after, p) == One(slots, p)
  {
    var r := RecordAt(slots, p);
    StoredSlots(slots, p, r.count, r.name, entry, false);
    RecordSlots(slots, p);
    ListedIsBarrier(entry);
    ListedIsClear(slots, p);
    if r.count == 1 {
      RunBelow(slots, Stored(slots, p, 1, r.name, entry, false), p, CheckSumOf(ShortNameOf(entry)), 1);
    } else {
      StoredLoads(slots, p, r.count, r.name, entry);
    }
  }
}
