/**
 * The 32-byte slots of a directory file: short entries, and the long-name slots in front of them
 * (DirectoryManage.c: FatAccessEntry, FatStoreDirEnt, FatLoadLongNameEntry).
 */
module DirSlots {
  import opened FatTypes
  import opened ShortName

  const SLOT_SIZE := 32
  const FAT_ATTRIBUTE_LFN: Byte := 0x0F
  const FAT_LFN_LAST: Byte := 0x40
  const MAX_LFN_ENTRIES := 20
  const LFN_CHAR_TOTAL := 13
  const DELETE_ENTRY_MARK: Byte := 0xE5
  const EMPTY_ENTRY_MARK: Byte := 0x00

  type Slot = s: seq<Byte> | |s| == 32 witness seq(32, _ => 0)

  // Fields of a short entry, and of a long-name slot
  function Attributes(s: Slot): Byte { s[11] }

  function ShortNameOf(s: Slot): Name83 { s[..11] }

  function CaseFlagField(s: Slot): Byte { s[12] }

  function Checksum(s: Slot): Byte { s[13] }

  predicate MustBeZero(s: Slot) { s[26] == 0 && s[27] == 0 }

  predicate VolumeIdBit(s: Slot) { Attributes(s) / 8 % 2 == 1 }

  predicate IsLast(ordinal: Byte) { ordinal / FAT_LFN_LAST % 2 == 1 }

  /** The ordinal without its last mark. */
  function Number(ordinal: Byte): Byte { if IsLast(ordinal) then ordinal - FAT_LFN_LAST else ordinal }

  /** Where the i-th character of a long-name slot lies: five, six and two characters. */
  function CharOffset(i: nat): (o: nat)
    requires i < LFN_CHAR_TOTAL
    ensures o + 1 < SLOT_SIZE
  {
    if i < 5 then 1 + 2 * i else if i < 11 then 14 + 2 * (i - 5) else 28 + 2 * (i - 11)
  }

  function Pair(low: Byte, high: Byte): Char16 { low as nat + 0x100 * (high as nat) }

  function LfnChars(s: Slot): (chars: seq<Char16>)
    ensures |chars| == LFN_CHAR_TOTAL
  {
    seq(LFN_CHAR_TOTAL, i requires 0 <= i < LFN_CHAR_TOTAL => Pair(s[CharOffset(i)], s[CharOffset(i) + 1]))
  }

  function Low(c: Char16): Byte { c % 0x100 }

  function High(c: Char16): Byte { c / 0x100 }

  /** The characters from `lo` up to `hi`, two bytes each. */
  function CharBytes(c: seq<Char16>, lo: nat, hi: nat): (b: seq<Byte>)
    requires lo <= hi <= |c|
    ensures |b| == 2 * (hi - lo)
  {
    seq(2 * (hi - lo), j requires 0 <= j < 2 * (hi - lo) =>
      if j % 2 == 0 then Low(c[lo + j / 2]) else High(c[lo + j / 2]))
  }

  lemma CharByteAt(c: seq<Char16>, lo: nat, hi: nat, i: nat)
    requires lo <= i < hi <= |c|
    ensures CharBytes(c, lo, hi)[2 * (i - lo)] == Low(c[i]) && CharBytes(c, lo, hi)[2 * (i - lo) + 1] == High(c[i])
  {}

  function LfnSlot(ordinal: Byte, sum: Byte, c: seq<Char16>): Slot
    requires |c| == LFN_CHAR_TOTAL
  {
    [ordinal] + CharBytes(c, 0, 5) + [FAT_ATTRIBUTE_LFN, 0, sum] + CharBytes(c, 5, 11) + [0, 0] + CharBytes(c, 11, 13)
  }

  lemma LfnSlotFields(ordinal: Byte, sum: Byte, c: seq<Char16>)
    requires |c| == LFN_CHAR_TOTAL
    ensures var s := LfnSlot(ordinal, sum, c);
      s[0] == ordinal && Attributes(s) == FAT_ATTRIBUTE_LFN && Checksum(s) == sum && MustBeZero(s) && LfnChars(s) == c
  {
    hide CharBytes;
    var s := LfnSlot(ordinal, sum, c);
    forall i | 0 <= i < LFN_CHAR_TOTAL
      ensures Pair(s[CharOffset(i)], s[CharOffset(i) + 1]) == c[i]
    {
      LfnSlotChar(ordinal, sum, c, i);
      hide LfnSlot;
    }
  }

  lemma LfnSlotChar(ordinal: Byte, sum: Byte, c: seq<Char16>, i: nat)
    requires |c| == LFN_CHAR_TOTAL && i < LFN_CHAR_TOTAL
    ensures var s := LfnSlot(ordinal, sum, c); s[CharOffset(i)] == Low(c[i]) && s[CharOffset(i) + 1] == High(c[i])
  {
    hide CharBytes, Low, High;
    if i < 5 {
      CharByteAt(c, 0, 5, i);
    } else if i < 11 {
      CharByteAt(c, 5, 11, i);
    } else {
      CharByteAt(c, 11, 13, i);
    }
  }

  /** What is read at position `p`; past the end of the file, an empty entry. */
  function At(slots: seq<Slot>, p: nat): Slot {
    if p < |slots| then slots[p] else seq(SLOT_SIZE, _ => EMPTY_ENTRY_MARK)
  }

  /** The slots of an added cluster. */
  function EmptySlots(n: nat): (slots: seq<Slot>)
    ensures |slots| == n
  {
    seq(n, _ => At([], 0))
  }

  // ---------------------------------------------------------------- storing

  /** LfnBuffer: the name, a terminating zero, and 0xFFFF up to the end of the last slot. */
  function LfnBuffer(name: Str, n: nat): (b: seq<Char16>)
    ensures |b| == LFN_CHAR_TOTAL * n
  {
    seq(LFN_CHAR_TOTAL * n, i requires 0 <= i < LFN_CHAR_TOTAL * n => if i < |name| then name[i]
        else if i == |name| then 0 else 0xFFFF)
  }

  /** The `k`-th of the `n` long-name slots of an entry, counted from the short entry downwards. */
  function StoredLfn(name: Str, n: nat, k: nat, sum: Byte, invalid: bool): Slot
    requires 1 <= k <= n <= MAX_LFN_ENTRIES
  {
    var ordinal := if invalid then DELETE_ENTRY_MARK else if k == n then k + FAT_LFN_LAST else k;
    LfnSlot(ordinal, sum, LfnBuffer(name, n)[LFN_CHAR_TOTAL * (k - 1)..LFN_CHAR_TOTAL * k])
  }

  /** An entry of `count` slots, the last of them at `pos`, lies inside the file. */
  predicate Fits(slots: seq<Slot>, pos: nat, count: nat) {
    1 <= count <= MAX_LFN_ENTRIES + 1 && count <= pos + 1 && pos < |slots|
  }

  /** The slots after the short entry, and `done` of its `n` long-name slots, are stored. */
  function StoredPart(slots: seq<Slot>, pos: nat, n: nat, done: nat, name: Str, entry: Slot,
                      invalid: bool): (r: seq<Slot>)
    requires done <= n <= MAX_LFN_ENTRIES && n <= pos < |slots|
    ensures |r| == |slots|
  {
    seq(|slots|, q requires 0 <= q < |slots| =>
      if q == pos then entry
      else if pos - done <= q < pos then StoredLfn(name, n, pos - q, CheckSumOf(ShortNameOf(entry)), invalid)
      else slots[q])
  }

  /** The slots after an entry is stored: the short entry at `pos`, its long-name slots below it. */
  function Stored(slots: seq<Slot>, pos: nat, count: nat, name: Str, entry: Slot, invalid: bool): (r: seq<Slot>)
    requires Fits(slots, pos, count)
    ensures |r| == |slots|
  {
    StoredPart(slots, pos, count - 1, count - 1, name, entry, invalid)
  }

  lemma StoreNothing(slots: seq<Slot>, pos: nat, n: nat, name: Str, entry: Slot, invalid: bool)
    requires n <= MAX_LFN_ENTRIES && n <= pos < |slots|
    ensures StoredPart(slots, pos, n, 0, name, entry, invalid) == slots[pos := entry]
  {}

  lemma StoreNext(slots: seq<Slot>, pos: nat, n: nat, k: nat, name: Str, entry: Slot, invalid: bool)
    requires 1 <= k <= n <= MAX_LFN_ENTRIES && n <= pos < |slots|
    ensures StoredPart(slots, pos, n, k, name, entry, invalid)
      == StoredPart(slots, pos, n, k - 1, name, entry, invalid)
           [pos - k := StoredLfn(name, n, k, CheckSumOf(ShortNameOf(entry)), invalid)]
  {
    hide StoredLfn, CheckSumOf, ShortNameOf;
  }

  /** The directory file, as FatAccessEntry uses it. */
  class DirFile {
    var slots: seq<Slot>

    constructor (slots: seq<Slot>)
      ensures this.slots == slots
    {
      this.slots := slots;
    }

    /** FatAccessEntry with ReadData. */
    function ReadEntry(pos: nat): Slot
      reads this
    {
      At(slots, pos)
    }

    /** FatAccessEntry with WriteData. */
    method WriteEntry(pos: nat, entry: Slot)
      requires pos < |slots|
      modifies this
      ensures slots == old(slots)[pos := entry]
    {
      slots := slots[pos := entry];
    }

    /** FatExpandODir, when the volume has room: one cluster of empty slots. */
    method Expand(clusterSlots: nat)
      modifies this
      ensures slots == old(slots) + EmptySlots(clusterSlots)
    {
      slots := slots + EmptySlots(clusterSlots);
    }

    /** FatStoreDirEnt. */
    method FatStoreDirEnt(pos: nat, count: nat, name: Str, entry: Slot, invalid: bool)
      requires Fits(slots, pos, count)
      modifies this
      ensures slots == Stored(old(slots), pos, count, name, entry, invalid)
    {
      ghost var before := slots;
      hide LfnSlot, LfnBuffer, StoredPart;
      StoreNothing(before, pos, count - 1, name, entry, invalid);
      WriteEntry(pos, entry);
      var n := count - 1;
      if n > 0 {
        var buffer := LfnBuffer(name, n);
        var sum := FatCheckSum(ShortNameOf(entry));
        var k := 1;
        while k <= n
          invariant 1 <= k <= n + 1
          invariant slots == StoredPart(before, pos, n, k - 1, name, entry, invalid)
        {
          var ordinal: Byte := k;
          if k == n { ordinal := ordinal + FAT_LFN_LAST; }
          if invalid { ordinal := DELETE_ENTRY_MARK; }
          StoreNext(before, pos, n, k, name, entry, invalid);
          WriteEntry(pos - k, LfnSlot(ordinal, sum, buffer[LFN_CHAR_TOTAL * (k - 1)..LFN_CHAR_TOTAL * k]));
          k := k + 1;
        }
      }
    }

    /** FatLoadLongNameEntry: the number of slots and the long name of the short entry at `pos`. */
    method FatLoadLongNameEntry(pos: nat, entry: Slot) returns (count: nat, name: Str)
      ensures Loaded(count, name) == LoadName(slots, pos, entry)
    {
      hide NameViaCaseFlag, CString, CheckSumOf, Continues, LfnChars, At;
      var sum := FatCheckSum(ShortNameOf(entry));
      var p: nat, ordinal: nat := pos, 1;
      var chars: seq<Char16> := [];
      var complete := false;
      while true
        invariant p <= pos && 1 <= ordinal && !complete
        invariant ReadRun(slots, pos, sum, 1) == Prefixed(chars, ReadRun(slots, p, sum, ordinal))
        decreases p
      {
        if p == 0 { break; }
        p := p - 1;
        var slot := ReadEntry(p);
        if !Continues(slot, sum, ordinal) { break; }
        chars := chars + LfnChars(slot);
        ordinal := ordinal + 1;
        if IsLast(slot[0]) {
          complete := true;
          break;
        }
      }
      count := ordinal;
      name := if complete then CString(chars) else NameViaCaseFlag(ShortNameOf(entry), CaseFlagField(entry));
    }
  }

  // ---------------------------------------------------------------- loading

  /** The long-name slots read downwards from a short entry, until the last one, or one that does not belong. */
  datatype Run = Run(complete: bool, next: nat, chars: seq<Char16>)

  datatype LoadedName = Loaded(count: nat, name: Str)

  function Prefixed(chars: seq<Char16>, r: Run): Run { r.(chars := chars + r.chars) }

  /** The slot may be the long-name slot number `ordinal` of a short entry with checksum `sum`. */
  predicate Continues(s: Slot, sum: Byte, ordinal: nat) {
    && Attributes(s) == FAT_ATTRIBUTE_LFN && MustBeZero(s) && Checksum(s) == sum
    && Number(s[0]) == ordinal && ordinal <= MAX_LFN_ENTRIES
  }

  function ReadRun(slots: seq<Slot>, p: nat, sum: Byte, ordinal: nat): Run {
    if p == 0 || !Continues(At(slots, p - 1), sum, ordinal) then Run(false, ordinal, [])
    else if IsLast(At(slots, p - 1)[0]) then Run(true, ordinal + 1, LfnChars(At(slots, p - 1)))
    else Prefixed(LfnChars(At(slots, p - 1)), ReadRun(slots, p - 1, sum, ordinal + 1))
  }

  /** The number of slots and the name of the short entry `entry` at `pos`. */
  function LoadName(slots: seq<Slot>, pos: nat, entry: Slot): LoadedName {
    var run := ReadRun(slots, pos, CheckSumOf(ShortNameOf(entry)), 1);
    Loaded(run.next, if run.complete then CString(run.chars)
           else NameViaCaseFlag(ShortNameOf(entry), CaseFlagField(entry)))
  }

  /** An entry's slots lie above position 0 or reach down to it, and there are at most 21. */
  lemma {:induction false} RunLength(slots: seq<Slot>, p: nat, sum: Byte, ordinal: nat)
    requires 1 <= ordinal
    ensures var r := ReadRun(slots, p, sum, ordinal);
      && ordinal <= r.next <= p + ordinal
      && (ordinal <= MAX_LFN_ENTRIES + 1 ==> r.next <= MAX_LFN_ENTRIES + 1)
      && forall q :: p - (r.next - ordinal) <= q < p ==> Attributes(At(slots, q)) == FAT_ATTRIBUTE_LFN
    decreases p
  {
    if p > 0 && Continues(At(slots, p - 1), sum, ordinal) && !IsLast(At(slots, p - 1)[0]) {
      RunLength(slots, p - 1, sum, ordinal + 1);
    }
  }

  /** A slot that ends every run: not a long-name slot, or a deleted one. */
  predicate Barrier(s: Slot) {
    Attributes(s) != FAT_ATTRIBUTE_LFN || s[0] == DELETE_ENTRY_MARK
  }

  lemma BarrierStops(s: Slot, sum: Byte, ordinal: nat)
    requires Barrier(s)
    ensures !Continues(s, sum, ordinal)
  {
    assert Number(DELETE_ENTRY_MARK) == 0xA5;
  }

  /**
   * A run that ends above `b` is read the same when the slot at `b` and those below it change, if the new one ends
   * every run.
   */
  lemma {:induction false} RunAboveGap(slots: seq<Slot>, slots': seq<Slot>, b: nat, p: nat, sum: Byte, ordinal: nat)
    requires b < p && Barrier(At(slots', b)) && b + ReadRun(slots, p, sum, ordinal).next <= p + ordinal - 1
    requires forall q :: b < q < p ==> At(slots, q) == At(slots', q)
    ensures ReadRun(slots, p, sum, ordinal) == ReadRun(slots', p, sum, ordinal)
    decreases p
  {
    RunLength(slots, p - 1, sum, ordinal + 1);
    if p - 1 == b {
      BarrierStops(At(slots', b), sum, ordinal);
    } else if Continues(At(slots, p - 1), sum, ordinal) && !IsLast(At(slots, p - 1)[0]) {
      RunAboveGap(slots, slots', b, p - 1, sum, ordinal + 1);
    }
  }

  lemma {:induction false} RunBelow(slots: seq<Slot>, slots': seq<Slot>, p: nat, sum: Byte, ordinal: nat)
    requires forall q :: 0 <= q < p ==> At(slots, q) == At(slots', q)
    ensures ReadRun(slots, p, sum, ordinal) == ReadRun(slots', p, sum, ordinal)
    decreases p
  {
    if p > 0 { RunBelow(slots, slots', p - 1, sum, ordinal + 1); }
  }

  // ---------------------------------------------------------------- the long-name round trip

  lemma StoredLfnContinues(name: Str, n: nat, k: nat, sum: Byte)
    requires 1 <= k <= n <= MAX_LFN_ENTRIES
    ensures var s := StoredLfn(name, n, k, sum, false);
      Continues(s, sum, k) && (IsLast(s[0]) <==> k == n)
      && LfnChars(s) == LfnBuffer(name, n)[LFN_CHAR_TOTAL * (k - 1)..LFN_CHAR_TOTAL * k]
  {
    OrdinalFields(k);
    hide LfnSlot, LfnBuffer, LfnChars, Attributes, MustBeZero, Checksum, IsLast, Number;
    var chars := LfnBuffer(name, n)[LFN_CHAR_TOTAL * (k - 1)..LFN_CHAR_TOTAL * k];
    LfnSlotFields(if k == n then k + FAT_LFN_LAST else k, sum, chars);
  }

  lemma OrdinalFields(k: nat)
    requires k <= MAX_LFN_ENTRIES
    ensures !IsLast(k) && Number(k) == k && IsLast(k + FAT_LFN_LAST) && Number(k + FAT_LFN_LAST) == k
  {}

  /** Reading downwards over stored slots collects the rest of the buffer. */
  lemma {:induction false} RunOfStored(slots: seq<Slot>, pos: nat, count: nat, name: Str, entry: Slot, k: nat)
    requires Fits(slots, pos, count) && 1 <= k < count
    ensures ReadRun(Stored(slots, pos, count, name, entry, false), pos - (k - 1), CheckSumOf(ShortNameOf(entry)), k)
         == Run(true, count, LfnBuffer(name, count - 1)[LFN_CHAR_TOTAL * (k - 1)..])
    decreases count - k
  {
    hide ReadRun, Stored, StoredPart, StoredLfn, LfnBuffer, CheckSumOf, ShortNameOf, At;
    StoredSlot(slots, pos, count, name, entry, false, k);
    StoredStep(slots, pos, count, name, entry, k);
    JoinTail(LfnBuffer(name, count - 1), k);
    if k < count - 1 { RunOfStored(slots, pos, count, name, entry, k + 1); }
  }

  lemma JoinTail(buffer: seq<Char16>, k: nat)
    requires 1 <= k && LFN_CHAR_TOTAL * k <= |buffer|
    ensures buffer[LFN_CHAR_TOTAL * (k - 1)..LFN_CHAR_TOTAL * k] + buffer[LFN_CHAR_TOTAL * k..] ==
      buffer[LFN_CHAR_TOTAL * (k - 1)..]
    ensures LFN_CHAR_TOTAL * k == |buffer| ==>
      buffer[LFN_CHAR_TOTAL * (k - 1)..LFN_CHAR_TOTAL * k] == buffer[LFN_CHAR_TOTAL * (k - 1)..]
  {}

  lemma StoredSlot(slots: seq<Slot>, pos: nat, count: nat, name: Str, entry: Slot, invalid: bool, k: nat)
    requires Fits(slots, pos, count) && 1 <= k < count
    ensures k <= pos && count - 1 <= MAX_LFN_ENTRIES
    ensures At(Stored(slots, pos, count, name, entry, invalid), pos - k)
         == StoredLfn(name, count - 1, k, CheckSumOf(ShortNameOf(entry)), invalid)
  {
    hide StoredLfn, CheckSumOf, ShortNameOf;
  }

  lemma StoredStep(slots: seq<Slot>, pos: nat, count: nat, name: Str, entry: Slot, k: nat)
    requires Fits(slots, pos, count) && 1 <= k < count
    ensures var stored, sum := Stored(slots, pos, count, name, entry, false), CheckSumOf(ShortNameOf(entry));
      var chars := LfnBuffer(name, count - 1)[LFN_CHAR_TOTAL * (k - 1)..LFN_CHAR_TOTAL * k];
      ReadRun(stored, pos - (k - 1), sum, k) ==
        if k == count - 1 then Run(true, k + 1, chars)
        else Prefixed(chars, ReadRun(stored, pos - k, sum, k + 1))
  {
    hide *;
    StoredSlot(slots, pos, count, name, entry, false, k);
    StoredLfnContinues(name, count - 1, k, CheckSumOf(ShortNameOf(entry)));
    ReadStep(Stored(slots, pos, count, name, entry, false), pos - (k - 1), CheckSumOf(ShortNameOf(entry)), k);
  }

  /** Reading one slot that continues a run. */
  lemma ReadStep(slots: seq<Slot>, p: nat, sum: Byte, ordinal: nat)
    requires 0 < p && Continues(At(slots, p - 1), sum, ordinal)
    ensures ReadRun(slots, p, sum, ordinal) ==
      if IsLast(At(slots, p - 1)[0]) then Run(true, ordinal + 1, LfnChars(At(slots, p - 1)))
      else Prefixed(LfnChars(At(slots, p - 1)), ReadRun(slots, p - 1, sum, ordinal + 1))
  {}

  lemma BufferHolds(name: Str, n: nat)
    requires |name| <= LFN_CHAR_TOTAL * n
    ensures CString(LfnBuffer(name, n)) == name
  {
    var buffer := LfnBuffer(name, n);
    assert buffer == name + buffer[|name|..];
    CStringOf(name, buffer[|name|..]);
  }

  /** A name stored in long-name slots is read back, lengths that fill the last slot included. */
  lemma LongNameRoundTrip(slots: seq<Slot>, pos: nat, count: nat, name: Str, entry: Slot)
    requires Fits(slots, pos, count) && 2 <= count && |name| <= LFN_CHAR_TOTAL * (count - 1)
    ensures LoadName(Stored(slots, pos, count, name, entry, false), pos, entry) == Loaded(count, name)
  {
    hide *;
    BufferHolds(name, count - 1);
    RunOfStored(slots, pos, count, name, entry, 1);
    assert LfnBuffer(name, count - 1)[LFN_CHAR_TOTAL * 0..] == LfnBuffer(name, count - 1);
    LoadOfRun(Stored(slots, pos, count, name, entry, false), pos, entry, count, LfnBuffer(name, count - 1));
  }

  lemma LoadOfRun(slots: seq<Slot>, pos: nat, entry: Slot, count: nat, chars: seq<Char16>)
    requires ReadRun(slots, pos, CheckSumOf(ShortNameOf(entry)), 1) == Run(true, count, chars)
    ensures LoadName(slots, pos, entry) == Loaded(count, CString(chars))
  {}

  /** Without a slot to begin with, an entry has no long name. */
  lemma LoadWithoutRun(slots: seq<Slot>, pos: nat, entry: Slot)
    ensures var sum := CheckSumOf(ShortNameOf(entry));
      LoadName(slots, pos, entry).count == 1 <==> pos == 0 || !Continues(At(slots, pos - 1), sum, 1)
    ensures LoadName(slots, pos, entry).count == 1 ==>
      LoadName(slots, pos, entry) == Loaded(1, NameViaCaseFlag(ShortNameOf(entry), CaseFlagField(entry)))
  {
    if pos > 0 { RunLength(slots, pos - 1, CheckSumOf(ShortNameOf(entry)), 2); }
    hide NameViaCaseFlag, CheckSumOf, CString, LfnChars, Continues, IsLast, At;
  }

  /**
   * An entry of one slot is read back, with the name that its short name and flags give, exactly when the slot
   * below it cannot be taken for its first long-name slot.
   */
  lemma ShortEntryLoads(slots: seq<Slot>, pos: nat, name: Str, entry: Slot)
    requires Fits(slots, pos, 1)
    ensures LoadName(Stored(slots, pos, 1, name, entry, false), pos, entry)
         == Loaded(1, NameViaCaseFlag(ShortNameOf(entry), CaseFlagField(entry)))
      <==> pos == 0 || !Continues(slots[pos - 1], CheckSumOf(ShortNameOf(entry)), 1)
  {
    var stored := Stored(slots, pos, 1, name, entry, false);
    assert pos > 0 ==> At(stored, pos - 1) == slots[pos - 1];
    hide LoadName, NameViaCaseFlag, CheckSumOf, Continues, Stored;
    LoadWithoutRun(stored, pos, entry);
  }

  /**
   * The failing case: whatever the entry, a left-over slot with its checksum, marked as the first and last of a long
   * name, is taken for its long name. The entry is then read back with two slots and the left-over characters.
   */
  lemma LeftOverSlotTaken(name: Str, entry: Slot, chars: seq<Char16>)
    requires |chars| == LFN_CHAR_TOTAL
    ensures var slots := [LfnSlot(FAT_LFN_LAST + 1, CheckSumOf(ShortNameOf(entry)), chars), entry];
      && Fits(slots, 1, 1)
      && LoadName(Stored(slots, 1, 1, name, entry, false), 1, entry) == Loaded(2, CString(chars))
  {
    hide LfnSlot, LfnChars, LoadName, CheckSumOf, CString, Continues, IsLast, StoredPart, Stored;
    var sum := CheckSumOf(ShortNameOf(entry));
    var below := LfnSlot(FAT_LFN_LAST + 1, sum, chars);
    StoredAbove(below, name, entry);
    OnlySlot(sum, chars);
    OneSlotTaken(Stored([below, entry], 1, 1, name, entry, false), entry, sum);
  }

  lemma StoredAbove(below: Slot, name: Str, entry: Slot)
    ensures At(Stored([below, entry], 1, 1, name, entry, false), 0) == below
  {}

  /** The slot of a name that needs no more than one. */
  lemma OnlySlot(sum: Byte, chars: seq<Char16>)
    requires |chars| == LFN_CHAR_TOTAL
    ensures var s := LfnSlot(FAT_LFN_LAST + 1, sum, chars);
      Continues(s, sum, 1) && IsLast(s[0]) && LfnChars(s) == chars
  {
    hide LfnSlot, LfnChars, Attributes, MustBeZero, Checksum, IsLast, Number;
    OrdinalFields(1);
    LfnSlotFields(FAT_LFN_LAST + 1, sum, chars);
  }

  /** A slot that is the first and the last of a long name makes it up alone. */
  lemma OneSlotTaken(slots: seq<Slot>, entry: Slot, sum: Byte)
    requires sum == CheckSumOf(ShortNameOf(entry)) && Continues(At(slots, 0), sum, 1) && IsLast(At(slots, 0)[0])
    ensures LoadName(slots, 1, entry) == Loaded(2, CString(LfnChars(At(slots, 0))))
  {
    hide LfnChars, CheckSumOf, CString, Continues, IsLast;
    ReadStep(slots, 1, sum, 1);
    LoadOfRun(slots, 1, entry, 2, LfnChars(At(slots, 0)));
  }

  // ---------------------------------------------------------------- slots and bytes

  /** The slots of a directory file's bytes. */
  function SlotsOf(bytes: seq<Byte>): (slots: seq<Slot>)
    requires |bytes| % SLOT_SIZE == 0
    ensures |slots| == |bytes| / SLOT_SIZE
  {
    seq(|bytes| / SLOT_SIZE, i requires 0 <= i < |bytes| / SLOT_SIZE => bytes[i * SLOT_SIZE..i * SLOT_SIZE + SLOT_SIZE])
  }

  /** Writing one entry's bytes changes one slot. */
  lemma WriteOneSlot(bytes: seq<Byte>, pos: nat, entry: Slot)
    requires |bytes| % SLOT_SIZE == 0 && pos < |bytes| / SLOT_SIZE
    ensures SlotsOf(Splice(bytes, pos * SLOT_SIZE, entry)) == SlotsOf(bytes)[pos := entry]
  {
    var after := Splice(bytes, pos * SLOT_SIZE, entry);
    forall i | 0 <= i < |bytes| / SLOT_SIZE
      ensures SlotsOf(after)[i] == if i == pos then entry else SlotsOf(bytes)[i]
    {
      SliceOfSplice(bytes, pos * SLOT_SIZE, entry, i * SLOT_SIZE, i * SLOT_SIZE + SLOT_SIZE);
      SliceInsideSplice(bytes, pos * SLOT_SIZE, entry, pos * SLOT_SIZE, pos * SLOT_SIZE + SLOT_SIZE);
    }
  }
}
