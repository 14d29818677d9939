/**
 * The short name, the case flag and the number of slots of a new entry (FatSetEntryCount of DirectoryManage.c,
 * FatCreate8Dot3Name of FileName.c).
 */
module EntryNames {
  import opened FatTypes
  import opened ShortName
  import opened DirSlots
  import opened DirScan
  import opened DirStore
  import opened NameIndex

  const MAX_SPEC_RETRY := 4
  const SPEC_BASE_TAG_LEN := 6
  const HASH_BASE_TAG_LEN := 2
  const HASH_VALUE_TAG_LEN := 4
  const CANDIDATES := MAX_SPEC_RETRY + 0x100

  const DOT_NAME: Str := [DOT]
  const DOT_DOT_NAME: Str := [DOT, DOT]

  predicate IsDots(name: seq<Char16>) { name == DOT_NAME || name == DOT_DOT_NAME }

  /** A name that an entry is created with: a valid one, or one of the two dot entries. */
  predicate NewName(name: seq<Char16>) { ValidName(name) || IsDots(name) }

  function LfnEntryNumber(length: nat): nat { (length + LFN_CHAR_TOTAL - 1) / LFN_CHAR_TOTAL }

  /** The number of slots of an entry with this name. */
  function EntryCountOf(name: Str): nat {
    if IsDots(name) then 1
    else if Is8Dot3(name) then (if CaseFlagOf(name).Mixed? then 2 else 1)
    else LfnEntryNumber(|name|) + 1
  }

  /** The short name that the name itself determines; other names get a generated one. */
  predicate HasOwnShort(name: Str) { IsDots(name) || Is8Dot3(name) }

  function OwnShort(name: Str): Name83
    requires HasOwnShort(name)
  {
    if IsDots(name) then Padded(name, FAT_NAME_LEN) else BaseName(name)
  }

  function OwnFlag(name: Str): Byte {
    if !IsDots(name) && Is8Dot3(name) then FlagByte(CaseFlagOf(name)) else 0
  }

  /** A first byte that does not make the entry a deleted or an empty one. */
  predicate LiveFirst(short: Name83) { short[0] != DELETE_ENTRY_MARK && short[0] != EMPTY_ENTRY_MARK }

  /** What FatStrToFat writes never looks like a mark, nor like a blank. */
  lemma {:induction false} FatBytesPrintable(s: seq<Char16>, size: nat)
    ensures forall i :: 0 <= i < |FatBytes(s, size)| ==>
      var b := FatBytes(s, size)[i]; b != DELETE_ENTRY_MARK && b != EMPTY_ENTRY_MARK && b != BLANK
  {
    if s != [] && size != 0 { FatBytesPrintable(s[1..], if Skipped(s[0]) then size else size - 1); }
  }

  lemma BaseNameFirst(s: Str)
    ensures LiveFirst(BaseName(s))
  {
    FatBytesPrintable(s, Min(|Main(s)|, FAT_MAIN_NAME_LEN));
  }

  // ---------------------------------------------------------------- generated short names

  function HexDigit(d: nat): Byte
    requires d < 16
  {
    if d > 9 then d - 10 + 0x41 else d + 0x30
  }

  /** The four hex digits taken from the CRC of the long name: the low half of each of its bytes. */
  function HashTag(crc: nat): (tag: seq<Byte>)
    ensures |tag| == HASH_VALUE_TAG_LEN
  {
    [HexDigit(crc % 16), HexDigit(crc / 0x100 % 16), HexDigit(crc / 0x1_0000 % 16), HexDigit(crc / 0x100_0000 % 16)]
  }

  function BaseTagLength(base: Name83, max: nat): (n: nat)
    ensures n <= max
  {
    Min(TrimmedLength(base[..FAT_MAIN_NAME_LEN]), max)
  }

  /** The spec's form of a generated name: the base's first characters, a tilde and a digit. */
  function SpecName(base: Name83, digit: Byte): Name83 {
    Splice(base, BaseTagLength(base, SPEC_BASE_TAG_LEN), [TILDE, digit])
  }

  /** The form with the hash digits between the base's first two characters and the tilde. */
  function HashedName(base: Name83, crc: nat, digit: Byte): Name83 {
    var spec := SpecName(base, 0x35);
    Splice(spec, BaseTagLength(base, HASH_BASE_TAG_LEN), HashTag(crc) + [TILDE, digit])
  }

  lemma GeneratedFirst(base: Name83, crc: nat, digit: Byte)
    requires LiveFirst(base)
    ensures LiveFirst(SpecName(base, digit)) && LiveFirst(HashedName(base, crc, digit))
  {}

  function Digit(i: nat): Byte { (0x31 + i) % 0x100 }

  ghost predicate ShortTaken(t: NameTable, short: Name83)
    reads t
  {
    exists d :: d in t.nodes && d.record.short == short
  }

  method IsTaken(t: NameTable, short: Name83) returns (taken: bool)
    requires t.Valid() && t.kind == ByShortName
    ensures taken <==> ShortTaken(t, short)
  {
    var previous, found, i := t.Search(Widened(short));
    taken := found != null;
    assert forall d :: d in t.nodes && d.record.short == short ==> d.Key(t.kind) == Widened(short);
    assert found != null ==> Widened(found.record.short) == Widened(short);
    WidenedInjective(short, if found != null then found.record.short else short);
  }

  lemma WidenedInjective(a: Name83, b: Name83)
    ensures Widened(a) == Widened(b) ==> a == b
  {
    if Widened(a) == Widened(b) {
      forall i | 0 <= i < |a|
        ensures a[i] == b[i]
      {
        assert Widened(a)[i] == Widened(b)[i];
      }
    }
  }

  /** The name that is tried after `retry` names were taken. */
  function Candidate(base: Name83, crc: nat, retry: nat): Name83 {
    if retry < MAX_SPEC_RETRY then SpecName(base, Digit(retry))
      else HashedName(base, crc, Digit(retry - MAX_SPEC_RETRY))
  }

  /** One of the candidates is free: the last digit, counted up as a byte, comes round after 256 of them. */
  ghost predicate CandidateFree(base: Name83, crc: nat, t: NameTable)
    reads t
  {
    exists r: nat :: r < CANDIDATES && !ShortTaken(t, Candidate(base, crc, r))
  }

  /** FatCreate8Dot3Name: the first candidate that no entry of the directory has. */
  method FatCreate8Dot3Name(t: NameTable, base: Name83, crc: nat) returns (short: Name83, ghost retry: nat)
    requires t.Valid() && t.kind == ByShortName && LiveFirst(base) && CandidateFree(base, crc, t)
    ensures !ShortTaken(t, short) && LiveFirst(short)
    ensures short == Candidate(base, crc, retry) && forall r :: 0 <= r < retry ==>
      ShortTaken(t, Candidate(base, crc, r))
  {
    hide SpecName, HashedName, Digit, NameTable.Valid;
    var digit, tries := Digit(0), 0;
    short := SpecName(base, digit);
    var taken := IsTaken(t, short);
    ghost var free: nat :| free < CANDIDATES && !ShortTaken(t, Candidate(base, crc, free));
    while taken
      invariant tries <= free
      invariant short == Candidate(base, crc, tries)
      invariant taken <==> ShortTaken(t, short)
      invariant forall r :: 0 <= r < tries ==> ShortTaken(t, Candidate(base, crc, r))
      decreases free - tries, taken
    {
      tries := tries + 1;
      short := Candidate(base, crc, tries);
      taken := IsTaken(t, short);
    }
    retry := tries;
    hide LiveFirst;
    GeneratedFirst(base, crc, Digit(if tries < MAX_SPEC_RETRY then tries else tries - MAX_SPEC_RETRY));
  }

  /** The loop ends exactly when one of the first candidates is free: if none of them is, no later one is either. */
  lemma EndsIff(t: NameTable, base: Name83, crc: nat)
    ensures CandidateFree(base, crc, t) <==> exists r: nat :: !ShortTaken(t, Candidate(base, crc, r))
  {
    forall r: nat | !ShortTaken(t, Candidate(base, crc, r))
      ensures CandidateFree(base, crc, t)
    {
      var s := OneOfTheFirst(base, crc, r);
    }
    hide Candidate, ShortTaken;
  }

  /** Every candidate is one of the first. */
  lemma OneOfTheFirst(base: Name83, crc: nat, r: nat) returns (s: nat)
    ensures s < CANDIDATES && Candidate(base, crc, s) == Candidate(base, crc, r)
  {
    s := r;
    if r >= CANDIDATES {
      s := MAX_SPEC_RETRY + (r - MAX_SPEC_RETRY) % 0x100;
      DigitsComeRound(r - MAX_SPEC_RETRY);
    }
  }

  /** A table in which all the candidates of a name are taken: on it the loop does not end. */
  method FullTable(base: Name83, crc: nat, hash: seq<Char16> -> nat) returns (t: NameTable)
    ensures t.Valid() && t.kind == ByShortName && fresh(t) && fresh(t.heads) && !CandidateFree(base, crc, t)
  {
    hide SpecName, HashedName, Digit, NameTable.Valid, Candidate;
    t := new NameTable(ByShortName, hash);
    for r := 0 to CANDIDATES
      invariant t.Valid() && t.kind == ByShortName && fresh(t) && fresh(t.heads) && fresh(t.nodes)
      invariant forall q: nat :: q < r ==> ShortTaken(t, Candidate(base, crc, q))
    {
      var taken := IsTaken(t, Candidate(base, crc, r));
      if !taken {
        TakeShort(t, Candidate(base, crc, r));
      }
    }
  }

  /** One more entry, with this short name. */
  method TakeShort(t: NameTable, short: Name83)
    requires t.Valid() && t.kind == ByShortName
    modifies t, t.heads
    ensures t.Valid() && fresh(t.nodes - old(t.nodes)) && ShortTaken(t, short)
    ensures forall s: Name83 :: old(ShortTaken(t, s)) ==> ShortTaken(t, s)
  {
    hide NameTable.Valid;
    var d := new DirEnt(Record(0, 1, [], short), seq(SLOT_SIZE, _ => 0));
    t.Insert(d);
    assert d in t.nodes && d.record.short == short;
  }

  lemma DigitsComeRound(i: nat)
    ensures Digit(i % 0x100) == Digit(i)
  {}

  // ---------------------------------------------------------------- the new entry

  /** The bytes of a short entry: its name, attributes, case flag, and what follows them. */
  function EntryOf(short: Name83, attributes: Byte, flag: Byte, info: seq<Byte>): Slot
    requires |info| == 19
  {
    short + [attributes, flag] + info
  }

  /** FatSetEntryCount: how many slots the entry takes, its short name and its case flag. */
  method FatSetEntryCount(t: NameTable, name: Str, crc: nat) returns (count: nat, short: Name83, flag: Byte)
    requires t.Valid() && t.kind == ByShortName && NewName(name)
    requires HasOwnShort(name) || CandidateFree(BaseName(name), crc, t)
    ensures count == EntryCountOf(name) && flag == OwnFlag(name) && LiveFirst(short)
    ensures HasOwnShort(name) ==> short == OwnShort(name)
    ensures !HasOwnShort(name) ==> !ShortTaken(t, short)
  {
    BaseNameFirst(name);
    flag := 0;
    if IsDots(name) {
      return 1, Padded(name, FAT_NAME_LEN), 0;
    }
    var possible;
    possible, short := FatCheckIs8Dot3Name(name);
    if possible {
      var extra;
      flag, extra := FatSetCaseFlag(name);
      count := 1 + extra;
    } else {
      ghost var retry;
      short, retry := FatCreate8Dot3Name(t, short, crc);
      count := LfnEntryNumber(|name|) + 1;
    }
  }

  /** The new entry can be read back: its slots hold the name, or its short name and flags tell it. */
  lemma NewEntryReadable(name: Str, short: Name83, attributes: Byte, info: seq<Byte>)
    requires NewName(name) && |info| == 19 && (HasOwnShort(name) ==> short == OwnShort(name))
    ensures Readable(name, EntryCountOf(name), EntryOf(short, attributes, OwnFlag(name), info))
  {
    var entry := EntryOf(short, attributes, OwnFlag(name), info);
    assert ShortNameOf(entry) == short && CaseFlagField(entry) == OwnFlag(name);
    if IsDots(name) {
      DotsReadBack(name);
    } else if Is8Dot3(name) {
      if CaseFlagOf(name).Mixed? { ShortLength(name); } else { CaseFlagRoundTrip(name); }
    }
  }

  lemma ShortLength(name: Str)
    requires Is8Dot3(name)
    ensures |name| <= LFN_CHAR_TOTAL
  {
    hide Plain;
    assert |name| <= |Main(name)| + 1 + |Ext(name)|;
  }

  lemma DotsReadBack(name: Str)
    requires IsDots(name)
    ensures NameViaCaseFlag(Padded(name, FAT_NAME_LEN), 0) == name && Told(name)
  {
    var short := Padded(name, FAT_NAME_LEN);
    TrimPadded(name, FAT_MAIN_NAME_LEN);
    assert short[..FAT_MAIN_NAME_LEN] == Padded(name, FAT_MAIN_NAME_LEN);
    assert short[..FAT_MAIN_NAME_LEN][..|name|] == name;
    CStringOf(name, []);
    assert Expanded(name) + [] == name;
    TrimPadded([], FAT_EXTEND_NAME_LEN);
    assert short[FAT_MAIN_NAME_LEN..] == Padded([], FAT_EXTEND_NAME_LEN);
  }

  /**
   * The name round trip: an entry created with a valid name is loaded with the same name and number of slots,
   * through long-name slots or through its case flags, exactly when it takes more than one slot, or its characters
   * survive the short name and the slot below it cannot be taken for its long-name slot.
   */
  lemma NameRoundTrip(slots: seq<Slot>, pos: nat, name: Str, short: Name83, attributes: Byte, info: seq<Byte>)
    requires NewName(name) && |info| == 19 && (HasOwnShort(name) ==> short == OwnShort(name))
    requires Fits(slots, pos, EntryCountOf(name))
    ensures var entry := EntryOf(short, attributes, OwnFlag(name), info);
      LoadName(Stored(slots, pos, EntryCountOf(name), name, entry, false), pos, entry) ==
        Loaded(EntryCountOf(name), name)
      <==> ReadsBackAt(slots, pos, EntryCountOf(name), name, short)
  {
    hide Stored, ReadsBackAt, NewName, LoadName, EntryCountOf, HasOwnShort, OwnShort, OwnFlag, Readable;
    var entry := EntryOf(short, attributes, OwnFlag(name), info);
    assert ShortNameOf(entry) == short;
    hide EntryOf;
    NewEntryReadable(name, short, attributes, info);
    StoredSlots(slots, pos, EntryCountOf(name), name, entry, false);
    StoredLoads(slots, pos, EntryCountOf(name), name, entry);
  }

  /** An entry of one slot has its own short name. */
  lemma OneSlotHasOwnShort(name: Str)
    requires NewName(name) && EntryCountOf(name) == 1
    ensures HasOwnShort(name)
  {}
}
