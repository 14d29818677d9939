/** Short (8.3) names and their case flags (FileName.c), over the English collation tables. */
module ShortName {
  import opened FatTypes

  type Char16 = c: nat | c < 0x1_0000

  /** A string without its terminating zero. */
  type Str = s: seq<Char16> | forall i :: 0 <= i < |s| ==> s[i] != 0 witness []

  const DOT: Char16 := 0x2E
  const BLANK: Byte := 0x20
  const UNDERSCORE: Byte := 0x5F
  const TILDE: Byte := 0x7E
  const FAT_MAIN_NAME_LEN := 8
  const FAT_EXTEND_NAME_LEN := 3
  const FAT_NAME_LEN := 11
  const FAT_CASE_MIXED := 0x01
  const FAT_CASE_NAME_LOWER := 0x08
  const FAT_CASE_EXT_LOWER := 0x10

  /** Whether the compiler's CHAR8 is signed; it depends on the tool chain, and nothing is assumed about it. */
  const CHAR8_SIGNED: bool

  type Name83 = n: seq<Byte> | |n| == 11 witness seq(11, _ => 0x20)

  // ---------------------------------------------------------------- the collation tables

  /** Letters that have an upper-case form 0x20 below them. */
  predicate IsLower(c: Char16) {
    0x61 <= c <= 0x7A || 0xE0 <= c <= 0xF6 || 0xF8 <= c <= 0xFE
  }

  predicate IsUpper(c: Char16) {
    0x41 <= c <= 0x5A || 0xC0 <= c <= 0xD6 || 0xD8 <= c <= 0xDE
  }

  function ToUpper(c: Char16): Char16 { if IsLower(c) then c - 0x20 else c }

  function ToLower(c: Char16): Char16 { if IsUpper(c) then c + 0x20 else c }

  function Upper(s: seq<Char16>): (r: seq<Char16>)
    ensures |r| == |s|
  {
    seq(|s|, i requires 0 <= i < |s| => ToUpper(s[i]))
  }

  function Lower(s: seq<Char16>): (r: seq<Char16>)
    ensures |r| == |s|
  {
    seq(|s|, i requires 0 <= i < |s| => ToLower(s[i]))
  }

  /** FatStriCmp reports no difference. */
  predicate SameName(a: seq<Char16>, b: seq<Char16>) { Upper(a) == Upper(b) }

  /** Characters that may stand in a short name; the table also has the dot, which never gets that far. */
  predicate FatValidChar(c: Char16) {
    IsLower(c) || IsUpper(c) || 0x30 <= c <= 0x39 || c == 0x5C || c == DOT || c == 0x5F || c == 0x5E || c == 0x24
      || c == 0x7E
    || c == 0x21 || c == 0x23 || c == 0x25 || c == 0x26 || c == 0x2D || c == 0x7B || c == 0x7D || c == 0x28 || c == 0x29
    || c == 0x40 || c == 0x60 || c == 0x27
  }

  predicate Skipped(c: Char16) { c == DOT || c == BLANK }

  /** The byte that stands for a character in a short name. */
  function FatChar(c: Char16): Byte { if FatValidChar(c) then ToUpper(c) else UNDERSCORE }

  /** The bytes that FatStrToFat writes, at most `size` of them. */
  function FatBytes(s: seq<Char16>, size: nat): (b: seq<Byte>)
    ensures |b| <= size
  {
    if s == [] || size == 0 then []
    else if Skipped(s[0]) then FatBytes(s[1..], size)
    else [FatChar(s[0])] + FatBytes(s[1..], size - 1)
  }

  /** Whether FatStrToFat met a character that has no place in a short name. */
  predicate FatSpecial(s: seq<Char16>, size: nat) {
    if s == [] || size == 0 then false
    else if Skipped(s[0]) then FatSpecial(s[1..], size)
    else !FatValidChar(s[0]) || FatSpecial(s[1..], size - 1)
  }

  /** One step of FatStrToFat at position `i`, with room for `left` more bytes. */
  lemma FatStep(s: seq<Char16>, i: nat, left: nat)
    requires i < |s| && 0 < left
    ensures Skipped(s[i]) ==>
      && FatBytes(s[i..], left) == FatBytes(s[i + 1..], left)
      && FatSpecial(s[i..], left) == FatSpecial(s[i + 1..], left)
    ensures !Skipped(s[i]) ==>
      && FatBytes(s[i..], left) ==
           [FatChar(s[i])] + FatBytes(s[i + 1..], left - 1)
      && FatSpecial(s[i..], left) == (!FatValidChar(s[i]) || FatSpecial(s[i + 1..], left - 1))
  {
    assert s[i..][1..] == s[i + 1..];
  }

  lemma SpliceMore(s: seq<Byte>, at: nat, written: seq<Byte>, b: Byte)
    requires at + |written| < |s|
    ensures Splice(s, at, written)[at + |written| := b] == Splice(s, at, written + [b])
  {}

  /** FatStrToFat. */
  method FatStrToFat(s: Str, size: nat, fat: array<Byte>, at: nat) returns (special: bool)
    requires at + size <= fat.Length
    modifies fat
    ensures fat[..] == Splice(old(fat[..]), at, FatBytes(s, size))
    ensures special == FatSpecial(s, size)
  {
    hide FatBytes, FatSpecial, FatChar, Splice;
    special := false;
    var i, n := 0, 0;
    ghost var before, written := fat[..], [];
    FatStart(s, size, before, at);
    while i < |s| && n < size
      invariant i <= |s| && n <= size && |written| == n
      invariant FatBytes(s, size) == written + FatBytes(s[i..], size - n)
      invariant FatSpecial(s, size) == (special || FatSpecial(s[i..], size - n))
      invariant fat[..] == Splice(before, at, written)
      decreases |s| - i
    {
      FatStep(s, i, size - n);
      if !Skipped(s[i]) {
        var b := FatChar(s[i]);
        if !FatValidChar(s[i]) {
          special := true;
        }
        SpliceMore(before, at, written, b);
        PutByte(fat, at + n, b);
        written := written + [b];
        n := n + 1;
      }
      i := i + 1;
    }
    FatEnd(s[i..], size - n, written);
  }

  lemma FatStart(s: seq<Char16>, size: nat, before: seq<Byte>, at: nat)
    requires at + size <= |before|
    ensures s[0..] == s && before == Splice(before, at, []) && FatBytes(s, size) == [] + FatBytes(s[0..], size - 0)
  {
    assert s[0..] == s;
  }

  lemma FatEnd(s: seq<Char16>, left: nat, written: seq<Byte>)
    requires s == [] || left == 0
    ensures written + FatBytes(s, left) == written && !FatSpecial(s, left)
  {}

  method PutByte(fat: array<Byte>, k: nat, b: Byte)
    requires k < fat.Length
    modifies fat
    ensures fat[..] == old(fat[..])[k := b]
  {
    fat[k] := b;
  }

  // ---------------------------------------------------------------- splitting a name at its last dot

  /** The position of the last dot, or the length. */
  function LastDot(s: seq<Char16>): (d: nat)
    ensures d <= |s|
    ensures d < |s| ==> s[d] == DOT
    ensures forall i :: d < i < |s| ==> s[i] != DOT
    ensures d == |s| ==> DOT !in s
  {
    if s == [] then 0
    else if s[|s| - 1] == DOT then |s| - 1
    else var d := LastDot(s[..|s| - 1]); if d == |s| - 1 then |s| else d
  }

  function Main(s: seq<Char16>): seq<Char16> { s[..LastDot(s)] }

  function Ext(s: seq<Char16>): seq<Char16> { if LastDot(s) == |s| then [] else s[LastDot(s) + 1..] }

  /** Characters that a short name holds as they are, up to case. */
  predicate Plain(s: seq<Char16>) {
    forall i :: 0 <= i < |s| ==> !Skipped(s[i]) && FatValidChar(s[i])
  }

  /** A name that is a valid 8.3 name. */
  predicate Is8Dot3(s: seq<Char16>) {
    && 1 <= |Main(s)| <= FAT_MAIN_NAME_LEN && |Ext(s)| <= FAT_EXTEND_NAME_LEN
    && Plain(Main(s)) && Plain(Ext(s))
  }

  function Padded(b: seq<Byte>, size: nat): (r: seq<Byte>)
    requires |b| <= size
    ensures |r| == size
  {
    b + seq(size - |b|, _ => BLANK)
  }

  function Min(a: nat, b: nat): nat { if a <= b then a else b }

  /** The short name of an 8.3 name; the base that a short name is made from, for other names. */
  function BaseName(s: seq<Char16>): Name83 {
    Padded(FatBytes(s, Min(|Main(s)|, FAT_MAIN_NAME_LEN)), FAT_MAIN_NAME_LEN)
    + Padded(FatBytes(Ext(s), Min(|Ext(s)|, FAT_EXTEND_NAME_LEN)), FAT_EXTEND_NAME_LEN)
  }

  /** Plain characters are copied, in upper case. */
  lemma {:induction false} PlainBytes(s: seq<Char16>, n: nat)
    requires n <= |s| && Plain(s[..n])
    ensures |FatBytes(s, n)| == n && !FatSpecial(s, n)
    ensures forall i :: 0 <= i < n ==> FatBytes(s, n)[i] == ToUpper(s[i])
  {
    if n > 0 {
      assert s[..n][0] == s[0];
      assert s[1..][..n - 1] == s[..n][1..];
      PlainBytes(s[1..], n - 1);
    }
  }

  /** Among the characters taken as they come, FatStrToFat reports the ones that are not valid. */
  lemma {:induction false} SpecialIff(s: seq<Char16>, n: nat)
    requires n <= |s| && forall i :: 0 <= i < n ==> !Skipped(s[i])
    ensures FatSpecial(s, n) <==> exists i :: 0 <= i < n && !FatValidChar(s[i])
  {
    if n > 0 {
      SpecialIff(s[1..], n - 1);
      if FatValidChar(s[0]) {
        if i :| 0 <= i < n && !FatValidChar(s[i]) {
          assert !FatValidChar(s[1..][i - 1]);
        }
      }
    }
  }

  /** The tests of FatCheckIs8Dot3Name, together, are the definition of an 8.3 name. */
  lemma TestsDecide(s: seq<Char16>)
    ensures Is8Dot3(s) <==>
      && (forall i :: 0 <= i < |s| && i != LastDot(s) ==> !Skipped(s[i]))
      && 1 <= |Main(s)| <= FAT_MAIN_NAME_LEN && |Ext(s)| <= FAT_EXTEND_NAME_LEN
      && !FatSpecial(s, |Main(s)|) && !FatSpecial(Ext(s), |Ext(s)|)
  {
    hide *;
    if i :| 0 <= i < |s| && i != LastDot(s) && Skipped(s[i]) {
      NotPlain(s, i);
    } else {
      PlainParts(s);
    }
  }

  /** A name with a character that is skipped is not in 8.3 form. */
  lemma NotPlain(s: seq<Char16>, i: nat)
    requires i < |s| && i != LastDot(s) && Skipped(s[i])
    ensures !Is8Dot3(s)
  {
    InMainOrExt(s, i);
    hide LastDot, Skipped, FatValidChar, Main, Ext;
  }

  lemma PlainParts(s: seq<Char16>)
    requires forall i :: 0 <= i < |s| && i != LastDot(s) ==> !Skipped(s[i])
    ensures Is8Dot3(s) <==>
      && 1 <= |Main(s)| <= FAT_MAIN_NAME_LEN && |Ext(s)| <= FAT_EXTEND_NAME_LEN
      && !FatSpecial(s, |Main(s)|) && !FatSpecial(Ext(s), |Ext(s)|)
  {
    SpecialIff(s, LastDot(s));
    SpecialIff(Ext(s), |Ext(s)|);
    hide LastDot, Skipped, FatValidChar, FatSpecial;
  }

  /** Every character but the last dot is in one of the two parts. */
  lemma InMainOrExt(s: seq<Char16>, i: nat)
    requires i < |s| && i != LastDot(s)
    ensures if i < LastDot(s) then i < |Main(s)| && s[i] == Main(s)[i]
      else i - LastDot(s) - 1 < |Ext(s)| && s[i] == Ext(s)[i - LastDot(s) - 1]
  {
    hide LastDot;
  }

  /** The first scan of FatCheckIs8Dot3Name: the last dot, or the end. */
  method FindLastDot(s: Str) returns (dot: nat)
    ensures dot == LastDot(s)
  {
    var i, found := 0, -1;
    while i < |s|
      invariant i <= |s| && -1 <= found < i
      invariant LastDot(s[..i]) == if found == -1 then i else found
    {
      assert s[..i + 1][..i] == s[..i];
      if s[i] == DOT { found := i; }
      i := i + 1;
    }
    assert s[..|s|] == s;
    dot := if found == -1 then |s| else found;
  }

  /** The second scan: blanks, and dots other than the separating one. */
  method HasExtraBlanksOrDots(s: Str, dot: nat) returns (extra: bool)
    ensures extra <==> exists j :: 0 <= j < |s| && j != dot && Skipped(s[j])
  {
    extra := false;
    var i := |s|;
    while i > 0
      invariant 0 <= i <= |s|
      invariant extra <==> exists j :: i <= j < |s| && j != dot && Skipped(s[j])
    {
      i := i - 1;
      if Skipped(s[i]) && i != dot { extra := true; }
    }
  }

  /** The two calls that fill the parts of the short name. */
  method FillParts(s: Str, mainLen: nat, ext: Str, extLen: nat) returns (special: bool, name: Name83)
    requires mainLen <= FAT_MAIN_NAME_LEN && extLen <= FAT_EXTEND_NAME_LEN
    ensures special == (FatSpecial(s, mainLen) || FatSpecial(ext, extLen))
    ensures name == Padded(FatBytes(s, mainLen), FAT_MAIN_NAME_LEN) + Padded(FatBytes(ext, extLen), FAT_EXTEND_NAME_LEN)
  {
    hide FatBytes, FatSpecial;
    var fat := new Byte[FAT_NAME_LEN](_ => BLANK);
    var inMain := FatStrToFat(s, mainLen, fat, 0);
    var inExt := FatStrToFat(ext, extLen, fat, FAT_MAIN_NAME_LEN);
    special := inMain || inExt;
    name := fat[..];
  }

  /** FatCheckIs8Dot3Name. */
  method FatCheckIs8Dot3Name(s: Str) returns (possible: bool, name: Name83)
    ensures possible == Is8Dot3(s) && name == BaseName(s)
  {
    TestsDecide(s);
    hide FatBytes, FatSpecial, Is8Dot3, Padded;
    var dot := FindLastDot(s);
    var mainLen, ext := dot, if dot == |s| then [] else s[dot + 1..];
    var extLen := |ext|;
    var extra := HasExtraBlanksOrDots(s, dot);
    possible := !extra && mainLen != 0 && mainLen <= FAT_MAIN_NAME_LEN && extLen <= FAT_EXTEND_NAME_LEN;
    if mainLen > FAT_MAIN_NAME_LEN { mainLen := FAT_MAIN_NAME_LEN; }
    if extLen > FAT_EXTEND_NAME_LEN { extLen := FAT_EXTEND_NAME_LEN; }
    var special;
    special, name := FillParts(s, mainLen, ext, extLen);
    if special { possible := false; }
  }

  // ---------------------------------------------------------------- case flags

  /** FatCheckNameCase. */
  function FatCheckNameCase(s: seq<Char16>, flag: nat): nat {
    if s == Upper(s) then 0 else if s == Lower(s) then flag else FAT_CASE_MIXED
  }

  /** The case flag of an 8.3 name, or nothing when the case of the name cannot be told by flags. */
  datatype CaseFlag = Flags(name: bool, ext: bool) | Mixed

  function CaseFlagOf(s: seq<Char16>): CaseFlag {
    var main, ext := FatCheckNameCase(Main(s), FAT_CASE_NAME_LOWER), FatCheckNameCase(Ext(s), FAT_CASE_EXT_LOWER);
    if main == FAT_CASE_MIXED || ext == FAT_CASE_MIXED then Mixed else Flags(main != 0, ext != 0)
  }

  function FlagByte(f: CaseFlag): (b: Byte)
  {
    if f.Mixed? then 0 else (if f.name then FAT_CASE_NAME_LOWER else 0) + (if f.ext then FAT_CASE_EXT_LOWER else 0)
  }

  predicate NameLower(flag: Byte) { flag / FAT_CASE_NAME_LOWER % 2 == 1 }

  predicate ExtLower(flag: Byte) { flag / FAT_CASE_EXT_LOWER % 2 == 1 }

  /** The length without trailing blanks. */
  function TrimmedLength(b: seq<Byte>): (n: nat)
    ensures n <= |b|
  {
    if b != [] && b[|b| - 1] == BLANK then TrimmedLength(b[..|b| - 1]) else |b|
  }

  /** FatTrimAsciiTrailingBlanks. */
  method FatTrimAsciiTrailingBlanks(b: seq<Byte>, length: nat) returns (n: nat)
    requires length <= |b|
    ensures n == TrimmedLength(b[..length])
  {
    n := length;
    while n > 0 && b[n - 1] == BLANK
      invariant n <= length && TrimmedLength(b[..length]) == TrimmedLength(b[..n])
    {
      assert b[..n][..n - 1] == b[..n - 1];
      n := n - 1;
    }
  }

  /** What comes before the first zero. */
  function CString(s: seq<Char16>): (r: Str)
    ensures |r| <= |s| && r == s[..|r|] && (|r| < |s| ==> s[|r|] == 0)
  {
    if s == [] || s[0] == 0 then [] else [s[0]] + CString(s[1..])
  }

  lemma {:induction false} CStringOf(name: Str, rest: seq<Char16>)
    requires rest == [] || rest[0] == 0
    ensures CString(name + rest) == name
  {
    if name != [] {
      assert (name + rest)[1..] == name[1..] + rest;
      CStringOf(name[1..], rest);
    }
  }

  function Widened(b: seq<Byte>): (s: seq<Char16>)
    ensures |s| == |b|
  {
    seq(|b|, i requires 0 <= i < |b| => b[i])
  }

  /** A byte of a short name as a character (EngFatToStr): a signed CHAR8 is extended with its sign. */
  function FromOem(b: Byte): Char16 { if CHAR8_SIGNED && b >= 0x80 then 0xFF00 + b else b }

  function Expanded(b: seq<Byte>): (s: seq<Char16>)
    ensures |s| == |b|
  {
    seq(|b|, i requires 0 <= i < |b| => FromOem(b[i]))
  }

  /** The characters of the name survive a short name: with a signed CHAR8 only those below 0x80 do. */
  predicate Told(s: seq<Char16>) {
    CHAR8_SIGNED ==> forall i :: 0 <= i < |s| ==> s[i] < 0x80
  }

  /** FatNameToStr: without trailing blanks, as characters, in lower case if wanted. */
  function FatNameToStr(b: seq<Byte>, lower: bool): Str {
    var s := CString(Expanded(b[..TrimmedLength(b)]));
    if lower then LowerStr(s) else s
  }

  function LowerStr(s: Str): Str { Lower(s) }

  /** FatGetFileNameViaCaseFlag. */
  function NameViaCaseFlag(name: Name83, flag: Byte): Str {
    var main := FatNameToStr(name[..FAT_MAIN_NAME_LEN], NameLower(flag));
    var ext := FatNameToStr(name[FAT_MAIN_NAME_LEN..], ExtLower(flag));
    if ext == [] then main else main + [DOT] + ext
  }

  /** A part in one case, stored in upper case, is read back by its flag exactly when its characters survive. */
  lemma PartRoundTrip(s: Str, stored: seq<Byte>, size: nat, flag: nat)
    requires Plain(s) && |s| <= size && flag != FAT_CASE_MIXED && flag != 0
      && FatCheckNameCase(s, flag) != FAT_CASE_MIXED
    requires |stored| == |s| && forall i :: 0 <= i < |s| ==> stored[i] == ToUpper(s[i])
    ensures var read := FatNameToStr(Padded(stored, size), FatCheckNameCase(s, flag) != 0);
      |read| == |s| && (read == s <==> Told(s))
  {
    hide Plain, FromOem, FatCheckNameCase, Padded, TrimmedLength, CString;
    forall i | 0 <= i < |s|
      ensures stored[i] != BLANK && FromOem(stored[i]) != 0
    {
      CharRoundTrip(s, flag, i);
    }
    PartRead(stored, size);
    forall i | 0 <= i < |s|
      ensures var c := Expanded(stored)[i];
        (if FatCheckNameCase(s, flag) != 0 then ToLower(c) else c) == s[i] <==> (CHAR8_SIGNED ==> s[i] < 0x80)
    {
      CharRoundTrip(s, flag, i);
    }
  }

  /** A part without blanks and zeros, behind which blanks follow, is read as its characters. */
  lemma PartRead(stored: seq<Byte>, size: nat)
    requires |stored| <= size && forall i :: 0 <= i < |stored| ==> stored[i] != BLANK && FromOem(stored[i]) != 0
    ensures FatNameToStr(Padded(stored, size), false) == Expanded(stored)
    ensures FatNameToStr(Padded(stored, size), true) == Lower(Expanded(stored))
  {
    hide FromOem, TrimmedLength, CString;
    TrimPadded(stored, size);
    assert Padded(stored, size)[..|stored|] == stored;
    CStringOf(Expanded(stored), []);
    assert Expanded(stored) + [] == Expanded(stored);
  }

  lemma CharRoundTrip(s: Str, flag: nat, i: nat)
    requires Plain(s) && flag != FAT_CASE_MIXED && flag != 0 && FatCheckNameCase(s, flag) != FAT_CASE_MIXED && i < |s|
    ensures ToUpper(s[i]) < 0x100 && ToUpper(s[i]) != BLANK
    ensures var c := FromOem(ToUpper(s[i]));
      c != 0 && ((if FatCheckNameCase(s, flag) != 0 then ToLower(c) else c) == s[i] <==> (CHAR8_SIGNED ==> s[i] < 0x80))
  {
    if FatCheckNameCase(s, flag) != 0 {
      assert Lower(s)[i] == s[i];
    } else {
      assert Upper(s)[i] == s[i];
    }
  }

  lemma {:induction false} TrimPadded(b: seq<Byte>, size: nat)
    requires |b| <= size && (b == [] || b[|b| - 1] != BLANK)
    ensures TrimmedLength(Padded(b, size)) == |b|
    decreases size - |b|
  {
    hide Padded;
    LastOfPadded(b, size);
    if |b| < size { TrimPadded(b, size - 1); }
  }

  lemma LastOfPadded(b: seq<Byte>, size: nat)
    requires |b| <= size
    ensures |Padded(b, size)| == size && (|b| == size ==> Padded(b, size) == b)
    ensures |b| < size ==> Padded(b, size)[size - 1] == BLANK && Padded(b, size)[..size - 1] == Padded(b, size - 1)
  {}

  /** The parts of the short name of an 8.3 name. */
  lemma BaseNameParts(s: Str)
    requires Is8Dot3(s)
    ensures |FatBytes(s, |Main(s)|)| == |Main(s)| && |FatBytes(Ext(s), |Ext(s)|)| == |Ext(s)|
    ensures forall i :: 0 <= i < |Main(s)| ==> FatBytes(s, |Main(s)|)[i] == ToUpper(Main(s)[i])
    ensures forall i :: 0 <= i < |Ext(s)| ==> FatBytes(Ext(s), |Ext(s)|)[i] == ToUpper(Ext(s)[i])
    ensures BaseName(s)[..FAT_MAIN_NAME_LEN] == Padded(FatBytes(s, |Main(s)|), FAT_MAIN_NAME_LEN)
    ensures BaseName(s)[FAT_MAIN_NAME_LEN..] == Padded(FatBytes(Ext(s), |Ext(s)|), FAT_EXTEND_NAME_LEN)
  {
    PlainBytes(s, |Main(s)|);
    assert Ext(s)[..|Ext(s)|] == Ext(s);
    PlainBytes(Ext(s), |Ext(s)|);
  }

  lemma JoinParts(s: Str)
    requires s != [] && s[|s| - 1] != DOT
    ensures s == if Ext(s) == [] then Main(s) else Main(s) + [DOT] + Ext(s)
  {
    if LastDot(s) < |s| { assert Ext(s) != []; }
  }

  lemma FlagByteBits(f: CaseFlag)
    requires !f.Mixed?
    ensures NameLower(FlagByte(f)) == f.name && ExtLower(FlagByte(f)) == f.ext
  {}

  lemma MainRoundTrip(s: Str)
    requires Is8Dot3(s) && CaseFlagOf(s).Flags?
    ensures var read := FatNameToStr(BaseName(s)[..FAT_MAIN_NAME_LEN], CaseFlagOf(s).name);
      |read| == |Main(s)| && (read == Main(s) <==> Told(Main(s)))
  {
    BaseNameParts(s);
    hide FatBytes, Padded, Plain, BaseName, FatNameToStr, Upper, Lower, LastDot;
    PartRoundTrip(Main(s), FatBytes(s, |Main(s)|), FAT_MAIN_NAME_LEN, FAT_CASE_NAME_LOWER);
  }

  lemma ExtRoundTrip(s: Str)
    requires Is8Dot3(s) && CaseFlagOf(s).Flags?
    ensures var read := FatNameToStr(BaseName(s)[FAT_MAIN_NAME_LEN..], CaseFlagOf(s).ext);
      |read| == |Ext(s)| && (read == Ext(s) <==> Told(Ext(s)))
  {
    BaseNameParts(s);
    hide FatBytes, Padded, Plain, BaseName, FatNameToStr, Upper, Lower, LastDot;
    PartRoundTrip(Ext(s), FatBytes(Ext(s), |Ext(s)|), FAT_EXTEND_NAME_LEN, FAT_CASE_EXT_LOWER);
  }

  /**
   * A valid 8.3 name in cases that flags can tell is read back from its short name and its flags exactly when its
   * characters survive the short name.
   */
  lemma CaseFlagRoundTrip(s: Str)
    requires Is8Dot3(s) && CaseFlagOf(s).Flags? && s[|s| - 1] != DOT
    ensures NameViaCaseFlag(BaseName(s), FlagByte(CaseFlagOf(s))) == s <==> Told(s)
  {
    FlagByteBits(CaseFlagOf(s));
    JoinParts(s);
    MainRoundTrip(s);
    ExtRoundTrip(s);
    ToldParts(s, Main(s), Ext(s));
    hide BaseName, NameLower, ExtLower, FlagByte, FatNameToStr, LastDot, Main, Ext, CaseFlagOf, Is8Dot3, Told;
    JoinedDiffer(Main(s), Ext(s), FatNameToStr(BaseName(s)[..FAT_MAIN_NAME_LEN], CaseFlagOf(s).name),
                 FatNameToStr(BaseName(s)[FAT_MAIN_NAME_LEN..], CaseFlagOf(s).ext));
  }

  lemma ToldParts(s: seq<Char16>, main: seq<Char16>, ext: seq<Char16>)
    requires s == if ext == [] then main else main + [DOT] + ext
    ensures Told(s) <==> Told(main) && Told(ext)
  {
    if Told(s) {
      assert forall i :: 0 <= i < |main| ==> main[i] == s[i];
      assert forall i :: 0 <= i < |ext| ==> ext[i] == s[|main| + 1 + i];
    }
  }

  lemma JoinedDiffer(main: seq<Char16>, ext: seq<Char16>, main': seq<Char16>, ext': seq<Char16>)
    requires |main'| == |main| && |ext'| == |ext|
    ensures (if ext' == [] then main' else main' + [DOT] + ext') == (if ext == [] then main else main + [DOT] + ext)
      <==> main' == main && ext' == ext
  {
    var s, s' := main + [DOT] + ext, main' + [DOT] + ext';
    assert s[..|main|] == main && s[|main| + 1..] == ext && s'[..|main|] == main' && s'[|main| + 1..] == ext';
  }

  /** A name that is lost with a signed CHAR8: U+00C4 is read back as U+FFC4. */
  lemma CharLost()
    ensures CHAR8_SIGNED ==> NameViaCaseFlag(BaseName([0xC4]), 0) == [0xFFC4]
    ensures !CHAR8_SIGNED ==> NameViaCaseFlag(BaseName([0xC4]), 0) == [0xC4]
  {
    var s: Str := [0xC4];
    assert LastDot([]) == 0 && LastDot(s) == 1;
    assert Main(s) == s && Ext(s) == [];
    assert FatBytes(s, 1) == [0xC4] by { assert s[1..] == []; }
    TrimPadded([0xC4], FAT_MAIN_NAME_LEN);
    TrimPadded([], FAT_EXTEND_NAME_LEN);
    assert BaseName(s)[..FAT_MAIN_NAME_LEN] == Padded([0xC4], FAT_MAIN_NAME_LEN);
    assert BaseName(s)[FAT_MAIN_NAME_LEN..] == Padded([], FAT_EXTEND_NAME_LEN);
    assert BaseName(s)[..FAT_MAIN_NAME_LEN][..1] == [0xC4];
    CStringOf(Expanded([0xC4]), []);
    assert Expanded([0xC4]) + [] == Expanded([0xC4]) == [FromOem(0xC4)];
  }

  /** FatSetCaseFlag: the flags, and how many extra directory entries a name in mixed case needs. */
  method FatSetCaseFlag(s: Str) returns (flag: Byte, extra: nat)
    ensures flag == FlagByte(CaseFlagOf(s)) && extra == if CaseFlagOf(s).Mixed? then 1 else 0
  {
    var dot := FindLastDot(s);
    var inExt := if dot < |s| then FatCheckNameCase(s[dot + 1..], FAT_CASE_EXT_LOWER) else 0;
    var inMain := FatCheckNameCase(s[..dot], FAT_CASE_NAME_LOWER);
    assert [] == Upper([]);
    if inExt != FAT_CASE_MIXED && inMain != FAT_CASE_MIXED {
      flag, extra := inMain + inExt, 0;
    } else {
      flag, extra := 0, 1;
    }
  }

  // ---------------------------------------------------------------- valid names

  const EFI_FILE_STRING_LENGTH := 255

  predicate LegalChar(c: Char16) {
    c >= 0x20 && c != 0x22 && c != 0x2A && c != 0x2F && c != 0x3A && c != 0x3C && c != 0x3E && c != 0x3F && c != 0x5C
      && c != 0x7C
  }

  /** A name that a file can be created with. */
  predicate ValidName(s: seq<Char16>) {
    && 1 <= |s| <= EFI_FILE_STRING_LENGTH
    && s[0] != BLANK && !Skipped(s[|s| - 1])
    && forall i :: 0 <= i < |s| ==> LegalChar(s[i])
  }

  /** What FatFileNameIsValid makes of its input: leading blanks, and trailing blanks and dots, cut off. */
  ghost predicate IsTrimmed(input: Str, s: Str) {
    exists lo: nat, hi: nat :: TrimsTo(input, lo, hi) && s == input[lo..hi]
  }

  predicate TrimsTo(input: Str, lo: nat, hi: nat) {
    && lo <= hi <= |input|
    && (forall i :: 0 <= i < lo ==> input[i] == BLANK) && (forall i :: hi <= i < |input| ==> Skipped(input[i]))
    && (lo < |input| ==> input[lo] != BLANK) && (lo < hi ==> !Skipped(input[hi - 1]))
  }

  /** FatFileNameIsValid. */
  method FatFileNameIsValid(input: Str) returns (valid: bool, name: Str)
    ensures IsTrimmed(input, name) && valid == ValidName(name)
  {
    var lo := 0;
    while lo < |input| && input[lo] == BLANK
      invariant lo <= |input| && forall i :: 0 <= i < lo ==> input[i] == BLANK
    {
      lo := lo + 1;
    }
    var hi := |input|;
    while hi > lo && Skipped(input[hi - 1])
      invariant lo <= hi <= |input| && forall i :: hi <= i < |input| ==> Skipped(input[i])
    {
      hi := hi - 1;
    }
    name := input[lo..hi];
    assert TrimsTo(input, lo, hi);
    if |name| > EFI_FILE_STRING_LENGTH || name == [] {
      return false, name;
    }
    var k := 0;
    while k < |name|
      invariant k <= |name| && forall i :: 0 <= i < k ==> LegalChar(name[i])
    {
      if !LegalChar(name[k]) { return false, name; }
      k := k + 1;
    }
    valid := true;
  }

  /** Trimming has one result, and a valid name is its own. */
  lemma TrimmedOnce(input: Str, s: Str)
    requires ValidName(input)
    ensures IsTrimmed(input, s) <==> s == input
  {
    assert TrimsTo(input, 0, |input|) && input == input[0..|input|];
    if IsTrimmed(input, s) {
      var lo: nat, hi: nat :| TrimsTo(input, lo, hi) && s == input[lo..hi];
      assert lo == 0 && hi == |input|;
    }
  }

  // ---------------------------------------------------------------- checksum

  /** The sum rotated right by one bit, plus the next byte. */
  function AddRotated(sum: Byte, b: Byte): Byte {
    ((if sum % 2 == 1 then 0x80 else 0) + sum / 2 + b) % 0x100
  }

  function CheckSumOf(b: seq<Byte>): Byte {
    if b == [] then 0 else AddRotated(CheckSumOf(b[..|b| - 1]), b[|b| - 1])
  }

  /** FatCheckSum. */
  method FatCheckSum(name: Name83) returns (sum: Byte)
    ensures sum == CheckSumOf(name)
  {
    sum := 0;
    var left := FAT_NAME_LEN;
    while left != 0
      invariant 0 <= left <= FAT_NAME_LEN
      invariant sum == CheckSumOf(name[..FAT_NAME_LEN - left])
    {
      var k := FAT_NAME_LEN - left;
      assert name[..k + 1][..k] == name[..k];
      sum := AddRotated(sum, name[k]);
      left := left - 1;
    }
    assert name[..FAT_NAME_LEN] == name;
  }
}
