/** The bytes of one FAT entry: 12-bit packing, 16-bit and 32-bit entries. */
module FatEntry {
  import opened FatTypes

  // Cluster numbers, for a 64-bit UINTN
  const SPECIAL_EXT: nat := 0xFFFF_FFFF_FFFF_FFF0
  const SPECIAL: nat := 0xFFFF_FFFF_FFFF_FFF7
  const CLUSTER_LAST: nat := 0xFFFF_FFFF_FFFF_FFFF
  const CLUSTER_FREE: nat := 0
  const MIN_CLUSTER: nat := 2

  predicate EndOfChain(cluster: nat) { cluster > SPECIAL }

  /** Bytes read and written for an entry; a 12-bit entry is accessed through two bytes. */
  function EntrySize(t: FatType): nat {
    if t == Fat32 then 4 else 2
  }

  function EntryPos(t: FatType, index: nat): nat {
    match t
    case Fat12 => index * 3 / 2
    case Fat16 => index * 2
    case Fat32 => index * 4
  }

  /** Number of values an entry can hold, and the smallest of the special ones. */
  function Modulus(t: FatType): nat {
    match t
    case Fat12 => 0x1000
    case Fat16 => 0x1_0000
    case Fat32 => 0x1000_0000
  }

  function FirstSpecial(t: FatType): nat { Modulus(t) - 9 }

  type Window = b: seq<Byte> | |b| == 2 || |b| == 4 witness [0, 0]

  function Word(b: Window): nat {
    var w: nat := b[0] as nat + 0x100 * (b[1] as nat);
    if |b| == 2 then w else w + 0x1_0000 * (b[2] as nat) + 0x100_0000 * (b[3] as nat)
  }

  function WordBytes2(w: nat): (b: Window)
    requires w < 0x1_0000
    ensures |b| == 2 && Word(b) == w
  {
    [w % 0x100, w / 0x100]
  }

  function WordBytes4(w: nat): (b: Window)
    requires w < 0x1_0000_0000
    ensures |b| == 4 && Word(b) == w
  {
    var low, high := w % 0x1_0000, w / 0x1_0000;
    [low % 0x100, low / 0x100, high % 0x100, high / 0x100]
  }

  /** The value stored in an entry's window, before special values are widened. */
  function RawEntry(t: FatType, index: nat, b: Window): (raw: nat)
    requires |b| == EntrySize(t)
    ensures raw < Modulus(t)
  {
    match t
    case Fat12 => if index % 2 == 1 then Word(b) / 0x10 else Word(b) % 0x1000
    case Fat16 => Word(b)
    case Fat32 => Word(b) % 0x1000_0000
  }

  /** Special values are widened to the top of the UINTN range. */
  function Widen(t: FatType, raw: nat): nat
    requires raw < Modulus(t)
  {
    if raw >= FirstSpecial(t) then SPECIAL_EXT + raw % 0x10 else raw
  }

  /** What an entry reads as after `value` is stored in it. */
  function Normal(t: FatType, value: nat): nat {
    Widen(t, value % Modulus(t))
  }

  /** Ordinary values and the last mark are read back unchanged. */
  lemma NormalOfOrdinary(t: FatType, value: nat)
    requires value < FirstSpecial(t)
    ensures Normal(t, value) == value
  {
    assert value % Modulus(t) == value;
  }

  lemma NormalOfLast(t: FatType)
    ensures Normal(t, CLUSTER_LAST) == CLUSTER_LAST
  {
    match t
    case Fat12 => assert CLUSTER_LAST % 0x1000 == 0xFFF;
    case Fat16 => assert CLUSTER_LAST % 0x1_0000 == 0xFFFF;
    case Fat32 => assert CLUSTER_LAST % 0x1000_0000 == 0xFFF_FFFF;
  }

  /** The window after `value` is stored: the neighbour's nibble, or the top four bits, are kept. */
  function PatchEntry(t: FatType, index: nat, b: Window, value: nat): (b': Window)
    requires |b| == EntrySize(t)
    ensures |b'| == |b|
  {
    match t
    case Fat12 =>
      var v := value % 0x1000;
      if index % 2 == 1 then WordBytes2(v * 0x10 + Word(b) % 0x10)
      else WordBytes2(v + Word(b) / 0x1000 * 0x1000)
    case Fat16 => WordBytes2(value % 0x1_0000)
    case Fat32 => WordBytes4(Word(b) / 0x1000_0000 * 0x1000_0000 + value % 0x1000_0000)
  }

  predicate Inside(t: FatType, fat: seq<Byte>, index: nat) {
    EntryPos(t, index) + EntrySize(t) <= |fat|
  }

  function EntryWindow(t: FatType, fat: seq<Byte>, index: nat): (b: Window)
    requires Inside(t, fat, index)
    ensures |b| == EntrySize(t)
  {
    fat[EntryPos(t, index)..EntryPos(t, index) + EntrySize(t)]
  }

  /** What entry `index` of the FAT reads as. */
  function DecodeEntry(t: FatType, fat: seq<Byte>, index: nat): nat
    requires Inside(t, fat, index)
  {
    Widen(t, RawEntry(t, index, EntryWindow(t, fat, index)))
  }

  /** The FAT bytes after `value` is stored in entry `index`. */
  function StoreEntry(t: FatType, fat: seq<Byte>, index: nat, value: nat): (fat': seq<Byte>)
    requires Inside(t, fat, index)
    ensures |fat'| == |fat|
  {
    Splice(fat, EntryPos(t, index), PatchEntry(t, index, EntryWindow(t, fat, index), value))
  }

  /** The fields of a little-endian pair: low nibble, top nibble, low and high twelve bits. */
  lemma PairFields(b: Window)
    requires |b| == 2
    ensures Word(b) % 0x10 == b[0] % 0x10 && Word(b) / 0x10 == b[0] / 0x10 + 0x10 * (b[1] as nat)
    ensures Word(b) / 0x1000 == b[1] / 0x10 && Word(b) % 0x1000 == b[0] as nat + 0x100 * (b[1] as nat % 0x10)
  {
    var b0, b1: nat := b[0] as nat, b[1] as nat;
    var w := b0 + 0x100 * b1;
    assert w == b0 % 0x10 + 0x10 * (b0 / 0x10 + 0x10 * b1);
    assert w == b0 + 0x100 * (b1 % 0x10) + 0x1000 * (b1 / 0x10);
  }

  lemma PackOdd(w: nat, v: nat)
    requires v < 0x1000
    ensures (v * 0x10 + w % 0x10) / 0x10 == v && (v * 0x10 + w % 0x10) % 0x10 == w % 0x10
  {}

  lemma PackEven(w: nat, v: nat)
    requires v < 0x1000
    ensures (v + w / 0x1000 * 0x1000) % 0x1000 == v && (v + w / 0x1000 * 0x1000) / 0x1000 == w / 0x1000
  {}

  lemma Patched12(index: nat, b: Window, value: nat)
    requires |b| == 2
    ensures RawEntry(Fat12, index, PatchEntry(Fat12, index, b, value)) == value % 0x1000
    ensures index % 2 == 1 ==> PatchEntry(Fat12, index, b, value)[0] % 0x10 == b[0] % 0x10
    ensures index % 2 == 0 ==> PatchEntry(Fat12, index, b, value)[1] / 0x10 == b[1] / 0x10
  {
    PairFields(b);
    PairFields(PatchEntry(Fat12, index, b, value));
    if index % 2 == 1 {
      PackOdd(Word(b), value % 0x1000);
    } else {
      PackEven(Word(b), value % 0x1000);
    }
  }

  lemma Patched32(index: nat, b: Window, value: nat)
    requires |b| == 4
    ensures RawEntry(Fat32, index, PatchEntry(Fat32, index, b, value)) == value % 0x1000_0000
    ensures PatchEntry(Fat32, index, b, value)[3] / 0x10 == b[3] / 0x10
  {
    var b' := PatchEntry(Fat32, index, b, value);
    TopNibble(b);
    TopNibble(b');
  }

  lemma TopNibble(b: Window)
    requires |b| == 4
    ensures Word(b) / 0x1000_0000 == b[3] / 0x10
  {
    var low := b[0] as nat + 0x100 * (b[1] as nat) + 0x1_0000 * (b[2] as nat) + 0x100_0000 * (b[3] as nat % 0x10);
    assert Word(b) == low + 0x1000_0000 * (b[3] as nat / 0x10);
  }

  /** A patched window reads as the stored value, and keeps the bits that are not the entry's. */
  lemma PatchedWindow(t: FatType, index: nat, b: Window, value: nat)
    requires |b| == EntrySize(t)
    ensures RawEntry(t, index, PatchEntry(t, index, b, value)) == value % Modulus(t)
    ensures t == Fat12 && index % 2 == 1 ==> PatchEntry(t, index, b, value)[0] % 0x10 == b[0] % 0x10
    ensures t == Fat12 && index % 2 == 0 ==> PatchEntry(t, index, b, value)[1] / 0x10 == b[1] / 0x10
    ensures t == Fat32 ==> PatchEntry(t, index, b, value)[3] / 0x10 == b[3] / 0x10
  {
    match t
    case Fat12 => Patched12(index, b, value);
    case Fat16 =>
    case Fat32 => Patched32(index, b, value);
  }

  lemma StoreThenLoad(t: FatType, fat: seq<Byte>, i: nat, value: nat)
    requires Inside(t, fat, i)
    ensures DecodeEntry(t, StoreEntry(t, fat, i, value), i) == Normal(t, value)
  {
    var b := EntryWindow(t, fat, i);
    PatchedWindow(t, i, b, value);
    assert EntryWindow(t, StoreEntry(t, fat, i, value), i) == PatchEntry(t, i, b, value);
  }

  lemma WindowsApart(t: FatType, i: nat, j: nat)
    requires i < j && (t == Fat12 ==> i + 1 < j || i % 2 == 1)
    ensures EntryPos(t, i) + EntrySize(t) <= EntryPos(t, j)
  {
    if t == Fat12 { WindowsApart12(i, j); }
  }

  lemma WindowsApart12(i: nat, j: nat)
    requires i < j && (i + 1 < j || i % 2 == 1)
    ensures i * 3 / 2 + 2 <= j * 3 / 2
  {
    Position12(i);
    Position12(j);
  }

  lemma Position12(i: nat)
    ensures i * 3 / 2 == i + i / 2
  {
    assert i * 3 == 2 * i + i;
  }

  lemma StoreKeepsApart(t: FatType, fat: seq<Byte>, i: nat, value: nat, j: nat)
    requires Inside(t, fat, i) && Inside(t, fat, j)
    requires EntryPos(t, i) + EntrySize(t) <= EntryPos(t, j) || EntryPos(t, j) + EntrySize(t) <= EntryPos(t, i)
    ensures DecodeEntry(t, StoreEntry(t, fat, i, value), j) == DecodeEntry(t, fat, j)
  {
    assert EntryWindow(t, StoreEntry(t, fat, i, value), j) == EntryWindow(t, fat, j);
  }

  /** Storing entry `i` is a map update: `i` reads as the stored value, every other entry as before. */
  lemma StoreIsMapUpdate(t: FatType, fat: seq<Byte>, i: nat, value: nat, j: nat)
    requires Inside(t, fat, i) && Inside(t, fat, j)
    ensures DecodeEntry(t, StoreEntry(t, fat, i, value), j) == if j == i then Normal(t, value)
      else DecodeEntry(t, fat, j)
  {
    hide *;
    if j == i {
      StoreThenLoad(t, fat, i, value);
    } else if t == Fat12 && j == i + 1 && i % 2 == 0 {
      StoreKeepsNext12(fat, i, value);
    } else if t == Fat12 && i == j + 1 && j % 2 == 0 {
      StoreKeepsPrevious12(fat, i, value);
    } else {
      if i < j { WindowsApart(t, i, j); } else { WindowsApart(t, j, i); }
      StoreKeepsApart(t, fat, i, value, j);
    }
  }

  /** Entry i + 1 shares its low byte with an even entry i, entry i - 1 its high byte with an odd one. */
  lemma NeighbourWindows12(fat: seq<Byte>, i: nat, value: nat)
    requires Inside(Fat12, fat, i) && Inside(Fat12, StoreEntry(Fat12, fat, i, value), i)
    ensures var b := EntryWindow(Fat12, fat, i); var b' := PatchEntry(Fat12, i, b, value);
      && (i % 2 == 0 && Inside(Fat12, fat, i + 1) ==>
          var w, w' := EntryWindow(Fat12, fat, i + 1), EntryWindow(Fat12, StoreEntry(Fat12, fat, i, value), i + 1);
          w[0] == b[1] && w'[0] == b'[1] && w'[1] == w[1])
      && (i % 2 == 1 && Inside(Fat12, fat, i - 1) ==>
          var w, w' := EntryWindow(Fat12, fat, i - 1), EntryWindow(Fat12, StoreEntry(Fat12, fat, i, value), i - 1);
          w[1] == b[0] && w'[1] == b'[0] && w'[0] == w[0])
  {
    hide PatchEntry;
  }

  /** The bits of a window that belong to a twelve-bit entry. */
  lemma OwnBits12(i: nat, w: Window, w': Window)
    requires |w| == |w'| == 2
    requires if i % 2 == 1 then w[0] / 0x10 == w'[0] / 0x10 && w[1] == w'[1]
      else w[0] == w'[0] && w[1] % 0x10 == w'[1] % 0x10
    ensures RawEntry(Fat12, i, w) == RawEntry(Fat12, i, w')
  {
    PairFields(w);
    PairFields(w');
    hide Word;
  }

  lemma StoreKeepsNext12(fat: seq<Byte>, i: nat, value: nat)
    requires Inside(Fat12, fat, i) && Inside(Fat12, fat, i + 1) && i % 2 == 0
    ensures DecodeEntry(Fat12, StoreEntry(Fat12, fat, i, value), i + 1) == DecodeEntry(Fat12, fat, i + 1)
  {
    hide PatchEntry, EntryWindow, RawEntry, StoreEntry, Widen, EntryPos;
    Patched12(i, EntryWindow(Fat12, fat, i), value);
    NeighbourWindows12(fat, i, value);
    OwnBits12(i + 1, EntryWindow(Fat12, fat, i + 1), EntryWindow(Fat12, StoreEntry(Fat12, fat, i, value), i + 1));
  }

  lemma StoreKeepsPrevious12(fat: seq<Byte>, i: nat, value: nat)
    requires 0 < i && Inside(Fat12, fat, i) && Inside(Fat12, fat, i - 1) && i % 2 == 1
    ensures DecodeEntry(Fat12, StoreEntry(Fat12, fat, i, value), i - 1) == DecodeEntry(Fat12, fat, i - 1)
  {
    hide PatchEntry, EntryWindow, RawEntry, StoreEntry, Widen, EntryPos;
    Patched12(i, EntryWindow(Fat12, fat, i), value);
    NeighbourWindows12(fat, i, value);
    OwnBits12(i - 1, EntryWindow(Fat12, fat, i - 1), EntryWindow(Fat12, StoreEntry(Fat12, fat, i, value), i - 1));
  }
}
