/** Packets of the GDB remote serial protocol, and bytes of memory as hex digits (EmbeddedPkg/GdbStub/GdbStub.c). */
module GdbPacket {
  import opened FatTypes

  const START: Byte := 0x24  // '$'
  const END: Byte := 0x23    // '#'
  const ACK: Byte := 0x2B    // '+'
  const NAK: Byte := 0x2D    // '-'

  // ---------------------------------------------------------------- hex digits

  /** mHexToStr. */
  function HexToStr(n: nat): Byte
    requires n < 16
  {
    if n < 10 then 0x30 + n else 0x41 + (n - 10)
  }

  /** HexCharToInt. */
  function HexCharToInt(c: Byte): int {
    if 0x41 <= c <= 0x46 then c - 0x41 + 10
    else if 0x61 <= c <= 0x66 then c - 0x61 + 10
    else if 0x30 <= c <= 0x39 then c - 0x30
    else -1
  }

  function DropLeading(s: seq<Byte>, these: set<Byte>): (r: seq<Byte>)
    ensures |r| <= |s|
  {
    if s != [] && s[0] in these then DropLeading(s[1..], these) else s
  }

  function LeadingHex(s: seq<Byte>, value: nat): nat {
    if s == [] || HexCharToInt(s[0]) < 0 then value else LeadingHex(s[1..], value * 16 + HexCharToInt(s[0]))
  }

  /** AsciiStrHexToUintn on a short string: blanks, zeros and an "0x" in front are passed over. */
  function HexStringValue(s: seq<Byte>): nat {
    var digits := DropLeading(DropLeading(s, {0x20, 0x09}), {0x30});
    if digits != [] && (digits[0] == 0x58 || digits[0] == 0x78) then
      if |digits| < |DropLeading(s, {0x20, 0x09})| then LeadingHex(digits[1..], 0) else 0
    else LeadingHex(digits, 0)
  }

  function ChecksumDigits(sum: Byte): seq<Byte> { [HexToStr(sum / 16), HexToStr(sum % 16)] }

  /** The two digits of a checksum are read back as the checksum. */
  lemma ChecksumDigitsValue(sum: Byte)
    ensures HexStringValue(ChecksumDigits(sum)) == sum
  {
    var a, b := HexToStr(sum / 16), HexToStr(sum % 16);
    var s := [a, b];
    assert s[1..] == [b] && s[1..][1..] == [];
    assert DropLeading(s, {0x20, 0x09}) == s;
    assert HexCharToInt(a) == sum / 16 && HexCharToInt(b) == sum % 16;
    if a == 0x30 {
      assert DropLeading(s, {0x30}) == DropLeading([b], {0x30});
      if b == 0x30 { assert DropLeading([b], {0x30}) == []; } else { assert DropLeading([b], {0x30}) == [b]; }
      assert LeadingHex([b], 0) == LeadingHex([], sum % 16);
    } else {
      assert LeadingHex(s, 0) == LeadingHex([b], sum / 16) == LeadingHex([], sum / 16 * 16 + sum % 16);
    }
  }

  // ---------------------------------------------------------------- frames

  /** The sum of the bytes, in eight bits. */
  function Sum(p: seq<Byte>): Byte {
    if p == [] then 0 else (Sum(p[..|p| - 1]) + p[|p| - 1]) % 0x100
  }

  function Frame(p: seq<Byte>): seq<Byte> { [START] + p + [END] + ChecksumDigits(Sum(p)) }

  /** Bytes that may stand between the start and the end of a packet. */
  predicate Plain(p: seq<Byte>) { START !in p && END !in p && 0 !in p }

  // ---------------------------------------------------------------- what sending and receiving do

  /** The outcome of sending: the number of payload bytes sent, or still waiting for an acknowledgement. */
  datatype Answer = Count(n: nat) | Waiting

  /** How many times the frame is sent, when `input` holds the answers. */
  function Tries(input: seq<Byte>, retries: nat): nat {
    if retries == 0 then 0
    else if input == [] || input[0] == ACK then 1
    else 1 + Tries(input[1..], retries - 1)
  }

  predicate Silent(input: seq<Byte>, retries: nat) {
    retries > 0 && (input == [] || (input[0] != ACK && Silent(input[1..], retries - 1)))
  }

  function Repeated(s: seq<Byte>, n: nat): seq<Byte> {
    if n == 0 then [] else Repeated(s, n - 1) + s
  }

  /** The outcome of receiving: a payload and what follows it on the line, or nothing yet. */
  datatype Reception = Got(payload: seq<Byte>, rest: seq<Byte>) | Nothing

  /** What is behind the next start. */
  datatype Sought = Found(rest: seq<Byte>) | Lost

  function AfterStart(input: seq<Byte>): (s: Sought)
    ensures s.Found? ==> |s.rest| < |input|
  {
    if input == [] then Lost else if input[0] == START then Found(input[1..]) else AfterStart(input[1..])
  }

  /** The bytes up to the end of the packet, or as many as fit; a start begins the packet anew. */
  datatype Body = Ended(payload: seq<Byte>, rest: seq<Byte>) | Open

  function ReadBody(input: seq<Byte>, size: nat, got: seq<Byte>): (b: Body)
    requires 1 <= size && |got| <= size - 1
    ensures b.Ended? ==> |b.rest| <= |input| && |b.payload| <= size - 1
    decreases |input|
  {
    if |got| == size - 1 then Ended(got, input)
    else if input == [] then Open
    else if input[0] == START then ReadBody(input[1..], size, [])
    else if input[0] == END then Ended(got, input[1..])
    else ReadBody(input[1..], size, got + [input[0]])
  }

  function Receive(input: seq<Byte>, size: nat): Reception
    requires 1 <= size
    decreases |input|
  {
    match AfterStart(input)
    case Lost => Nothing
    case Found(behind) =>
      match ReadBody(behind, size, [])
      case Open => Nothing
      case Ended(p, rest) =>
        if |rest| < 2 then Nothing
        else if HexStringValue(rest[..2]) == Sum(p) then Got(p, rest[2..])
        else Receive(rest[2..], size)
  }

  /** The refusals sent before the packet is accepted. */
  function Refusals(input: seq<Byte>, size: nat): seq<Byte>
    requires 1 <= size
    decreases |input|
  {
    match AfterStart(input)
    case Lost => []
    case Found(behind) =>
      match ReadBody(behind, size, [])
      case Open => []
      case Ended(p, rest) => if |rest| < 2 || HexStringValue(rest[..2]) == Sum(p) then []
        else [NAK] + Refusals(rest[2..], size)
  }

  /** The serial line: what is still to come in, and what was sent out. */
  class Line {
    var input: seq<Byte>
    var output: seq<Byte>

    constructor (input: seq<Byte>)
      ensures this.input == input && output == []
    {
      this.input, output := input, [];
    }

    method GetChar() returns (c: Byte)
      requires input != []
      modifies this`input
      ensures c == old(input)[0] && input == old(input)[1..]
    {
      c, input := input[0], input[1..];
    }

    method PutChar(c: Byte)
      modifies this`output
      ensures output == old(output) + [c]
    {
      output := output + [c];
    }

    /** One try of SendPacket. */
    method PutFrame(p: seq<Byte>)
      modifies this`output
      ensures output == old(output) + Frame(p)
    {
      PutChar(START);
      var sum: Byte := 0;
      var k := 0;
      while k < |p|
        invariant k <= |p| && sum == Sum(p[..k]) && output == old(output) + [START] + p[..k]
      {
        PutChar(p[k]);
        assert p[..k + 1][..k] == p[..k];
        sum := (sum + p[k]) % 0x100;
        k := k + 1;
      }
      assert p[..|p|] == p;
      PutChar(END);
      PutChar(HexToStr(sum / 16));
      PutChar(HexToStr(sum % 16));
      assert output == old(output) + Frame(p);
    }

    /**
     * SendPacket: the frame is sent until it is acknowledged, `retries` times at most.  The result is the number of
     * bytes of the payload, if the frame was sent at all.
     */
    method SendPacket(p: seq<Byte>, retries: nat) returns (count: Answer)
      modifies this
      ensures output == old(output) + Repeated(Frame(p), Tries(old(input), retries))
      ensures count == if Silent(old(input), retries) then Waiting else Count(if retries == 0 then 0 else |p|)
    {
      hide Frame;
      var timeout: nat, sent: nat := retries, 0;
      ghost var tried := 0;
      while true
        invariant timeout + tried == retries && sent == (if tried == 0 then 0 else |p|)
        invariant Tries(old(input), retries) == tried + Tries(input, timeout)
        invariant Silent(old(input), retries) == Silent(input, timeout)
        invariant output == old(output) + Repeated(Frame(p), tried)
        decreases timeout
      {
        if timeout == 0 { return Count(sent); }
        timeout := timeout - 1;
        PutFrame(p);
        sent, tried := |p|, tried + 1;
        if input == [] { return Waiting; }
        var c := GetChar();
        if c == ACK { return Count(sent); }
      }
    }

    /** Wait for the start of a packet. */
    method AwaitStart() returns (started: bool)
      modifies this`input
      ensures match AfterStart(old(input))
        case Lost => !started && input == []
        case Found(rest) => started && input == rest
    {
      while input != []
        invariant AfterStart(input) == AfterStart(old(input))
        decreases |input|
      {
        var c := GetChar();
        if c == START { return true; }
      }
      started := false;
    }

    /** The inner loop of ReceivePacket. */
    method ReceiveBody(size: nat) returns (ended: bool, p: seq<Byte>)
      requires 1 <= size
      modifies this`input
      ensures match ReadBody(old(input), size, [])
        case Open => !ended
        case Ended(q, rest) => ended && p == q && input == rest
    {
      p := [];
      while |p| < size - 1
        invariant |p| <= size - 1
        invariant ReadBody(input, size, p) == ReadBody(old(input), size, [])
        decreases |input|
      {
        if input == [] { return false, p; }
        var c := GetChar();
        if c == START {
          p := [];
        } else if c == END {
          return true, p;
        } else {
          p := p + [c];
        }
      }
      ended := true;
    }

    /** One turn of ReceivePacket's loop: a packet is accepted, or refused, or the line falls silent. */
    method ReceiveOne(size: nat) returns (refused: bool, r: Reception)
      requires 1 <= size
      modifies this
      ensures refused ==>
        && |input| < |old(input)| && Receive(old(input), size) == Receive(input, size)
        && output == old(output) + [NAK] && Refusals(old(input), size) == [NAK] + Refusals(input, size)
      ensures !refused ==>
        && r == Receive(old(input), size) && (r.Got? ==> input == r.rest)
        && output == old(output) + (if r.Got? then [ACK] else []) && Refusals(old(input), size) == []
    {
      hide AfterStart, ReadBody, HexStringValue, Sum;
      r, refused := Nothing, false;
      var started := AwaitStart();
      if !started { return; }
      var ended, p := ReceiveBody(size);
      if !ended || |input| < 2 { return; }
      assert input[..2] == [input[0], input[1]] && input[2..] == input[1..][1..];
      var high := GetChar();
      var low := GetChar();
      if HexStringValue([high, low]) == Sum(p) {
        PutChar(ACK);
        r := Got(p, input);
      } else {
        PutChar(NAK);
        refused := true;
      }
    }

    /**
     * ReceivePacket into a buffer of `size` bytes: the payload of the first packet whose checksum is right; each
     * packet before it is refused.
     */
    method ReceivePacket(size: nat) returns (r: Reception)
      requires 1 <= size
      modifies this
      ensures r == Receive(old(input), size) && (r.Got? ==> input == r.rest)
      ensures output == old(output) + Refusals(old(input), size) + if r.Got? then [ACK] else []
    {
      hide Receive, Refusals;
      ghost var sent: seq<Byte> := [];
      var refused := true;
      r := Nothing;
      while refused
        invariant refused ==> Receive(old(input), size) == Receive(input, size) && output == old(output) + sent
        invariant refused ==> Refusals(old(input), size) == sent + Refusals(input, size)
        invariant !refused ==> r == Receive(old(input), size) && (r.Got? ==> input == r.rest)
        invariant !refused ==>
          && output == old(output) + sent + (if r.Got? then [ACK] else [])
          && Refusals(old(input), size) == sent
        decreases refused, |input|
      {
        refused, r := ReceiveOne(size);
        if refused { sent := sent + [NAK]; }
      }
    }
  }

  // ---------------------------------------------------------------- the framing round trip

  lemma {:induction false} SkipNoise(noise: seq<Byte>, rest: seq<Byte>)
    requires START !in noise
    ensures AfterStart(noise + [START] + rest) == Found(rest)
  {
    var s := noise + [START] + rest;
    if noise == [] {
      assert s[1..] == rest;
    } else {
      assert s[1..] == noise[1..] + [START] + rest;
      SkipNoise(noise[1..], rest);
    }
  }

  /** Bytes that are neither start nor end are collected while they fit. */
  lemma {:induction false} Collect(a: seq<Byte>, rest: seq<Byte>, size: nat, got: seq<Byte>)
    requires START !in a && END !in a && |got| + |a| <= size - 1
    ensures ReadBody(a + rest, size, got) == ReadBody(rest, size, got + a)
  {
    if a == [] {
      assert a + rest == rest && got + a == got;
    } else {
      assert (a + rest)[1..] == a[1..] + rest && got + [a[0]] + a[1..] == got + a;
      Collect(a[1..], rest, size, got + [a[0]]);
    }
  }

  /** Packets that are begun and given up. */
  function Aborted(starts: seq<seq<Byte>>): seq<Byte> {
    if starts == [] then [] else [START] + starts[0] + Aborted(starts[1..])
  }

  /** A packet is given up without an end, and before it fills the buffer. */
  predicate GivenUp(a: seq<Byte>, size: nat) { START !in a && END !in a && |a| + 1 < size }

  /** A start inside a packet begins it anew. */
  lemma Restarts(tail: seq<Byte>, size: nat, got: seq<Byte>)
    requires |got| + 1 < size
    ensures ReadBody([START] + tail, size, got) == ReadBody(tail, size, [])
  {
    assert ([START] + tail)[1..] == tail;
  }

  lemma {:induction false} SkipAborted(first: seq<Byte>, starts: seq<seq<Byte>>, rest: seq<Byte>, size: nat)
    requires GivenUp(first, size) && forall i :: 0 <= i < |starts| ==> GivenUp(starts[i], size)
    ensures ReadBody(first + Aborted(starts) + [START] + rest, size, []) == ReadBody(rest, size, [])
    decreases |starts|
  {
    hide ReadBody;
    var tail := if starts == [] then rest else starts[0] + Aborted(starts[1..]) + [START] + rest;
    assert first + Aborted(starts) + [START] + rest == first + ([START] + tail);
    Collect(first, [START] + tail, size, []);
    assert ([START] + tail)[1..] == tail && [] + first == first;
    Restarts(tail, size, first);
    if starts != [] { SkipAborted(starts[0], starts[1..], rest, size); }
  }

  /** A framed payload is read to its end. */
  lemma ReadFrame(p: seq<Byte>, rest: seq<Byte>, size: nat)
    requires Plain(p) && |p| + 2 <= size
    ensures ReadBody(p + [END] + rest, size, []) == Ended(p, rest)
  {
    assert p + [END] + rest == p + ([END] + rest) && ([END] + rest)[1..] == rest && [] + p == p;
    Collect(p, [END] + rest, size, []);
  }

  /**
   * The framing round trip: behind noise without a start, and behind any number of packets that were given up, a
   * framed payload that fits the buffer is received as it was sent, and no refusal is sent before.
   */
  lemma FramingRoundTrip(noise: seq<Byte>, starts: seq<seq<Byte>>, p: seq<Byte>, rest: seq<Byte>, size: nat)
    requires START !in noise && (forall i :: 0 <= i < |starts| ==> GivenUp(starts[i], size)) && Plain(p)
      && |p| + 2 <= size
    ensures Receive(noise + Aborted(starts) + Frame(p) + rest, size) == Got(p, rest)
    ensures Refusals(noise + Aborted(starts) + Frame(p) + rest, size) == []
  {
    var digits := ChecksumDigits(Sum(p));
    var body := p + [END] + (digits + rest);
    var input := noise + Aborted(starts) + Frame(p) + rest;
    if starts == [] {
      assert input == noise + [START] + body;
      SkipNoise(noise, body);
    } else {
      var behind := starts[0] + Aborted(starts[1..]) + [START] + body;
      assert input == noise + [START] + behind;
      SkipNoise(noise, behind);
      SkipAborted(starts[0], starts[1..], body, size);
    }
    ReadFrame(p, digits + rest, size);
    assert (digits + rest)[..2] == digits && (digits + rest)[2..] == rest;
    ChecksumDigitsValue(Sum(p));
  }

  /**
   * A payload of one byte more fills the buffer, and the end mark is taken for a checksum digit: the packet is
   * accepted only if its sum is zero, and then a digit of its checksum is left on the line.
   */
  lemma OneByteMore(p: seq<Byte>, rest: seq<Byte>, size: nat)
    requires Plain(p) && |p| + 1 == size
    ensures var left := [HexToStr(Sum(p) % 16)] + rest;
      Receive(Frame(p) + rest, size) == if Sum(p) == 0 then Got(p, left) else Receive(left, size)
  {
    hide ReadBody, HexStringValue, AfterStart, Sum, HexToStr;
    var digits := ChecksumDigits(Sum(p));
    var tail := [END] + digits + rest;
    assert Frame(p) + rest == [] + [START] + (p + tail);
    SkipNoise([], p + tail);
    FullBody(p, tail, size);
    assert tail[..2] == [END, digits[0]] && tail[2..] == [digits[1]] + rest;
    EndIsNoDigit(digits[0]);
  }

  lemma FullBody(p: seq<Byte>, rest: seq<Byte>, size: nat)
    requires Plain(p) && |p| + 1 == size
    ensures ReadBody(p + rest, size, []) == Ended(p, rest)
  {
    assert [] + p == p;
    Collect(p, rest, size, []);
  }

  lemma EndIsNoDigit(d: Byte)
    ensures HexStringValue([END, d]) == 0
  {
    assert DropLeading([END, d], {0x20, 0x09}) == [END, d] == DropLeading([END, d], {0x30});
    assert LeadingHex([END, d], 0) == 0;
  }

  /** A packet that is received fits the buffer, and uses up a start and two digits at least. */
  lemma {:induction false} ReceiveBound(input: seq<Byte>, size: nat)
    requires 1 <= size
    ensures Receive(input, size).Got? ==>
      && |Receive(input, size).payload| <= size - 1
      && |Receive(input, size).rest| + 3 <= |input|
    decreases |input|
  {
    match AfterStart(input)
    case Lost =>
    case Found(behind) =>
      match ReadBody(behind, size, [])
      case Open =>
      case Ended(p, rest) => if |rest| >= 2 { ReceiveBound(rest[2..], size); }
  }

  /**
   * A framed payload comes through, with the line left behind its frame, exactly when it leaves two bytes of the
   * buffer free.
   */
  lemma ReceivedIff(p: seq<Byte>, rest: seq<Byte>, size: nat)
    requires Plain(p) && 1 <= size
    ensures Receive(Frame(p) + rest, size) == Got(p, rest) <==> |p| + 2 <= size
  {
    var input := Frame(p) + rest;
    ReceiveBound(input, size);
    if |p| + 2 <= size {
      FramingRoundTrip([], [], p, rest, size);
      assert [] + Aborted([]) + Frame(p) + rest == input;
    } else if |p| + 1 == size {
      var left := [HexToStr(Sum(p) % 16)] + rest;
      OneByteMore(p, rest, size);
      ReceiveBound(left, size);
      assert |left| == |rest| + 1;
    }
  }

  // ---------------------------------------------------------------- memory as hex digits

  /** A hex digit as TransferFromMemToOutBufAndSend writes it, in lower case. */
  function LowerHex(n: nat): Byte
    requires n < 16
  {
    var c := HexToStr(n);
    if 0x41 <= c <= 0x46 then c - 0x41 + 0x61 else c
  }

  function Encoded(bytes: seq<Byte>): (s: seq<Byte>)
    ensures |s| == 2 * |bytes|
  {
    if bytes == [] then []
    else Encoded(bytes[..|bytes| - 1]) + [LowerHex(bytes[|bytes| - 1] / 16), LowerHex(bytes[|bytes| - 1] % 16)]
  }

  /** TransferFromMemToOutBufAndSend, up to the packet: the digits of `length` bytes of memory. */
  method TransferFromMemToOutBuf(mem: array<Byte>, at: nat, length: nat) returns (out: seq<Byte>)
    requires at + length <= mem.Length
    ensures out == Encoded(mem[at..at + length])
  {
    out := [];
    var k := 0;
    while k < length
      invariant k <= length && out == Encoded(mem[at..at + k])
    {
      var b := mem[at + k];
      assert mem[at..at + k + 1][..k] == mem[at..at + k];
      out := out + [LowerHex(b / 16), LowerHex(b % 16)];
      k := k + 1;
    }
  }

  /** The digits at position `i` of a string; behind its end, the terminating zero. */
  function CharAt(s: seq<Byte>, i: nat): Byte { if i < |s| then s[i] else 0 }

  predicate HexPair(s: seq<Byte>, k: nat) {
    HexCharToInt(CharAt(s, 2 * k)) >= 0 && HexCharToInt(CharAt(s, 2 * k + 1)) >= 0
  }

  function PairValue(s: seq<Byte>, k: nat): Byte
    requires HexPair(s, k)
  {
    HexCharToInt(CharAt(s, 2 * k)) * 16 + HexCharToInt(CharAt(s, 2 * k + 1))
  }

  /** How many pairs of hex digits, `length` at most, the string begins with. */
  function GoodPairs(s: seq<Byte>, length: nat): (n: nat)
    ensures n <= length && forall k :: 0 <= k < n ==> HexPair(s, k)
    ensures n < length ==> !HexPair(s, n)
  {
    if length == 0 then 0
    else var n := GoodPairs(s, length - 1); if n == length - 1 && HexPair(s, n) then length else n
  }

  function Decoded(s: seq<Byte>, n: nat): (bytes: seq<Byte>)
    requires forall k :: 0 <= k < n ==> HexPair(s, k)
    ensures |bytes| == n
  {
    seq(n, k requires 0 <= k < n => PairValue(s, k))
  }

  /** A digit's value as a CHAR8: without a sign, the -1 of a character that is no digit becomes 255. */
  function AsChar8(value: int, signed: bool): int {
    if signed then value else value % 0x100
  }

  /** The byte that the k-th pair of characters is stored as. */
  function StoredByte(s: seq<Byte>, k: nat, signed: bool): Byte {
    (AsChar8(HexCharToInt(CharAt(s, 2 * k)), signed) * 16 + AsChar8(HexCharToInt(CharAt(s, 2 * k + 1)), signed)) % 0x100
  }

  /** How many pairs are stored before the loop finds one that it refuses; without a sign it refuses none. */
  function StoredPairs(s: seq<Byte>, length: nat, signed: bool): (n: nat)
    ensures n <= length
  {
    if signed then GoodPairs(s, length) else length
  }

  function StoredBytes(s: seq<Byte>, n: nat, signed: bool): (bytes: seq<Byte>)
    ensures |bytes| == n
  {
    seq(n, k requires 0 <= k < n => StoredByte(s, k, signed))
  }

  /** The test of the loop tells the pairs that are stored from the first that is not. */
  lemma PairTest(s: seq<Byte>, k: nat, length: nat, signed: bool)
    requires k <= StoredPairs(s, length, signed) && k < length
    ensures var n, c1, c2 := StoredPairs(s, length, signed),
              AsChar8(HexCharToInt(CharAt(s, 2 * k)), signed), AsChar8(HexCharToInt(CharAt(s, 2 * k + 1)), signed);
      && (k < n <==> 0 <= c1 && 0 <= c2)
      && (k < n ==> StoredBytes(s, n, signed)[k] == (c1 * 16 + c2) % 0x100)
  {
    if signed && k < StoredPairs(s, length, signed) { assert HexPair(s, k); }
  }

  /** TransferFromInBufToMem, for a compiler whose CHAR8 is signed or not. */
  method TransferFromInBufToMem(length: nat, mem: array<Byte>, at: nat, data: seq<Byte>, signed: bool)
      returns (success: bool)
    requires at + length <= mem.Length
    modifies mem
    ensures success <==> StoredPairs(data, length, signed) == length
    ensures mem[..] == Splice(old(mem[..]), at, StoredBytes(data, StoredPairs(data, length, signed), signed))
  {
    hide HexCharToInt, StoredPairs, StoredBytes, StoredByte;
    ghost var n := StoredPairs(data, length, signed);
    ghost var bytes := StoredBytes(data, n, signed);
    assert bytes[..n] == bytes;
    success := true;
    var k := 0;
    while k < length && success
      invariant k <= n && (success || k == n < length)
      invariant mem[..] == Splice(old(mem[..]), at, bytes[..k])
      decreases length - k, success
    {
      var c1 := AsChar8(HexCharToInt(CharAt(data, 2 * k)), signed);
      var c2 := AsChar8(HexCharToInt(CharAt(data, 2 * k + 1)), signed);
      PairTest(data, k, length, signed);
      if c1 < 0 || c2 < 0 {
        success := false;
      } else {
        mem[at + k] := (c1 * 16 + c2) % 0x100;
        assert bytes[..k + 1] == bytes[..k] + [bytes[k]];
        k := k + 1;
      }
    }
  }

  /** Pairs of hex digits are stored as the bytes that they stand for, signed or not. */
  lemma GoodPairStored(s: seq<Byte>, k: nat, signed: bool)
    requires HexPair(s, k)
    ensures StoredByte(s, k, signed) == PairValue(s, k)
  {
    hide HexCharToInt, CharAt, AsChar8;
    var a, b := HexCharToInt(CharAt(s, 2 * k)), HexCharToInt(CharAt(s, 2 * k + 1));
    HexDigit(CharAt(s, 2 * k), signed);
    HexDigit(CharAt(s, 2 * k + 1), signed);
  }

  lemma HexDigit(c: Byte, signed: bool)
    ensures HexCharToInt(c) < 16
    ensures 0 <= HexCharToInt(c) ==> AsChar8(HexCharToInt(c), signed) == HexCharToInt(c)
  {}

  /** With a signed CHAR8, what is stored is what the leading pairs of hex digits stand for. */
  lemma SignedStoresLeadingPairs(s: seq<Byte>, length: nat)
    ensures StoredBytes(s, StoredPairs(s, length, true), true) == Decoded(s, GoodPairs(s, length))
  {
    forall k | 0 <= k < GoodPairs(s, length)
      ensures StoredByte(s, k, true) == PairValue(s, k)
    {
      GoodPairStored(s, k, true);
    }
  }

  /**
   * With an unsigned CHAR8 the transfer always reports success, and its success is right, every pair being hex
   * digits and stored as the byte they stand for, exactly when no pair is bad.
   */
  lemma UnsignedRightIff(s: seq<Byte>, length: nat)
    ensures StoredPairs(s, length, false) == length
    ensures GoodPairs(s, length) == length
      <==> forall k :: 0 <= k < length ==> HexPair(s, k) && StoredByte(s, k, false) == PairValue(s, k)
  {
    forall k | 0 <= k < length && HexPair(s, k)
      ensures StoredByte(s, k, false) == PairValue(s, k)
    {
      GoodPairStored(s, k, false);
    }
  }

  /** The wrong case: the characters "gg" are stored as a byte, and the transfer succeeds; signed, it is refused. */
  lemma BadDigitsStored()
    ensures StoredBytes([0x67, 0x67], StoredPairs([0x67, 0x67], 1, false), false) == [0xEF]
    ensures StoredPairs([0x67, 0x67], 1, true) == 0
  {
    var s: seq<Byte> := [0x67, 0x67];
    assert HexCharToInt(CharAt(s, 0)) == -1 && HexCharToInt(CharAt(s, 1)) == -1;
    assert AsChar8(-1, false) == 255;
    assert StoredByte(s, 0, false) == 0xEF;
    assert !HexPair(s, 0);
  }

  /** Memory that was written as hex digits is read back as it was. */
  lemma {:induction false} MemoryRoundTrip(bytes: seq<Byte>)
    ensures GoodPairs(Encoded(bytes), |bytes|) == |bytes| && Decoded(Encoded(bytes), |bytes|) == bytes
  {
    forall k | 0 <= k < |bytes|
      ensures HexPair(Encoded(bytes), k) && PairValue(Encoded(bytes), k) == bytes[k]
    {
      EncodedPair(bytes, k);
    }
  }

  lemma {:induction false} EncodedPair(bytes: seq<Byte>, k: nat)
    requires k < |bytes|
    ensures HexPair(Encoded(bytes), k) && PairValue(Encoded(bytes), k) == bytes[k]
  {
    if k == |bytes| - 1 {
      var b := bytes[k];
      assert HexCharToInt(LowerHex(b / 16)) == b / 16 && HexCharToInt(LowerHex(b % 16)) == b % 16;
    } else {
      EncodedPair(bytes[..|bytes| - 1], k);
    }
  }
}
