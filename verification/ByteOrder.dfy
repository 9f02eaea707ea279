/** The host-to-wire byte order routines of rpcmple.h, for both host byte orders. */
module ByteOrder {
  import opened Bytes

  datatype Host = LittleEndianHost | BigEndianHost

  function SwapEndian64(val: bv64): bv64
  {
    var a := ((val & 0x0000_0000_FFFF_FFFF) << 32) | ((val & 0xFFFF_FFFF_0000_0000) >> 32);
    var b := ((a & 0x0000_FFFF_0000_FFFF) << 16) | ((a & 0xFFFF_0000_FFFF_0000) >> 16);
    ((b & 0x00FF_00FF_00FF_00FF) << 8) | ((b & 0xFF00_FF00_FF00_FF00) >> 8)
  }

  function SwapEndian32(val: bv32): bv32
  {
    var v := ((val << 8) & 0xFF00_FF00) | ((val >> 8) & 0x00FF_00FF);
    (v << 16) | (v >> 16)
  }

  function SwapEndian16(val: bv16): bv16
  {
    (val << 8) | (val >> 8)
  }

  // ---- machine words as eight-bit patterns, least significant first ----

  function Octets64(w: bv64): (o: seq<bv8>)
    ensures |o| == 8
  {
    [(w & 0xFF) as bv8, ((w >> 8) & 0xFF) as bv8, ((w >> 16) & 0xFF) as bv8, ((w >> 24) & 0xFF) as bv8,
     ((w >> 32) & 0xFF) as bv8, ((w >> 40) & 0xFF) as bv8, ((w >> 48) & 0xFF) as bv8, (w >> 56) as bv8]
  }

  function Octets32(w: bv32): (o: seq<bv8>)
    ensures |o| == 4
  {
    [(w & 0xFF) as bv8, ((w >> 8) & 0xFF) as bv8, ((w >> 16) & 0xFF) as bv8, (w >> 24) as bv8]
  }

  function Octets16(w: bv16): (o: seq<bv8>)
    ensures |o| == 2
  {
    [(w & 0xFF) as bv8, (w >> 8) as bv8]
  }

  function Join64(o: seq<bv8>): bv64
    requires |o| == 8
  {
    o[0] as bv64 | (o[1] as bv64 << 8) | (o[2] as bv64 << 16) | (o[3] as bv64 << 24) |
    (o[4] as bv64 << 32) | (o[5] as bv64 << 40) | (o[6] as bv64 << 48) | (o[7] as bv64 << 56)
  }

  function Join32(o: seq<bv8>): bv32
    requires |o| == 4
  {
    o[0] as bv32 | (o[1] as bv32 << 8) | (o[2] as bv32 << 16) | (o[3] as bv32 << 24)
  }

  function Join16(o: seq<bv8>): bv16
    requires |o| == 2
  {
    o[0] as bv16 | (o[1] as bv16 << 8)
  }

  lemma Join64Inverse(w: bv64, o: seq<bv8>)
    requires |o| == 8
    ensures Join64(Octets64(w)) == w && Octets64(Join64(o)) == o
  {
  }

  lemma Join32Inverse(w: bv32, o: seq<bv8>)
    requires |o| == 4
    ensures Join32(Octets32(w)) == w && Octets32(Join32(o)) == o
  {
  }

  lemma Join16Inverse(w: bv16, o: seq<bv8>)
    requires |o| == 2
    ensures Join16(Octets16(w)) == w && Octets16(Join16(o)) == o
  {
  }

  function Reverse<T>(b: seq<T>): (r: seq<T>)
    ensures |r| == |b| && forall k :: 0 <= k < |b| ==> r[k] == b[|b| - 1 - k]
  {
    seq(|b|, k requires 0 <= k < |b| => b[|b| - 1 - k])
  }

  lemma ReverseEight(b: seq<bv8>)
    requires |b| == 8
    ensures Reverse(b) == [b[7], b[6], b[5], b[4], b[3], b[2], b[1], b[0]]
  {
  }

  lemma Swap64Octets(x: bv64, o: seq<bv8>)
    requires o == Octets64(x)
    ensures Octets64(SwapEndian64(x)) == [o[7], o[6], o[5], o[4], o[3], o[2], o[1], o[0]]
  {
  }

  lemma SwapReverses64(x: bv64)
    ensures Octets64(SwapEndian64(x)) == Reverse(Octets64(x))
  {
    Swap64Octets(x, Octets64(x));
    ReverseEight(Octets64(x));
  }

  lemma SwapReverses32(y: bv32)
    ensures Octets32(SwapEndian32(y)) == Reverse(Octets32(y))
  {
    var o, r := Octets32(y), Octets32(SwapEndian32(y));
    assert r == [o[3], o[2], o[1], o[0]];
  }

  lemma SwapReverses16(z: bv16)
    ensures Octets16(SwapEndian16(z)) == Reverse(Octets16(z))
  {
    var o, r := Octets16(z), Octets16(SwapEndian16(z));
    assert r == [o[1], o[0]];
  }

  lemma ReverseTwice<T>(b: seq<T>)
    ensures Reverse(Reverse(b)) == b
  {
  }

  /** Hence swapping twice changes nothing, at every width. */
  lemma SwapIsInvolution(x: bv64, y: bv32, z: bv16)
    ensures SwapEndian64(SwapEndian64(x)) == x
    ensures SwapEndian32(SwapEndian32(y)) == y
    ensures SwapEndian16(SwapEndian16(z)) == z
  {
    SwapReverses64(x);
    SwapReverses32(y);
    SwapReverses16(z);
    SwapReverses64(SwapEndian64(x));
    SwapReverses32(SwapEndian32(y));
    SwapReverses16(SwapEndian16(z));
    ReverseTwice(Octets64(x));
    ReverseTwice(Octets32(y));
    ReverseTwice(Octets16(z));
    Join64Inverse(x, Octets64(x));
    Join64Inverse(SwapEndian64(SwapEndian64(x)), Octets64(x));
  }

  // ---- bytes of a word ----

  lemma AppendBit(b: bv8)
    requires b as int < 128
    ensures (b << 1) as int == 2 * b as int && ((b << 1) | 1) as int == 2 * b as int + 1
  {
    assert b < 128;
  }

  /** The eight-bit pattern of a byte, built bit by bit. */
  function Octet(b: byte): (o: bv8)
    ensures o as int == b as int
  {
    if b == 0 then 0 else
      var high := Octet(b / 2);
      AppendBit(high);
      if b % 2 == 0 then high << 1 else (high << 1) | 1
  }

  function OctetValue(o: bv8): byte {
    (o as int) as byte
  }

  lemma OctetInverse(o: bv8)
    ensures Octet(OctetValue(o)) == o
  {
    var p := Octet(OctetValue(o));
    assert (o as int) as bv8 == o;
    assert (p as int) as bv8 == p;
  }

  function Values(o: seq<bv8>): (b: seq<byte>)
    ensures |b| == |o|
  {
    seq(|o|, k requires 0 <= k < |o| => OctetValue(o[k]))
  }

  function Patterns(b: seq<byte>): (o: seq<bv8>)
    ensures |o| == |b|
  {
    seq(|b|, k requires 0 <= k < |b| => Octet(b[k]))
  }

  lemma PatternsInverse(o: seq<bv8>, b: seq<byte>)
    ensures Patterns(Values(o)) == o && Values(Patterns(b)) == b
  {
    forall k | 0 <= k < |o| ensures Patterns(Values(o))[k] == o[k] { OctetInverse(o[k]); }
  }

  /** The bytes of a word, least significant first, and the word with given bytes. */
  function Bytes64(w: bv64): (b: seq<byte>) ensures |b| == 8 { Values(Octets64(w)) }

  function Bytes32(w: bv32): (b: seq<byte>) ensures |b| == 4 { Values(Octets32(w)) }

  function Bytes16(w: bv16): (b: seq<byte>) ensures |b| == 2 { Values(Octets16(w)) }

  function Word64(b: seq<byte>): bv64 requires |b| == 8 { Join64(Patterns(b)) }

  function Word32(b: seq<byte>): bv32 requires |b| == 4 { Join32(Patterns(b)) }

  function Word16(b: seq<byte>): bv16 requires |b| == 2 { Join16(Patterns(b)) }

  lemma Word64Inverse(w: bv64, b: seq<byte>)
    requires |b| == 8
    ensures Word64(Bytes64(w)) == w && Bytes64(Word64(b)) == b
  {
    PatternsInverse(Octets64(w), b);
    Join64Inverse(w, Patterns(b));
  }

  lemma Word32Inverse(w: bv32, b: seq<byte>)
    requires |b| == 4
    ensures Word32(Bytes32(w)) == w && Bytes32(Word32(b)) == b
  {
    PatternsInverse(Octets32(w), b);
    Join32Inverse(w, Patterns(b));
  }

  lemma Word16Inverse(w: bv16, b: seq<byte>)
    requires |b| == 2
    ensures Word16(Bytes16(w)) == w && Bytes16(Word16(b)) == b
  {
    PatternsInverse(Octets16(w), b);
    Join16Inverse(w, Patterns(b));
  }

  lemma ValuesReversed(o: seq<bv8>)
    ensures Values(Reverse(o)) == Reverse(Values(o))
  {
  }

  /** The mask-and-shift swaps are byte reversal. */
  lemma SwapIsReversal(x: bv64, y: bv32, z: bv16)
    ensures Bytes64(SwapEndian64(x)) == Reverse(Bytes64(x))
    ensures Bytes32(SwapEndian32(y)) == Reverse(Bytes32(y))
    ensures Bytes16(SwapEndian16(z)) == Reverse(Bytes16(z))
  {
    SwapReverses64(x);
    ValuesReversed(Octets64(x));
    SwapReverses32(y);
    ValuesReversed(Octets32(y));
    SwapReverses16(z);
    ValuesReversed(Octets16(z));
  }

  /** What the host keeps in memory for a value whose bytes, least significant first, are `le`. */
  function InMemory(host: Host, le: seq<byte>): (b: seq<byte>)
    ensures |b| == |le|
  {
    if host.LittleEndianHost? then le else Reverse(le)
  }

  /** The bytes a caller asks for: little-endian, or big-endian when the flag is off. */
  function Ordered(isLittleEndian: bool, le: seq<byte>): (b: seq<byte>)
    ensures |b| == |le|
  {
    if isLittleEndian then le else Reverse(le)
  }

  lemma SwapOnDemand(host: Host, isLittleEndian: bool, le: seq<byte>)
    ensures InMemory(host, if isLittleEndian != host.LittleEndianHost? then Reverse(le) else le) == Ordered(isLittleEndian, le)
    ensures Reverse(Reverse(le)) == le
  {
    ReverseTwice(le);
  }

  type Int64 = i: int | -0x8000_0000_0000_0000 <= i < 0x8000_0000_0000_0000
  type UInt64 = u: int | 0 <= u < 0x1_0000_0000_0000_0000

  /** Two's complement, least significant byte first. */
  function IntBytes(i: Int64): (b: seq<byte>)
    ensures |b| == 8
  {
    ToLE(if i < 0 then i + 0x1_0000_0000_0000_0000 else i, 8)
  }

  function BytesInt(b: seq<byte>): (i: Int64)
    requires |b| == 8
  {
    FromLEBound(b);
    Pow256Values();
    var n := FromLE(b);
    if n < 0x8000_0000_0000_0000 then n else n - 0x1_0000_0000_0000_0000
  }

  function BytesUInt(b: seq<byte>): (u: UInt64)
    requires |b| == 8
  {
    FromLEBound(b);
    Pow256Values();
    FromLE(b)
  }

  lemma IntBytesInverse(i: Int64, b: seq<byte>)
    requires |b| == 8
    ensures BytesInt(IntBytes(i)) == i && IntBytes(BytesInt(b)) == b
  {
    Pow256Values();
    FromLEToLE(if i < 0 then i + 0x1_0000_0000_0000_0000 else i, 8);
    FromLEBound(b);
    ToLEFromLE(b);
  }

  lemma UIntBytesInverse(u: UInt64, b: seq<byte>)
    requires |b| == 8
    ensures BytesUInt(ToLE(u, 8)) == u && ToLE(BytesUInt(b), 8) == b
  {
    Pow256Values();
    FromLEToLE(u, 8);
    FromLEBound(b);
    ToLEFromLE(b);
  }

  // ---- which byte is which ----

  /**
   `width` bytes from `off` on are the digits of a number to the base 256, two's complement for a negative one: in
   little-endian order the digit of weight 256^k is byte k.
   */
  ghost predicate Holds(data: seq<byte>, off: nat, width: nat, n: int, isLittleEndian: bool)
    requires off + width <= |data|
  {
    forall k :: 0 <= k < width ==> data[off..off + width][if isLittleEndian then k else width - 1 - k] as int == Digit(n, k)
  }

  /** Rounding down, as the digits of a two's-complement number are. */
  ghost function Digit(n: int, k: nat): int {
    n / Pow256(k) % 256
  }

  /** Adding 256 times a multiple of a digit's weight does not change the digit. */
  lemma DigitKept(n: int, weight: nat, m: int)
    requires weight > 0
    ensures (n + 256 * m * weight) / weight % 256 == n / weight % 256
  {
    var q, r := n / weight, n % weight;
    assert n + 256 * m * weight == (q + 256 * m) * weight + r;
    QuotientIs(n + 256 * m * weight, weight, q + 256 * m, r);
  }

  lemma WeightsOfWord(k: nat)
    requires k < 8
    ensures 256 * Pow256(7 - k) * Pow256(k) == 0x1_0000_0000_0000_0000
  {
    Pow256Values();
  }

  /** The bytes of a signed number are its two's complement, least significant byte first. */
  lemma TwosComplement(i: Int64, k: nat)
    requires k < 8
    ensures IntBytes(i)[k] as int == Digit(i, k)
  {
    ToLEByte(if i < 0 then i + 0x1_0000_0000_0000_0000 else i, 8, k);
    DigitKept(i, Pow256(k), Pow256(7 - k));
    WeightsOfWord(k);
  }

  /** The top byte is the sign: from 128 on it makes the number negative. */
  lemma SignByte(b: seq<byte>)
    requires |b| == 8
    ensures BytesUInt(b) == Weighed(b, 8)
    ensures BytesInt(b) == if b[7] < 128 then Weighed(b, 8) else Weighed(b, 8) - 0x1_0000_0000_0000_0000
  {
    Pow256Values();
    FromLEWeighs(b);
    WeighedBound(b, 7);
    assert Weighed(b, 8) == Weighed(b, 7) + b[7] as int * 0x100_0000_0000_0000;
  }

  /** The first byte of a word is the low one, and shifting right by eight bits moves every byte one place forward. */
  lemma LowByteFirst64(w: bv64)
    ensures Bytes64(w)[0] as int == ((w & 0xFF) as bv8) as int
    ensures Bytes64(w >> 8) == Bytes64(w)[1..] + [0]
  {
    assert Octets64(w >> 8) == Octets64(w)[1..] + [0];
    assert Values(Octets64(w)[1..] + [0]) == Values(Octets64(w))[1..] + [0];
  }

  lemma LowByteFirst32(w: bv32)
    ensures Bytes32(w)[0] as int == ((w & 0xFF) as bv8) as int
    ensures Bytes32(w >> 8) == Bytes32(w)[1..] + [0]
  {
    assert Octets32(w >> 8) == Octets32(w)[1..] + [0];
    assert Values(Octets32(w)[1..] + [0]) == Values(Octets32(w))[1..] + [0];
  }

  lemma LowByteFirst16(w: bv16)
    ensures Bytes16(w)[0] as int == ((w & 0xFF) as bv8) as int
    ensures Bytes16(w >> 8) == Bytes16(w)[1..] + [0]
  {
    assert Octets16(w >> 8) == Octets16(w)[1..] + [0];
    assert Values(Octets16(w)[1..] + [0]) == Values(Octets16(w))[1..] + [0];
  }

  /** Numbers and patterns agree on which byte is first: shifting right by eight bits divides by 256. */
  lemma ShiftDivides(u: UInt64)
    ensures Word64(ToLE(u, 8)) >> 8 == Word64(ToLE(u / 256, 8))
  {
    var w := Word64(ToLE(u, 8));
    QuotientBytes(u);
    LowByteFirst64(w);
    Word64Inverse(w, ToLE(u, 8));
    Word64Inverse(w >> 8, ToLE(u / 256, 8));
  }

  lemma QuotientBytes(u: UInt64)
    ensures ToLE(u / 256, 8) == ToLE(u, 8)[1..] + [0]
  {
    Pow256Values();
    NextByteIsZero(u / 256, 7);
  }

  lemma SignedDigits(i: Int64)
    ensures forall k :: 0 <= k < 8 ==> IntBytes(i)[k] as int == Digit(i, k)
  {
    forall k | 0 <= k < 8
      ensures IntBytes(i)[k] as int == Digit(i, k)
    {
      TwosComplement(i, k);
    }
  }

  lemma UnsignedDigits(n: nat, width: nat)
    ensures forall k :: 0 <= k < width ==> ToLE(n, width)[k] as int == Digit(n, k)
  {
    forall k | 0 <= k < width
      ensures ToLE(n, width)[k] as int == Digit(n, k)
    {
      ToLEByte(n, width, k);
    }
  }

  lemma DigitsHeld(data: seq<byte>, off: nat, n: int, isLittleEndian: bool, le: seq<byte>)
    requires off + |le| <= |data| && data[off..off + |le|] == Ordered(isLittleEndian, le)
    requires forall k :: 0 <= k < |le| ==> le[k] as int == Digit(n, k)
    ensures Holds(data, off, |le|, n, isLittleEndian)
  {
  }

  method Store64(host: Host, word: bv64, message: ByteVector, off: nat, isLittleEndian: bool)
    requires off + 8 <= |message.data|
    modifies message
    ensures message.data == Overwritten(old(message.data), off, Ordered(isLittleEndian, Bytes64(word)))
  {
    var val := word;
    if isLittleEndian != host.LittleEndianHost? {
      val := SwapEndian64(val);
    }
    SwapIsReversal(word, 0, 0);
    SwapOnDemand(host, isLittleEndian, Bytes64(word));
    message.Store(off, InMemory(host, Bytes64(val)));
  }

  method DoubleToBytes(host: Host, dbl: bv64, message: ByteVector, off: nat, isLittleEndian: bool)
    requires off + 8 <= |message.data|
    modifies message
    ensures message.data == Overwritten(old(message.data), off, Ordered(isLittleEndian, Bytes64(dbl)))
    ensures message.data[off..off + 8] == if isLittleEndian then Bytes64(dbl) else Reverse(Bytes64(dbl))
  {
    Store64(host, dbl, message, off, isLittleEndian);
  }

  method Int64ToBytes(host: Host, longint: Int64, message: ByteVector, off: nat, isLittleEndian: bool)
    requires off + 8 <= |message.data|
    modifies message
    ensures message.data == Overwritten(old(message.data), off, Ordered(isLittleEndian, IntBytes(longint)))
    ensures Holds(message.data, off, 8, longint, isLittleEndian)
  {
    Word64Inverse(0, IntBytes(longint));
    Store64(host, Word64(IntBytes(longint)), message, off, isLittleEndian);
    SignedDigits(longint);
    DigitsHeld(message.data, off, longint, isLittleEndian, IntBytes(longint));
  }

  method Uint64ToBytes(host: Host, u: UInt64, message: ByteVector, off: nat, isLittleEndian: bool)
    requires off + 8 <= |message.data|
    modifies message
    ensures message.data == Overwritten(old(message.data), off, Ordered(isLittleEndian, ToLE(u, 8)))
    ensures Holds(message.data, off, 8, u, isLittleEndian)
  {
    Word64Inverse(0, ToLE(u, 8));
    Store64(host, Word64(ToLE(u, 8)), message, off, isLittleEndian);
    UnsignedDigits(u, 8);
    DigitsHeld(message.data, off, u, isLittleEndian, ToLE(u, 8));
  }

  /** The uint32_t argument is n modulo 2^32, which keeping its four low bytes expresses. */
  method Uint32ToBytes(host: Host, n: nat, message: ByteVector, off: nat, isLittleEndian: bool)
    requires off + 4 <= |message.data|
    modifies message
    ensures message.data == Overwritten(old(message.data), off, Ordered(isLittleEndian, ToLE(n, 4)))
    ensures Holds(message.data, off, 4, n, isLittleEndian)
  {
    var word := Word32(ToLE(n, 4));
    var val := word;
    if isLittleEndian != host.LittleEndianHost? {
      val := SwapEndian32(val);
    }
    Word32Inverse(0, ToLE(n, 4));
    SwapIsReversal(0, word, 0);
    SwapOnDemand(host, isLittleEndian, ToLE(n, 4));
    message.Store(off, InMemory(host, Bytes32(val)));
    UnsignedDigits(n, 4);
    DigitsHeld(message.data, off, n, isLittleEndian, ToLE(n, 4));
  }

  method Uint16ToBytes(host: Host, n: nat, message: ByteVector, off: nat, isLittleEndian: bool)
    requires off + 2 <= |message.data|
    modifies message
    ensures message.data == Overwritten(old(message.data), off, Ordered(isLittleEndian, ToLE(n, 2)))
    ensures Holds(message.data, off, 2, n, isLittleEndian)
  {
    var word := Word16(ToLE(n, 2));
    var val := word;
    if isLittleEndian != host.LittleEndianHost? {
      val := SwapEndian16(val);
    }
    Word16Inverse(0, ToLE(n, 2));
    SwapIsReversal(0, 0, word);
    SwapOnDemand(host, isLittleEndian, ToLE(n, 2));
    message.Store(off, InMemory(host, Bytes16(val)));
    UnsignedDigits(n, 2);
    DigitsHeld(message.data, off, n, isLittleEndian, ToLE(n, 2));
  }

  /** The value the host sees when it copies eight bytes into a register. */
  function Load64(host: Host, bytes: seq<byte>): bv64
    requires |bytes| == 8
  {
    Word64(InMemory(host, bytes))
  }

  method BytesToDouble(host: Host, bytes: seq<byte>, isLittleEndian: bool) returns (dbl: bv64)
    requires |bytes| == 8
    ensures Bytes64(dbl) == if isLittleEndian then bytes else Reverse(bytes)
  {
    dbl := Load64(host, bytes);
    Word64Inverse(dbl, InMemory(host, bytes));
    SwapIsReversal(dbl, 0, 0);
    SwapOnDemand(host, isLittleEndian, bytes);
    if isLittleEndian != host.LittleEndianHost? {
      dbl := SwapEndian64(dbl);
    }
  }

  method BytesToUint64(host: Host, bytes: seq<byte>, isLittleEndian: bool) returns (u: UInt64)
    requires |bytes| == 8
    ensures u == BytesUInt(Ordered(isLittleEndian, bytes)) == Weighed(if isLittleEndian then bytes else Reverse(bytes), 8)
  {
    var val := BytesToDouble(host, bytes, isLittleEndian);
    u := BytesUInt(Bytes64(val));
    SignByte(Bytes64(val));
  }

  method BytesToInt64(host: Host, bytes: seq<byte>, isLittleEndian: bool) returns (i: Int64)
    requires |bytes| == 8
    ensures i == BytesInt(Ordered(isLittleEndian, bytes))
    ensures var le := if isLittleEndian then bytes else Reverse(bytes);
      i == if le[7] < 128 then Weighed(le, 8) else Weighed(le, 8) - 0x1_0000_0000_0000_0000
  {
    var val := BytesToDouble(host, bytes, isLittleEndian);
    i := BytesInt(Bytes64(val));
    SignByte(Bytes64(val));
  }

  method BytesToUint32(host: Host, bytes: seq<byte>, isLittleEndian: bool) returns (n: nat)
    requires |bytes| == 4
    ensures n == FromLE(Ordered(isLittleEndian, bytes)) == Weighed(if isLittleEndian then bytes else Reverse(bytes), 4)
  {
    var val := Word32(InMemory(host, bytes));
    Word32Inverse(0, InMemory(host, bytes));
    SwapIsReversal(0, val, 0);
    SwapOnDemand(host, isLittleEndian, bytes);
    if isLittleEndian != host.LittleEndianHost? {
      val := SwapEndian32(val);
    }
    n := FromLE(Bytes32(val));
    FromLEWeighs(Bytes32(val));
  }

  method BytesToUint16(host: Host, bytes: seq<byte>, isLittleEndian: bool) returns (n: nat)
    requires |bytes| == 2
    ensures n == FromLE(Ordered(isLittleEndian, bytes)) == Weighed(if isLittleEndian then bytes else Reverse(bytes), 2)
  {
    var val := Word16(InMemory(host, bytes));
    Word16Inverse(0, InMemory(host, bytes));
    SwapIsReversal(0, 0, val);
    SwapOnDemand(host, isLittleEndian, bytes);
    if isLittleEndian != host.LittleEndianHost? {
      val := SwapEndian16(val);
    }
    n := FromLE(Bytes16(val));
    FromLEWeighs(Bytes16(val));
  }

  // ---- between two hosts ----

  /** What the reader makes of eight bytes: its own word, swapped if the bytes are in the other order. */
  function Loaded64(host: Host, sent: seq<byte>, isLittleEndian: bool): bv64
    requires |sent| == 8
  {
    if isLittleEndian != host.LittleEndianHost? then SwapEndian64(Load64(host, sent)) else Load64(host, sent)
  }

  function Loaded32(host: Host, sent: seq<byte>, isLittleEndian: bool): bv32
    requires |sent| == 4
  {
    var word := Word32(InMemory(host, sent));
    if isLittleEndian != host.LittleEndianHost? then SwapEndian32(word) else word
  }

  function Loaded16(host: Host, sent: seq<byte>, isLittleEndian: bool): bv16
    requires |sent| == 2
  {
    var word := Word16(InMemory(host, sent));
    if isLittleEndian != host.LittleEndianHost? then SwapEndian16(word) else word
  }

  /** Whatever the byte orders of the two hosts, both agree on the bytes and the reader gets the writer's word. */
  lemma CrossHost64(writer: Host, reader: Host, w: bv64, isLittleEndian: bool)
    ensures
      var sent := InMemory(writer, Bytes64(if isLittleEndian != writer.LittleEndianHost? then SwapEndian64(w) else w));
      sent == Ordered(isLittleEndian, Bytes64(w)) && Loaded64(reader, sent, isLittleEndian) == w
  {
    SwapIsReversal(w, 0, 0);
    SwapOnDemand(writer, isLittleEndian, Bytes64(w));
    SwapOnDemand(reader, isLittleEndian, Bytes64(w));
    var loaded := Load64(reader, Ordered(isLittleEndian, Bytes64(w)));
    SwapIsReversal(loaded, 0, 0);
    Word64Inverse(w, InMemory(reader, Ordered(isLittleEndian, Bytes64(w))));
    Word64Inverse(SwapEndian64(loaded), Bytes64(w));
  }

  lemma CrossHost32(writer: Host, reader: Host, w: bv32, isLittleEndian: bool)
    ensures
      var sent := InMemory(writer, Bytes32(if isLittleEndian != writer.LittleEndianHost? then SwapEndian32(w) else w));
      sent == Ordered(isLittleEndian, Bytes32(w)) && Loaded32(reader, sent, isLittleEndian) == w
  {
    SwapIsReversal(0, w, 0);
    SwapOnDemand(writer, isLittleEndian, Bytes32(w));
    SwapOnDemand(reader, isLittleEndian, Bytes32(w));
    var loaded := Word32(InMemory(reader, Ordered(isLittleEndian, Bytes32(w))));
    SwapIsReversal(0, loaded, 0);
    Word32Inverse(w, InMemory(reader, Ordered(isLittleEndian, Bytes32(w))));
    Word32Inverse(SwapEndian32(loaded), Bytes32(w));
  }

  lemma CrossHost16(writer: Host, reader: Host, w: bv16, isLittleEndian: bool)
    ensures
      var sent := InMemory(writer, Bytes16(if isLittleEndian != writer.LittleEndianHost? then SwapEndian16(w) else w));
      sent == Ordered(isLittleEndian, Bytes16(w)) && Loaded16(reader, sent, isLittleEndian) == w
  {
    SwapIsReversal(0, 0, w);
    SwapOnDemand(writer, isLittleEndian, Bytes16(w));
    SwapOnDemand(reader, isLittleEndian, Bytes16(w));
    var loaded := Word16(InMemory(reader, Ordered(isLittleEndian, Bytes16(w))));
    SwapIsReversal(0, 0, loaded);
    Word16Inverse(w, InMemory(reader, Ordered(isLittleEndian, Bytes16(w))));
    Word16Inverse(SwapEndian16(loaded), Bytes16(w));
  }
}
