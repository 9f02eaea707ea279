/** The four-byte header in front of every body: an identifier and a length packed into one uint32. */
module Frames {
  import opened Bytes

  const LENGTH_SPAN := 16777216

  /** id * 16777216 + len in uint32 arithmetic, least significant byte first. */
  function Header(id: nat, len: nat): (h: seq<byte>)
    ensures |h| == 4
  {
    ToLE(id * LENGTH_SPAN + len, 4)
  }

  function HeaderId(h: seq<byte>): nat {
    FromLE(h) / LENGTH_SPAN
  }

  function HeaderLength(h: seq<byte>): (n: nat)
    ensures n < LENGTH_SPAN
  {
    FromLE(h) % LENGTH_SPAN
  }

  function Frame(id: nat, body: seq<byte>): seq<byte> {
    Header(id, |body|) + body
  }

  lemma HeaderRoundTrip(id: nat, len: nat)
    requires id < 256 && len < LENGTH_SPAN
    ensures HeaderId(Header(id, len)) == id && HeaderLength(Header(id, len)) == len
  {
    Pow256Values();
    FromLEToLE(id * LENGTH_SPAN + len, 4);
  }

  /** A number that does not fit the width comes back without its high bytes. */
  lemma {:induction false} HighBytesDropped(n: nat, k: nat, high: nat)
    requires n < Pow256(k)
    ensures ToLE(n + high * Pow256(k), k) == ToLE(n, k)
  {
    if k > 0 {
      var p := Pow256(k - 1);
      assert n + high * Pow256(k) == n + 256 * (high * p);
      assert (n + 256 * (high * p)) / 256 == n / 256 + high * p;
      HighBytesDropped(n / 256, k - 1, high);
    }
  }

  /**
   What a packed header reads back as, for any identifier and any length the senders accept. Of the lengths all survive
   but the largest: a body of exactly 16777216 bytes is announced as an empty body of the next procedure. Of the
   identifiers those below 256 do: call 256 reaches procedure 0.
   */
  lemma HeaderIsExact(id: nat, len: nat)
    requires len <= LENGTH_SPAN
    ensures HeaderId(Header(id, len)) == (if len < LENGTH_SPAN then id else id + 1) % 256
    ensures HeaderLength(Header(id, len)) == if len < LENGTH_SPAN then len else 0
    ensures HeaderId(Header(id, len)) == id && HeaderLength(Header(id, len)) == len <==> id < 256 && len < LENGTH_SPAN
  {
    Pow256Values();
    var (next, rest) := if len < LENGTH_SPAN then (id, len) else (id + 1, 0);
    var low, high := next % 256, next / 256;
    assert id * LENGTH_SPAN + len == low * LENGTH_SPAN + rest + high * Pow256(4);
    HighBytesDropped(low * LENGTH_SPAN + rest, 4, high);
    HeaderRoundTrip(low, rest);
  }

  lemma PackedDigits(id: nat, len: nat)
    requires len < LENGTH_SPAN
    ensures var n := id * LENGTH_SPAN + len;
      && n / 256 == id * 65536 + len / 256 && n / 65536 == id * 256 + len / 65536 && n / 16777216 == id
  {
  }

  /** The four bytes of a header: the length, least significant byte first, and then the identifier. */
  lemma HeaderBytes(id: nat, len: nat)
    requires len < LENGTH_SPAN
    ensures var h := Header(id, len);
      && h[0] as int == len % 256 && h[1] as int == len / 256 % 256 && h[2] as int == len / 65536 % 256
      && h[3] as int == id % 256
  {
    Pow256Values();
    var n := id * LENGTH_SPAN + len;
    ToLEByte(n, 4, 0);
    ToLEByte(n, 4, 1);
    ToLEByte(n, 4, 2);
    ToLEByte(n, 4, 3);
    PackedDigits(id, len);
    SameDigit(id * 65536, len);
    SameDigit(id * 256, len / 256);
    SameDigit(id, len / 65536);
  }

  lemma SameDigit(a: nat, b: nat)
    ensures (a * 256 + b) % 256 == b % 256
  {
  }
}
