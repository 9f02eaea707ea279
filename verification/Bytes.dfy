/** Bytes, numbers as little-endian byte strings, and the growable byte vector every C++ layer writes into. */
module Bytes {

  newtype byte = x: int | 0 <= x < 256

  datatype Option<+T> = None | Some(value: T)

  ghost function Pow256(k: nat): (p: nat)
    ensures p > 0
  {
    if k == 0 then 1 else 256 * Pow256(k - 1)
  }

  /** The k low-order bytes of n, least significant first. Higher bytes are dropped, as a narrowing cast drops them. */
  function ToLE(n: nat, k: nat): (b: seq<byte>)
    ensures |b| == k
  {
    if k == 0 then [] else [(n % 256) as byte] + ToLE(n / 256, k - 1)
  }

  function FromLE(b: seq<byte>): nat
  {
    if b == [] then 0 else b[0] as int + 256 * FromLE(b[1..])
  }

  lemma {:induction false} FromLEBound(b: seq<byte>)
    ensures FromLE(b) < Pow256(|b|)
  {
    if b != [] {
      FromLEBound(b[1..]);
    }
  }

  /** Numbers that fit the width survive the trip to bytes and back. */
  lemma {:induction false} FromLEToLE(n: nat, k: nat)
    requires n < Pow256(k)
    ensures FromLE(ToLE(n, k)) == n
  {
    if k > 0 {
      FromLEToLE(n / 256, k - 1);
      var b := ToLE(n, k);
      assert b[0] as int == n % 256 && b[1..] == ToLE(n / 256, k - 1);
    }
  }

  lemma {:induction false} ToLEFromLE(b: seq<byte>)
    ensures ToLE(FromLE(b), |b|) == b
  {
    if b != [] {
      var n, m := FromLE(b), FromLE(b[1..]);
      assert n == b[0] as int + 256 * m;
      assert n / 256 == m && n % 256 == b[0] as int;
      ToLEFromLE(b[1..]);
    }
  }

  lemma Pow256Values()
    ensures Pow256(0) == 1 && Pow256(1) == 0x100 && Pow256(2) == 0x1_0000 && Pow256(3) == 0x100_0000
    ensures Pow256(4) == 0x1_0000_0000 && Pow256(5) == 0x100_0000_0000 && Pow256(6) == 0x1_0000_0000_0000
    ensures Pow256(7) == 0x100_0000_0000_0000 && Pow256(8) == 0x1_0000_0000_0000_0000
  {
    assert Pow256(3) == 256 * Pow256(2);
    assert Pow256(5) == 256 * Pow256(4);
    assert Pow256(6) == 256 * Pow256(5);
    assert Pow256(7) == 256 * Pow256(6);
  }

  /** Byte j of a number is its digit of weight 256^j: the least significant byte comes first. */
  lemma {:induction false} ToLEByte(n: nat, k: nat, j: nat)
    requires j < k
    ensures ToLE(n, k)[j] as int == n / Pow256(j) % 256
  {
    if j > 0 {
      ToLEByte(n / 256, k - 1, j - 1);
      DivideTwice(n, Pow256(j - 1));
    }
  }

  lemma AtLeastOnce(x: int, b: nat)
    requires x > 0
    ensures x * b >= b
  {
    assert x * b == (x - 1) * b + b;
  }

  /** A quotient is determined by its remainder's bounds. */
  lemma QuotientIs(n: int, b: nat, q: int, r: int)
    requires n == q * b + r && 0 <= r < b
    ensures n / b == q
  {
    var p, s := n / b, n % b;
    assert (p - q) * b == r - s;
    if p > q {
      AtLeastOnce(p - q, b);
    } else if p < q {
      AtLeastOnce(q - p, b);
    }
  }

  lemma DivideTwice(n: int, b: nat)
    requires b > 0
    ensures n / 256 / b == n / (256 * b)
  {
    var q, r := n / (256 * b), n % (256 * b);
    var x := q * b;
    assert n == 256 * x + r;
    QuotientIs(n / 256, b, q, r / 256);
  }

  /** A number that fits k bytes has 0 for the next. */
  lemma {:induction false} NextByteIsZero(n: nat, k: nat)
    requires n < Pow256(k)
    ensures ToLE(n, k + 1) == ToLE(n, k) + [0]
  {
    if k > 0 {
      NextByteIsZero(n / 256, k - 1);
    } else {
      assert ToLE(0, 1) == [0] + ToLE(0, 0);
    }
  }

  /** The sum of the first k bytes, byte j weighing 256^j. */
  ghost function Weighed(b: seq<byte>, k: nat): nat
    requires k <= |b|
  {
    if k == 0 then 0 else Weighed(b, k - 1) + b[k - 1] as int * Pow256(k - 1)
  }

  lemma {:induction false} WeighedShift(b: seq<byte>, k: nat)
    requires 0 < k <= |b|
    ensures Weighed(b, k) == b[0] as int + 256 * Weighed(b[1..], k - 1)
  {
    if k == 1 {
      assert Weighed(b, 1) == Weighed(b, 0) + b[0] as int * Pow256(0);
    } else {
      WeighedShift(b, k - 1);
      assert b[1..][k - 2] == b[k - 1];
      assert b[k - 1] as int * Pow256(k - 1) == 256 * (b[k - 1] as int * Pow256(k - 2));
    }
  }

  lemma TimesAtMost(x: nat, y: nat, b: nat)
    requires x <= y
    ensures x * b <= y * b
  {
    assert (y - x) * b == y * b - x * b;
  }

  lemma {:induction false} WeighedBound(b: seq<byte>, k: nat)
    requires k <= |b|
    ensures Weighed(b, k) < Pow256(k)
  {
    if k > 0 {
      WeighedBound(b, k - 1);
      TimesAtMost(b[k - 1] as int, 255, Pow256(k - 1));
    }
  }

  /** Reading bytes weighs byte j by 256^j. */
  lemma {:induction false} FromLEWeighs(b: seq<byte>)
    ensures FromLE(b) == Weighed(b, |b|)
  {
    if b != [] {
      FromLEWeighs(b[1..]);
      WeighedShift(b, |b|);
    }
  }

  /** std::vector::resize on bytes: keeps a prefix, or appends zeros. */
  function Resized(b: seq<byte>, n: nat): (r: seq<byte>)
    ensures |r| == n
  {
    if n <= |b| then b[..n] else b + seq(n - |b|, _ => 0)
  }

  /** Copying `src` over the bytes of `b` that start at `off`. */
  function Overwritten(b: seq<byte>, off: nat, src: seq<byte>): (r: seq<byte>)
    requires off + |src| <= |b|
    ensures |r| == |b|
    ensures r[..off] == b[..off] && r[off..off + |src|] == src && r[off + |src|..] == b[off + |src|..]
  {
    b[..off] + src + b[off + |src|..]
  }

  lemma Assoc<T>(a: seq<T>, b: seq<T>, c: seq<T>)
    ensures a + b + c == a + (b + c)
  {
  }

  function Concat(parts: seq<seq<byte>>): seq<byte>
  {
    if parts == [] then [] else parts[0] + Concat(parts[1..])
  }

  /** The reads or datagrams before the first empty one. */
  function BeforeEmpty(parts: seq<seq<byte>>): (r: seq<seq<byte>>)
    ensures r <= parts && [] !in r
    ensures r == parts <==> [] !in parts
  {
    if parts == [] || parts[0] == [] then [] else [parts[0]] + BeforeEmpty(parts[1..])
  }

  lemma {:induction false} ConcatAppend(a: seq<seq<byte>>, b: seq<seq<byte>>)
    ensures Concat(a + b) == Concat(a) + Concat(b)
  {
    if a == [] {
      assert a + b == b;
    } else {
      assert (a + b)[1..] == a[1..] + b;
      ConcatAppend(a[1..], b);
    }
  }

  lemma ConcatLast(a: seq<seq<byte>>, b: seq<byte>)
    ensures Concat(a + [b]) == Concat(a) + b
  {
    ConcatAppend(a, [b]);
  }

  /** A std::vector<uint8_t> shared by reference between the layers. */
  class ByteVector {
    var data: seq<byte>

    constructor (initial: seq<byte>)
      ensures data == initial
    {
      data := initial;
    }

    method Resize(n: nat)
      modifies this
      ensures data == Resized(old(data), n)
    {
      data := Resized(data, n);
    }

    /** memcpy into the vector's storage; writing past the end is not possible. */
    method Store(off: nat, src: seq<byte>)
      requires off + |src| <= |data|
      modifies this
      ensures data == Overwritten(old(data), off, src)
    {
      data := Overwritten(data, off, src);
    }
  }
}
