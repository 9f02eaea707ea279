/**
 The wire format by itself: which bytes are the encoding of which value, said of the bytes and the value alone, and that
 the encoders write exactly these and the decoders read exactly these.
 */
module WireFormat {
  import opened Bytes
  import opened ByteOrder
  import opened Codec
  import opened CodecLaws

  // ---- the format ----

  /** The letter of a value's type on the wire, where strings are narrow. */
  function WireLetter(v: Value): char {
    match v
    case Int(_) => 'i'
    case UInt(_) => 'u'
    case Double(_) => 'd'
    case Text(_) => 's'
    case Wide(_) => 's'
    case Ints(_) => 'I'
    case UInts(_) => 'U'
    case Doubles(_) => 'D'
    case Texts(_) => 'S'
    case Wides(_) => 'S'
  }

  /** The type letters under which an implementation takes a value: C++ tells wide strings from narrow ones. */
  predicate UnderLetter(d: Dialect, t: char, v: Value) {
    match v
    case Text(_) => t == 's' || (d.Go? && t == 'w')
    case Texts(_) => t == 'S' || (d.Go? && t == 'W')
    case Wide(_) => d.Cpp? && t == 'w'
    case Wides(_) => d.Cpp? && t == 'W'
    case _ => t == WireLetter(v)
  }

  /** A number of 65536 is written by C++ with no elements behind it. */
  function Carried(d: Dialect, n: nat): nat {
    if d.Cpp? && n == 65536 then 0 else n
  }

  /** A text behind its length. */
  ghost predicate IsBlock(text: Option<seq<byte>>, b: seq<byte>) {
    text.Some? && |b| == 2 + |text.value| && Holds(b, 0, 2, |text.value|, true) && b[2..] == text.value
  }

  ghost predicate IsBlocks(texts: seq<Option<seq<byte>>>, b: seq<byte>) {
    if texts == [] then b == [] else
      texts[0].Some? &&
      var n := 2 + |texts[0].value|;
      n <= |b| && IsBlock(texts[0], b[..n]) && IsBlocks(texts[1..], b[n..])
  }

  function Narrowed(conv: Converter, ws: seq<string>): (r: seq<Option<seq<byte>>>)
    ensures |r| == |ws|
  {
    seq(|ws|, k requires 0 <= k < |ws| => conv.toBytes(ws[k]))
  }

  /** Element k of an array of numbers is these eight bytes. */
  ghost predicate IsElement(v: Value, k: nat, b: seq<byte>) {
    |b| == 8 &&
    match v
    case Ints(ns) => k < |ns| && Holds(b, 0, 8, ns[k], true)
    case UInts(us) => k < |us| && Holds(b, 0, 8, us[k], true)
    case Doubles(ds) => k < |ds| && b == Bytes64(ds[k])
    case _ => false
  }

  /** A count and that many elements. */
  ghost predicate IsArray(d: Dialect, v: Value, count: nat, b: seq<byte>) {
    && |b| == 2 + 8 * Carried(d, count) && Holds(b, 0, 2, count, true)
    && forall k :: 0 <= k < Carried(d, count) ==> IsElement(v, k, b[2 + 8 * k..10 + 8 * k])
  }

  /** `b` is the encoding of a value of known type. */
  ghost predicate IsBody(d: Dialect, conv: Converter, v: Value, b: seq<byte>) {
    match v
    case Int(i) => |b| == 8 && Holds(b, 0, 8, i, true)
    case UInt(u) => |b| == 8 && Holds(b, 0, 8, u, true)
    case Double(w) => b == Bytes64(w)
    case Text(s) => IsBlock(Some(s), b)
    case Wide(w) => IsBlock(conv.toBytes(w), b)
    case Ints(ns) => IsArray(d, v, |ns|, b)
    case UInts(us) => IsArray(d, v, |us|, b)
    case Doubles(ds) => IsArray(d, v, |ds|, b)
    case Texts(ss) => |b| >= 2 && Holds(b, 0, 2, |ss|, true) && IsBlocks(Options(ss)[..Carried(d, |ss|)], b[2..])
    case Wides(ws) => |b| >= 2 && Holds(b, 0, 2, |ws|, true) && IsBlocks(Narrowed(conv, ws)[..Carried(d, |ws|)], b[2..])
  }

  /** Under 'v' the letter comes first, as its ASCII code. */
  ghost predicate IsItem(d: Dialect, conv: Converter, t: char, v: Value, e: seq<byte>) {
    if t == 'v' then |e| > 0 && e[0] as int == WireLetter(v) as int && IsBody(d, conv, v, e[1..]) else IsBody(d, conv, v, e)
  }

  predicate TextSendable(d: Dialect, t: Option<seq<byte>>) {
    t.Some? && (|t.value| < 65536 || (d.Go? && |t.value| == 65536))
  }

  predicate AllSendable(d: Dialect, texts: seq<Option<seq<byte>>>) {
    forall k :: 0 <= k < |texts| ==> TextSendable(d, texts[k])
  }

  /** The limits on counts and lengths, and texts that can be converted. */
  predicate SizesFit(d: Dialect, conv: Converter, v: Value) {
    match v
    case Text(s) => TextSendable(d, Some(s))
    case Wide(w) => TextSendable(d, conv.toBytes(w))
    case Ints(ns) => |ns| <= 65536
    case UInts(us) => |us| <= 65536
    case Doubles(ds) => |ds| <= 65536
    case Texts(ss) => |ss| <= 65536 && AllSendable(d, Options(ss)[..Carried(d, |ss|)])
    case Wides(ws) => |ws| <= 65536 && AllSendable(d, Narrowed(conv, ws)[..Carried(d, |ws|)])
    case _ => true
  }

  /** What an encoder takes under a type letter or 'v'. */
  predicate Sendable(d: Dialect, conv: Converter, t: char, v: Value) {
    && (if t == 'v' then d.Cpp? || (!v.Wide? && !v.Wides?) else UnderLetter(d, t, v))
    && SizesFit(d, conv, v)
  }

  // ---- numbers and their digits ----

  lemma SameBytes(b: seq<byte>, c: seq<byte>)
    requires |b| == |c| && forall k :: 0 <= k < |b| ==> b[k] as int == c[k] as int
    ensures b == c
  {
  }

  /** In little-endian order the digits of a number are these bytes and no others. */
  lemma DigitsAre(b: seq<byte>, off: nat, n: int, le: seq<byte>)
    requires off + |le| <= |b| && forall k :: 0 <= k < |le| ==> le[k] as int == Digit(n, k)
    ensures Holds(b, off, |le|, n, true) <==> b[off..off + |le|] == le
  {
    if Holds(b, off, |le|, n, true) {
      SameBytes(b[off..off + |le|], le);
    }
  }

  lemma CountIs(b: seq<byte>, n: nat)
    requires |b| >= 2
    ensures Holds(b, 0, 2, n, true) <==> b[..2] == ToLE(n, 2)
  {
    UnsignedDigits(n, 2);
    DigitsAre(b, 0, n, ToLE(n, 2));
  }

  lemma SignedIs(b: seq<byte>, off: nat, i: Int64)
    requires off + 8 <= |b|
    ensures Holds(b, off, 8, i, true) <==> b[off..off + 8] == IntBytes(i)
  {
    SignedDigits(i);
    DigitsAre(b, off, i, IntBytes(i));
  }

  lemma UnsignedIs(b: seq<byte>, off: nat, u: UInt64)
    requires off + 8 <= |b|
    ensures Holds(b, off, 8, u, true) <==> b[off..off + 8] == ToLE(u, 8)
  {
    UnsignedDigits(u, 8);
    DigitsAre(b, off, u, ToLE(u, 8));
  }

  // ---- arrays of words ----

  ghost predicate IsWords(ws: seq<Word8>, b: seq<byte>) {
    |b| == 8 * |ws| && forall k :: 0 <= k < |ws| ==> b[8 * k..8 * k + 8] == ws[k]
  }

  lemma WordsShift(ws: seq<Word8>, b: seq<byte>)
    requires ws != [] && |b| == 8 * |ws|
    ensures IsWords(ws, b) <==> b[..8] == ws[0] && IsWords(ws[1..], b[8..])
  {
    var c := b[8..];
    assert forall k :: 0 <= k < |ws| - 1 ==> c[8 * k..8 * k + 8] == b[8 * (k + 1)..8 * (k + 1) + 8];
    if b[..8] == ws[0] && IsWords(ws[1..], c) {
      forall k | 0 <= k < |ws|
        ensures b[8 * k..8 * k + 8] == ws[k]
      {
        if k > 0 {
          assert c[8 * (k - 1)..8 * (k - 1) + 8] == ws[1..][k - 1];
        }
      }
    }
    if IsWords(ws, b) {
      assert b[8 * 0..8 * 0 + 8] == ws[0];
      forall k | 0 <= k < |ws| - 1
        ensures c[8 * k..8 * k + 8] == ws[1..][k]
      {
        assert b[8 * (k + 1)..8 * (k + 1) + 8] == ws[k + 1];
      }
    }
  }

  lemma {:induction false} WordsAre(ws: seq<Word8>, b: seq<byte>)
    ensures IsWords(ws, b) <==> b == Concat(ws)
  {
    WordsLength(ws);
    if ws != [] && |b| == 8 * |ws| {
      WordsShift(ws, b);
      WordsAre(ws[1..], b[8..]);
      assert b == b[..8] + b[8..];
    }
  }

  // ---- texts ----

  lemma BlockIs(d: Dialect, t: Option<seq<byte>>, b: seq<byte>)
    ensures TextBlock(d, t) == Ok(b) <==> TextSendable(d, t) && IsBlock(t, b)
  {
    if t.Some? && |b| >= 2 {
      CountIs(b, |t.value|);
      assert b == b[..2] + b[2..];
    }
  }

  lemma AllButFirst(d: Dialect, texts: seq<Option<seq<byte>>>)
    requires texts != []
    ensures AllSendable(d, texts) <==> TextSendable(d, texts[0]) && AllSendable(d, texts[1..])
  {
    if TextSendable(d, texts[0]) && AllSendable(d, texts[1..]) {
      forall k | 0 <= k < |texts|
        ensures TextSendable(d, texts[k])
      {
        if k > 0 {
          assert texts[k] == texts[1..][k - 1];
        }
      }
    }
  }

  lemma {:induction false} BlocksAre(d: Dialect, texts: seq<Option<seq<byte>>>, b: seq<byte>)
    ensures TextBlocks(d, texts) == Ok(b) <==> AllSendable(d, texts) && IsBlocks(texts, b)
  {
    if texts != [] {
      AllButFirst(d, texts);
      if texts[0].Some? {
        var n := 2 + |texts[0].value|;
        if n <= |b| {
          BlockIs(d, texts[0], b[..n]);
          BlocksAre(d, texts[1..], b[n..]);
          assert b == b[..n] + b[n..];
        }
        FirstBlockIs(d, texts, b);
      }
    }
  }

  /** Blocks that have been written begin with the first one. */
  lemma FirstBlockIs(d: Dialect, texts: seq<Option<seq<byte>>>, b: seq<byte>)
    requires texts != [] && texts[0].Some?
    ensures var n := 2 + |texts[0].value|;
      TextBlocks(d, texts) == Ok(b)
      ==> n <= |b| && TextBlock(d, texts[0]) == Ok(b[..n]) && TextBlocks(d, texts[1..]) == Ok(b[n..])
  {
  }

  // ---- the encoders write the format ----

  lemma CarriedIsKept<T>(d: Dialect, s: seq<T>)
    requires |s| <= 65536
    ensures s[..Carried(d, |s|)] == Kept(d, s)
  {
    KeepsAll(d, s);
  }

  /** A body is a count and what it counts. */
  lemma Counted(n: nat, rest: seq<byte>, b: seq<byte>)
    ensures b == ToLE(n, 2) + rest <==> |b| >= 2 && Holds(b, 0, 2, n, true) && b[2..] == rest
  {
    if |b| >= 2 {
      CountIs(b, n);
      assert b == b[..2] + b[2..];
    }
  }

  lemma VectorIs(d: Dialect, ws: seq<Word8>, b: seq<byte>)
    ensures Body(d, Vector(ws)) == Ok(b) <==>
            |ws| <= 65536 && |b| >= 2 && Holds(b, 0, 2, |ws|, true) && IsWords(ws[..Carried(d, |ws|)], b[2..])
  {
    if |ws| <= 65536 {
      CarriedIsKept(d, ws);
      Counted(|ws|, Concat(Kept(d, ws)), b);
      if |b| >= 2 {
        WordsAre(Kept(d, ws), b[2..]);
      }
    }
  }

  lemma ManyIs(d: Dialect, texts: seq<Option<seq<byte>>>, b: seq<byte>)
    ensures Body(d, Many(texts)) == Ok(b) <==>
            |texts| <= 65536 && AllSendable(d, texts[..Carried(d, |texts|)])
            && |b| >= 2 && Holds(b, 0, 2, |texts|, true) && IsBlocks(texts[..Carried(d, |texts|)], b[2..])
  {
    if |texts| <= 65536 {
      CarriedIsKept(d, texts);
      var blocks := TextBlocks(d, Kept(d, texts));
      if blocks.Ok? {
        Counted(|texts|, blocks.value, b);
        BlocksAre(d, Kept(d, texts), blocks.value);
      }
      if |b| >= 2 {
        BlocksAre(d, Kept(d, texts), b[2..]);
      }
    }
  }

  lemma WordAt(b: seq<byte>, k: nat)
    requires 10 + 8 * k <= |b|
    ensures b[2..][8 * k..8 * k + 8] == b[2 + 8 * k..10 + 8 * k]
  {
  }

  lemma ElementIs(conv: Converter, v: Value, k: nat, b: seq<byte>)
    requires ContentOf(conv, v).Vector? && k < |ContentOf(conv, v).words| && |b| == 8
    ensures IsElement(v, k, b) <==> b == ContentOf(conv, v).words[k]
  {
    assert b[0..8] == b;
    if v.Ints? {
      SignedIs(b, 0, v.ns[k]);
    } else if v.UInts? {
      UnsignedIs(b, 0, v.us[k]);
    }
  }

  /** The words of an array, one by one, against what the format says of its numbers. */
  lemma NumbersAre(d: Dialect, conv: Converter, v: Value, b: seq<byte>)
    requires ContentOf(conv, v).Vector?
    ensures var ws := ContentOf(conv, v).words;
      |b| >= 2 && Holds(b, 0, 2, |ws|, true) && IsWords(ws[..Carried(d, |ws|)], b[2..]) <==> IsArray(d, v, |ws|, b)
  {
    var ws := ContentOf(conv, v).words;
    var n := Carried(d, |ws|);
    if |b| == 2 + 8 * n {
      forall k | 0 <= k < n
        ensures b[2..][8 * k..8 * k + 8] == b[2 + 8 * k..10 + 8 * k]
        ensures IsElement(v, k, b[2 + 8 * k..10 + 8 * k]) <==> b[2 + 8 * k..10 + 8 * k] == ws[k]
      {
        WordAt(b, k);
        ElementIs(conv, v, k, b[2 + 8 * k..10 + 8 * k]);
      }
      if IsWords(ws[..n], b[2..]) {
        forall k | 0 <= k < n
          ensures IsElement(v, k, b[2 + 8 * k..10 + 8 * k])
        {
          assert b[2..][8 * k..8 * k + 8] == ws[..n][k];
        }
      }
      if forall k :: 0 <= k < n ==> IsElement(v, k, b[2 + 8 * k..10 + 8 * k]) {
        forall k | 0 <= k < n
          ensures b[2..][8 * k..8 * k + 8] == ws[..n][k]
        {
          assert IsElement(v, k, b[2 + 8 * k..10 + 8 * k]);
        }
      }
    }
  }

  lemma ScalarIs(d: Dialect, conv: Converter, v: Value, b: seq<byte>)
    requires v.Int? || v.UInt? || v.Double?
    ensures Body(d, ContentOf(conv, v)) == Ok(b) <==> IsBody(d, conv, v, b)
  {
    if |b| == 8 {
      assert b[0..8] == b;
      if v.Int? {
        SignedIs(b, 0, v.i);
      } else if v.UInt? {
        UnsignedIs(b, 0, v.u);
      }
    }
  }

  lemma BodyIs(d: Dialect, conv: Converter, v: Value, b: seq<byte>)
    ensures Body(d, ContentOf(conv, v)) == Ok(b) <==> SizesFit(d, conv, v) && IsBody(d, conv, v, b)
  {
    match ContentOf(conv, v)
    case Scalar(_) => ScalarIs(d, conv, v, b);
    case Vector(ws) =>
      VectorIs(d, ws, b);
      NumbersAre(d, conv, v, b);
    case One(t) => BlockIs(d, t, b);
    case Many(texts) =>
      assert v.Texts? ==> texts == Options(v.ss);
      assert v.Wides? ==> texts == Narrowed(conv, v.ws);
      ManyIs(d, texts, b);
  }

  lemma LettersAre(d: Dialect, t: char, v: Value)
    ensures Narrow(Letter(v)) == WireLetter(v) && Tag(WireLetter(v)) as int == WireLetter(v) as int
    ensures IsLetter(t) && Accepts(d, t, v) <==> UnderLetter(d, t, v)
    ensures !UnderLetter(d, 'v', v)
  {
  }

  /** The encoders write the format: these bytes for the values they take, and none for any other. */
  lemma EncodedExactly(d: Dialect, conv: Converter, t: char, v: Value, e: seq<byte>)
    ensures EncodeItem(d, conv, t, v) == Ok(e) <==> Sendable(d, conv, t, v) && IsItem(d, conv, t, v, e)
  {
    LettersAre(d, t, v);
    if t == 'v' {
      if e != [] {
        BodyIs(d, conv, v, e[1..]);
        assert e == [e[0]] + e[1..];
      }
    } else {
      BodyIs(d, conv, v, e);
    }
  }

  // ---- lists ----

  /** Item after item, in the order of the signature, with nothing in between. */
  ghost predicate IsList(d: Dialect, conv: Converter, sig: string, vals: seq<Value>, e: seq<byte>)
    requires |sig| == |vals|
  {
    if sig == [] then e == [] else
      exists n :: 0 <= n <= |e| && IsFirst(d, conv, sig[0], vals[0], e, n) && IsList(d, conv, sig[1..], vals[1..], e[n..])
  }

  /** The first n bytes are the item's. */
  ghost predicate IsFirst(d: Dialect, conv: Converter, t: char, v: Value, e: seq<byte>, n: nat)
    requires n <= |e|
  {
    Sendable(d, conv, t, v) && IsItem(d, conv, t, v, e[..n])
  }

  lemma FirstOfList(d: Dialect, conv: Converter, sig: string, vals: seq<Value>, e: seq<byte>) returns (n: nat)
    requires |sig| == |vals| > 0 && Encode(d, conv, sig, vals) == Ok(e)
    ensures n <= |e| && EncodeItem(d, conv, sig[0], vals[0]) == Ok(e[..n]) && Encode(d, conv, sig[1..], vals[1..]) == Ok(e[n..])
  {
    n := |EncodeItem(d, conv, sig[0], vals[0]).value|;
  }

  lemma ListOfTwo(d: Dialect, conv: Converter, sig: string, vals: seq<Value>, e: seq<byte>, n: nat)
    requires |sig| == |vals| > 0 && n <= |e|
    requires EncodeItem(d, conv, sig[0], vals[0]) == Ok(e[..n]) && Encode(d, conv, sig[1..], vals[1..]) == Ok(e[n..])
    ensures Encode(d, conv, sig, vals) == Ok(e)
  {
    assert e == e[..n] + e[n..];
  }

  lemma {:induction false} ListWritten(d: Dialect, conv: Converter, sig: string, vals: seq<Value>, e: seq<byte>)
    requires |sig| == |vals| && Encode(d, conv, sig, vals) == Ok(e)
    ensures IsList(d, conv, sig, vals, e)
  {
    if sig != [] {
      var n := FirstOfList(d, conv, sig, vals, e);
      EncodedExactly(d, conv, sig[0], vals[0], e[..n]);
      ListWritten(d, conv, sig[1..], vals[1..], e[n..]);
      assert IsFirst(d, conv, sig[0], vals[0], e, n);
    }
  }

  lemma {:induction false} ListIsWritten(d: Dialect, conv: Converter, sig: string, vals: seq<Value>, e: seq<byte>)
    requires |sig| == |vals| && IsList(d, conv, sig, vals, e)
    ensures Encode(d, conv, sig, vals) == Ok(e)
  {
    if sig != [] {
      var n :| 0 <= n <= |e| && IsFirst(d, conv, sig[0], vals[0], e, n) && IsList(d, conv, sig[1..], vals[1..], e[n..]);
      EncodedExactly(d, conv, sig[0], vals[0], e[..n]);
      ListIsWritten(d, conv, sig[1..], vals[1..], e[n..]);
      ListOfTwo(d, conv, sig, vals, e, n);
    }
  }

  /** And so for lists: these bytes for the lists they take, and none for any other. */
  lemma ListEncodedExactly(d: Dialect, conv: Converter, sig: string, vals: seq<Value>, e: seq<byte>)
    requires |sig| == |vals|
    ensures Encode(d, conv, sig, vals) == Ok(e) <==> IsList(d, conv, sig, vals, e)
  {
    if Encode(d, conv, sig, vals) == Ok(e) {
      ListWritten(d, conv, sig, vals, e);
    }
    if IsList(d, conv, sig, vals, e) {
      ListIsWritten(d, conv, sig, vals, e);
    }
  }

  // ---- what is refused, and why ----

  /** Why a text is not taken. */
  function TextFault(t: Option<seq<byte>>): Fault {
    if t.None? then BadText else if |t.value| > 65536 then TooLong else Overrun
  }

  /** Text k is the first that is not taken. */
  predicate FirstUnsendable(d: Dialect, texts: seq<Option<seq<byte>>>, k: nat) {
    k < |texts| && AllSendable(d, texts[..k]) && !TextSendable(d, texts[k])
  }

  lemma {:induction false} BlocksFault(d: Dialect, texts: seq<Option<seq<byte>>>) returns (k: nat)
    requires TextBlocks(d, texts).Err?
    ensures FirstUnsendable(d, texts, k) && TextBlocks(d, texts) == Err(TextFault(texts[k]))
  {
    if TextBlock(d, texts[0]).Err? {
      k := 0;
    } else {
      var j := BlocksFault(d, texts[1..]);
      k := j + 1;
      assert texts[..k][1..] == texts[1..][..j];
      AllButFirst(d, texts[..k]);
    }
  }

  /** The texts of a value as the encoder meets them. */
  function TextsSent(d: Dialect, conv: Converter, v: Value): seq<Option<seq<byte>>> {
    match v
    case Text(s) => [Some(s)]
    case Wide(w) => [conv.toBytes(w)]
    case Texts(ss) => Options(ss)[..Carried(d, |ss|)]
    case Wides(ws) => Narrowed(conv, ws)[..Carried(d, |ws|)]
    case _ => []
  }

  /** How many elements an array has. */
  function Size(v: Value): nat {
    match v
    case Ints(ns) => |ns|
    case UInts(us) => |us|
    case Doubles(ds) => |ds|
    case Texts(ss) => |ss|
    case Wides(ws) => |ws|
    case _ => 0
  }

  /**
   Why a value is not taken: no such type, or one that a variant cannot hold; another type than the value's; too many
   elements; or the fault of the first text that is not taken.
   */
  lemma RefusedExactly(d: Dialect, conv: Converter, t: char, v: Value)
    requires EncodeItem(d, conv, t, v).Err?
    ensures var f := EncodeItem(d, conv, t, v).fault;
      && (f == BadType <==> if t == 'v' then d.Go? && (v.Wide? || v.Wides?) else t !in "iudswIUDSW")
      && (f == Mismatch <==> t in "iudswIUDSW" && !UnderLetter(d, t, v))
      && (f != BadType && f != Mismatch ==>
            if Size(v) > 65536 then f == TooLong
            else exists k: nat :: FirstUnsendable(d, TextsSent(d, conv, v), k) && f == TextFault(TextsSent(d, conv, v)[k]))
  {
    LettersAre(d, t, v);
    var body := Body(d, ContentOf(conv, v));
    match ContentOf(conv, v)
    case One(text) =>
      if body.Err? {
        assert FirstUnsendable(d, TextsSent(d, conv, v), 0);
      }
    case Many(texts) =>
      assert v.Texts? ==> texts == Options(v.ss);
      assert v.Wides? ==> texts == Narrowed(conv, v.ws);
      if body.Err? && |texts| <= 65536 {
        CarriedIsKept(d, texts);
        var k := BlocksFault(d, Kept(d, texts));
        assert TextsSent(d, conv, v) == Kept(d, texts);
      }
    case _ =>
  }

  /** Of a list the first item that is not taken decides. */
  lemma {:induction false} ListRefusedExactly(d: Dialect, conv: Converter, sig: string, vals: seq<Value>)
    requires |sig| == |vals| && Encode(d, conv, sig, vals).Err?
    ensures exists k :: 0 <= k < |sig| && FirstRefused(d, conv, sig, vals, k)
  {
    if EncodeItem(d, conv, sig[0], vals[0]).Err? {
      assert FirstRefused(d, conv, sig, vals, 0);
    } else {
      ListRefusedExactly(d, conv, sig[1..], vals[1..]);
      var j :| 0 <= j < |sig| - 1 && FirstRefused(d, conv, sig[1..], vals[1..], j);
      forall i | 0 <= i < j + 1
        ensures EncodeItem(d, conv, sig[i], vals[i]).Ok?
      {
        if i > 0 {
          assert EncodeItem(d, conv, sig[1..][i - 1], vals[1..][i - 1]).Ok?;
        }
      }
      assert FirstRefused(d, conv, sig, vals, j + 1);
    }
  }

  predicate FirstRefused(d: Dialect, conv: Converter, sig: string, vals: seq<Value>, k: nat)
    requires k < |sig| == |vals|
  {
    && (forall i :: 0 <= i < k ==> EncodeItem(d, conv, sig[i], vals[i]).Ok?)
    && EncodeItem(d, conv, sig[k], vals[k]).Err?
    && Encode(d, conv, sig, vals) == Err(EncodeItem(d, conv, sig[k], vals[k]).fault)
  }
}
