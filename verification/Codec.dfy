/**
 The typed codec as a specification: which bytes each implementation writes for a value under a signature
 letter, and what each implementation makes of received bytes. `Dialect` selects the C++ or the Go code where
 the two differ.
 */
module Codec {
  import opened Bytes
  import opened ByteOrder

  datatype Dialect = Cpp | Go

  /** The alternatives of the C++ variant; Go has the same ones without the two wide-string kinds. */
  datatype Value =
    | Int(i: Int64)
    | UInt(u: UInt64)
    | Double(d: bv64)
    | Text(s: seq<byte>)
    | Wide(w: string)
    | Ints(ns: seq<Int64>)
    | UInts(us: seq<UInt64>)
    | Doubles(ds: seq<bv64>)
    | Texts(ss: seq<seq<byte>>)
    | Wides(ws: seq<string>)

  /** std::wstring_convert; None where it throws range_error. */
  datatype Converter = Converter(toBytes: string -> Option<seq<byte>>, fromBytes: seq<byte> -> Option<string>)
  {
    ghost predicate Lawful() {
      && (forall w :: toBytes(w).Some? ==> fromBytes(toBytes(w).value) == Some(w))
      && (forall b :: fromBytes(b).Some? ==> toBytes(fromBytes(b).value) == Some(b))
    }
  }

  /**
   Why a call gives up. BadText is an exception in the source; Overrun, a copy longer than the room made for it, and
   Overflow, an offset past the largest int, are where its behaviour stops being defined.
   */
  datatype Fault = Mismatch | TooLong | Overrun | Overflow | BadText | BadType | Incomplete

  datatype Result<+T> = Ok(value: T) | Err(fault: Fault)

  type Word8 = b: seq<byte> | |b| == 8 witness [0, 0, 0, 0, 0, 0, 0, 0]

  const MAX_COUNT := 65536

  // ---- signature letters ----

  predicate IsLetter(c: char) {
    IsScalar(c) || IsVector(c) || IsText(c) || IsTexts(c)
  }

  predicate IsScalar(c: char) {
    c == 'i' || c == 'u' || c == 'd'
  }

  predicate IsVector(c: char) {
    c == 'I' || c == 'U' || c == 'D'
  }

  predicate IsText(c: char) {
    c == 's' || c == 'w'
  }

  predicate IsTexts(c: char) {
    c == 'S' || c == 'W'
  }

  function Narrow(c: char): char {
    if c == 'w' then 's' else if c == 'W' then 'S' else c
  }

  function Letter(v: Value): (c: char)
    ensures IsLetter(c)
  {
    match v
    case Int(_) => 'i' case UInt(_) => 'u' case Double(_) => 'd' case Text(_) => 's' case Wide(_) => 'w'
    case Ints(_) => 'I' case UInts(_) => 'U' case Doubles(_) => 'D' case Texts(_) => 'S' case Wides(_) => 'W'
  }

  /** The ASCII code of a letter. */
  function Tag(c: char): byte
    requires IsLetter(c)
  {
    match c
    case 'i' => 0x69 case 'u' => 0x75 case 'd' => 0x64 case 's' => 0x73 case 'w' => 0x77
    case 'I' => 0x49 case 'U' => 0x55 case 'D' => 0x44 case 'S' => 0x53 case _ => 0x57
  }

  function LetterOf(b: byte): (c: Option<char>)
    ensures c.Some? ==> IsLetter(c.value) && Tag(c.value) == b
  {
    if b == 0x69 then Some('i') else if b == 0x75 then Some('u') else if b == 0x64 then Some('d')
    else if b == 0x73 then Some('s') else if b == 0x77 then Some('w')
    else if b == 0x49 then Some('I') else if b == 0x55 then Some('U') else if b == 0x44 then Some('D')
    else if b == 0x53 then Some('S') else if b == 0x57 then Some('W') else None
  }

  // ---- values and their wire content ----

  /** What a value carries, before lengths are checked. A text is None where conversion would throw. */
  datatype Content =
    | Scalar(word: Word8)
    | Vector(words: seq<Word8>)
    | One(text: Option<seq<byte>>)
    | Many(texts: seq<Option<seq<byte>>>)

  function ContentOf(conv: Converter, v: Value): Content {
    match v
    case Int(i) => Scalar(IntBytes(i))
    case UInt(u) => Scalar(ToLE(u, 8))
    case Double(d) => Scalar(Bytes64(d))
    case Text(s) => One(Some(s))
    case Wide(w) => One(conv.toBytes(w))
    case Ints(ns) => Vector(seq(|ns|, k requires 0 <= k < |ns| => IntBytes(ns[k])))
    case UInts(us) => Vector(seq(|us|, k requires 0 <= k < |us| => ToLE(us[k], 8)))
    case Doubles(ds) => Vector(seq(|ds|, k requires 0 <= k < |ds| => Bytes64(ds[k])))
    case Texts(ss) => Many(seq(|ss|, k requires 0 <= k < |ss| => Some(ss[k])))
    case Wides(ws) => Many(seq(|ws|, k requires 0 <= k < |ws| => conv.toBytes(ws[k])))
  }

  /** The receiver's std::string(...).c_str(): everything before the first NUL. */
  function CStr(b: seq<byte>): (r: seq<byte>)
    ensures r <= b && 0 !in r && (r == b || b[|r|] == 0)
    ensures r == b <==> 0 !in b
  {
    if b == [] || b[0] == 0 then [] else [b[0]] + CStr(b[1..])
  }

  predicate WideView(d: Dialect, c: char) {
    d.Cpp? && (c == 'w' || c == 'W')
  }

  /** Whether receiving `text` under letter `c` raises no exception. */
  predicate Readable(d: Dialect, conv: Converter, c: char, text: seq<byte>) {
    WideView(d, c) ==> conv.fromBytes(CStr(text)).Some?
  }

  /** Received content, once every text has been found readable. */
  datatype Received = Word(word: Word8) | Words(words: seq<Word8>) | String(text: seq<byte>) | Strings(texts: seq<seq<byte>>)

  predicate Shaped(d: Dialect, conv: Converter, c: char, r: Received) {
    match r
    case Word(_) => IsScalar(c)
    case Words(_) => IsVector(c)
    case String(t) => IsText(c) && Readable(d, conv, c, t)
    case Strings(ts) => IsTexts(c) && forall k :: 0 <= k < |ts| ==> Readable(d, conv, c, ts[k])
  }

  function AsInts(ws: seq<Word8>): (r: seq<Int64>)
    ensures |r| == |ws|
  {
    seq(|ws|, k requires 0 <= k < |ws| => BytesInt(ws[k]))
  }

  function AsUInts(ws: seq<Word8>): (r: seq<UInt64>)
    ensures |r| == |ws|
  {
    seq(|ws|, k requires 0 <= k < |ws| => BytesUInt(ws[k]))
  }

  function AsDoubles(ws: seq<Word8>): (r: seq<bv64>)
    ensures |r| == |ws|
  {
    seq(|ws|, k requires 0 <= k < |ws| => Word64(ws[k]))
  }

  function AsWides(conv: Converter, ts: seq<seq<byte>>): (r: seq<string>)
    requires forall k :: 0 <= k < |ts| ==> conv.fromBytes(CStr(ts[k])).Some?
    ensures |r| == |ts|
  {
    seq(|ts|, k requires 0 <= k < |ts| => conv.fromBytes(CStr(ts[k])).value)
  }

  function ValueOf(d: Dialect, conv: Converter, c: char, r: Received): Value
    requires Shaped(d, conv, c, r)
  {
    match r
    case Word(w) => if c == 'i' then Int(BytesInt(w)) else if c == 'u' then UInt(BytesUInt(w)) else Double(Word64(w))
    case Words(ws) =>
      if c == 'I' then Ints(AsInts(ws)) else if c == 'U' then UInts(AsUInts(ws)) else Doubles(AsDoubles(ws))
    case String(t) => if WideView(d, c) then Wide(conv.fromBytes(CStr(t)).value) else Text(t)
    case Strings(ts) =>
      if WideView(d, c) then Wides(AsWides(conv, ts)) else Texts(ts)
  }

  // ---- encoding ----

  predicate Accepts(d: Dialect, t: char, v: Value) {
    Letter(v) == if d.Cpp? then t else Narrow(t)
  }

  /** The C++ loops count up to a uint16_t, so 65536 elements become none; Go writes the whole slice. */
  function Kept<T>(d: Dialect, s: seq<T>): seq<T> {
    if d.Cpp? then s[..|s| % MAX_COUNT] else s
  }

  function TextBlock(d: Dialect, t: Option<seq<byte>>): Result<seq<byte>> {
    match t
    case None => Err(BadText)
    case Some(b) =>
      if |b| > MAX_COUNT then Err(TooLong)
      else if d.Cpp? && |b| == MAX_COUNT then Err(Overrun)
      else Ok(ToLE(|b|, 2) + b)
  }

  function TextBlocks(d: Dialect, ts: seq<Option<seq<byte>>>): Result<seq<byte>> {
    if ts == [] then Ok([]) else
      match TextBlock(d, ts[0])
      case Err(f) => Err(f)
      case Ok(b) =>
        match TextBlocks(d, ts[1..])
        case Err(f) => Err(f)
        case Ok(bs) => Ok(b + bs)
  }

  function Body(d: Dialect, c: Content): Result<seq<byte>> {
    match c
    case Scalar(w) => Ok(w)
    case Vector(ws) => if |ws| > MAX_COUNT then Err(TooLong) else Ok(ToLE(|ws|, 2) + Concat(Kept(d, ws)))
    case One(t) => TextBlock(d, t)
    case Many(ts) =>
      if |ts| > MAX_COUNT then Err(TooLong) else
        match TextBlocks(d, Kept(d, ts))
        case Err(f) => Err(f)
        case Ok(b) => Ok(ToLE(|ts|, 2) + b)
  }

  function EncodeItem(d: Dialect, conv: Converter, t: char, v: Value): Result<seq<byte>> {
    if t == 'v' then
      if d.Go? && (v.Wide? || v.Wides?) then Err(BadType) else
        match Body(d, ContentOf(conv, v))
        case Err(f) => Err(f)
        case Ok(b) => Ok([Tag(Narrow(Letter(v)))] + b)
    else if !IsLetter(t) then Err(BadType)
    else if !Accepts(d, t, v) then Err(Mismatch)
    else Body(d, ContentOf(conv, v))
  }

  function Encode(d: Dialect, conv: Converter, sig: string, vals: seq<Value>): Result<seq<byte>>
    requires |sig| == |vals|
  {
    if sig == [] then Ok([]) else
      match EncodeItem(d, conv, sig[0], vals[0])
      case Err(f) => Err(f)
      case Ok(b) =>
        match Encode(d, conv, sig[1..], vals[1..])
        case Err(f) => Err(f)
        case Ok(bs) => Ok(b + bs)
  }

  // ---- decoding ----

  function TakeWords(n: nat, bytes: seq<byte>): (r: Result<(seq<Word8>, seq<byte>)>)
    ensures r.Ok? ==> |r.value.0| == n
  {
    if n == 0 then Ok(([], bytes))
    else if |bytes| < 8 then Err(Incomplete) else
      match TakeWords(n - 1, bytes[8..])
      case Err(f) => Err(f)
      case Ok((ws, rest)) => Ok(([bytes[..8]] + ws, rest))
  }

  function TakeText(d: Dialect, conv: Converter, c: char, bytes: seq<byte>): (r: Result<(seq<byte>, seq<byte>)>)
    ensures r.Ok? ==> Readable(d, conv, c, r.value.0) && |r.value.0| < MAX_COUNT
  {
    if |bytes| < 2 then Err(Incomplete) else
      var n := FromLE(bytes[..2]);
      FromLEBound(bytes[..2]);
      Pow256Values();
      var rest := bytes[2..];
      if |rest| < n then Err(Incomplete)
      else if !Readable(d, conv, c, rest[..n]) then Err(BadText)
      else Ok((rest[..n], rest[n..]))
  }

  function TakeTexts(d: Dialect, conv: Converter, c: char, n: nat, bytes: seq<byte>): (r: Result<(seq<seq<byte>>, seq<byte>)>)
    ensures r.Ok? ==> |r.value.0| == n && forall k :: 0 <= k < n ==> Readable(d, conv, c, r.value.0[k])
  {
    if n == 0 then Ok(([], bytes)) else
      match TakeText(d, conv, c, bytes)
      case Err(f) => Err(f)
      case Ok((t, rest)) =>
        match TakeTexts(d, conv, c, n - 1, rest)
        case Err(f) => Err(f)
        case Ok((ts, rest')) => Ok(([t] + ts, rest'))
  }

  function TakeBody(d: Dialect, conv: Converter, c: char, bytes: seq<byte>): (r: Result<(Received, seq<byte>)>)
    requires IsLetter(c)
    ensures r.Ok? ==> Shaped(d, conv, c, r.value.0)
  {
    if IsScalar(c) then
      if |bytes| < 8 then Err(Incomplete) else Ok((Word(bytes[..8]), bytes[8..]))
    else if IsText(c) then
      match TakeText(d, conv, c, bytes)
      case Err(f) => Err(f)
      case Ok((t, rest)) => Ok((String(t), rest))
    else if |bytes| < 2 then Err(Incomplete)
    else if IsVector(c) then
      match TakeWords(FromLE(bytes[..2]), bytes[2..])
      case Err(f) => Err(f)
      case Ok((ws, rest)) => Ok((Words(ws), rest))
    else
      match TakeTexts(d, conv, c, FromLE(bytes[..2]), bytes[2..])
      case Err(f) => Err(f)
      case Ok((ts, rest)) => Ok((Strings(ts), rest))
  }

  function DecodeTyped(d: Dialect, conv: Converter, c: char, bytes: seq<byte>): Result<(Value, seq<byte>)>
    requires IsLetter(c)
  {
    match TakeBody(d, conv, c, bytes)
    case Err(f) => Err(f)
    case Ok((r, rest)) => Ok((ValueOf(d, conv, c, r), rest))
  }

  function DecodeItem(d: Dialect, conv: Converter, t: char, bytes: seq<byte>): Result<(Value, seq<byte>)> {
    if t == 'v' then
      if |bytes| < 1 then Err(Incomplete) else
        match LetterOf(bytes[0])
        case None => Err(BadType)
        case Some(c) => DecodeTyped(d, conv, c, bytes[1..])
    else if !IsLetter(t) then Err(BadType)
    else DecodeTyped(d, conv, t, bytes)
  }

  /** The values decoded before the first fault, what is left to read, and the fault. */
  datatype Decoded = Decoded(values: seq<Value>, rest: seq<byte>, fault: Option<Fault>)

  function Decode(d: Dialect, conv: Converter, sig: string, bytes: seq<byte>): (r: Decoded)
    ensures |r.values| <= |sig|
    ensures r.fault.None? <==> |r.values| == |sig|
  {
    if sig == [] then Decoded([], bytes, None) else
      match DecodeItem(d, conv, sig[0], bytes)
      case Err(f) => Decoded([], bytes, Some(f))
      case Ok((v, rest)) =>
        var tail := Decode(d, conv, sig[1..], rest);
        Decoded([v] + tail.values, tail.rest, tail.fault)
  }

  // ---- what both implementations' loops are stated with ----

  /** `done` followed by what is still to come. */
  function Prepend(done: seq<byte>, r: Result<seq<byte>>): Result<seq<byte>> {
    match r case Ok(b) => Ok(done + b) case Err(f) => Err(f)
  }

  /** A variantVector or a slice of values passed by reference. */
  class ValueVector {
    var items: seq<Value>

    constructor (initial: seq<Value>)
      ensures items == initial
    {
      items := initial;
    }
  }

  /** std::vector::resize on variants: new slots hold the first alternative, int64 zero. */
  function ResizedValues(v: seq<Value>, n: nat): (r: seq<Value>)
    ensures |r| == n && forall k :: 0 <= k < n ==> r[k] == if k < |v| then v[k] else Int(0)
  {
    if n <= |v| then v[..n] else v + seq(n - |v|, _ => Int(0))
  }

  function PrependValues(vals: seq<Value>, d: Decoded): Decoded {
    Decoded(vals + d.values, d.rest, d.fault)
  }

  lemma {:induction false} WordsLength(ws: seq<Word8>)
    ensures |Concat(ws)| == 8 * |ws|
  {
    if ws != [] {
      WordsLength(ws[1..]);
    }
  }

  lemma FillSlot(vals: seq<Value>, initial: seq<Value>, v: Value)
    requires |vals| < |initial|
    ensures (vals + initial[|vals|..])[|vals| := v] == vals + [v] + initial[|vals| + 1..]
  {
  }
}
