/** dataSignature.h: the in-place C++ encoder and the bounds-checked C++ decoder. */
module DataSignatureCpp {
  import opened Bytes
  import opened ByteOrder
  import opened Codec
  import opened EncodeInPlace

  /**
   How a call ends: true, false, a copy past the end of the buffer or an offset past the largest int, or an exception from
   the string converter.
   */
  datatype Status = Done | Refused | Overran | Threw

  function StatusOf(fault: Fault): Status {
    if fault == BadText then Threw else if fault == Overrun || fault == Overflow then Overran else Refused
  }

  /** The first |done| bytes of the vector are written; what follows is stale. */
  ghost predicate Written(message: ByteVector, done: seq<byte>)
    reads message
  {
    |done| <= |message.data| && message.data[..|done|] == done
  }

  /** `done` is written and ends at an offset that is an int. */
  ghost predicate UpTo(message: ByteVector, done: seq<byte>, off: nat)
    reads message
  {
    Written(message, done) && off == |done| <= MAX_OFFSET
  }

  ghost function SpaceAt(message: ByteVector, off: nat): Space
    requires off <= |message.data| && off <= MAX_OFFSET
    reads message
  {
    Space(|message.data| - off, MAX_OFFSET - off)
  }

  /** What is to be placed after `done` has been, or the status with which placing it ends. */
  ghost predicate Put(message: ByteVector, done: seq<byte>, placed: Result<Placed>, r: Status, off': nat)
    reads message
  {
    match placed
    case Ok(p) => r == Done && UpTo(message, done + p.bytes, off') && SpaceAt(message, off') == p.space
    case Err(f) => r == StatusOf(f)
  }

  lemma PlacedInOrder(done: seq<byte>, head: seq<byte>, more: Result<Placed>)
    ensures PlacedAfter(done, PlacedAfter(head, more)) == PlacedAfter(done + head, more)
  {
    if more.Ok? {
      Assoc(done, head, more.value.bytes);
    }
  }

  /** Placing something after a head that is in place is placing both. */
  lemma PutAfter(message: ByteVector, done: seq<byte>, head: seq<byte>, placed: Result<Placed>, r: Status, off': nat)
    requires Put(message, done + head, placed, r, off')
    ensures Put(message, done, PlacedAfter(head, placed), r, off')
  {
    if placed.Ok? {
      Assoc(done, head, placed.value.bytes);
    }
  }

  // ---- how far an encoding loop has come ----

  /** `done` is placed, and `all` is that followed by what the texts from j on are placed as. */
  ghost predicate TextsPlaced(all: Result<Placed>, done: seq<byte>, here: Space, ts: seq<Option<seq<byte>>>, j: nat) {
    j <= |ts| && all == PlacedAfter(done, PlaceTexts(here, ts[j..]))
  }

  lemma NoTextPlaced(done: seq<byte>, here: Space, ts: seq<Option<seq<byte>>>)
    ensures TextsPlaced(PlacedAfter(done, PlaceTexts(here, ts)), done, here, ts, 0)
  {
    assert ts[0..] == ts;
  }

  lemma OneMorePlaced(all: Result<Placed>, done: seq<byte>, here: Space, ts: seq<Option<seq<byte>>>, j: nat)
    requires TextsPlaced(all, done, here, ts, j) && j < |ts|
    ensures match PlaceText(here, ts[j])
      case Ok(p) => TextsPlaced(all, done + p.bytes, p.space, ts, j + 1)
      case Err(f) => all == Err(f)
  {
    assert ts[j..][0] == ts[j] && ts[j..][1..] == ts[j + 1..];
    var block := PlaceText(here, ts[j]);
    if block.Ok? {
      PlacedInOrder(done, block.value.bytes, PlaceTexts(block.value.space, ts[j + 1..]));
    }
  }

  lemma TextPut(message: ByteVector, all: Result<Placed>, done: seq<byte>, here: Space, ts: seq<Option<seq<byte>>>, j: nat,
                r: Status, off': nat)
    requires TextsPlaced(all, done, here, ts, j) && j < |ts| && Put(message, done, PlaceText(here, ts[j]), r, off')
    ensures match PlaceText(here, ts[j])
      case Ok(p) =>
        && r == Done && UpTo(message, done + p.bytes, off')
        && TextsPlaced(all, done + p.bytes, SpaceAt(message, off'), ts, j + 1)
      case Err(f) => r == StatusOf(f) != Done && all == Err(f)
  {
    OneMorePlaced(all, done, here, ts, j);
  }

  lemma AllTextsPlaced(all: Result<Placed>, done: seq<byte>, here: Space, ts: seq<Option<seq<byte>>>)
    requires TextsPlaced(all, done, here, ts, |ts|)
    ensures all == Ok(Placed(done, here))
  {
    assert ts[|ts|..] == [] && done + [] == done;
  }

  /** `done` is placed, and `all` is that followed by what the words from j on are placed as. */
  ghost predicate WordsPlaced(all: Result<Placed>, done: seq<byte>, here: Space, ws: seq<Word8>, j: nat) {
    j <= |ws| && all == PlacedAfter(done, PlaceWords(here, ws[j..]))
  }

  lemma NoWordPlaced(done: seq<byte>, here: Space, ws: seq<Word8>)
    ensures WordsPlaced(PlacedAfter(done, PlaceWords(here, ws)), done, here, ws, 0)
  {
    assert ws[0..] == ws;
  }

  lemma NextWord(all: Result<Placed>, done: seq<byte>, here: Space, ws: seq<Word8>, j: nat)
    requires WordsPlaced(all, done, here, ws, j) && j < |ws|
    ensures match Advance(here, 8)
      case Some(next) => WordsPlaced(all, done + ws[j], next, ws, j + 1)
      case None => all == Err(Overflow)
  {
    assert ws[j..][0] == ws[j] && ws[j..][1..] == ws[j + 1..];
    Assoc(done, ws[j], Concat(ws[j + 1..]));
  }

  lemma WordPut(message: ByteVector, all: Result<Placed>, done: seq<byte>, here: Space, ws: seq<Word8>, j: nat, r: Status, off': nat)
    requires WordsPlaced(all, done, here, ws, j) && j < |ws| && Put(message, done, PlaceBody(here, Scalar(ws[j])), r, off')
    ensures r == Done ==> UpTo(message, done + ws[j], off') && WordsPlaced(all, done + ws[j], SpaceAt(message, off'), ws, j + 1)
    ensures r != Done ==> all.Err? && r == StatusOf(all.fault)
  {
    NextWord(all, done, here, ws, j);
  }

  lemma AllWordsPlaced(all: Result<Placed>, done: seq<byte>, here: Space, ws: seq<Word8>)
    requires WordsPlaced(all, done, here, ws, |ws|)
    ensures all == Ok(Placed(done, here))
  {
    assert ws[|ws|..] == [] && done + [] == done;
  }

  lemma PutAll(message: ByteVector, done: seq<byte>, placed: Result<Placed>, written: seq<byte>, off: nat)
    requires UpTo(message, written, off) && PlacedAfter(done, placed) == Ok(Placed(written, SpaceAt(message, off)))
    ensures Put(message, done, placed, Done, off)
  {
  }

  lemma StoredBehind(data: seq<byte>, off: nat, n: nat)
    requires off + n <= |data|
    ensures data[..off + n] == data[..off] + data[off..off + n]
  {
  }

  ghost predicate ItemsPlaced(conv: Converter, all: Result<seq<byte>>, done: seq<byte>, here: Space, types: string,
                              rets: seq<Value>, i: nat)
  {
    i <= |types| == |rets| && all == Prepend(done, EncodeIn(conv, here, types[i..], rets[i..]))
  }

  lemma NoItemPlaced(conv: Converter, here: Space, types: string, rets: seq<Value>)
    requires |types| == |rets|
    ensures ItemsPlaced(conv, EncodeIn(conv, here, types, rets), [], here, types, rets, 0)
  {
    assert types[0..] == types && rets[0..] == rets;
    var all := EncodeIn(conv, here, types, rets);
    assert all.Ok? ==> [] + all.value == all.value;
  }

  lemma OneMoreItem(conv: Converter, all: Result<seq<byte>>, done: seq<byte>, here: Space, types: string, rets: seq<Value>, i: nat)
    requires ItemsPlaced(conv, all, done, here, types, rets, i) && i < |types|
    ensures match PlaceItem(conv, here, types[i], rets[i])
      case Ok(p) => ItemsPlaced(conv, all, done + p.bytes, p.space, types, rets, i + 1)
      case Err(f) => all == Err(f)
  {
    assert types[i..][0] == types[i] && types[i..][1..] == types[i + 1..];
    assert rets[i..][0] == rets[i] && rets[i..][1..] == rets[i + 1..];
    var item := PlaceItem(conv, here, types[i], rets[i]);
    if item.Ok? && EncodeIn(conv, item.value.space, types[i + 1..], rets[i + 1..]).Ok? {
      Assoc(done, item.value.bytes, EncodeIn(conv, item.value.space, types[i + 1..], rets[i + 1..]).value);
    }
  }

  lemma ItemPut(conv: Converter, message: ByteVector, all: Result<seq<byte>>, done: seq<byte>, here: Space, types: string,
                rets: seq<Value>, i: nat, r: Status, off': nat)
    requires ItemsPlaced(conv, all, done, here, types, rets, i) && i < |types|
    requires Put(message, done, PlaceItem(conv, here, types[i], rets[i]), r, off')
    ensures match PlaceItem(conv, here, types[i], rets[i])
      case Ok(p) =>
        && r == Done && UpTo(message, done + p.bytes, off')
        && ItemsPlaced(conv, all, done + p.bytes, SpaceAt(message, off'), types, rets, i + 1)
      case Err(f) => r == StatusOf(f) != Done && all == Err(f)
  {
    OneMoreItem(conv, all, done, here, types, rets, i);
  }

  lemma AllItemsPlaced(conv: Converter, all: Result<seq<byte>>, done: seq<byte>, here: Space, types: string, rets: seq<Value>)
    requires ItemsPlaced(conv, all, done, here, types, rets, |types|)
    ensures all == Ok(done)
  {
    assert types[|types|..] == [] && done + [] == done;
  }

  // ---- how far a decoding loop has come ----

  ghost predicate WordsSoFar(n: nat, from: seq<byte>, ws: seq<Word8>, here: seq<byte>)
  {
    |ws| <= n && TakeWords(n, from) == match TakeWords(n - |ws|, here)
                                       case Ok((more, rest)) => Ok((ws + more, rest))
                                       case Err(f) => Err(f)
  }

  lemma WordsStart(n: nat, from: seq<byte>)
    ensures WordsSoFar(n, from, [], from)
  {
    if TakeWords(n, from).Ok? {
      assert [] + TakeWords(n, from).value.0 == TakeWords(n, from).value.0;
    }
  }

  lemma WordsStep(n: nat, from: seq<byte>, ws: seq<Word8>, here: seq<byte>)
    requires WordsSoFar(n, from, ws, here) && |ws| < n
    ensures if |here| < 8 then TakeWords(n, from) == Err(Incomplete) else WordsSoFar(n, from, ws + [here[..8]], here[8..])
  {
    if |here| >= 8 && TakeWords(n - |ws| - 1, here[8..]).Ok? {
      Assoc(ws, [here[..8]], TakeWords(n - |ws| - 1, here[8..]).value.0);
    }
  }

  lemma WordsEnd(n: nat, from: seq<byte>, ws: seq<Word8>, here: seq<byte>)
    requires WordsSoFar(n, from, ws, here) && |ws| == n
    ensures TakeWords(n, from) == Ok((ws, here))
  {
    assert ws + [] == ws;
  }

  lemma OneMoreWord(ws: seq<Word8>, b: Word8)
    ensures AsInts(ws + [b]) == AsInts(ws) + [BytesInt(b)]
    ensures AsUInts(ws + [b]) == AsUInts(ws) + [BytesUInt(b)]
    ensures AsDoubles(ws + [b]) == AsDoubles(ws) + [Word64(b)]
  {
  }

  lemma OneMoreText(conv: Converter, c: char, ts: seq<seq<byte>>, t: seq<byte>)
    requires Shaped(Cpp, conv, c, Strings(ts)) && Readable(Cpp, conv, c, t)
    ensures Shaped(Cpp, conv, c, Strings(ts + [t]))
    ensures c == 'W' ==> AsWides(conv, ts + [t]) == AsWides(conv, ts) + [conv.fromBytes(CStr(t)).value]
  {
  }

  ghost predicate TextsSoFar(conv: Converter, c: char, n: nat, from: seq<byte>, ts: seq<seq<byte>>, here: seq<byte>)
  {
    |ts| <= n && TakeTexts(Cpp, conv, c, n, from) == match TakeTexts(Cpp, conv, c, n - |ts|, here)
                                                     case Ok((more, rest)) => Ok((ts + more, rest))
                                                     case Err(f) => Err(f)
  }

  lemma TextsStart(conv: Converter, c: char, n: nat, from: seq<byte>)
    ensures TextsSoFar(conv, c, n, from, [], from)
  {
    if TakeTexts(Cpp, conv, c, n, from).Ok? {
      assert [] + TakeTexts(Cpp, conv, c, n, from).value.0 == TakeTexts(Cpp, conv, c, n, from).value.0;
    }
  }

  lemma TextsStep(conv: Converter, c: char, n: nat, from: seq<byte>, ts: seq<seq<byte>>, here: seq<byte>)
    requires TextsSoFar(conv, c, n, from, ts, here) && |ts| < n
    ensures var r := TakeText(Cpp, conv, c, here);
      if r.Err? then TakeTexts(Cpp, conv, c, n, from) == Err(r.fault)
      else TextsSoFar(conv, c, n, from, ts + [r.value.0], r.value.1)
  {
    if TakeText(Cpp, conv, c, here).Ok? {
      var (t, rest) := TakeText(Cpp, conv, c, here).value;
      if TakeTexts(Cpp, conv, c, n - |ts| - 1, rest).Ok? {
        Assoc(ts, [t], TakeTexts(Cpp, conv, c, n - |ts| - 1, rest).value.0);
      }
    }
  }

  lemma TextsEnd(conv: Converter, c: char, n: nat, from: seq<byte>, ts: seq<seq<byte>>, here: seq<byte>)
    requires TextsSoFar(conv, c, n, from, ts, here) && |ts| == n
    ensures TakeTexts(Cpp, conv, c, n, from) == Ok((ts, here))
  {
    assert ts + [] == ts;
  }

  ghost predicate ValuesSoFar(conv: Converter, types: string, message: seq<byte>, i: nat, vals: seq<Value>, here: seq<byte>)
  {
    i <= |types| && Decode(Cpp, conv, types, message) == PrependValues(vals, Decode(Cpp, conv, types[i..], here))
  }

  lemma ValuesStart(conv: Converter, types: string, message: seq<byte>)
    ensures ValuesSoFar(conv, types, message, 0, [], message)
  {
    assert types[0..] == types;
    var d := Decode(Cpp, conv, types, message);
    assert [] + d.values == d.values;
  }

  lemma ValuesStep(conv: Converter, types: string, message: seq<byte>, i: nat, vals: seq<Value>, here: seq<byte>)
    requires i < |types| && ValuesSoFar(conv, types, message, i, vals, here)
    ensures var r := DecodeItem(Cpp, conv, types[i], here);
      if r.Err? then Decode(Cpp, conv, types, message) == Decoded(vals, here, Some(r.fault))
      else ValuesSoFar(conv, types, message, i + 1, vals + [r.value.0], r.value.1)
  {
    assert types[i..][0] == types[i] && types[i..][1..] == types[i + 1..];
    match DecodeItem(Cpp, conv, types[i], here)
    case Err(f) => assert vals + [] == vals;
    case Ok((v, rest)) => Assoc(vals, [v], Decode(Cpp, conv, types[i + 1..], rest).values);
  }

  /** A list of texts as TakeTexts reads it, at an offset. */
  ghost predicate GotTexts(conv: Converter, c: char, n: nat, message: seq<byte>, off: nat, r: Status, v: Value, off': nat)
    requires IsTexts(c) && off <= |message|
  {
    match TakeTexts(Cpp, conv, c, n, message[off..])
    case Ok((ts, rest)) => r == Done && v == ValueOf(Cpp, conv, c, Strings(ts)) && off' <= |message| && rest == message[off'..]
    case Err(f) => r == StatusOf(f)
  }

  lemma TextsGot(conv: Converter, c: char, message: seq<byte>, off: nat, r: Status, v: Value, off': nat)
    requires IsTexts(c) && off + 2 <= |message|
    requires GotTexts(conv, c, FromLE(message[off..off + 2]), message, off + 2, r, v, off')
    ensures GotItem(conv, c, message, off, r, v, off')
  {
    assert message[off..][..2] == message[off..off + 2] && message[off..][2..] == message[off + 2..];
  }

  ghost predicate GotItem(conv: Converter, t: char, message: seq<byte>, off: nat, r: Status, v: Value, off': nat)
    requires off <= |message|
  {
    match DecodeItem(Cpp, conv, t, message[off..])
    case Ok((w, rest)) => r == Done && v == w && off' <= |message| && rest == message[off'..]
    case Err(f) => r == StatusOf(f)
  }

  ghost predicate ValuesRead(conv: Converter, types: string, message: seq<byte>, i: nat, vals: seq<Value>, off: nat)
  {
    i == |vals| && off <= |message| && ValuesSoFar(conv, types, message, i, vals, message[off..])
  }

  lemma ItemRead(conv: Converter, types: string, message: seq<byte>, i: nat, vals: seq<Value>, off: nat, r: Status, v: Value, off': nat)
    requires i < |types| && ValuesRead(conv, types, message, i, vals, off) && GotItem(conv, types[i], message, off, r, v, off')
    ensures r == Done ==> ValuesRead(conv, types, message, i + 1, vals + [v], off')
    ensures r != Done ==> Decode(Cpp, conv, types, message).values == vals
    ensures r != Done ==> Decode(Cpp, conv, types, message).fault.Some? && StatusOf(Decode(Cpp, conv, types, message).fault.value) == r
  {
    ValuesStep(conv, types, message, i, vals, message[off..]);
  }

  lemma ValuesEnd(conv: Converter, types: string, message: seq<byte>, vals: seq<Value>, here: seq<byte>)
    requires ValuesSoFar(conv, types, message, |types|, vals, here)
    ensures Decode(Cpp, conv, types, message) == Decoded(vals, here, None)
  {
    assert types[|types|..] == [] && vals + [] == vals;
  }

  class DataSignature {
    const types: string
    const conv: Converter
    const host: Host

    constructor (types: string, conv: Converter, host: Host)
      ensures this.types == types && this.conv == conv && this.host == host
    {
      this.types := types;
      this.conv := conv;
      this.host := host;
    }

    /** Grow by `k` when fewer than `k` bytes lie beyond `off`; false where `off + k` is no int any more. */
    method Reserve(message: ByteVector, ghost done: seq<byte>, off: nat, k: nat) returns (ok: bool)
      requires UpTo(message, done, off)
      modifies message
      ensures Written(message, done) && (ok <==> off + k <= MAX_OFFSET)
      ensures ok ==> off + k <= |message.data| && Some(SpaceAt(message, off + k)) == Advance(old(SpaceAt(message, off)), k)
    {
      ok := off + k <= MAX_OFFSET;
      if ok && |message.data| < off + k {
        message.Resize(|message.data| + k);
      }
    }

    method PutCount(n: nat, message: ByteVector, ghost done: seq<byte>, off: nat)
      requires Written(message, done) && off == |done| && off + 2 <= |message.data|
      modifies message
      ensures Written(message, done + ToLE(n, 2)) && |message.data| == |old(message.data)|
    {
      Uint16ToBytes(host, n, message, off, true);
      StoredBehind(message.data, off, 2);
    }

    method PutScalar(v: Value, message: ByteVector, ghost done: seq<byte>, off: nat) returns (r: Status, off': nat)
      requires v.Int? || v.UInt? || v.Double?
      requires UpTo(message, done, off)
      modifies message
      ensures Put(message, done, PlaceBody(old(SpaceAt(message, off)), ContentOf(conv, v)), r, off')
    {
      var ok := Reserve(message, done, off, 8);
      if !ok {
        return Overran, off;
      }
      match v {
        case Int(i) => Int64ToBytes(host, i, message, off, true);
        case UInt(u) => Uint64ToBytes(host, u, message, off, true);
        case Double(d) => DoubleToBytes(host, d, message, off, true);
      }
      StoredBehind(message.data, off, 8);
      r, off' := Done, off + 8;
    }

    /** One element of an array as a scalar. */
    function Element(v: Value, j: nat): (e: Value)
      requires ContentOf(conv, v).Vector? && j < |ContentOf(conv, v).words|
      ensures e.Int? || e.UInt? || e.Double?
      ensures ContentOf(conv, e).word == ContentOf(conv, v).words[j]
    {
      match v case Ints(ns) => Int(ns[j]) case UInts(us) => UInt(us[j]) case Doubles(ds) => Double(ds[j])
    }

    /** The first `arrSize` elements of an array. */
    method PutWords(v: Value, arrSize: nat, message: ByteVector, ghost done: seq<byte>, off: nat) returns (r: Status, off': nat)
      requires ContentOf(conv, v).Vector? && arrSize <= |ContentOf(conv, v).words|
      requires UpTo(message, done, off)
      modifies message
      ensures Put(message, done, PlaceWords(old(SpaceAt(message, off)), ContentOf(conv, v).words[..arrSize]), r, off')
    {
      ghost var words := ContentOf(conv, v).words[..arrSize];
      ghost var written := done;
      ghost var all := PlaceWords(SpaceAt(message, off), words);
      off' := off;
      var j := 0;
      NoWordPlaced(done, SpaceAt(message, off), words);
      while j < arrSize
        invariant 0 <= j <= arrSize == |words|
        invariant UpTo(message, written, off')
        invariant WordsPlaced(PlacedAfter(done, all), written, SpaceAt(message, off'), words, j)
      {
        ghost var here := SpaceAt(message, off');
        r, off' := PutScalar(Element(v, j), message, written, off');
        WordPut(message, PlacedAfter(done, all), written, here, words, j, r, off');
        if r != Done {
          return;
        }
        written := written + words[j];
        j := j + 1;
      }
      AllWordsPlaced(PlacedAfter(done, all), written, SpaceAt(message, off'), words);
      PutAll(message, done, all, written, off');
      r := Done;
    }

    method PutVector(v: Value, message: ByteVector, ghost done: seq<byte>, off: nat) returns (r: Status, off': nat)
      requires ContentOf(conv, v).Vector?
      requires UpTo(message, done, off)
      modifies message
      ensures Put(message, done, PlaceBody(old(SpaceAt(message, off)), ContentOf(conv, v)), r, off')
    {
      var size := match v case Ints(ns) => |ns| case UInts(us) => |us| case Doubles(ds) => |ds|;
      var ok := Reserve(message, done, off, 2);
      if !ok {
        return Overran, off;
      }
      if size > MAX_COUNT {
        return Refused, off;
      }
      var arrSize := size % MAX_COUNT;
      PutCount(size, message, done, off);
      ghost var placed := PlaceWords(SpaceAt(message, off + 2), ContentOf(conv, v).words[..arrSize]);
      r, off' := PutWords(v, arrSize, message, done + ToLE(size, 2), off + 2);
      PutAfter(message, done, ToLE(size, 2), placed, r, off');
    }

    /** A text behind its length; one of 65536 bytes is stepped over as if it were empty. */
    method PutText(text: seq<byte>, message: ByteVector, ghost done: seq<byte>, off: nat) returns (r: Status, off': nat)
      requires UpTo(message, done, off)
      modifies message
      ensures Put(message, done, PlaceText(old(SpaceAt(message, off)), Some(text)), r, off')
    {
      var ok := Reserve(message, done, off, 2);
      if !ok {
        return Overran, off;
      }
      if |text| > MAX_COUNT {
        return Refused, off;
      }
      PutCount(|text|, message, done, off);
      ghost var placed := PlaceChars(SpaceAt(message, off + 2), text);
      r, off' := PutChars(text, message, done + ToLE(|text|, 2), off + 2);
      PutAfter(message, done, ToLE(|text|, 2), placed, r, off');
    }

    method PutChars(text: seq<byte>, message: ByteVector, ghost done: seq<byte>, off: nat) returns (r: Status, off': nat)
      requires UpTo(message, done, off) && |text| <= MAX_COUNT
      modifies message
      ensures Put(message, done, PlaceChars(old(SpaceAt(message, off)), text), r, off')
    {
      var strSize := |text| % MAX_COUNT;
      var ok := Reserve(message, done, off, strSize);
      if !ok || |message.data| - off < |text| {
        return Overran, off;
      }
      message.Store(off, text);
      assert message.data[..off] == done && message.data[off..off + |text|] == text;
      StoredBehind(message.data, off, |text|);
      r, off' := Done, off + strSize;
      assert strSize == 0 ==> done + [] == done;
    }

    /** One element of an array of strings, converted if need be; None where the conversion throws. */
    function TextAt(v: Value, j: nat): (t: Option<seq<byte>>)
      requires ContentOf(conv, v).Many? && j < |ContentOf(conv, v).texts|
      ensures t == ContentOf(conv, v).texts[j]
    {
      match v case Texts(ss) => Some(ss[j]) case Wides(ws) => conv.toBytes(ws[j])
    }

    /** The first `arrSize` strings of an array, one behind the other. */
    method PutTextList(v: Value, arrSize: nat, message: ByteVector, ghost done: seq<byte>, off: nat) returns (r: Status, off': nat)
      requires ContentOf(conv, v).Many? && arrSize <= |ContentOf(conv, v).texts|
      requires UpTo(message, done, off)
      modifies message
      ensures Put(message, done, PlaceTexts(old(SpaceAt(message, off)), ContentOf(conv, v).texts[..arrSize]), r, off')
    {
      ghost var ts := ContentOf(conv, v).texts[..arrSize];
      ghost var written := done;
      ghost var all := PlaceTexts(SpaceAt(message, off), ts);
      off' := off;
      var j := 0;
      NoTextPlaced(done, SpaceAt(message, off), ts);
      while j < arrSize
        invariant 0 <= j <= arrSize == |ts|
        invariant UpTo(message, written, off')
        invariant TextsPlaced(PlacedAfter(done, all), written, SpaceAt(message, off'), ts, j)
      {
        ghost var here := SpaceAt(message, off');
        var text := TextAt(v, j);
        if text.None? {
          OneMorePlaced(PlacedAfter(done, all), written, here, ts, j);
          return Threw, off';
        }
        r, off' := PutText(text.value, message, written, off');
        TextPut(message, PlacedAfter(done, all), written, here, ts, j, r, off');
        if r != Done {
          return;
        }
        written := written + PlaceText(here, text).value.bytes;
        j := j + 1;
      }
      AllTextsPlaced(PlacedAfter(done, all), written, SpaceAt(message, off'), ts);
      r := Done;
    }

    method PutTexts(v: Value, message: ByteVector, ghost done: seq<byte>, off: nat) returns (r: Status, off': nat)
      requires v.Texts? || v.Wides?
      requires UpTo(message, done, off)
      modifies message
      ensures Put(message, done, PlaceBody(old(SpaceAt(message, off)), ContentOf(conv, v)), r, off')
    {
      var size := if v.Texts? then |v.ss| else |v.ws|;
      var ok := Reserve(message, done, off, 2);
      if !ok {
        return Overran, off;
      }
      if size > MAX_COUNT {
        return Refused, off;
      }
      var arrSize := size % MAX_COUNT;
      PutCount(size, message, done, off);
      ghost var placed := PlaceTexts(SpaceAt(message, off + 2), ContentOf(conv, v).texts[..arrSize]);
      r, off' := PutTextList(v, arrSize, message, done + ToLE(size, 2), off + 2);
      PutAfter(message, done, ToLE(size, 2), placed, r, off');
    }

    /** The body of a value, after its tag if it has one. */
    method PutBody(v: Value, message: ByteVector, ghost done: seq<byte>, off: nat) returns (r: Status, off': nat)
      requires UpTo(message, done, off)
      modifies message
      ensures Put(message, done, PlaceBody(old(SpaceAt(message, off)), ContentOf(conv, v)), r, off')
    {
      match v {
        case Int(_) | UInt(_) | Double(_) =>
          r, off' := PutScalar(v, message, done, off);
        case Ints(_) | UInts(_) | Doubles(_) =>
          r, off' := PutVector(v, message, done, off);
        case Text(s) =>
          r, off' := PutText(s, message, done, off);
        case Wide(w) =>
          var converted := conv.toBytes(w);
          if converted.None? {
            return Threw, off;
          }
          r, off' := PutText(converted.value, message, done, off);
        case Texts(_) | Wides(_) =>
          r, off' := PutTexts(v, message, done, off);
      }
    }

    method PutTag(c: char, message: ByteVector, ghost done: seq<byte>, off: nat) returns (ok: bool)
      requires IsLetter(c) && UpTo(message, done, off)
      modifies message
      ensures ok <==> off + 1 <= MAX_OFFSET
      ensures ok ==> UpTo(message, done + [Tag(Narrow(c))], off + 1)
                     && Some(SpaceAt(message, off + 1)) == Advance(old(SpaceAt(message, off)), 1)
    {
      ok := Reserve(message, done, off, 1);
      if ok {
        message.Store(off, [Tag(Narrow(c))]);
        assert message.data[..off + 1] == message.data[..off] + message.data[off..off + 1];
      }
    }

    /** The variant: a tag for the value's own letter, and its body. */
    method PutVariant(v: Value, message: ByteVector, ghost done: seq<byte>, off: nat) returns (r: Status, off': nat)
      requires UpTo(message, done, off)
      modifies message
      ensures Put(message, done, PlaceItem(conv, old(SpaceAt(message, off)), 'v', v), r, off')
    {
      var ok := PutTag(Letter(v), message, done, off);
      if !ok {
        return Overran, off;
      }
      ghost var tag := [Tag(Narrow(Letter(v)))];
      ghost var placed := PlaceBody(SpaceAt(message, off + 1), ContentOf(conv, v));
      r, off' := PutBody(v, message, done + tag, off + 1);
      PutAfter(message, done, tag, placed, r, off');
    }

    method PutItem(t: char, v: Value, message: ByteVector, ghost done: seq<byte>, off: nat) returns (r: Status, off': nat)
      requires UpTo(message, done, off)
      modifies message
      ensures Put(message, done, PlaceItem(conv, old(SpaceAt(message, off)), t, v), r, off')
    {
      if t == 'v' {
        r, off' := PutVariant(v, message, done, off);
      } else if !IsLetter(t) || Letter(v) != t {
        return Refused, off;
      } else {
        r, off' := PutBody(v, message, done, off);
      }
    }

    /**
     Whatever size and content the vector has to begin with, every write lands inside it and it ends up holding
     exactly the encoding that starts from a vector of that size; a refused list is reported. An overrun is a copy of
     65536 bytes for which no room is left, or an offset that is no int any more.
     */
    method ToBinary(rets: seq<Value>, message: ByteVector) returns (r: Status)
      requires |rets| == |types|
      modifies message
      ensures match EncodeFrom(conv, |old(message.data)|, types, rets)
        case Ok(bytes) => r == Done && message.data == bytes
        case Err(f) => r == StatusOf(f)
    {
      var replyOffset := 0;
      ghost var written: seq<byte> := [];
      ghost var all := EncodeFrom(conv, |message.data|, types, rets);
      NoItemPlaced(conv, SpaceAt(message, 0), types, rets);
      var i := 0;
      while i < |types|
        invariant 0 <= i <= |types|
        invariant UpTo(message, written, replyOffset)
        invariant ItemsPlaced(conv, all, written, SpaceAt(message, replyOffset), types, rets, i)
      {
        ghost var here := SpaceAt(message, replyOffset);
        r, replyOffset := PutItem(types[i], rets[i], message, written, replyOffset);
        ItemPut(conv, message, all, written, here, types, rets, i, r, replyOffset);
        if r != Done {
          return;
        }
        written := written + PlaceItem(conv, here, types[i], rets[i]).value.bytes;
        i := i + 1;
      }
      AllItemsPlaced(conv, all, written, SpaceAt(message, replyOffset), types, rets);
      message.Resize(replyOffset);
      r := Done;
    }

    // ---- decoding ----

    method GetWords(c: char, arrSize: nat, message: seq<byte>, off: nat) returns (r: Status, v: Value, off': nat)
      requires IsVector(c) && off <= |message|
      ensures match TakeWords(arrSize, message[off..])
        case Ok((ws, rest)) => r == Done && v == ValueOf(Cpp, conv, c, Words(ws)) && off' <= |message| && rest == message[off'..]
        case Err(f) => r == StatusOf(f)
    {
      v, off' := Int(0), off;
      ghost var ws: seq<Word8> := [];
      var ns: seq<Int64>, us: seq<UInt64>, ds: seq<bv64> := [], [], [];
      var j := 0;
      WordsStart(arrSize, message[off..]);
      while j < arrSize
        invariant 0 <= j <= arrSize && off' <= |message| && |ws| == j
        invariant c == 'I' ==> ns == AsInts(ws)
        invariant c == 'U' ==> us == AsUInts(ws)
        invariant c == 'D' ==> ds == AsDoubles(ws)
        invariant WordsSoFar(arrSize, message[off..], ws, message[off'..])
      {
        WordsStep(arrSize, message[off..], ws, message[off'..]);
        if |message| - off' < 8 {
          return Refused, v, off';
        }
        var bytes := message[off'..off' + 8];
        assert message[off'..][..8] == bytes && message[off'..][8..] == message[off' + 8..];
        OneMoreWord(ws, bytes);
        if c == 'I' {
          var n := BytesToInt64(host, bytes, true);
          ns := ns + [n];
        } else if c == 'U' {
          var u := BytesToUint64(host, bytes, true);
          us := us + [u];
        } else {
          var d := BytesToDouble(host, bytes, true);
          Word64Inverse(d, bytes);
          ds := ds + [d];
        }
        ws := ws + [bytes];
        off' := off' + 8;
        j := j + 1;
      }
      WordsEnd(arrSize, message[off..], ws, message[off'..]);
      r := Done;
      v := if c == 'I' then Ints(ns) else if c == 'U' then UInts(us) else Doubles(ds);
    }

    method GetVector(c: char, message: seq<byte>, off: nat) returns (r: Status, v: Value, off': nat)
      requires IsVector(c) && off <= |message|
      ensures match DecodeTyped(Cpp, conv, c, message[off..])
        case Ok((w, rest)) => r == Done && v == w && off' <= |message| && rest == message[off'..]
        case Err(f) => r == StatusOf(f)
    {
      if |message| - off < 2 {
        return Refused, Int(0), off;
      }
      assert message[off..][..2] == message[off..off + 2] && message[off..][2..] == message[off + 2..];
      var arrSize := BytesToUint16(host, message[off..off + 2], true);
      r, v, off' := GetWords(c, arrSize, message, off + 2);
    }

    method GetText(c: char, message: seq<byte>, off: nat) returns (r: Status, text: seq<byte>, off': nat)
      requires off <= |message|
      ensures match TakeText(Cpp, conv, c, message[off..])
        case Ok((t, rest)) => r == Done && text == t && off' <= |message| && rest == message[off'..]
        case Err(f) => r == StatusOf(f)
    {
      text, off' := [], off;
      if |message| - off < 2 {
        return Refused, text, off;
      }
      assert message[off..][..2] == message[off..off + 2] && message[off..][2..] == message[off + 2..];
      var strSize := BytesToUint16(host, message[off..off + 2], true);
      off' := off + 2;
      if |message| - off' < strSize {
        return Refused, text, off';
      }
      text := message[off'..off' + strSize];
      assert message[off'..][..strSize] == text && message[off'..][strSize..] == message[off' + strSize..];
      if WideView(Cpp, c) && conv.fromBytes(CStr(text)).None? {
        return Threw, text, off';
      }
      r, off' := Done, off' + strSize;
    }

    method GetTextList(c: char, strArrSize: nat, message: seq<byte>, off: nat) returns (r: Status, v: Value, off': nat)
      requires IsTexts(c) && off <= |message|
      ensures GotTexts(conv, c, strArrSize, message, off, r, v, off')
    {
      v, off' := Int(0), off;
      var ts: seq<seq<byte>>, ws: seq<string> := [], [];
      var j := 0;
      TextsStart(conv, c, strArrSize, message[off..]);
      while j < strArrSize
        invariant 0 <= j <= strArrSize && off' <= |message| && |ts| == j
        invariant Shaped(Cpp, conv, c, Strings(ts))
        invariant c == 'W' ==> ws == AsWides(conv, ts)
        invariant TextsSoFar(conv, c, strArrSize, message[off..], ts, message[off'..])
      {
        var text;
        TextsStep(conv, c, strArrSize, message[off..], ts, message[off'..]);
        r, text, off' := GetText(c, message, off');
        if r != Done {
          return;
        }
        OneMoreText(conv, c, ts, text);
        if c == 'W' {
          ws := ws + [conv.fromBytes(CStr(text)).value];
        }
        ts := ts + [text];
        j := j + 1;
      }
      TextsEnd(conv, c, strArrSize, message[off..], ts, message[off'..]);
      r := Done;
      v := if c == 'W' then Wides(ws) else Texts(ts);
    }

    method GetTexts(c: char, message: seq<byte>, off: nat) returns (r: Status, v: Value, off': nat)
      requires IsTexts(c) && off <= |message|
      ensures GotItem(conv, c, message, off, r, v, off')
    {
      if |message| - off < 2 {
        return Refused, Int(0), off;
      }
      var strArrSize := BytesToUint16(host, message[off..off + 2], true);
      r, v, off' := GetTextList(c, strArrSize, message, off + 2);
      TextsGot(conv, c, message, off, r, v, off');
    }

    method GetScalar(c: char, message: seq<byte>, off: nat) returns (r: Status, v: Value, off': nat)
      requires IsScalar(c) && off <= |message|
      ensures match DecodeTyped(Cpp, conv, c, message[off..])
        case Ok((w, rest)) => r == Done && v == w && off' <= |message| && rest == message[off'..]
        case Err(f) => r == StatusOf(f)
    {
      v, off' := Int(0), off;
      if |message| - off < 8 {
        return Refused, v, off;
      }
      var bytes := message[off..off + 8];
      assert message[off..][..8] == bytes && message[off..][8..] == message[off + 8..];
      if c == 'i' {
        var n := BytesToInt64(host, bytes, true);
        v := Int(n);
      } else if c == 'u' {
        var u := BytesToUint64(host, bytes, true);
        v := UInt(u);
      } else {
        var d := BytesToDouble(host, bytes, true);
        Word64Inverse(d, bytes);
        v := Double(d);
      }
      r, off' := Done, off + 8;
    }

    method GetItem(t: char, message: seq<byte>, off: nat) returns (r: Status, v: Value, off': nat)
      requires off <= |message|
      ensures GotItem(conv, t, message, off, r, v, off')
    {
      v, off' := Int(0), off;
      var c := t;
      if t == 'v' {
        if |message| - off < 1 {
          return Refused, v, off;
        }
        assert message[off..][1..] == message[off + 1..];
        var letter := LetterOf(message[off]);
        if letter.None? {
          return Refused, v, off;
        }
        c, off' := letter.value, off + 1;
      }
      if IsScalar(c) {
        r, v, off' := GetScalar(c, message, off');
      } else if IsVector(c) {
        r, v, off' := GetVector(c, message, off');
      } else if IsText(c) {
        var text;
        r, text, off' := GetText(c, message, off');
        if r == Done {
          v := if c == 'w' then Wide(conv.fromBytes(CStr(text)).value) else Text(text);
        }
      } else if IsTexts(c) {
        r, v, off' := GetTexts(c, message, off');
      } else {
        r := Refused;
      }
    }

    /**
     The caller's vector is resized to the signature and filled up to the first fault; slots after it keep what
     they held before. The source's offset is an int, so this is said of messages of at most 2^31 - 1 bytes.
     */
    method FromBinary(message: seq<byte>, args: ValueVector) returns (r: Status)
      modifies args
      ensures |message| <= MAX_OFFSET ==>
        var d := Decode(Cpp, conv, types, message);
        && r == (match d.fault case None => Done case Some(f) => StatusOf(f))
        && args.items == d.values + ResizedValues(old(args.items), |types|)[|d.values|..]
    {
      var messageOffset: nat := 0;
      args.items := ResizedValues(args.items, |types|);
      ghost var initial := args.items;
      ghost var vals: seq<Value> := [];
      var i := 0;
      ValuesStart(conv, types, message);
      assert message[0..] == message;
      while i < |types|
        invariant 0 <= i <= |types| == |initial|
        invariant ValuesRead(conv, types, message, i, vals, messageOffset)
        invariant args.items == vals + initial[|vals|..]
      {
        var v, off;
        r, v, off := GetItem(types[i], message, messageOffset);
        ItemRead(conv, types, message, i, vals, messageOffset, r, v, off);
        if r != Done {
          return;
        }
        FillSlot(vals, initial, v);
        args.items := args.items[i := v];
        vals := vals + [v];
        messageOffset := off;
        i := i + 1;
      }
      ValuesEnd(conv, types, message, vals, message[messageOffset..]);
      r := Done;
    }
  }
}
