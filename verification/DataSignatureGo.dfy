/** datasignature.go: the Go encoder over a writer and the Go decoder over a reader. */
module DataSignatureGo {
  import opened Bytes
  import opened ByteOrder
  import opened Codec

  /** Bytes not yet taken from an io.Reader. */
  class Reader {
    var unread: seq<byte>

    constructor (bytes: seq<byte>)
      ensures unread == bytes
    {
      unread := bytes;
    }

    /** binary.Read into a fixed-size destination: all of it, or an error. */
    method Read(n: nat) returns (r: Option<seq<byte>>)
      modifies this
      ensures if n <= |old(unread)| then r == Some(old(unread)[..n]) && unread == old(unread)[n..] else r == None
    {
      if n <= |unread| {
        r := Some(unread[..n]);
        unread := unread[n..];
      } else {
        unread := [];
        r := None;
      }
    }
  }

  /** binary.Write to an in-memory buffer. */
  method Write(body: ByteVector, bytes: seq<byte>)
    modifies body
    ensures body.data == old(body.data) + bytes
  {
    body.data := body.data + bytes;
  }

  method WriteText(body: ByteVector, text: seq<byte>) returns (ok: bool)
    modifies body
    ensures match TextBlock(Go, Some(text))
      case Ok(b) => ok && body.data == old(body.data) + b
      case Err(_) => !ok
  {
    if |text| > MAX_COUNT {
      return false;
    }
    Write(body, ToLE(|text|, 2));
    Write(body, text);
    Assoc(old(body.data), ToLE(|text|, 2), text);
    ok := true;
  }

  method WriteTexts(body: ByteVector, strArr: seq<seq<byte>>, ghost ts: seq<Option<seq<byte>>>) returns (ok: bool)
    requires |ts| == |strArr| && forall k :: 0 <= k < |ts| ==> ts[k] == Some(strArr[k])
    modifies body
    ensures match Body(Go, Many(ts))
      case Ok(b) => ok && body.data == old(body.data) + b
      case Err(_) => !ok
  {
    if |strArr| > MAX_COUNT {
      return false;
    }
    Write(body, ToLE(|strArr|, 2));
    ghost var head := body.data;
    var j := 0;
    while j < |strArr|
      invariant 0 <= j <= |strArr|
      invariant Prepend(head, TextBlocks(Go, ts)) == Prepend(body.data, TextBlocks(Go, ts[j..]))
    {
      assert ts[j..][0] == Some(strArr[j]) && ts[j..][1..] == ts[j + 1..];
      ghost var before := body.data;
      ok := WriteText(body, strArr[j]);
      if !ok {
        return;
      }
      if TextBlocks(Go, ts[j + 1..]).Ok? {
        Assoc(before, TextBlock(Go, Some(strArr[j])).value, TextBlocks(Go, ts[j + 1..]).value);
      }
      j := j + 1;
    }
    assert ts[j..] == [];
    if TextBlocks(Go, ts).Ok? {
      Assoc(old(body.data), ToLE(|strArr|, 2), TextBlocks(Go, ts).value);
    }
    ok := true;
  }

  method WriteBody(ghost conv: Converter, body: ByteVector, v: Value) returns (ok: bool)
    requires !v.Wide? && !v.Wides?
    modifies body
    ensures match Body(Go, ContentOf(conv, v))
      case Ok(b) => ok && body.data == old(body.data) + b
      case Err(_) => !ok
  {
    ok := true;
    match v {
      case Int(i) => Write(body, IntBytes(i));
      case UInt(u) => Write(body, ToLE(u, 8));
      case Double(d) => Write(body, Bytes64(d));
      case Text(s) => ok := WriteText(body, s);
      case Texts(ss) => ok := WriteTexts(body, ss, ContentOf(conv, v).texts);
      case Ints(ns) => ok := WriteArray(body, seq(|ns|, k requires 0 <= k < |ns| => IntBytes(ns[k])));
      case UInts(us) => ok := WriteArray(body, seq(|us|, k requires 0 <= k < |us| => ToLE(us[k], 8)));
      case Doubles(ds) => ok := WriteArray(body, seq(|ds|, k requires 0 <= k < |ds| => Bytes64(ds[k])));
    }
  }

  method WriteArray(body: ByteVector, words: seq<Word8>) returns (ok: bool)
    modifies body
    ensures match Body(Go, Vector(words))
      case Ok(b) => ok && body.data == old(body.data) + b
      case Err(_) => !ok
  {
    if |words| > MAX_COUNT {
      return false;
    }
    Write(body, ToLE(|words|, 2));
    Write(body, Concat(words));
    Assoc(old(body.data), ToLE(|words|, 2), Concat(words));
    ok := true;
  }

  method WriteItem(ghost conv: Converter, body: ByteVector, t: char, v: Value) returns (ok: bool)
    modifies body
    ensures match EncodeItem(Go, conv, t, v)
      case Ok(b) => ok && body.data == old(body.data) + b
      case Err(_) => !ok
  {
    if t == 'v' {
      if v.Wide? || v.Wides? {
        return false;
      }
      Write(body, [Tag(Letter(v))]);
      ok := WriteBody(conv, body, v);
      if ok {
        Assoc(old(body.data), [Tag(Letter(v))], Body(Go, ContentOf(conv, v)).value);
      }
    } else if !IsLetter(t) || Letter(v) != Narrow(t) {
      ok := false;
    } else {
      ok := WriteBody(conv, body, v);
    }
  }

  /** Appends the encoding to the writer, or reports that the arguments do not fit the signature. */
  method ToBinary(ghost conv: Converter, ds: string, body: ByteVector, arguments: seq<Value>) returns (ok: bool)
    modifies body
    ensures ok <==> |ds| == |arguments| && Encode(Go, conv, ds, arguments).Ok?
    ensures ok ==> body.data == old(body.data) + Encode(Go, conv, ds, arguments).value
  {
    if |ds| != |arguments| {
      return false;
    }
    var i := 0;
    assert ds[0..] == ds && arguments[0..] == arguments;
    while i < |ds|
      invariant 0 <= i <= |ds|
      invariant Prepend(old(body.data), Encode(Go, conv, ds, arguments)) == Prepend(body.data, Encode(Go, conv, ds[i..], arguments[i..]))
    {
      assert ds[i..][0] == ds[i] && ds[i..][1..] == ds[i + 1..];
      assert arguments[i..][0] == arguments[i] && arguments[i..][1..] == arguments[i + 1..];
      ghost var before := body.data;
      ok := WriteItem(conv, body, ds[i], arguments[i]);
      if !ok {
        return;
      }
      if Encode(Go, conv, ds[i + 1..], arguments[i + 1..]).Ok? {
        Assoc(before, EncodeItem(Go, conv, ds[i], arguments[i]).value, Encode(Go, conv, ds[i + 1..], arguments[i + 1..]).value);
      }
      i := i + 1;
    }
    assert ds[i..] == [];
    ok := true;
  }

  // ---- decoding ----

  method ReadText(ghost conv: Converter, c: char, mr: Reader) returns (r: Option<seq<byte>>)
    modifies mr
    ensures match TakeText(Go, conv, c, old(mr.unread))
      case Ok((t, rest)) => r == Some(t) && mr.unread == rest
      case Err(_) => r == None
  {
    var count := mr.Read(2);
    if count.None? {
      return None;
    }
    r := mr.Read(FromLE(count.value));
  }

  method ReadTexts(ghost conv: Converter, c: char, n: nat, mr: Reader) returns (r: Option<seq<seq<byte>>>)
    modifies mr
    ensures match TakeTexts(Go, conv, c, n, old(mr.unread))
      case Ok((ts, rest)) => r == Some(ts) && mr.unread == rest
      case Err(_) => r == None
  {
    var ts: seq<seq<byte>> := [];
    ghost var all := TakeTexts(Go, conv, c, n, mr.unread);
    assert all.Ok? ==> [] + all.value.0 == all.value.0;
    var j := 0;
    while j < n
      invariant 0 <= j <= n && |ts| == j
      invariant all == match TakeTexts(Go, conv, c, n - j, mr.unread)
                       case Ok((more, rest)) => Ok((ts + more, rest))
                       case Err(f) => Err(f)
    {
      var text := ReadText(conv, c, mr);
      if text.None? {
        return None;
      }
      ghost var later := TakeTexts(Go, conv, c, n - j - 1, mr.unread);
      if later.Ok? {
        Assoc(ts, [text.value], later.value.0);
      }
      ts := ts + [text.value];
      j := j + 1;
    }
    assert ts + [] == ts;
    r := Some(ts);
  }

  lemma {:induction false} WordsAtOnce(n: nat, bytes: seq<byte>)
    ensures TakeWords(n, bytes).Ok? <==> 8 * n <= |bytes|
    ensures TakeWords(n, bytes).Ok? ==> TakeWords(n, bytes).value == (Chunks(bytes[..8 * n]), bytes[8 * n..])
  {
    if n > 0 && |bytes| >= 8 {
      WordsAtOnce(n - 1, bytes[8..]);
      if 8 * n <= |bytes| {
        assert bytes[..8 * n][..8] == bytes[..8] && bytes[..8 * n][8..] == bytes[8..][..8 * (n - 1)];
        assert bytes[8..][8 * (n - 1)..] == bytes[8 * n..];
      }
    }
  }

  /** A byte string cut into words of eight. */
  function Chunks(bytes: seq<byte>): seq<Word8> {
    if |bytes| < 8 then [] else [bytes[..8]] + Chunks(bytes[8..])
  }

  method ReadValue(ghost conv: Converter, c: char, mr: Reader) returns (r: Option<Value>)
    requires IsLetter(c)
    modifies mr
    ensures match DecodeTyped(Go, conv, c, old(mr.unread))
      case Ok((v, rest)) => r == Some(v) && mr.unread == rest
      case Err(_) => r == None
  {
    if IsScalar(c) {
      var word := mr.Read(8);
      if word.None? {
        return None;
      }
      var w: Word8 := word.value;
      r := Some(if c == 'i' then Int(BytesInt(w)) else if c == 'u' then UInt(BytesUInt(w)) else Double(Word64(w)));
    } else if IsText(c) {
      var text := ReadText(conv, c, mr);
      r := if text.None? then None else Some(Text(text.value));
    } else {
      var count := mr.Read(2);
      if count.None? {
        return None;
      }
      var n := FromLE(count.value);
      if IsVector(c) {
        WordsAtOnce(n, mr.unread);
        var raw := mr.Read(8 * n);
        if raw.None? {
          return None;
        }
        var ws := Chunks(raw.value);
        r := Some(if c == 'I' then Ints(AsInts(ws)) else if c == 'U' then UInts(AsUInts(ws)) else Doubles(AsDoubles(ws)));
      } else {
        var ts := ReadTexts(conv, c, n, mr);
        r := if ts.None? then None else Some(Texts(ts.value));
      }
    }
  }

  method ReadItem(ghost conv: Converter, t: char, mr: Reader) returns (r: Option<Value>)
    modifies mr
    ensures match DecodeItem(Go, conv, t, old(mr.unread))
      case Ok((v, rest)) => r == Some(v) && mr.unread == rest
      case Err(_) => r == None
  {
    var c := t;
    if t == 'v' {
      var tag := mr.Read(1);
      if tag.None? || LetterOf(tag.value[0]).None? {
        return None;
      }
      c := LetterOf(tag.value[0]).value;
    } else if !IsLetter(t) {
      return None;
    }
    r := ReadValue(conv, c, mr);
  }

  /** Fills the caller's slice with one value per signature letter and leaves the reader after the last of them. */
  method FromBinary(ghost conv: Converter, ds: string, mr: Reader, callbackValues: ValueVector) returns (ok: bool)
    modifies mr, callbackValues
    ensures var d := Decode(Go, conv, ds, old(mr.unread));
      && (ok <==> d.fault.None?)
      && (ok ==> callbackValues.items == d.values && mr.unread == d.rest)
  {
    callbackValues.items := ResizedValues(callbackValues.items, |ds|);
    ghost var initial := callbackValues.items;
    ghost var vals: seq<Value> := [];
    ghost var all := Decode(Go, conv, ds, mr.unread);
    assert ds[0..] == ds && [] + all.values == all.values;
    var i := 0;
    while i < |ds|
      invariant 0 <= i <= |ds| == |initial| && |vals| == i
      invariant callbackValues.items == vals + initial[|vals|..]
      invariant all == PrependValues(vals, Decode(Go, conv, ds[i..], mr.unread))
    {
      assert ds[i..][0] == ds[i] && ds[i..][1..] == ds[i + 1..];
      var v := ReadItem(conv, ds[i], mr);
      if v.None? {
        return false;
      }
      FillSlot(vals, initial, v.value);
      callbackValues.items := callbackValues.items[i := v.value];
      Assoc(vals, [v.value], Decode(Go, conv, ds[i + 1..], mr.unread).values);
      vals := vals + [v.value];
      i := i + 1;
    }
    assert ds[i..] == [] && vals + [] == vals;
    ok := true;
  }
}
