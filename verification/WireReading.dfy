/** What the decoders make of bytes: exactly the format for Go, and for C++ the same but for its wide strings. */
module WireReading {
  import opened Bytes
  import opened Codec
  import opened CodecLaws
  import opened Canonicity
  import opened WireFormat

  // ---- the value a receiver is meant to see ----

  /** A text as a C++ wide string. */
  function Widened(conv: Converter, t: Option<seq<byte>>): Option<Value> {
    if t.Some? && conv.fromBytes(t.value).Some? then Some(Wide(conv.fromBytes(t.value).value)) else None
  }

  /** One value: a number as it is, a string in the form that the receiver's letter has. */
  lemma ImageIs(d: Dialect, conv: Converter, t: char, v: Value)
    requires !v.Texts? && !v.Wides?
    ensures Image(d, conv, t, v) ==
      match v
      case Text(s) => if d.Cpp? && (t == 'w' || t == 'W') then Widened(conv, Some(s)) else Some(v)
      case Wide(w) =>
        if d.Cpp? && (t == 'w' || t == 'W') then Widened(conv, conv.toBytes(w))
        else if conv.toBytes(w).Some? then Some(Text(conv.toBytes(w).value)) else None
      case _ => Some(v)
  {
  }

  /** An array of strings likewise, string by string. */
  lemma ImagesOfTexts(d: Dialect, conv: Converter, t: char, v: Value)
    requires v.Texts? || v.Wides?
    ensures var texts := if v.Texts? then Options(v.ss) else Narrowed(conv, v.ws);
      var image := Image(d, conv, t, v);
      if d.Cpp? && (t == 'w' || t == 'W') then
        && (image.Some? <==> forall k :: 0 <= k < |texts| ==> Widened(conv, texts[k]).Some?)
        && (image.Some? ==> image.value.Wides? && |image.value.ws| == |texts|
                            && forall k :: 0 <= k < |texts| ==> Some(Wide(image.value.ws[k])) == Widened(conv, texts[k]))
      else
        && (image.Some? <==> forall k :: 0 <= k < |texts| ==> texts[k].Some?)
        && (image.Some? ==> image.value.Texts? && Options(image.value.ss) == texts)
  {
    var texts := if v.Texts? then Options(v.ss) else Narrowed(conv, v.ws);
    assert ContentOf(conv, v).texts == texts;
    var image := Image(d, conv, t, v);
    if d.Cpp? && (t == 'w' || t == 'W') {
      if forall k :: 0 <= k < |texts| ==> Widened(conv, texts[k]).Some? {
        assert forall k :: 0 <= k < |texts| ==> texts[k].Some? && conv.fromBytes(OrEmpty(texts[k])).Some?;
      }
      if image.Some? {
        assert forall k :: 0 <= k < |texts| ==> Widened(conv, texts[k]).Some?;
      }
    } else if image.Some? {
      assert Options(image.value.ss) == texts;
    }
  }

  // ---- Go ----

  /** Counts and lengths that two bytes can say. */
  predicate Short(v: Value) {
    match v
    case Text(s) => |s| < 65536
    case Texts(ss) => |ss| < 65536 && forall k :: 0 <= k < |ss| ==> |ss[k]| < 65536
    case _ => Size(v) < 65536
  }

  /** The bytes begin with the value's body, and `rest` follows. */
  ghost predicate BodyFirst(conv: Converter, v: Value, bytes: seq<byte>, rest: seq<byte>) {
    && !v.Wide? && !v.Wides? && Short(v) && |rest| <= |bytes|
    && bytes[|bytes| - |rest|..] == rest && IsBody(Go, conv, v, bytes[..|bytes| - |rest|])
  }

  lemma ShortIsSendable(conv: Converter, v: Value)
    requires !v.Wide? && !v.Wides? && Short(v)
    ensures SizesFit(Go, conv, v)
    ensures IsLetter(WireLetter(v)) && ContentDelivers(Go, conv, WireLetter(v), ContentOf(conv, v))
    ensures forall c :: ContentDelivers(Go, conv, c, ContentOf(conv, v))
  {
  }

  lemma ImageOfNarrow(conv: Converter, t: char, v: Value)
    requires !v.Wide? && !v.Wides?
    ensures Image(Go, conv, t, v) == Some(v)
  {
    if v.Texts? {
      ImagesOfTexts(Go, conv, t, v);
      assert Options(Image(Go, conv, t, v).value.ss) == Options(v.ss);
      forall k | 0 <= k < |v.ss|
        ensures Image(Go, conv, t, v).value.ss[k] == v.ss[k]
      {
        assert Options(Image(Go, conv, t, v).value.ss)[k] == Options(v.ss)[k];
      }
      assert Image(Go, conv, t, v).value.ss == v.ss;
    } else {
      ImageIs(Go, conv, t, v);
    }
  }

  lemma ReadIsBody(conv: Converter, c: char, bytes: seq<byte>)
    requires IsLetter(c) && DecodeTyped(Go, conv, c, bytes).Ok?
    ensures var (v, rest) := DecodeTyped(Go, conv, c, bytes).value;
      UnderLetter(Go, c, v) && BodyFirst(conv, v, bytes, rest)
  {
    var (v, rest) := DecodeTyped(Go, conv, c, bytes).value;
    BodyCanonical(Go, Go, conv, c, bytes);
    ReadIsShort(conv, c, bytes);
    var e := Body(Go, ContentOf(conv, v)).value;
    assert bytes[..|bytes| - |rest|] == e && bytes[|bytes| - |rest|..] == rest;
    BodyIs(Go, conv, v, e);
    LettersAre(Go, c, v);
  }

  lemma ReadIsShort(conv: Converter, c: char, bytes: seq<byte>)
    requires IsLetter(c) && DecodeTyped(Go, conv, c, bytes).Ok?
    ensures var v := DecodeTyped(Go, conv, c, bytes).value.0; !v.Wide? && !v.Wides? && Short(v)
  {
    var r := TakeBody(Go, conv, c, bytes).value.0;
    if |bytes| >= 2 {
      CountSplits(bytes);
    }
    if r.Strings? {
      TextsAreShort(conv, c, |r.texts|, bytes[2..]);
    }
  }

  lemma {:induction false} TextsAreShort(conv: Converter, c: char, n: nat, bytes: seq<byte>)
    requires TakeTexts(Go, conv, c, n, bytes).Ok?
    ensures var ts := TakeTexts(Go, conv, c, n, bytes).value.0; forall k :: 0 <= k < |ts| ==> |ts[k]| < 65536
  {
    if n > 0 {
      TextsAreShort(conv, c, n - 1, TakeText(Go, conv, c, bytes).value.1);
    }
  }

  lemma BodyIsRead(conv: Converter, c: char, v: Value, bytes: seq<byte>, rest: seq<byte>)
    requires UnderLetter(Go, c, v) && BodyFirst(conv, v, bytes, rest)
    ensures IsLetter(c) && DecodeTyped(Go, conv, c, bytes) == Ok((v, rest))
  {
    var e := bytes[..|bytes| - |rest|];
    LettersAre(Go, c, v);
    ShortIsSendable(conv, v);
    BodyIs(Go, conv, v, e);
    ImageOfNarrow(conv, c, v);
    TypedRoundTrip(Go, Go, conv, c, v, rest);
    assert bytes == e + rest;
  }

  /** Under a type letter Go reads exactly the format. */
  lemma TypedReadExactly(conv: Converter, c: char, v: Value, bytes: seq<byte>, rest: seq<byte>)
    requires IsLetter(c)
    ensures DecodeTyped(Go, conv, c, bytes) == Ok((v, rest)) <==> UnderLetter(Go, c, v) && BodyFirst(conv, v, bytes, rest)
  {
    if DecodeTyped(Go, conv, c, bytes) == Ok((v, rest)) {
      ReadIsBody(conv, c, bytes);
    }
    if UnderLetter(Go, c, v) && BodyFirst(conv, v, bytes, rest) {
      BodyIsRead(conv, c, v, bytes, rest);
    }
  }

  /** A variant is read under the letter whose code its first byte is. */
  lemma VariantReadExactly(d: Dialect, conv: Converter, bytes: seq<byte>)
    ensures bytes == [] ==> DecodeItem(d, conv, 'v', bytes) == Err(Incomplete)
    ensures bytes != [] && (forall c :: c in "iudswIUDSW" ==> bytes[0] as int != c as int) ==>
              DecodeItem(d, conv, 'v', bytes) == Err(BadType)
    ensures forall c :: bytes != [] && c in "iudswIUDSW" && bytes[0] as int == c as int ==>
              IsLetter(c) && DecodeItem(d, conv, 'v', bytes) == DecodeTyped(d, conv, c, bytes[1..])
  {
    if bytes != [] {
      forall c: char
        ensures LetterOf(bytes[0]) == Some(c) <==> IsLetter(c) && bytes[0] as int == c as int
        ensures IsLetter(c) <==> c in "iudswIUDSW"
      {
        TagIsCode(c, bytes[0]);
      }
    }
  }

  /** And under any other letter than these and 'v' nothing is read. */
  lemma LetterReadExactly(d: Dialect, conv: Converter, t: char, bytes: seq<byte>)
    requires t != 'v'
    ensures if t in "iudswIUDSW" then IsLetter(t) && DecodeItem(d, conv, t, bytes) == DecodeTyped(d, conv, t, bytes)
            else DecodeItem(d, conv, t, bytes) == Err(BadType)
  {
  }

  lemma {:induction false} WordsFault(n: nat, bytes: seq<byte>)
    ensures TakeWords(n, bytes).Err? ==> TakeWords(n, bytes) == Err(Incomplete)
  {
    if n > 0 && |bytes| >= 8 {
      WordsFault(n - 1, bytes[8..]);
    }
  }

  lemma {:induction false} TextsFault(conv: Converter, c: char, n: nat, bytes: seq<byte>)
    ensures TakeTexts(Go, conv, c, n, bytes).Err? ==> TakeTexts(Go, conv, c, n, bytes) == Err(Incomplete)
  {
    if n > 0 && TakeText(Go, conv, c, bytes).Ok? {
      TextsFault(conv, c, n - 1, TakeText(Go, conv, c, bytes).value.1);
    }
  }

  /** Under a type letter Go gives up for want of bytes and for nothing else. */
  lemma OnlyIncomplete(conv: Converter, c: char, bytes: seq<byte>)
    requires IsLetter(c)
    ensures DecodeTyped(Go, conv, c, bytes).Err? ==> DecodeTyped(Go, conv, c, bytes) == Err(Incomplete)
  {
    if |bytes| >= 2 {
      if IsVector(c) {
        WordsFault(FromLE(bytes[..2]), bytes[2..]);
      } else if IsTexts(c) {
        TextsFault(conv, c, FromLE(bytes[..2]), bytes[2..]);
      }
    }
  }

  // ---- C++ ----

  /** A received text as a wide string: what is before its first NUL, converted. */
  function Heard(conv: Converter, s: seq<byte>): Option<string> {
    conv.fromBytes(CStr(s))
  }

  predicate AllHeard(conv: Converter, ts: seq<seq<byte>>) {
    forall k :: 0 <= k < |ts| ==> Heard(conv, ts[k]).Some?
  }

  lemma HeardOneByOne(conv: Converter, t: seq<byte>, more: seq<seq<byte>>)
    ensures AllHeard(conv, [t] + more) <==> Heard(conv, t).Some? && AllHeard(conv, more)
  {
    var ts := [t] + more;
    assert ts[0] == t;
    assert forall k :: 0 <= k < |more| ==> more[k] == ts[k + 1];
    if Heard(conv, t).Some? && AllHeard(conv, more) {
      forall k | 0 <= k < |ts|
        ensures Heard(conv, ts[k]).Some?
      {
        assert k > 0 ==> ts[k] == more[k - 1];
      }
    }
  }

  lemma FirstHeard(conv: Converter, bytes: seq<byte>)
    ensures var go, cpp := TakeText(Go, conv, 'W', bytes), TakeText(Cpp, conv, 'W', bytes);
      cpp == if go.Ok? && Heard(conv, go.value.0).None? then Err(BadText) else go
  {
  }

  /** The texts of an array as C++ takes them, against those that Go takes. */
  ghost predicate TextsCompare(conv: Converter, n: nat, bytes: seq<byte>) {
    var go, cpp := TakeTexts(Go, conv, 'W', n, bytes), TakeTexts(Cpp, conv, 'W', n, bytes);
    if go.Ok? then cpp == if AllHeard(conv, go.value.0) then go else Err(BadText) else cpp.Err?
  }

  lemma {:induction false} TextsHeard(conv: Converter, n: nat, bytes: seq<byte>)
    ensures TextsCompare(conv, n, bytes)
  {
    if n > 0 {
      FirstHeard(conv, bytes);
      var one := TakeText(Go, conv, 'W', bytes);
      if one.Ok? {
        TextsHeard(conv, n - 1, one.value.1);
        var more := TakeTexts(Go, conv, 'W', n - 1, one.value.1);
        if more.Ok? {
          HeardOneByOne(conv, one.value.0, more.value.0);
        }
      }
    }
  }

  /**
   Under a type letter C++ reads what Go reads, and makes wide strings of it where the letter is 'w' or 'W': if they
   cannot all be converted it throws.
   */
  lemma CppReadsAsGo(conv: Converter, c: char, bytes: seq<byte>)
    requires IsLetter(c)
    ensures var go, cpp := DecodeTyped(Go, conv, c, bytes), DecodeTyped(Cpp, conv, c, bytes);
      if c != 'w' && c != 'W' then cpp == go
      else if go.Err? then cpp.Err?
      else if c == 'w' then
        go.value.0.Text? &&
        cpp == match Heard(conv, go.value.0.s) case Some(w) => Ok((Wide(w), go.value.1)) case None => Err(BadText)
      else
        go.value.0.Texts? &&
        var ss := go.value.0.ss;
        if !AllHeard(conv, ss) then cpp == Err(BadText)
        else cpp.Ok? && cpp.value.1 == go.value.1 && cpp.value.0.Wides? && |cpp.value.0.ws| == |ss|
             && forall k :: 0 <= k < |ss| ==> Some(cpp.value.0.ws[k]) == Heard(conv, ss[k])
  {
    if c == 'W' {
      if |bytes| >= 2 {
        TextsHeard(conv, FromLE(bytes[..2]), bytes[2..]);
      }
    } else if c != 'w' {
      SameForNarrow(conv, c, bytes);
    }
  }

  lemma NarrowTextSame(conv: Converter, c: char, bytes: seq<byte>)
    requires c != 'w' && c != 'W'
    ensures TakeText(Cpp, conv, c, bytes) == TakeText(Go, conv, c, bytes)
  {
  }

  lemma {:induction false} NarrowTextsSame(conv: Converter, c: char, n: nat, bytes: seq<byte>)
    requires c != 'w' && c != 'W'
    ensures TakeTexts(Cpp, conv, c, n, bytes) == TakeTexts(Go, conv, c, n, bytes)
  {
    if n > 0 {
      NarrowTextSame(conv, c, bytes);
      if TakeText(Go, conv, c, bytes).Ok? {
        NarrowTextsSame(conv, c, n - 1, TakeText(Go, conv, c, bytes).value.1);
      }
    }
  }

  lemma SameForNarrow(conv: Converter, c: char, bytes: seq<byte>)
    requires IsLetter(c) && c != 'w' && c != 'W'
    ensures DecodeTyped(Cpp, conv, c, bytes) == DecodeTyped(Go, conv, c, bytes)
  {
    if IsTexts(c) && |bytes| >= 2 {
      NarrowTextsSame(conv, c, FromLE(bytes[..2]), bytes[2..]);
    }
  }

  /** Text k is all there and cannot be converted. */
  predicate ThrowsAt(conv: Converter, k: nat, bytes: seq<byte>) {
    var r := TakeTexts(Go, conv, 'W', k + 1, bytes);
    r.Ok? && Heard(conv, r.value.0[k]).None?
  }

  lemma OneText(conv: Converter, bytes: seq<byte>)
    requires TakeText(Go, conv, 'W', bytes).Ok?
    ensures var (t, rest) := TakeText(Go, conv, 'W', bytes).value;
      TakeTexts(Go, conv, 'W', 1, bytes) == Ok(([t], rest))
  {
    var (t, rest) := TakeText(Go, conv, 'W', bytes).value;
    assert TakeTexts(Go, conv, 'W', 0, rest) == Ok(([], rest));
    assert [t] + [] == [t];
  }

  lemma TextsAfterFirst(conv: Converter, k: nat, bytes: seq<byte>)
    requires TakeText(Go, conv, 'W', bytes).Ok?
    ensures ThrowsAt(conv, k + 1, bytes) <==> ThrowsAt(conv, k, TakeText(Go, conv, 'W', bytes).value.1)
  {
  }

  lemma {:induction false} ThrownAt(conv: Converter, n: nat, bytes: seq<byte>) returns (k: nat)
    requires TakeTexts(Cpp, conv, 'W', n, bytes) == Err(BadText)
    ensures k < n && ThrowsAt(conv, k, bytes)
  {
    FirstHeard(conv, bytes);
    OneText(conv, bytes);
    if TakeText(Cpp, conv, 'W', bytes).Err? {
      k := 0;
    } else {
      var j := ThrownAt(conv, n - 1, TakeText(Go, conv, 'W', bytes).value.1);
      k := j + 1;
      TextsAfterFirst(conv, j, bytes);
    }
  }

  lemma {:induction false} ThrowsThere(conv: Converter, n: nat, k: nat, bytes: seq<byte>)
    requires k < n && ThrowsAt(conv, k, bytes)
    ensures TakeTexts(Cpp, conv, 'W', n, bytes) == Err(BadText)
  {
    FirstHeard(conv, bytes);
    OneText(conv, bytes);
    if k > 0 {
      TextsAfterFirst(conv, k - 1, bytes);
      if TakeText(Cpp, conv, 'W', bytes).Ok? {
        ThrowsThere(conv, n - 1, k - 1, TakeText(Go, conv, 'W', bytes).value.1);
      }
    }
  }

  /**
   When C++ throws on an array of wide strings: at one that is all there and cannot be converted, even if something after
   it is missing.
   */
  lemma ThrowsExactly(conv: Converter, bytes: seq<byte>)
    ensures DecodeTyped(Cpp, conv, 'W', bytes) == Err(BadText)
       <==> |bytes| >= 2 && exists k :: 0 <= k < FromLE(bytes[..2]) && ThrowsAt(conv, k, bytes[2..])
  {
    if |bytes| >= 2 {
      var n := FromLE(bytes[..2]);
      if TakeTexts(Cpp, conv, 'W', n, bytes[2..]) == Err(BadText) {
        var k := ThrownAt(conv, n, bytes[2..]);
      }
      if exists k :: 0 <= k < n && ThrowsAt(conv, k, bytes[2..]) {
        var k :| 0 <= k < n && ThrowsAt(conv, k, bytes[2..]);
        ThrowsThere(conv, n, k, bytes[2..]);
      }
    }
  }

  // ---- lists ----

  /** The first item, and then the rest of the list from where it ends. */
  lemma FirstRead(d: Dialect, conv: Converter, sig: string, bytes: seq<byte>)
    requires sig != []
    ensures var first := DecodeItem(d, conv, sig[0], bytes);
      Decode(d, conv, sig, bytes) ==
        if first.Err? then Decoded([], bytes, Some(first.fault))
        else PrependValues([first.value.0], Decode(d, conv, sig[1..], first.value.1))
  {
  }

  /** The items before the n-th are read without a fault, to these values and as far as `rest`. */
  predicate ReadUpTo(d: Dialect, conv: Converter, sig: string, bytes: seq<byte>, vals: seq<Value>, rest: seq<byte>) {
    |vals| <= |sig| && Decode(d, conv, sig[..|vals|], bytes) == Decoded(vals, rest, None)
  }

  lemma ReadOneMore(d: Dialect, conv: Converter, sig: string, bytes: seq<byte>, vals: seq<Value>, rest: seq<byte>)
    requires sig != [] && DecodeItem(d, conv, sig[0], bytes).Ok?
    requires ReadUpTo(d, conv, sig[1..], DecodeItem(d, conv, sig[0], bytes).value.1, vals, rest)
    ensures ReadUpTo(d, conv, sig, bytes, [DecodeItem(d, conv, sig[0], bytes).value.0] + vals, rest)
  {
    assert sig[..1 + |vals|][1..] == sig[1..][..|vals|];
  }

  /** A list is read up to the first item that cannot be, with that item's fault and all that was left to read for it. */
  lemma {:induction false} ListReadExactly(d: Dialect, conv: Converter, sig: string, bytes: seq<byte>)
    ensures var r := Decode(d, conv, sig, bytes);
      var n := |r.values|;
      && ReadUpTo(d, conv, sig, bytes, r.values, r.rest)
      && (n < |sig| ==> DecodeItem(d, conv, sig[n], r.rest).Err? && r.fault == Some(DecodeItem(d, conv, sig[n], r.rest).fault))
  {
    if sig != [] {
      FirstRead(d, conv, sig, bytes);
      var first := DecodeItem(d, conv, sig[0], bytes);
      if first.Ok? {
        var more := Decode(d, conv, sig[1..], first.value.1);
        ListReadExactly(d, conv, sig[1..], first.value.1);
        ReadOneMore(d, conv, sig, bytes, more.values, more.rest);
        assert |more.values| < |sig| - 1 ==> sig[1..][|more.values|] == sig[|more.values| + 1];
      } else {
        assert sig[..0] == [];
      }
    }
  }
}
