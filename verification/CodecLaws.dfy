/** What the two implementations of the codec promise each other. */
module CodecLaws {
  import opened Bytes
  import opened ByteOrder
  import opened Codec

  // ---- what the receiver is meant to get ----

  function OrEmpty(t: Option<seq<byte>>): seq<byte> {
    match t case Some(b) => b case None => []
  }

  function Plain(ts: seq<Option<seq<byte>>>): seq<seq<byte>> {
    seq(|ts|, k requires 0 <= k < |ts| => OrEmpty(ts[k]))
  }

  function Options(ts: seq<seq<byte>>): (r: seq<Option<seq<byte>>>)
    ensures |r| == |ts|
  {
    seq(|ts|, k requires 0 <= k < |ts| => Some(ts[k]))
  }

  /** The letter under which an item's content is received: the receiver's own, or for a variant the one its tag names. */
  function ContentLetter(t: char, v: Value): char {
    if t == 'v' then Narrow(Letter(v)) else t
  }

  /** The value a receiver using letter `t` should see: the same one, with strings in the receiver's own form. */
  function Image(d: Dialect, conv: Converter, t: char, v: Value): Option<Value> {
    var c := ContentLetter(t, v);
    match ContentOf(conv, v)
    case Scalar(_) => Some(v)
    case Vector(_) => Some(v)
    case One(None) => None
    case One(Some(b)) =>
      if !WideView(d, c) then Some(Text(b))
      else if conv.fromBytes(b).Some? then Some(Wide(conv.fromBytes(b).value)) else None
    case Many(ts) =>
      if exists k :: 0 <= k < |ts| && ts[k].None? then None
      else if !WideView(d, c) then Some(Texts(Plain(ts)))
      else if exists k :: 0 <= k < |ts| && conv.fromBytes(OrEmpty(ts[k])).None? then None
      else Some(Wides(seq(|ts|, k requires 0 <= k < |ts| => conv.fromBytes(OrEmpty(ts[k])).value)))
  }

  function Images(d: Dialect, conv: Converter, sig: string, vals: seq<Value>): (r: seq<Value>)
    requires |sig| == |vals|
    ensures |r| == |vals|
  {
    if sig == [] then [] else
      [match Image(d, conv, sig[0], vals[0]) case Some(v) => v case None => vals[0]]
      + Images(d, conv, sig[1..], vals[1..])
  }

  predicate TextDelivers(d: Dialect, conv: Converter, c: char, t: Option<seq<byte>>) {
    && t.Some?
    && |t.value| < MAX_COUNT
    && (WideView(d, c) ==> 0 !in t.value && conv.fromBytes(t.value).Some?)
  }

  predicate ContentDelivers(d: Dialect, conv: Converter, c: char, content: Content) {
    match content
    case Scalar(_) => true
    case Vector(ws) => |ws| < MAX_COUNT
    case One(t) => TextDelivers(d, conv, c, t)
    case Many(ts) => |ts| < MAX_COUNT && forall k :: 0 <= k < |ts| ==> TextDelivers(d, conv, c, ts[k])
  }

  /** The sender's check: counts below 65536 and, for a wide-string receiver, no NUL and valid UTF-8. */
  predicate Delivers(d: Dialect, conv: Converter, t: char, v: Value) {
    ContentDelivers(d, conv, ContentLetter(t, v), ContentOf(conv, v))
  }

  predicate AllDeliver(d: Dialect, conv: Converter, sig: string, vals: seq<Value>)
    requires |sig| == |vals|
  {
    forall k :: 0 <= k < |sig| ==> Delivers(d, conv, sig[k], vals[k])
  }

  /** The two ends may disagree about wide and narrow strings, and about nothing else. */
  predicate Compatible(a: string, b: string) {
    |a| == |b| && forall k :: 0 <= k < |a| ==> Narrow(a[k]) == Narrow(b[k])
  }

  // ---- reading back one item ----

  lemma CountRoundTrip(n: nat)
    requires n <= MAX_COUNT
    ensures FromLE(ToLE(n, 2)) == if n < MAX_COUNT then n else 0
  {
    Pow256Values();
    if n < MAX_COUNT {
      FromLEToLE(n, 2);
    } else {
      assert ToLE(n, 2) == [0] + ToLE(256, 1);
      assert ToLE(256, 1) == [0] + [];
      assert FromLE([0, 0]) == 256 * FromLE([0, 0][1..]);
      assert [0, 0][1..] == [0];
      assert FromLE([0]) == 256 * FromLE([0][1..]);
    }
  }

  lemma Prefixed(head: seq<byte>, body: seq<byte>, suffix: seq<byte>)
    ensures (head + body + suffix)[..|head|] == head && (head + body + suffix)[|head|..] == body + suffix
  {
  }

  lemma KeepsAll<T>(d: Dialect, s: seq<T>)
    ensures |s| < MAX_COUNT ==> Kept(d, s) == s
  {
    if |s| < MAX_COUNT {
      assert |s| % MAX_COUNT == |s|;
    }
  }

  lemma {:induction false} TakeWordsBack(ws: seq<Word8>, suffix: seq<byte>)
    ensures TakeWords(|ws|, Concat(ws) + suffix) == Ok((ws, suffix))
  {
    if ws == [] {
      assert Concat(ws) + suffix == suffix;
    } else {
      var bytes := Concat(ws) + suffix;
      Assoc(ws[0], Concat(ws[1..]), suffix);
      assert bytes[..8] == ws[0] && bytes[8..] == Concat(ws[1..]) + suffix;
      TakeWordsBack(ws[1..], suffix);
      assert ws == [ws[0]] + ws[1..];
    }
  }

  /** A text block is read back whole, except that a length of 65536 reads as zero. */
  lemma TakeTextBack(ds: Dialect, dr: Dialect, conv: Converter, c: char, b: seq<byte>, suffix: seq<byte>)
    requires TextBlock(ds, Some(b)).Ok?
    ensures var r := TakeText(dr, conv, c, TextBlock(ds, Some(b)).value + suffix);
      && (|b| < MAX_COUNT ==> r == if Readable(dr, conv, c, b) then Ok((b, suffix)) else Err(BadText))
      && (|b| == MAX_COUNT && r.Ok? ==> r.value.0 == [])
  {
    var bytes := TextBlock(ds, Some(b)).value + suffix;
    CountRoundTrip(|b|);
    Prefixed(ToLE(|b|, 2), b, suffix);
    assert (b + suffix)[..|b|] == b && (b + suffix)[|b|..] == suffix;
  }

  lemma NoNulReads(d: Dialect, conv: Converter, c: char, t: Option<seq<byte>>)
    requires TextDelivers(d, conv, c, t)
    ensures Readable(d, conv, c, t.value) && (WideView(d, c) ==> CStr(t.value) == t.value)
  {
  }

  lemma FirstBlock(ds: Dialect, ts: seq<Option<seq<byte>>>, suffix: seq<byte>)
    requires ts != [] && TextBlocks(ds, ts).Ok?
    ensures ts[0].Some? && TextBlock(ds, ts[0]).Ok? && TextBlocks(ds, ts[1..]).Ok?
    ensures TextBlocks(ds, ts).value + suffix == TextBlock(ds, ts[0]).value + (TextBlocks(ds, ts[1..]).value + suffix)
  {
    Assoc(TextBlock(ds, ts[0]).value, TextBlocks(ds, ts[1..]).value, suffix);
  }

  lemma {:induction false} TakeTextsBack(ds: Dialect, dr: Dialect, conv: Converter, c: char,
                                         ts: seq<Option<seq<byte>>>, suffix: seq<byte>)
    requires TextBlocks(ds, ts).Ok? && forall k :: 0 <= k < |ts| ==> TextDelivers(dr, conv, c, ts[k])
    ensures TakeTexts(dr, conv, c, |ts|, TextBlocks(ds, ts).value + suffix) == Ok((Plain(ts), suffix))
  {
    if ts == [] {
      assert TextBlocks(ds, ts).value + suffix == suffix;
    } else {
      FirstBlock(ds, ts, suffix);
      NoNulReads(dr, conv, c, ts[0]);
      TakeTextBack(ds, dr, conv, c, ts[0].value, TextBlocks(ds, ts[1..]).value + suffix);
      TakeTextsBack(ds, dr, conv, c, ts[1..], suffix);
      assert Plain(ts) == [ts[0].value] + Plain(ts[1..]);
    }
  }

  predicate Fits(c: char, content: Content) {
    match content
    case Scalar(_) => IsScalar(c)
    case Vector(_) => IsVector(c)
    case One(_) => IsText(c)
    case Many(_) => IsTexts(c)
  }

  function Raw(content: Content): Received {
    match content
    case Scalar(w) => Word(w)
    case Vector(ws) => Words(ws)
    case One(t) => String(OrEmpty(t))
    case Many(ts) => Strings(Plain(ts))
  }

  lemma TakeVectorBack(ds: Dialect, ws: seq<Word8>, suffix: seq<byte>)
    requires |ws| < MAX_COUNT
    ensures var bytes := Body(ds, Vector(ws)).value + suffix;
      |bytes| >= 2 && TakeWords(FromLE(bytes[..2]), bytes[2..]) == Ok((ws, suffix))
  {
    var bytes := Body(ds, Vector(ws)).value + suffix;
    CountRoundTrip(|ws|);
    KeepsAll(ds, ws);
    Prefixed(ToLE(|ws|, 2), Concat(ws), suffix);
    TakeWordsBack(ws, suffix);
  }

  lemma ManyParts(ds: Dialect, ts: seq<Option<seq<byte>>>, suffix: seq<byte>, bytes: seq<byte>)
    requires Body(ds, Many(ts)).Ok? && bytes == Body(ds, Many(ts)).value + suffix
    ensures |bytes| >= 2 && FromLE(bytes[..2]) == if |ts| < MAX_COUNT then |ts| else 0
    ensures |ts| < MAX_COUNT ==> TextBlocks(ds, ts).Ok? && bytes[2..] == TextBlocks(ds, ts).value + suffix
  {
    CountRoundTrip(|ts|);
    Prefixed(ToLE(|ts|, 2), TextBlocks(ds, Kept(ds, ts)).value, suffix);
    KeepsAll(ds, ts);
  }

  lemma TakeManyBack(ds: Dialect, dr: Dialect, conv: Converter, c: char, ts: seq<Option<seq<byte>>>, suffix: seq<byte>)
    requires IsTexts(c) && Body(ds, Many(ts)).Ok? && ContentDelivers(dr, conv, c, Many(ts))
    ensures TakeBody(dr, conv, c, Body(ds, Many(ts)).value + suffix) == Ok((Strings(Plain(ts)), suffix))
  {
    ManyParts(ds, ts, suffix, Body(ds, Many(ts)).value + suffix);
    TakeTextsBack(ds, dr, conv, c, ts, suffix);
  }

  lemma TakeBodyBack(ds: Dialect, dr: Dialect, conv: Converter, c: char, content: Content, suffix: seq<byte>)
    requires Fits(c, content) && Body(ds, content).Ok? && ContentDelivers(dr, conv, c, content)
    ensures TakeBody(dr, conv, c, Body(ds, content).value + suffix) == Ok((Raw(content), suffix))
  {
    var bytes := Body(ds, content).value + suffix;
    match content
    case Scalar(w) =>
      assert bytes[..8] == w && bytes[8..] == suffix;
    case Vector(ws) =>
      TakeVectorBack(ds, ws, suffix);
    case One(t) =>
      NoNulReads(dr, conv, c, t);
      TakeTextBack(ds, dr, conv, c, t.value, suffix);
    case Many(ts) =>
      TakeManyBack(ds, dr, conv, c, ts, suffix);
  }

  lemma VectorInverse(conv: Converter, v: Value)
    requires v.Ints? || v.UInts? || v.Doubles?
    ensures var ws := ContentOf(conv, v).words;
      && (v.Ints? ==> v.ns == AsInts(ws))
      && (v.UInts? ==> v.us == AsUInts(ws))
      && (v.Doubles? ==> v.ds == AsDoubles(ws))
  {
    var zero := [0, 0, 0, 0, 0, 0, 0, 0];
    if v.Ints? {
      forall k | 0 <= k < |v.ns| ensures BytesInt(IntBytes(v.ns[k])) == v.ns[k] { IntBytesInverse(v.ns[k], zero); }
    } else if v.UInts? {
      forall k | 0 <= k < |v.us| ensures BytesUInt(ToLE(v.us[k], 8)) == v.us[k] { UIntBytesInverse(v.us[k], zero); }
    } else {
      forall k | 0 <= k < |v.ds| ensures Word64(Bytes64(v.ds[k])) == v.ds[k] { Word64Inverse(v.ds[k], zero); }
    }
  }

  lemma ScalarInverse(v: Value)
    ensures v.Int? ==> BytesInt(IntBytes(v.i)) == v.i
    ensures v.UInt? ==> BytesUInt(ToLE(v.u, 8)) == v.u
    ensures v.Double? ==> Word64(Bytes64(v.d)) == v.d
  {
    var zero := [0, 0, 0, 0, 0, 0, 0, 0];
    if v.Int? { IntBytesInverse(v.i, zero); }
    if v.UInt? { UIntBytesInverse(v.u, zero); }
    if v.Double? { Word64Inverse(v.d, zero); }
  }

  /** Interpreting delivered content under the receiver's letter gives the intended value. */
  lemma ValueIsImage(d: Dialect, conv: Converter, c: char, v: Value)
    requires IsLetter(c) && Narrow(c) == Narrow(Letter(v)) && ContentDelivers(d, conv, c, ContentOf(conv, v))
    ensures Fits(c, ContentOf(conv, v)) && Shaped(d, conv, c, Raw(ContentOf(conv, v)))
    ensures Image(d, conv, c, v) == Some(ValueOf(d, conv, c, Raw(ContentOf(conv, v))))
  {
    var content := ContentOf(conv, v);
    match content
    case Scalar(_) =>
      ScalarInverse(v);
    case Vector(_) =>
      VectorInverse(conv, v);
    case One(t) =>
      NoNulReads(d, conv, c, t);
    case Many(ts) =>
      forall k | 0 <= k < |ts| ensures Readable(d, conv, c, ts[k].value) && (WideView(d, c) ==> CStr(ts[k].value) == ts[k].value) {
        NoNulReads(d, conv, c, ts[k]);
      }
      if WideView(d, c) {
        var image := Image(d, conv, c, v).value;
        assert image.ws == ValueOf(d, conv, c, Raw(content)).ws;
      }
  }

  /** The tag of a letter is its ASCII code, and a byte is a tag just if it is the code of a letter. */
  lemma TagIsCode(c: char, b: byte)
    ensures IsLetter(c) ==> Tag(c) as int == c as int
    ensures LetterOf(b) == Some(c) <==> IsLetter(c) && b as int == c as int
  {
  }

  lemma TypedRoundTrip(ds: Dialect, dr: Dialect, conv: Converter, c: char, v: Value, suffix: seq<byte>)
    requires IsLetter(c) && Narrow(c) == Narrow(Letter(v))
    requires Body(ds, ContentOf(conv, v)).Ok? && ContentDelivers(dr, conv, c, ContentOf(conv, v))
    ensures Image(dr, conv, c, v).Some?
    ensures DecodeTyped(dr, conv, c, Body(ds, ContentOf(conv, v)).value + suffix) == Ok((Image(dr, conv, c, v).value, suffix))
  {
    ValueIsImage(dr, conv, c, v);
    TakeBodyBack(ds, dr, conv, c, ContentOf(conv, v), suffix);
  }

  /** What comes before the body of an item. */
  function Head(t: char, v: Value): seq<byte> {
    if t == 'v' then [Tag(Narrow(Letter(v)))] else []
  }

  /** An item is its body, behind a tag if it is a variant. */
  lemma ItemIsBody(d: Dialect, conv: Converter, t: char, v: Value)
    requires EncodeItem(d, conv, t, v).Ok?
    ensures Body(d, ContentOf(conv, v)).Ok?
    ensures EncodeItem(d, conv, t, v).value == Head(t, v) + Body(d, ContentOf(conv, v)).value
    ensures t == 'v' || (IsLetter(t) && Narrow(t) == Narrow(Letter(v)))
  {
    if t != 'v' {
      assert [] + Body(d, ContentOf(conv, v)).value == Body(d, ContentOf(conv, v)).value;
    }
  }

  lemma TaggedItem(d: Dialect, conv: Converter, c: char, bytes: seq<byte>)
    requires IsLetter(c)
    ensures DecodeItem(d, conv, 'v', [Tag(c)] + bytes) == DecodeTyped(d, conv, c, bytes)
  {
    TagIsCode(c, Tag(c));
    assert ([Tag(c)] + bytes)[1..] == bytes;
  }

  /** Behind the tag, or without one, there is content of the letter that the tag or the signature names. */
  lemma ReceivedItem(d: Dialect, conv: Converter, t: char, v: Value, body: seq<byte>, suffix: seq<byte>)
    requires t == 'v' || IsLetter(t)
    ensures DecodeItem(d, conv, t, Head(t, v) + body + suffix) == DecodeTyped(d, conv, ContentLetter(t, v), body + suffix)
  {
    Assoc(Head(t, v), body, suffix);
    if t == 'v' {
      TaggedItem(d, conv, Narrow(Letter(v)), body + suffix);
    } else {
      assert [] + (body + suffix) == body + suffix;
    }
  }

  lemma NarrowLetters(a: char, b: char, c: char)
    requires Narrow(a) == Narrow(b) && (a == 'v' || (IsLetter(a) && Narrow(a) == Narrow(c)))
    ensures b == 'v' <==> a == 'v'
    ensures b == 'v' || (IsLetter(b) && Narrow(b) == Narrow(c))
  {
  }

  /** To receive an item is to receive its content. */
  lemma ItemIsTyped(ds: Dialect, dr: Dialect, conv: Converter, a: char, b: char, v: Value, suffix: seq<byte>)
    requires Narrow(a) == Narrow(b) && EncodeItem(ds, conv, a, v).Ok?
    ensures IsLetter(ContentLetter(b, v)) && Narrow(ContentLetter(b, v)) == Narrow(Letter(v)) && Body(ds, ContentOf(conv, v)).Ok?
    ensures DecodeItem(dr, conv, b, EncodeItem(ds, conv, a, v).value + suffix)
         == DecodeTyped(dr, conv, ContentLetter(b, v), Body(ds, ContentOf(conv, v)).value + suffix)
  {
    ItemIsBody(ds, conv, a, v);
    NarrowLetters(a, b, Letter(v));
    ReceivedItem(dr, conv, b, v, Body(ds, ContentOf(conv, v)).value, suffix);
  }

  lemma ItemRoundTrip(ds: Dialect, dr: Dialect, conv: Converter, a: char, b: char, v: Value, suffix: seq<byte>)
    requires Narrow(a) == Narrow(b) && EncodeItem(ds, conv, a, v).Ok? && Delivers(dr, conv, b, v)
    ensures Image(dr, conv, b, v).Some?
    ensures DecodeItem(dr, conv, b, EncodeItem(ds, conv, a, v).value + suffix) == Ok((Image(dr, conv, b, v).value, suffix))
  {
    ItemIsTyped(ds, dr, conv, a, b, v, suffix);
    TypedRoundTrip(ds, dr, conv, ContentLetter(b, v), v, suffix);
  }

  /**
   Round trip with continuation: whichever implementation sends and whichever receives, what was encoded is
   decoded to the intended values and exactly the encoding is consumed.
   */
  lemma {:induction false} RoundTrip(ds: Dialect, dr: Dialect, conv: Converter, send: string, recv: string,
                                     vals: seq<Value>, suffix: seq<byte>)
    requires |send| == |vals| && Compatible(send, recv)
    requires Encode(ds, conv, send, vals).Ok? && AllDeliver(dr, conv, recv, vals)
    ensures Decode(dr, conv, recv, Encode(ds, conv, send, vals).value + suffix)
         == Decoded(Images(dr, conv, recv, vals), suffix, None)
    ensures forall k :: 0 <= k < |vals| ==> Image(dr, conv, recv[k], vals[k]) == Some(Images(dr, conv, recv, vals)[k])
  {
    if send == [] {
      assert Encode(ds, conv, send, vals).value + suffix == suffix;
    } else {
      EncodeSplits(ds, conv, send, vals, suffix);
      assert Delivers(dr, conv, recv[0], vals[0]);
      ItemRoundTrip(ds, dr, conv, send[0], recv[0], vals[0], Encode(ds, conv, send[1..], vals[1..]).value + suffix);
      RoundTrip(ds, dr, conv, send[1..], recv[1..], vals[1..], suffix);
    }
  }

  // ---- exactly when a value arrives ----

  /** The receiver's view of `got` is the intended view of `sent`. */
  predicate SameView(d: Dialect, conv: Converter, c: char, got: seq<byte>, sent: seq<byte>) {
    if WideView(d, c) then
      conv.fromBytes(sent).Some? && conv.fromBytes(CStr(got)) == conv.fromBytes(sent)
    else got == sent
  }

  lemma SameViewMeansDelivered(ds: Dialect, dr: Dialect, conv: Converter, c: char, sent: seq<byte>, got: seq<byte>)
    requires conv.Lawful() && TextBlock(ds, Some(sent)).Ok?
    requires |sent| < MAX_COUNT ==> got == sent
    requires |sent| == MAX_COUNT ==> got == []
    requires SameView(dr, conv, c, got, sent)
    ensures TextDelivers(dr, conv, c, Some(sent))
  {
    if WideView(dr, c) {
      assert conv.toBytes(conv.fromBytes(sent).value) == Some(sent);
      assert conv.toBytes(conv.fromBytes(CStr(got)).value) == Some(CStr(got));
      assert CStr(got) == sent;
    }
  }

  predicate Takes(ds: Dialect, dr: Dialect, conv: Converter, c: char, ts: seq<Option<seq<byte>>>, suffix: seq<byte>,
                  got: seq<seq<byte>>, rest: seq<byte>)
  {
    && TextBlocks(ds, ts).Ok? && |got| == |ts|
    && TakeTexts(dr, conv, c, |ts|, TextBlocks(ds, ts).value + suffix) == Ok((got, rest))
  }

  lemma FirstTextDelivers(ds: Dialect, dr: Dialect, conv: Converter, c: char, ts: seq<Option<seq<byte>>>, suffix: seq<byte>,
                          got: seq<seq<byte>>, rest: seq<byte>)
    requires conv.Lawful() && ts != [] && Takes(ds, dr, conv, c, ts, suffix, got, rest)
    requires SameView(dr, conv, c, got[0], OrEmpty(ts[0]))
    ensures TextDelivers(dr, conv, c, ts[0]) && Takes(ds, dr, conv, c, ts[1..], suffix, got[1..], rest)
  {
    FirstBlock(ds, ts, suffix);
    TakeTextBack(ds, dr, conv, c, ts[0].value, TextBlocks(ds, ts[1..]).value + suffix);
    SameViewMeansDelivered(ds, dr, conv, c, ts[0].value, got[0]);
  }

  predicate SameViews(d: Dialect, conv: Converter, c: char, got: seq<seq<byte>>, ts: seq<Option<seq<byte>>>)
    requires |got| == |ts|
  {
    got == [] || (SameView(d, conv, c, got[0], OrEmpty(ts[0])) && SameViews(d, conv, c, got[1..], ts[1..]))
  }

  lemma {:induction false} SameViewsMeanDelivered(ds: Dialect, dr: Dialect, conv: Converter, c: char, ts: seq<Option<seq<byte>>>,
                                                  suffix: seq<byte>, got: seq<seq<byte>>, rest: seq<byte>, k: nat)
    requires conv.Lawful() && k < |ts| && Takes(ds, dr, conv, c, ts, suffix, got, rest)
    requires SameViews(dr, conv, c, got, ts)
    ensures TextDelivers(dr, conv, c, ts[k])
  {
    FirstTextDelivers(ds, dr, conv, c, ts, suffix, got, rest);
    if k > 0 {
      SameViewsMeanDelivered(ds, dr, conv, c, ts[1..], suffix, got[1..], rest, k - 1);
    }
  }

  lemma TypedArrivalMeansDelivered(ds: Dialect, dr: Dialect, conv: Converter, c: char, v: Value, suffix: seq<byte>,
                                   rest: seq<byte>)
    requires conv.Lawful() && IsLetter(c) && Narrow(c) == Narrow(Letter(v)) && Body(ds, ContentOf(conv, v)).Ok?
    requires Image(dr, conv, c, v).Some?
    requires DecodeTyped(dr, conv, c, Body(ds, ContentOf(conv, v)).value + suffix) == Ok((Image(dr, conv, c, v).value, rest))
    ensures ContentDelivers(dr, conv, c, ContentOf(conv, v))
  {
    var bytes := Body(ds, ContentOf(conv, v)).value + suffix;
    var raw := TakeBody(dr, conv, c, bytes).value.0;
    match ContentOf(conv, v)
    case Scalar(_) =>
    case Vector(ws) =>
      CountRoundTrip(|ws|);
      assert bytes[..2] == ToLE(|ws|, 2);
    case One(t) =>
      TakeTextBack(ds, dr, conv, c, t.value, suffix);
      assert SameView(dr, conv, c, raw.text, t.value);
      SameViewMeansDelivered(ds, dr, conv, c, t.value, raw.text);
    case Many(ts) =>
      ManySameViews(dr, conv, c, v, raw);
      ManyArrivalMeansDelivered(ds, dr, conv, c, ts, suffix, raw.texts, rest);
  }

  lemma ManyAreTaken(ds: Dialect, dr: Dialect, conv: Converter, c: char, ts: seq<Option<seq<byte>>>, suffix: seq<byte>,
                     got: seq<seq<byte>>, rest: seq<byte>)
    requires IsTexts(c) && Body(ds, Many(ts)).Ok? && |got| == |ts|
    requires TakeBody(dr, conv, c, Body(ds, Many(ts)).value + suffix) == Ok((Strings(got), rest))
    ensures |ts| < MAX_COUNT && Takes(ds, dr, conv, c, ts, suffix, got, rest)
  {
    ManyParts(ds, ts, suffix, Body(ds, Many(ts)).value + suffix);
  }

  lemma ManyArrivalMeansDelivered(ds: Dialect, dr: Dialect, conv: Converter, c: char, ts: seq<Option<seq<byte>>>,
                                  suffix: seq<byte>, got: seq<seq<byte>>, rest: seq<byte>)
    requires conv.Lawful() && IsTexts(c) && Body(ds, Many(ts)).Ok? && |got| == |ts|
    requires TakeBody(dr, conv, c, Body(ds, Many(ts)).value + suffix) == Ok((Strings(got), rest))
    requires SameViews(dr, conv, c, got, ts)
    ensures ContentDelivers(dr, conv, c, Many(ts))
  {
    ManyAreTaken(ds, dr, conv, c, ts, suffix, got, rest);
    forall k | 0 <= k < |ts| ensures TextDelivers(dr, conv, c, ts[k]) {
      SameViewsMeanDelivered(ds, dr, conv, c, ts, suffix, got, rest, k);
    }
  }

  lemma {:induction false} EachSameView(d: Dialect, conv: Converter, c: char, got: seq<seq<byte>>, ts: seq<Option<seq<byte>>>)
    requires |got| == |ts| && forall k :: 0 <= k < |got| ==> SameView(d, conv, c, got[k], OrEmpty(ts[k]))
    ensures SameViews(d, conv, c, got, ts)
  {
    if got != [] {
      EachSameView(d, conv, c, got[1..], ts[1..]);
    }
  }

  lemma ManySameViews(d: Dialect, conv: Converter, c: char, v: Value, raw: Received)
    requires IsTexts(c) && raw.Strings? && Shaped(d, conv, c, raw) && ContentOf(conv, v).Many?
    requires Image(d, conv, c, v) == Some(ValueOf(d, conv, c, raw))
    ensures |raw.texts| == |ContentOf(conv, v).texts|
    ensures SameViews(d, conv, c, raw.texts, ContentOf(conv, v).texts)
  {
    var ts := ContentOf(conv, v).texts;
    if WideView(d, c) {
      var ws := ValueOf(d, conv, c, raw).ws;
      assert |ws| == |ts|;
      forall k | 0 <= k < |ts| ensures SameView(d, conv, c, raw.texts[k], OrEmpty(ts[k])) {
        assert ws[k] == conv.fromBytes(OrEmpty(ts[k])).value;
        assert ws[k] == conv.fromBytes(CStr(raw.texts[k])).value;
      }
    } else {
      assert raw.texts == Plain(ts);
    }
    EachSameView(d, conv, c, raw.texts, ts);
  }

  lemma ItemArrivesExactly(ds: Dialect, dr: Dialect, conv: Converter, a: char, b: char, v: Value, suffix: seq<byte>)
    requires conv.Lawful() && Narrow(a) == Narrow(b) && EncodeItem(ds, conv, a, v).Ok?
    ensures var r := DecodeItem(dr, conv, b, EncodeItem(ds, conv, a, v).value + suffix);
      (r.Ok? && Image(dr, conv, b, v) == Some(r.value.0)) <==> Delivers(dr, conv, b, v)
  {
    var r := DecodeItem(dr, conv, b, EncodeItem(ds, conv, a, v).value + suffix);
    if Delivers(dr, conv, b, v) {
      ItemRoundTrip(ds, dr, conv, a, b, v, suffix);
    } else if r.Ok? && Image(dr, conv, b, v) == Some(r.value.0) {
      ItemIsTyped(ds, dr, conv, a, b, v, suffix);
      TypedArrivalMeansDelivered(ds, dr, conv, ContentLetter(b, v), v, suffix, r.value.1);
    }
  }

  /** A decoding is the intended one: no fault, and every value the image of what was sent. */
  predicate Arrives(dr: Dialect, conv: Converter, recv: string, vals: seq<Value>, r: Decoded)
    requires |recv| == |vals|
  {
    |r.values| == |vals| && forall k :: 0 <= k < |vals| ==> Image(dr, conv, recv[k], vals[k]) == Some(r.values[k])
  }

  lemma ArrivalSplits(dr: Dialect, conv: Converter, recv: string, vals: seq<Value>, bytes: seq<byte>)
    requires |recv| == |vals| > 0 && Arrives(dr, conv, recv, vals, Decode(dr, conv, recv, bytes))
    ensures DecodeItem(dr, conv, recv[0], bytes).Ok?
    ensures Image(dr, conv, recv[0], vals[0]) == Some(DecodeItem(dr, conv, recv[0], bytes).value.0)
    ensures Arrives(dr, conv, recv[1..], vals[1..], Decode(dr, conv, recv[1..], DecodeItem(dr, conv, recv[0], bytes).value.1))
  {
    var r := Decode(dr, conv, recv, bytes);
    assert r.values != [];
    assert Image(dr, conv, recv[0], vals[0]) == Some(r.values[0]);
    var more := Decode(dr, conv, recv[1..], DecodeItem(dr, conv, recv[0], bytes).value.1);
    assert r.values == [r.values[0]] + more.values;
    forall k | 0 <= k < |vals| - 1 ensures Image(dr, conv, recv[1..][k], vals[1..][k]) == Some(more.values[k]) {
      assert Image(dr, conv, recv[k + 1], vals[k + 1]) == Some(r.values[k + 1]);
    }
  }

  lemma EncodeSplits(ds: Dialect, conv: Converter, send: string, vals: seq<Value>, suffix: seq<byte>)
    requires |send| == |vals| > 0 && Encode(ds, conv, send, vals).Ok?
    ensures EncodeItem(ds, conv, send[0], vals[0]).Ok? && Encode(ds, conv, send[1..], vals[1..]).Ok?
    ensures Encode(ds, conv, send, vals).value + suffix
         == EncodeItem(ds, conv, send[0], vals[0]).value + (Encode(ds, conv, send[1..], vals[1..]).value + suffix)
  {
    Assoc(EncodeItem(ds, conv, send[0], vals[0]).value, Encode(ds, conv, send[1..], vals[1..]).value, suffix);
  }

  lemma {:induction false} ArrivalMeansDelivery(ds: Dialect, dr: Dialect, conv: Converter, send: string, recv: string,
                                                vals: seq<Value>, suffix: seq<byte>, k: nat)
    requires conv.Lawful() && |send| == |vals| && Compatible(send, recv) && Encode(ds, conv, send, vals).Ok?
    requires Arrives(dr, conv, recv, vals, Decode(dr, conv, recv, Encode(ds, conv, send, vals).value + suffix))
    requires k < |vals|
    ensures Delivers(dr, conv, recv[k], vals[k])
  {
    var tail := Encode(ds, conv, send[1..], vals[1..]).value + suffix;
    ArrivalSplits(dr, conv, recv, vals, Encode(ds, conv, send, vals).value + suffix);
    EncodeSplits(ds, conv, send, vals, suffix);
    ItemArrivesExactly(ds, dr, conv, send[0], recv[0], vals[0], tail);
    ItemRoundTrip(ds, dr, conv, send[0], recv[0], vals[0], tail);
    if k > 0 {
      ArrivalMeansDelivery(ds, dr, conv, send[1..], recv[1..], vals[1..], suffix, k - 1);
    }
  }

  /** The sharp bounds of the format: an accepted list arrives intact exactly when the sender's check holds. */
  lemma ArrivesExactly(ds: Dialect, dr: Dialect, conv: Converter, send: string, recv: string, vals: seq<Value>, suffix: seq<byte>)
    requires conv.Lawful() && |send| == |vals| && Compatible(send, recv) && Encode(ds, conv, send, vals).Ok?
    ensures Arrives(dr, conv, recv, vals, Decode(dr, conv, recv, Encode(ds, conv, send, vals).value + suffix))
       <==> AllDeliver(dr, conv, recv, vals)
  {
    if AllDeliver(dr, conv, recv, vals) {
      RoundTrip(ds, dr, conv, send, recv, vals, suffix);
    } else if Arrives(dr, conv, recv, vals, Decode(dr, conv, recv, Encode(ds, conv, send, vals).value + suffix)) {
      forall k | 0 <= k < |vals| ensures Delivers(dr, conv, recv[k], vals[k]) {
        ArrivalMeansDelivery(ds, dr, conv, send, recv, vals, suffix, k);
      }
    }
  }

  // ---- truncation ----

  lemma {:induction false} TakeWordsExtends(n: nat, bytes: seq<byte>, more: seq<byte>)
    requires TakeWords(n, bytes).Ok?
    ensures TakeWords(n, bytes + more) == Ok((TakeWords(n, bytes).value.0, TakeWords(n, bytes).value.1 + more))
  {
    if n > 0 {
      assert (bytes + more)[..8] == bytes[..8] && (bytes + more)[8..] == bytes[8..] + more;
      TakeWordsExtends(n - 1, bytes[8..], more);
    }
  }

  lemma TakeTextExtends(d: Dialect, conv: Converter, c: char, bytes: seq<byte>, more: seq<byte>)
    requires TakeText(d, conv, c, bytes).Ok?
    ensures TakeText(d, conv, c, bytes + more)
         == Ok((TakeText(d, conv, c, bytes).value.0, TakeText(d, conv, c, bytes).value.1 + more))
  {
    var n := FromLE(bytes[..2]);
    assert (bytes + more)[..2] == bytes[..2] && (bytes + more)[2..] == bytes[2..] + more;
    assert (bytes[2..] + more)[..n] == bytes[2..][..n] && (bytes[2..] + more)[n..] == bytes[2..][n..] + more;
  }

  lemma {:induction false} TakeTextsExtends(d: Dialect, conv: Converter, c: char, n: nat, bytes: seq<byte>, more: seq<byte>)
    requires TakeTexts(d, conv, c, n, bytes).Ok?
    ensures TakeTexts(d, conv, c, n, bytes + more)
         == Ok((TakeTexts(d, conv, c, n, bytes).value.0, TakeTexts(d, conv, c, n, bytes).value.1 + more))
  {
    if n > 0 {
      TakeTextExtends(d, conv, c, bytes, more);
      TakeTextsExtends(d, conv, c, n - 1, TakeText(d, conv, c, bytes).value.1, more);
    }
  }

  lemma TypedExtends(d: Dialect, conv: Converter, c: char, bytes: seq<byte>, more: seq<byte>)
    requires IsLetter(c) && DecodeTyped(d, conv, c, bytes).Ok?
    ensures DecodeTyped(d, conv, c, bytes + more)
         == Ok((DecodeTyped(d, conv, c, bytes).value.0, DecodeTyped(d, conv, c, bytes).value.1 + more))
  {
    if IsScalar(c) {
      assert (bytes + more)[..8] == bytes[..8] && (bytes + more)[8..] == bytes[8..] + more;
    } else if IsText(c) {
      TakeTextExtends(d, conv, c, bytes, more);
    } else {
      var n := FromLE(bytes[..2]);
      assert (bytes + more)[..2] == bytes[..2] && (bytes + more)[2..] == bytes[2..] + more;
      if IsVector(c) {
        TakeWordsExtends(n, bytes[2..], more);
      } else {
        TakeTextsExtends(d, conv, c, n, bytes[2..], more);
      }
    }
  }

  lemma ItemExtends(d: Dialect, conv: Converter, t: char, bytes: seq<byte>, more: seq<byte>)
    requires DecodeItem(d, conv, t, bytes).Ok?
    ensures DecodeItem(d, conv, t, bytes + more)
         == Ok((DecodeItem(d, conv, t, bytes).value.0, DecodeItem(d, conv, t, bytes).value.1 + more))
  {
    if t == 'v' {
      assert (bytes + more)[1..] == bytes[1..] + more;
      TypedExtends(d, conv, LetterOf(bytes[0]).value, bytes[1..], more);
    } else {
      TypedExtends(d, conv, t, bytes, more);
    }
  }

  /** Bytes that come after a complete list never change how the list is read. */
  lemma {:induction false} DecodeExtends(d: Dialect, conv: Converter, sig: string, bytes: seq<byte>, more: seq<byte>)
    requires Decode(d, conv, sig, bytes).fault.None?
    ensures Decode(d, conv, sig, bytes + more)
         == Decoded(Decode(d, conv, sig, bytes).values, Decode(d, conv, sig, bytes).rest + more, None)
  {
    if sig != [] {
      ItemExtends(d, conv, sig[0], bytes, more);
      DecodeExtends(d, conv, sig[1..], DecodeItem(d, conv, sig[0], bytes).value.1, more);
    }
  }

  /** Of two byte strings that decode completely, neither is a proper prefix of the other. */
  lemma CompleteDecodingsArePrefixFree(d: Dialect, conv: Converter, sig: string, e1: seq<byte>, e2: seq<byte>)
    requires Decode(d, conv, sig, e1).fault.None? && Decode(d, conv, sig, e2).fault.None?
    requires Decode(d, conv, sig, e2).rest == [] && e1 <= e2
    ensures e1 == e2
  {
    assert e2 == e1 + e2[|e1|..];
    DecodeExtends(d, conv, sig, e1, e2[|e1|..]);
    assert e2[|e1|..] == [];
  }

  lemma EncodingDecodes(ds: Dialect, dr: Dialect, conv: Converter, send: string, recv: string, vals: seq<Value>)
    requires |send| == |vals| && Compatible(send, recv)
    requires Encode(ds, conv, send, vals).Ok? && AllDeliver(dr, conv, recv, vals)
    ensures Decode(dr, conv, recv, Encode(ds, conv, send, vals).value) == Decoded(Images(dr, conv, recv, vals), [], None)
  {
    RoundTrip(ds, dr, conv, send, recv, vals, []);
    assert Encode(ds, conv, send, vals).value + [] == Encode(ds, conv, send, vals).value;
  }

  /** Every strict prefix of bytes that decode completely is rejected, by either implementation. */
  lemma TruncationRejected(d: Dialect, conv: Converter, sig: string, bytes: seq<byte>, cut: nat)
    requires Decode(d, conv, sig, bytes).fault.None? && Decode(d, conv, sig, bytes).rest == [] && cut < |bytes|
    ensures Decode(d, conv, sig, bytes[..cut]).fault.Some?
  {
    if Decode(d, conv, sig, bytes[..cut]).fault.None? {
      CompleteDecodingsArePrefixFree(d, conv, sig, bytes[..cut], bytes);
    }
  }

  /** So no encoding is a proper prefix of another, and equal encodings carry equal values. */
  lemma PrefixFree(d1: Dialect, d2: Dialect, dr: Dialect, conv: Converter, send1: string, send2: string, recv: string,
                   vals1: seq<Value>, vals2: seq<Value>)
    requires |send1| == |vals1| && Compatible(send1, recv) && Encode(d1, conv, send1, vals1).Ok?
    requires |send2| == |vals2| && Compatible(send2, recv) && Encode(d2, conv, send2, vals2).Ok?
    requires AllDeliver(dr, conv, recv, vals1) && AllDeliver(dr, conv, recv, vals2)
    requires Encode(d1, conv, send1, vals1).value <= Encode(d2, conv, send2, vals2).value
    ensures Encode(d1, conv, send1, vals1) == Encode(d2, conv, send2, vals2)
    ensures Images(dr, conv, recv, vals1) == Images(dr, conv, recv, vals2)
  {
    EncodingDecodes(d1, dr, conv, send1, recv, vals1);
    EncodingDecodes(d2, dr, conv, send2, recv, vals2);
    CompleteDecodingsArePrefixFree(dr, conv, recv, Encode(d1, conv, send1, vals1).value, Encode(d2, conv, send2, vals2).value);
  }

  // ---- where an encoding extends another ----

  predicate Extends(longer: seq<byte>, shorter: seq<byte>) {
    shorter < longer
  }

  /** The value's count or length is 65536, which two bytes cannot say. */
  predicate Full(c: Content) {
    match c
    case Scalar(_) => false
    case Vector(ws) => |ws| == MAX_COUNT
    case One(t) => t.Some? && |t.value| == MAX_COUNT
    case Many(ts) => |ts| == MAX_COUNT
  }

  /** How many bytes a count announces, and how many there are. */
  lemma BodySize(d: Dialect, c: Content)
    requires Body(d, c).Ok? && !c.Many?
    ensures var b := Body(d, c).value;
      match c
      case Scalar(_) => |b| == 8
      case Vector(ws) => |b| == 2 + 8 * (if Full(c) && d.Cpp? then 0 else |ws|) && b[..2] == ToLE(|ws|, 2)
      case One(t) => |b| == 2 + |t.value| && b[..2] == ToLE(|t.value|, 2) && (d.Cpp? ==> !Full(c))
  {
    if c.Vector? {
      KeepsAll(d, c.words);
      WordsLength(Kept(d, c.words));
    }
  }

  /** Two bodies of one kind that begin with the same count are of the same length, but for a full one from Go. */
  lemma BodyExtends(d: Dialect, c: Content, d': Dialect, c': Content)
    requires Body(d, c).Ok? && Body(d', c').Ok? && !c.Many? && !c'.Many?
    requires c.Scalar? <==> c'.Scalar?
    requires c.Vector? <==> c'.Vector?
    requires Extends(Body(d, c).value, Body(d', c').value)
    ensures d.Go? && Full(c)
  {
    BodySize(d, c);
    BodySize(d', c');
    var b, b' := Body(d, c).value, Body(d', c').value;
    if !c.Scalar? {
      assert b[..2] == b'[..2];
      var n := if c.Vector? then |c.words| else |c.text.value|;
      var n' := if c'.Vector? then |c'.words| else |c'.text.value|;
      CountRoundTrip(n);
      CountRoundTrip(n');
    }
  }

  /** The value of the same kind with nothing in it. */
  function Emptied(v: Value): Value {
    match v
    case Ints(_) => Ints([])
    case UInts(_) => UInts([])
    case Doubles(_) => Doubles([])
    case Texts(_) => Texts([])
    case _ => Text([])
  }

  lemma EmptiedContent(conv: Converter, v: Value)
    requires Full(ContentOf(conv, v)) && !v.Wide? && !v.Wides?
    ensures Letter(Emptied(v)) == Letter(v)
    ensures Body(Go, ContentOf(conv, Emptied(v))) == Ok([0, 0])
  {
    assert ToLE(0, 2) == [0, 0] && [0, 0] + [] == [0, 0];
    assert Concat([]) == [] && TextBlocks(Go, []) == Ok([]);
    var c := ContentOf(conv, Emptied(v));
    assert c.Vector? ==> c.words == [];
    assert c.Many? ==> c.texts == [];
  }

  lemma FullStartsWithZero(conv: Converter, v: Value)
    requires Full(ContentOf(conv, v)) && Body(Go, ContentOf(conv, v)).Ok?
    ensures Extends(Body(Go, ContentOf(conv, v)).value, [0, 0])
  {
    var c := ContentOf(conv, v);
    assert ToLE(MAX_COUNT, 2) == [0, 0];
    match c
    case Vector(ws) => WordsLength(ws);
    case Many(ts) => TextBlocksLength(Go, ts);
    case _ =>
  }

  lemma {:induction false} TextBlocksLength(d: Dialect, ts: seq<Option<seq<byte>>>)
    requires TextBlocks(d, ts).Ok?
    ensures |TextBlocks(d, ts).value| >= 2 * |ts|
  {
    if ts != [] {
      TextBlocksLength(d, ts[1..]);
    }
  }

  /** Some value of the same letter has an encoding that this one goes on from. */
  ghost predicate ExtendsAnother(d: Dialect, conv: Converter, t: char, v: Value)
    requires EncodeItem(d, conv, t, v).Ok?
  {
    exists d', v' :: EncodeItem(d', conv, t, v').Ok? && Extends(EncodeItem(d, conv, t, v).value, EncodeItem(d', conv, t, v').value)
  }

  /** Go's encoding of 65536 elements, or of 65536 bytes, begins with the encoding of none. */
  lemma FullExtendsEmpty(conv: Converter, t: char, v: Value)
    requires EncodeItem(Go, conv, t, v).Ok? && Full(ContentOf(conv, v))
    ensures EncodeItem(Go, conv, t, Emptied(v)).Ok?
    ensures Extends(EncodeItem(Go, conv, t, v).value, EncodeItem(Go, conv, t, Emptied(v)).value)
  {
    EmptiedContent(conv, v);
    FullStartsWithZero(conv, v);
    if t == 'v' {
      var tag := [Tag(Narrow(Letter(v)))];
      assert (tag + Body(Go, ContentOf(conv, v)).value)[..3] == tag + [0, 0];
    }
  }

  /** Arrays of strings apart, no other encodings extend one of the same letter. */
  lemma PrefixesExactly(d: Dialect, conv: Converter, t: char, v: Value)
    requires EncodeItem(d, conv, t, v).Ok? && !ContentOf(conv, v).Many?
    ensures ExtendsAnother(d, conv, t, v) <==> d.Go? && Full(ContentOf(conv, v))
  {
    if d.Go? && Full(ContentOf(conv, v)) {
      FullExtendsEmpty(conv, t, v);
    }
    if ExtendsAnother(d, conv, t, v) {
      var d', v' :| EncodeItem(d', conv, t, v').Ok? && Extends(EncodeItem(d, conv, t, v).value, EncodeItem(d', conv, t, v').value);
      ItemGoesOn(d, d', conv, t, v, v');
    }
  }

  lemma SameKind(conv: Converter, v: Value, v': Value)
    requires Narrow(Letter(v)) == Narrow(Letter(v'))
    ensures var c, c' := ContentOf(conv, v), ContentOf(conv, v');
      (c.Scalar? <==> c'.Scalar?) && (c.Vector? <==> c'.Vector?) && (c.Many? <==> c'.Many?)
  {
  }

  lemma HeadsAside(h: seq<byte>, b: seq<byte>, h': seq<byte>, b': seq<byte>)
    requires |h| == |h'| && Extends(h + b, h' + b')
    ensures h == h' && Extends(b, b')
  {
    assert (h' + b')[..|h|] == (h + b)[..|h|];
    assert (h + b)[..|h| + |b'|] == h' + b';
    assert (h + b)[..|h| + |b'|][|h|..] == b[..|b'|] && (h' + b')[|h|..] == b';
  }

  lemma ItemGoesOn(d: Dialect, d': Dialect, conv: Converter, t: char, v: Value, v': Value)
    requires EncodeItem(d, conv, t, v).Ok? && EncodeItem(d', conv, t, v').Ok? && !ContentOf(conv, v).Many?
    requires Extends(EncodeItem(d, conv, t, v).value, EncodeItem(d', conv, t, v').value)
    ensures d.Go? && Full(ContentOf(conv, v))
  {
    ItemIsBody(d, conv, t, v);
    ItemIsBody(d', conv, t, v');
    HeadsAside(Head(t, v), Body(d, ContentOf(conv, v)).value, Head(t, v'), Body(d', ContentOf(conv, v')).value);
    if t == 'v' {
      assert Head(t, v)[0] == Head(t, v')[0];
      TagIsCode(Narrow(Letter(v)), 0);
      TagIsCode(Narrow(Letter(v')), 0);
    }
    SameKind(conv, v, v');
    BodyExtends(d, ContentOf(conv, v), d', ContentOf(conv, v'));
  }
}
