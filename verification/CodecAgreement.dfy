/** One wire format for two implementations, and what variants normalise to. */
module CodecAgreement {
  import opened Bytes
  import opened Codec
  import opened CodecLaws

  // ---- C++ and Go write the same bytes ----

  lemma {:induction false} TextBlocksAgree(ts: seq<Option<seq<byte>>>)
    requires TextBlocks(Cpp, ts).Ok?
    ensures TextBlocks(Go, ts) == TextBlocks(Cpp, ts)
    ensures forall k :: 0 <= k < |ts| ==> ts[k].Some? && |ts[k].value| < MAX_COUNT
  {
    if ts != [] {
      TextBlocksAgree(ts[1..]);
      forall k | 0 <= k < |ts| ensures ts[k].Some? && |ts[k].value| < MAX_COUNT {
        if k > 0 { assert ts[k] == ts[1..][k - 1]; }
      }
    }
  }

  /** The bodies are the same unless an array has 65536 elements, and then the Go body is the longer one. */
  lemma BodiesCompared(c: char, conv: Converter, content: Content)
    requires Body(Cpp, content).Ok?
    ensures ContentDelivers(Go, conv, c, content) ==> Body(Go, content) == Body(Cpp, content)
    ensures !ContentDelivers(Go, conv, c, content) && Body(Go, content).Ok? ==>
              |Body(Go, content).value| > |Body(Cpp, content).value|
  {
    match content
    case Scalar(_) =>
    case One(_) =>
    case Vector(ws) =>
      KeepsAll(Cpp, ws);
      if |ws| == MAX_COUNT {
        assert Kept(Cpp, ws) == [] && Kept(Go, ws) == ws;
        WordsLength(ws);
      }
    case Many(ts) =>
      KeepsAll(Cpp, ts);
      if |ts| < MAX_COUNT {
        TextBlocksAgree(ts);
      } else if Body(Go, content).Ok? {
        assert Kept(Cpp, ts) == [] && Kept(Go, ts) == ts;
        TextBlocksLength(Go, ts);
      }
  }

  /** Giving strings their narrow form changes neither content nor tag. */
  lemma FlatContent(conv: Converter, t: char, v: Value, flat: Value)
    requires Image(Go, conv, t, v) == Some(flat)
    ensures ContentOf(conv, flat) == ContentOf(conv, v) && Letter(flat) == Narrow(Letter(v))
    ensures !flat.Wide? && !flat.Wides?
  {
    match ContentOf(conv, v)
    case Scalar(_) =>
    case Vector(_) =>
    case One(_) =>
    case Many(ts) =>
      assert forall k :: 0 <= k < |ts| ==> ts[k] == Some(OrEmpty(ts[k]));
      assert ContentOf(conv, flat).texts == ts;
  }

  lemma ItemsCompared(conv: Converter, a: char, b: char, v: Value, flat: Value)
    requires Narrow(a) == Narrow(b) && Image(Go, conv, b, v) == Some(flat) && EncodeItem(Cpp, conv, a, v).Ok?
    ensures Delivers(Go, conv, b, v) ==> EncodeItem(Go, conv, b, flat) == EncodeItem(Cpp, conv, a, v)
    ensures !Delivers(Go, conv, b, v) && EncodeItem(Go, conv, b, flat).Ok? ==>
              |EncodeItem(Go, conv, b, flat).value| > |EncodeItem(Cpp, conv, a, v).value|
  {
    FlatContent(conv, b, v, flat);
    BodiesCompared(if b == 'v' then Narrow(Letter(v)) else b, conv, ContentOf(conv, v));
  }

  predicate HaveImages(d: Dialect, conv: Converter, sig: string, vals: seq<Value>)
    requires |sig| == |vals|
  {
    forall k :: 0 <= k < |sig| ==> Image(d, conv, sig[k], vals[k]).Some?
  }

  lemma {:induction false} ListsCompared(conv: Converter, a: string, b: string, vals: seq<Value>)
    requires |a| == |vals| && Compatible(a, b) && HaveImages(Go, conv, b, vals) && Encode(Cpp, conv, a, vals).Ok?
    ensures var go := Encode(Go, conv, b, Images(Go, conv, b, vals));
      && (AllDeliver(Go, conv, b, vals) ==> go == Encode(Cpp, conv, a, vals))
      && (go.Ok? ==> |go.value| >= |Encode(Cpp, conv, a, vals).value|)
      && (go.Ok? && |go.value| == |Encode(Cpp, conv, a, vals).value| ==> AllDeliver(Go, conv, b, vals))
  {
    if a != [] {
      var flats := Images(Go, conv, b, vals);
      assert Image(Go, conv, b[0], vals[0]) == Some(flats[0]);
      assert flats[1..] == Images(Go, conv, b[1..], vals[1..]);
      ItemsCompared(conv, a[0], b[0], vals[0], flats[0]);
      ListsCompared(conv, a[1..], b[1..], vals[1..]);
      DeliverSplits(Go, conv, b, vals);
    }
  }

  lemma DeliverSplits(d: Dialect, conv: Converter, sig: string, vals: seq<Value>)
    requires |sig| == |vals| > 0
    ensures AllDeliver(d, conv, sig, vals) <==> Delivers(d, conv, sig[0], vals[0]) && AllDeliver(d, conv, sig[1..], vals[1..])
  {
    if Delivers(d, conv, sig[0], vals[0]) && AllDeliver(d, conv, sig[1..], vals[1..]) {
      forall k | 0 <= k < |sig| ensures Delivers(d, conv, sig[k], vals[k]) {
        if k > 0 { assert Delivers(d, conv, sig[1..][k - 1], vals[1..][k - 1]); }
      }
    }
  }

  /**
   Two implementations, one wire format: for a list the C++ encoder accepts, the Go encoder writes the same bytes
   for the same values (strings in UTF-8) exactly when no array has 65536 elements.
   */
  lemma OneWireFormat(conv: Converter, a: string, b: string, vals: seq<Value>)
    requires |a| == |vals| && Compatible(a, b) && HaveImages(Go, conv, b, vals) && Encode(Cpp, conv, a, vals).Ok?
    ensures Encode(Go, conv, b, Images(Go, conv, b, vals)) == Encode(Cpp, conv, a, vals) <==> AllDeliver(Go, conv, b, vals)
  {
    ListsCompared(conv, a, b, vals);
  }

  // ---- variants ----

  /**
   A value sent as a variant by either implementation is decoded by either with its strings narrow and otherwise
   unchanged; sending what was decoded again changes nothing, neither the value decoded nor the bytes.
   */
  lemma VariantNormalises(d: Dialect, dr: Dialect, conv: Converter, v: Value, suffix: seq<byte>) returns (n: Value)
    requires EncodeItem(d, conv, 'v', v).Ok? && Delivers(dr, conv, 'v', v)
    ensures DecodeItem(dr, conv, 'v', EncodeItem(d, conv, 'v', v).value + suffix) == Ok((n, suffix))
    ensures Letter(n) == Narrow(Letter(v)) && (!v.Wide? && !v.Wides? ==> n == v)
    ensures EncodeItem(d, conv, 'v', n) == EncodeItem(d, conv, 'v', v)
    ensures Delivers(dr, conv, 'v', n) && Image(dr, conv, 'v', n) == Some(n)
  {
    ItemRoundTrip(d, dr, conv, 'v', 'v', v, suffix);
    n := Image(dr, conv, 'v', v).value;
    assert Image(Go, conv, 'v', v) == Some(n);
    FlatContent(conv, 'v', v, n);
    if v.Texts? {
      assert Plain(ContentOf(conv, v).texts) == v.ss;
    }
    if n.Texts? {
      assert Plain(ContentOf(conv, n).texts) == n.ss;
    }
  }
}
