/**
 Canonicity: whether a value that has been decoded encodes to the bytes it came from, for every signature, every pair of
 a decoder and an encoder, and all bytes the decoder accepts.
 */
module Canonicity {
  import opened Bytes
  import opened ByteOrder
  import opened Codec
  import opened CodecLaws

  // ---- received bytes are the encoding of what was received ----

  lemma {:induction false} TakeWordsSplits(n: nat, bytes: seq<byte>)
    requires TakeWords(n, bytes).Ok?
    ensures bytes == Concat(TakeWords(n, bytes).value.0) + TakeWords(n, bytes).value.1
  {
    if n > 0 {
      TakeWordsSplits(n - 1, bytes[8..]);
      var (ws, rest) := TakeWords(n - 1, bytes[8..]).value;
      Assoc(bytes[..8], Concat(ws), rest);
      assert ([bytes[..8]] + ws)[1..] == ws;
      assert bytes == bytes[..8] + bytes[8..];
    }
  }

  lemma CountSplits(bytes: seq<byte>)
    requires |bytes| >= 2
    ensures FromLE(bytes[..2]) < MAX_COUNT && bytes == ToLE(FromLE(bytes[..2]), 2) + bytes[2..]
  {
    FromLEBound(bytes[..2]);
    Pow256Values();
    ToLEFromLE(bytes[..2]);
    assert bytes == bytes[..2] + bytes[2..];
  }

  lemma TakeTextSplits(d: Dialect, ds: Dialect, conv: Converter, c: char, bytes: seq<byte>)
    requires TakeText(d, conv, c, bytes).Ok?
    ensures var (t, rest) := TakeText(d, conv, c, bytes).value;
      TextBlock(ds, Some(t)).Ok? && bytes == TextBlock(ds, Some(t)).value + rest
  {
    var (t, rest) := TakeText(d, conv, c, bytes).value;
    CountSplits(bytes);
    assert bytes[2..] == t + rest;
    Assoc(ToLE(|t|, 2), t, rest);
  }

  lemma {:induction false} TakeTextsSplits(d: Dialect, ds: Dialect, conv: Converter, c: char, n: nat, bytes: seq<byte>,
                                           ts: seq<Option<seq<byte>>>)
    requires TakeTexts(d, conv, c, n, bytes).Ok?
    requires |ts| == n && forall k :: 0 <= k < n ==> ts[k] == Some(TakeTexts(d, conv, c, n, bytes).value.0[k])
    ensures TextBlocks(ds, ts).Ok? && bytes == TextBlocks(ds, ts).value + TakeTexts(d, conv, c, n, bytes).value.1
  {
    if n > 0 {
      TakeTextSplits(d, ds, conv, c, bytes);
      var (t, rest) := TakeText(d, conv, c, bytes).value;
      var all := TakeTexts(d, conv, c, n, bytes).value.0;
      var more := TakeTexts(d, conv, c, n - 1, rest).value;
      assert all == [t] + more.0;
      forall k | 0 <= k < n - 1 ensures ts[1..][k] == Some(more.0[k]) {
        assert ts[k + 1] == Some(all[k + 1]);
      }
      TakeTextsSplits(d, ds, conv, c, n - 1, rest, ts[1..]);
      Assoc(TextBlock(ds, ts[0]).value, TextBlocks(ds, ts[1..]).value, more.1);
    }
  }

  lemma WordsContent(d: Dialect, conv: Converter, c: char, ws: seq<Word8>)
    requires IsVector(c)
    ensures ContentOf(conv, ValueOf(d, conv, c, Words(ws))) == Vector(ws)
  {
    var content := ContentOf(conv, ValueOf(d, conv, c, Words(ws)));
    if c == 'I' {
      forall k | 0 <= k < |ws| ensures content.words[k] == ws[k] { IntBytesInverse(0, ws[k]); }
    } else if c == 'U' {
      forall k | 0 <= k < |ws| ensures content.words[k] == ws[k] { UIntBytesInverse(0, ws[k]); }
    } else {
      forall k | 0 <= k < |ws| ensures content.words[k] == ws[k] { Word64Inverse(0, ws[k]); }
    }
    assert content.words == ws;
  }

  lemma WordContent(d: Dialect, conv: Converter, c: char, w: Word8)
    requires IsScalar(c)
    ensures ContentOf(conv, ValueOf(d, conv, c, Word(w))) == Scalar(w)
  {
    if c == 'i' {
      IntBytesInverse(0, w);
    } else if c == 'u' {
      UIntBytesInverse(0, w);
    } else {
      Word64Inverse(0, w);
    }
  }

  function Sent(r: Received): Content {
    match r
    case Word(w) => Scalar(w)
    case Words(ws) => Vector(ws)
    case String(t) => One(Some(t))
    case Strings(ts) => Many(seq(|ts|, k requires 0 <= k < |ts| => Some(ts[k])))
  }

  /** Every body that is accepted is the encoding of the received content, whatever is then made of it. */
  lemma BodySplits(d: Dialect, ds: Dialect, conv: Converter, c: char, bytes: seq<byte>)
    requires IsLetter(c) && TakeBody(d, conv, c, bytes).Ok?
    ensures var (r, rest) := TakeBody(d, conv, c, bytes).value;
      Body(ds, Sent(r)).Ok? && bytes == Body(ds, Sent(r)).value + rest
  {
    var (r, rest) := TakeBody(d, conv, c, bytes).value;
    match r
    case Word(w) =>
    case String(t) =>
      TakeTextSplits(d, ds, conv, c, bytes);
    case Words(ws) =>
      CountSplits(bytes);
      TakeWordsSplits(|ws|, bytes[2..]);
      KeepsAll(ds, ws);
      Assoc(ToLE(|ws|, 2), Concat(ws), rest);
    case Strings(ts) =>
      var opts := Sent(r).texts;
      CountSplits(bytes);
      TakeTextsSplits(d, ds, conv, c, |ts|, bytes[2..], opts);
      KeepsAll(ds, opts);
      Assoc(ToLE(|ts|, 2), TextBlocks(ds, opts).value, rest);
  }

  // ---- what the receiver keeps of it ----

  /** Received content as the receiver's value carries it: a C++ wide string ends at its first NUL. */
  function Seen(d: Dialect, c: char, r: Received): Received {
    match r
    case String(t) => String(if WideView(d, c) then CStr(t) else t)
    case Strings(ts) => Strings(seq(|ts|, k requires 0 <= k < |ts| => if WideView(d, c) then CStr(ts[k]) else ts[k]))
    case _ => r
  }

  predicate NoNul(r: Received) {
    match r
    case String(t) => 0 !in t
    case Strings(ts) => forall k :: 0 <= k < |ts| ==> 0 !in ts[k]
    case _ => true
  }

  lemma SeenContent(d: Dialect, conv: Converter, c: char, r: Received)
    requires IsLetter(c) && Shaped(d, conv, c, r) && (d.Cpp? ==> conv.Lawful())
    ensures Letter(ValueOf(d, conv, c, r)) == if WideView(d, c) then c else Narrow(c)
    ensures ContentOf(conv, ValueOf(d, conv, c, r)) == Sent(Seen(d, c, r))
  {
    match r
    case Word(w) => WordContent(d, conv, c, w);
    case Words(ws) => WordsContent(d, conv, c, ws);
    case String(_) =>
    case Strings(ts) =>
      assert ContentOf(conv, ValueOf(d, conv, c, r)).texts == Sent(Seen(d, c, r)).texts;
  }

  function Cut(ts: seq<seq<byte>>): (r: seq<seq<byte>>)
    ensures |r| == |ts|
  {
    seq(|ts|, k requires 0 <= k < |ts| => CStr(ts[k]))
  }

  /** Cut texts take less room, or as much just if there was nothing to cut. */
  lemma {:induction false} CutTexts(ds: Dialect, ts: seq<seq<byte>>)
    requires TextBlocks(ds, Options(ts)).Ok?
    ensures var cut := TextBlocks(ds, Options(Cut(ts)));
      && cut.Ok? && |cut.value| <= |TextBlocks(ds, Options(ts)).value|
      && (|cut.value| == |TextBlocks(ds, Options(ts)).value| <==> forall k :: 0 <= k < |ts| ==> 0 !in ts[k])
  {
    if ts != [] {
      var more := ts[1..];
      assert Options(ts)[1..] == Options(more) && Options(Cut(ts))[1..] == Options(Cut(more));
      CutTexts(ds, more);
      assert (forall k :: 0 <= k < |more| ==> 0 !in more[k]) <==> (forall k :: 1 <= k < |ts| ==> 0 !in ts[k]) by {
        assert forall k :: 0 <= k < |more| ==> more[k] == ts[k + 1];
        assert forall k :: 1 <= k < |ts| ==> ts[k] == more[k - 1];
      }
      assert CStr(ts[0]) == ts[0] || |CStr(ts[0])| < |ts[0]|;
    }
  }

  lemma SeenBody(d: Dialect, ds: Dialect, c: char, r: Received)
    requires Body(ds, Sent(r)).Ok? && (r.Strings? ==> |r.texts| < MAX_COUNT)
    ensures var seen := Body(ds, Sent(Seen(d, c, r)));
      && seen.Ok? && |seen.value| <= |Body(ds, Sent(r)).value|
      && (|seen.value| == |Body(ds, Sent(r)).value| <==> !WideView(d, c) || NoNul(r))
      && (!WideView(d, c) || NoNul(r) ==> Seen(d, c, r) == r)
  {
    match r
    case Strings(ts) =>
      if WideView(d, c) {
        assert Sent(r).texts == Options(ts) && Sent(Seen(d, c, r)).texts == Options(Cut(ts));
        KeepsAll(ds, Options(ts));
        KeepsAll(ds, Options(Cut(ts)));
        CutTexts(ds, ts);
        if NoNul(r) {
          assert Seen(d, c, r).texts == ts;
        }
      } else {
        assert Seen(d, c, r).texts == ts;
      }
    case _ =>
  }

  // ---- items and lists ----

  predicate WideLetter(c: char) {
    c == 'w' || c == 'W'
  }

  /**
   What keeps its bytes: everything but a wide tag under the variant, a wide string that changes sides, and a wide string
   with a NUL that C++ receives.
   */
  predicate ItemStable(d: Dialect, ds: Dialect, conv: Converter, t: char, bytes: seq<byte>)
    requires DecodeItem(d, conv, t, bytes).Ok?
  {
    if t == 'v' then !WideLetter(LetterOf(bytes[0]).value)
    else WideLetter(t) ==> d == ds && (d.Cpp? ==> NoNul(TakeBody(d, conv, t, bytes).value.0))
  }

  predicate Stable(d: Dialect, ds: Dialect, conv: Converter, sig: string, bytes: seq<byte>)
    requires Decode(d, conv, sig, bytes).fault.None?
  {
    sig == [] || (ItemStable(d, ds, conv, sig[0], bytes)
                  && Stable(d, ds, conv, sig[1..], DecodeItem(d, conv, sig[0], bytes).value.1))
  }

  lemma CountOfTexts(d: Dialect, conv: Converter, c: char, bytes: seq<byte>)
    requires IsLetter(c) && TakeBody(d, conv, c, bytes).Ok?
    ensures var r := TakeBody(d, conv, c, bytes).value.0; r.Strings? ==> |r.texts| < MAX_COUNT
  {
    if |bytes| >= 2 {
      CountSplits(bytes);
    }
  }

  /** One received value: how long its new encoding is, and when it is the old one. */
  lemma BodyCanonical(d: Dialect, ds: Dialect, conv: Converter, c: char, bytes: seq<byte>)
    requires IsLetter(c) && TakeBody(d, conv, c, bytes).Ok? && (d.Cpp? ==> conv.Lawful())
    ensures var (r, rest) := TakeBody(d, conv, c, bytes).value;
      var v := ValueOf(d, conv, c, r);
      var e := Body(ds, ContentOf(conv, v));
      && Letter(v) == (if WideView(d, c) then c else Narrow(c))
      && e.Ok? && |e.value| + |rest| <= |bytes|
      && (bytes == e.value + rest <==> !WideView(d, c) || NoNul(r))
  {
    var (r, rest) := TakeBody(d, conv, c, bytes).value;
    BodySplits(d, ds, conv, c, bytes);
    CountOfTexts(d, conv, c, bytes);
    SeenContent(d, conv, c, r);
    SeenBody(d, ds, c, r);
  }

  lemma ItemCanonical(d: Dialect, ds: Dialect, conv: Converter, t: char, bytes: seq<byte>)
    requires DecodeItem(d, conv, t, bytes).Ok? && (d.Cpp? ==> conv.Lawful())
    ensures var (v, rest) := DecodeItem(d, conv, t, bytes).value;
      var e := EncodeItem(ds, conv, t, v);
      && (e.Ok? ==> |e.value| + |rest| <= |bytes|)
      && (e.Ok? && bytes == e.value + rest <==> ItemStable(d, ds, conv, t, bytes))
  {
    var rest := DecodeItem(d, conv, t, bytes).value.1;
    if t == 'v' {
      var c := LetterOf(bytes[0]).value;
      BodyCanonical(d, ds, conv, c, bytes[1..]);
      VariantCanonical(d, ds, conv, c, bytes);
    } else {
      BodyCanonical(d, ds, conv, t, bytes);
    }
  }

  lemma VariantCanonical(d: Dialect, ds: Dialect, conv: Converter, c: char, bytes: seq<byte>)
    requires |bytes| > 0 && IsLetter(c) && bytes[0] == Tag(c) && TakeBody(d, conv, c, bytes[1..]).Ok? && (d.Cpp? ==> conv.Lawful())
    ensures var (r, rest) := TakeBody(d, conv, c, bytes[1..]).value;
      var e := EncodeItem(ds, conv, 'v', ValueOf(d, conv, c, r));
      && (e.Ok? ==> |e.value| + |rest| <= |bytes|)
      && (e.Ok? && bytes == e.value + rest <==> !WideLetter(c))
  {
    var (r, rest) := TakeBody(d, conv, c, bytes[1..]).value;
    BodyCanonical(d, ds, conv, c, bytes[1..]);
    var v := ValueOf(d, conv, c, r);
    var body := Body(ds, ContentOf(conv, v)).value;
    var tag := [Tag(Narrow(Letter(v)))];
    Assoc(tag, body, rest);
    if WideLetter(c) {
      assert (tag + body + rest)[0] == Tag(Narrow(c)) != bytes[0];
    } else {
      assert bytes == [bytes[0]] + bytes[1..];
    }
  }

  lemma SumsAgree(b: seq<byte>, bs: seq<byte>, rest: seq<byte>, bytes: seq<byte>, mid: seq<byte>)
    requires |mid| <= |bytes| && mid == bytes[|bytes| - |mid|..] && |b| + |mid| <= |bytes| && |bs| + |rest| <= |mid|
    ensures bytes == b + bs + rest <==> bytes == b + mid && mid == bs + rest
  {
    Assoc(b, bs, rest);
    if bytes == b + bs + rest {
      assert |b| + |mid| == |bytes| && |bs| + |rest| == |mid|;
      assert mid == (b + (bs + rest))[|b|..] == bs + rest;
    }
  }

  lemma RestIsSuffix(d: Dialect, conv: Converter, t: char, bytes: seq<byte>)
    requires DecodeItem(d, conv, t, bytes).Ok?
    ensures var rest := DecodeItem(d, conv, t, bytes).value.1; |rest| <= |bytes| && rest == bytes[|bytes| - |rest|..]
  {
    var c, body := if t == 'v' then LetterOf(bytes[0]).value else t, if t == 'v' then bytes[1..] else bytes;
    BodySplits(d, Cpp, conv, c, body);
  }

  /**
   The format is canonical exactly where it is stable: what a decoder accepted re-encodes, under the same signature, to
   the bytes it consumed if and only if no variant carries a wide tag, no wide string changes sides, and no wide string
   that C++ received contains a NUL. The new encoding is never the longer one.
   */
  lemma {:induction false} Canonical(d: Dialect, ds: Dialect, conv: Converter, sig: string, bytes: seq<byte>)
    requires Decode(d, conv, sig, bytes).fault.None? && (d.Cpp? ==> conv.Lawful())
    ensures var r := Decode(d, conv, sig, bytes);
      var e := Encode(ds, conv, sig, r.values);
      && (e.Ok? ==> |e.value| + |r.rest| <= |bytes|)
      && (e.Ok? && bytes == e.value + r.rest <==> Stable(d, ds, conv, sig, bytes))
  {
    if sig == [] {
      assert bytes == [] + bytes;
    } else {
      ItemCanonical(d, ds, conv, sig[0], bytes);
      RestIsSuffix(d, conv, sig[0], bytes);
      var (v, mid) := DecodeItem(d, conv, sig[0], bytes).value;
      var tail := Decode(d, conv, sig[1..], mid);
      Canonical(d, ds, conv, sig[1..], mid);
      var vals := Decode(d, conv, sig, bytes).values;
      assert vals[0] == v && vals[1..] == tail.values;
      var first, more := EncodeItem(ds, conv, sig[0], v), Encode(ds, conv, sig[1..], tail.values);
      if first.Ok? && more.Ok? {
        SumsAgree(first.value, more.value, tail.rest, bytes, mid);
      }
    }
  }
}
