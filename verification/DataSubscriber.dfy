/** dataSubscriber.h: the section machine that turns received frames into callbacks. */
module DataSubscriber {
  import opened Bytes
  import opened ByteOrder
  import opened Codec
  import opened DataSignatureCpp
  import opened Frames
  import opened MessageManager
  import opened RpcServer
  import opened DataPublisher

  /** The state of the machine and the arguments the callback has been called with. */
  datatype Subscriber = Subscriber(sectionLen: nat, sectionID: nat, callbacks: seq<seq<Value>>)

  const FRESH_SUBSCRIBER := Subscriber(4, 0, [])

  /**
   parseMessage. Faults of the decoder other than an exception are ignored: the callback gets what was decoded,
   and default values.
   */
  function ParseData(conv: Converter, types: string, s: Subscriber, message: seq<byte>): (bool, Subscriber) {
    if s.sectionID == 0 then
      if |message| != 4 then (false, s) else
        var s1 := s.(sectionLen := HeaderLength(message));
        if s1.sectionLen > 0 then (true, s1.(sectionID := 1))
        else if |types| > 0 then (false, s1)
        else (true, s1.(callbacks := s1.callbacks + [[]], sectionID := 0, sectionLen := 4))
    else if s.sectionID == 1 then
      if Decode(Cpp, conv, types, message).fault == Some(BadText) then (false, s)
      else (true, s.(callbacks := s.callbacks + [Arguments(conv, types, message)], sectionID := 0, sectionLen := 4))
    else (false, s)
  }

  function SubscriberParser(conv: Converter, types: string): Parser<Subscriber> {
    Parser((s: Subscriber) => s.sectionLen, (s, m) => ParseData(conv, types, s, m), s => (true, [], s))
  }

  predicate SubscriberInv(s: Subscriber) {
    AtSection(s.sectionID, s.sectionLen)
  }

  lemma SubscriberIsSteady(conv: Converter, types: string)
    ensures Steady(SubscriberParser(conv, types), CppTooLarge, (s: Subscriber) => SubscriberInv(s))
  {
  }

  class DataSubscriber {
    const types: string
    const conv: Converter
    const host: Host
    var sectionLen: nat
    var sectionID: nat
    /** The calls made to the callback function. */
    var callbacks: seq<seq<Value>>

    constructor (types: string, conv: Converter, host: Host)
      ensures this.types == types && this.conv == conv && View() == FRESH_SUBSCRIBER
    {
      this.types, this.conv, this.host := types, conv, host;
      sectionLen, sectionID, callbacks := 4, 0, [];
    }

    function View(): Subscriber
      reads this
    {
      Subscriber(sectionLen, sectionID, callbacks)
    }

    method ParseMessage(message: seq<byte>) returns (ok: bool)
      requires |message| == sectionLen && AtSection(sectionID, sectionLen)
      modifies this
      ensures (ok, View()) == ParseData(conv, types, old(View()), message)
      ensures ok ==> AtSection(sectionID, sectionLen)
    {
      if sectionID == 0 {
        var mVal := BytesToUint32(host, message, true);
        sectionLen := mVal % 16777216;
        if sectionLen > 0 {
          sectionID := 1;
        } else {
          if |types| > 0 {
            return false;
          }
          callbacks := callbacks + [[]];
          sectionID, sectionLen := 0, 4;
        }
      } else {
        var args := new ValueVector([]);
        var signature := new DataSignature(types, conv, host);
        var decoded := signature.FromBinary(message, args);
        if decoded == Threw {
          return false;
        }
        callbacks := callbacks + [args.items];
        if |types| != |args.items| {
          return false;
        }
        sectionID, sectionLen := 0, 4;
      }
      ok := true;
    }
  }

  // ---- what a stream of frames leads to ----

  /** Each body decodes, with nothing left over, to the values at the same position. */
  ghost predicate Carries(conv: Converter, types: string, bodies: seq<seq<byte>>, values: seq<seq<Value>>) {
    && |bodies| == |values|
    && forall k :: 0 <= k < |bodies| ==>
         |bodies[k]| < LENGTH_SPAN && Decode(Cpp, conv, types, bodies[k]) == Decoded(values[k], [], None)
  }

  lemma HandleHeader(conv: Converter, types: string, s: Subscriber, len: nat)
    requires s.sectionID == 0 && len < LENGTH_SPAN && (len == 0 ==> types == [])
    ensures Handle(SubscriberParser(conv, types), CppTooLarge, s, Header(1, len))
         == ([], if len > 0 then s.(sectionLen := len, sectionID := 1)
                 else Subscriber(4, 0, s.callbacks + [[]]), false)
  {
    HeaderRoundTrip(1, len);
  }

  lemma HandleBody(conv: Converter, types: string, s: Subscriber, body: seq<byte>, values: seq<Value>)
    requires s.sectionID == 1 && Decode(Cpp, conv, types, body) == Decoded(values, [], None)
    ensures Handle(SubscriberParser(conv, types), CppTooLarge, s, body)
         == ([], Subscriber(4, 0, s.callbacks + [values]), false)
  {
    assert Arguments(conv, types, body) == values;
  }

  lemma OneSection(conv: Converter, types: string, s: Subscriber, section: seq<byte>, s': Subscriber)
    requires |section| == s.sectionLen > 0
    requires Handle(SubscriberParser(conv, types), CppTooLarge, s, section) == ([], s', false)
    ensures var r := Stream(SubscriberParser(conv, types), CppTooLarge, s, section); r.st == s' && r.rest == [] && !r.stopped
  {
    assert section[..s.sectionLen] == section && section[s.sectionLen..] == [];
    assert Stream(SubscriberParser(conv, types), CppTooLarge, s', []) == Run([], [], s', [], false);
  }

  /** A whole frame is one callback. */
  lemma FrameDelivers(conv: Converter, types: string, s: Subscriber, body: seq<byte>, values: seq<Value>)
    requires s.sectionID == 0 && s.sectionLen == 4 && |body| < LENGTH_SPAN
    requires Decode(Cpp, conv, types, body) == Decoded(values, [], None)
    ensures var r := Stream(SubscriberParser(conv, types), CppTooLarge, s, Frame(1, body));
      r.st == Subscriber(4, 0, s.callbacks + [values]) && r.rest == [] && !r.stopped
  {
    var header, frame := Header(1, |body|), Frame(1, body);
    assert body == [] && types != [] ==> DecodeItem(Cpp, conv, types[0], []).Err?;
    HandleHeader(conv, types, s, |body|);
    if body == [] {
      assert frame == header;
      OneSection(conv, types, s, header, Subscriber(4, 0, s.callbacks + [[]]));
    } else {
      var s1 := s.(sectionLen := |body|, sectionID := 1);
      assert frame[..4] == header && frame[4..] == body;
      HandleBody(conv, types, s1, body, values);
      OneSection(conv, types, s1, body, Subscriber(4, 0, s.callbacks + [values]));
    }
  }

  /** A stream that the machine accepts and that leaves this record of callbacks. */
  ghost predicate Yields(conv: Converter, types: string, s: Subscriber, bytes: seq<byte>, callbacks: seq<seq<Value>>) {
    var r := Stream(SubscriberParser(conv, types), CppTooLarge, s, bytes);
    r.st.callbacks == callbacks && !r.stopped
  }

  /** Frame by frame. */
  lemma AfterFrame(conv: Converter, types: string, s: Subscriber, body: seq<byte>, values: seq<Value>, more: seq<byte>,
                   callbacks: seq<seq<Value>>)
    requires s.sectionID == 0 && s.sectionLen == 4 && |body| < LENGTH_SPAN
    requires Decode(Cpp, conv, types, body) == Decoded(values, [], None)
    requires Yields(conv, types, Subscriber(4, 0, s.callbacks + [values]), more, callbacks)
    ensures Yields(conv, types, s, Frame(1, body) + more, callbacks)
  {
    SubscriberIsSteady(conv, types);
    StreamAppend(SubscriberParser(conv, types), CppTooLarge, (t: Subscriber) => SubscriberInv(t), s, Frame(1, body), more);
    FrameDelivers(conv, types, s, body, values);
    assert [] + more == more;
  }

  /** Less than a frame is none. */
  lemma PartOfFrame(conv: Converter, types: string, s: Subscriber, body: seq<byte>, part: seq<byte>)
    requires s.sectionID == 0 && s.sectionLen == 4 && |body| < LENGTH_SPAN && part < Frame(1, body)
    ensures Yields(conv, types, s, part, s.callbacks)
  {
    HeaderRoundTrip(1, |body|);
    if |part| >= 4 {
      assert part[..4] == Frame(1, body)[..4] == Header(1, |body|);
    }
  }

  /** How many whole frames lie within the first n bytes. */
  function Whole(bodies: seq<seq<byte>>, n: nat): (k: nat)
    ensures k <= |bodies|
  {
    if bodies == [] || n < 4 + |bodies[0]| then 0 else 1 + Whole(bodies[1..], n - 4 - |bodies[0]|)
  }

  lemma {:induction false} WholeCounts(bodies: seq<seq<byte>>, n: nat, k: nat)
    requires k <= |bodies|
    ensures k <= Whole(bodies, n) <==> |Framed(bodies[..k])| <= n
  {
    if k > 0 {
      assert bodies[..k][1..] == bodies[1..][..k - 1];
      if n >= 4 + |bodies[0]| {
        WholeCounts(bodies[1..], n - 4 - |bodies[0]|, k - 1);
      }
    }
  }

  lemma Tails(conv: Converter, types: string, bodies: seq<seq<byte>>, values: seq<seq<Value>>, bytes: seq<byte>)
    requires bodies != [] && Carries(conv, types, bodies, values) && bytes <= Framed(bodies)
    ensures Carries(conv, types, bodies[1..], values[1..])
    ensures |bytes| < 4 + |bodies[0]| ==> bytes < Frame(1, bodies[0])
    ensures |bytes| >= 4 + |bodies[0]| ==> var more := bytes[4 + |bodies[0]|..];
      bytes == Frame(1, bodies[0]) + more && more <= Framed(bodies[1..])
  {
    var frame := Frame(1, bodies[0]);
    assert bytes == Framed(bodies)[..|bytes|];
    assert Framed(bodies)[|frame|..] == Framed(bodies[1..]);
  }

  /** Of any beginning of a stream of frames, exactly the frames that are complete have been delivered, in order. */
  lemma {:induction false} DeliveredExactly(conv: Converter, types: string, s: Subscriber, bodies: seq<seq<byte>>,
                                            values: seq<seq<Value>>, bytes: seq<byte>)
    requires s.sectionID == 0 && s.sectionLen == 4 && Carries(conv, types, bodies, values) && bytes <= Framed(bodies)
    ensures Yields(conv, types, s, bytes, s.callbacks + values[..Whole(bodies, |bytes|)])
    decreases |bodies|
  {
    if bodies == [] {
      assert s.callbacks + values[..0] == s.callbacks;
    } else {
      Tails(conv, types, bodies, values, bytes);
      var n := 4 + |bodies[0]|;
      if |bytes| < n {
        PartOfFrame(conv, types, s, bodies[0], bytes);
        assert s.callbacks + values[..0] == s.callbacks;
      } else {
        var more := bytes[n..];
        var k := Whole(bodies[1..], |more|);
        DeliveredExactly(conv, types, Subscriber(4, 0, s.callbacks + [values[0]]), bodies[1..], values[1..], more);
        assert values[..k + 1] == [values[0]] + values[1..][..k];
        Assoc(s.callbacks, [values[0]], values[1..][..k]);
        AfterFrame(conv, types, s, bodies[0], values[0], more, s.callbacks + values[..k + 1]);
      }
    }
  }
}
