/**
 What each receiving end makes of any frame at all, those that no other end sends included, and which frames a Go client
 sends.
 */
module AnyFrame {
  import opened Bytes
  import opened Codec
  import opened EncodeInPlace
  import opened Frames
  import opened MessageManager
  import opened RpcServer
  import opened RpcServing
  import opened WireFormat
  import RpcClient
  import GoClient
  import DataSubscriber

  // ---- a frame is a header and a body ----

  /** A frame is one section or two: the header, and the body if there is one and the header has not stopped the flow. */
  lemma FrameInSections<S(!new)>(p: Parser<S>, tooLarge: SizeCheck, st: S, id: nat, body: seq<byte>)
    requires p.len(st) == 4
    ensures var (sent, st1, stop) := Handle(p, tooLarge, st, Header(id, |body|));
      var r := Stream(p, tooLarge, st, Frame(id, body));
      && (stop || body == [] ==> r.stopped == stop && r.sent == sent && r.st == st1 && r.rest == [])
      && (!stop && body != [] && p.len(st1) == |body| ==>
            var (more, st2, stop') := Handle(p, tooLarge, st1, body);
            r.stopped == stop' && r.sent == sent + more && r.st == st2 && r.rest == [])
  {
    var header, frame := Header(id, |body|), Frame(id, body);
    assert frame[..4] == header && frame[4..] == body;
    var (sent, st1, stop) := Handle(p, tooLarge, st, header);
    if !stop && body != [] && p.len(st1) == |body| {
      assert body[..|body|] == body && body[|body|..] == [];
      assert Stream(p, tooLarge, Handle(p, tooLarge, st1, body).1, []).sent == [];
      assert (Handle(p, tooLarge, st1, body).0 + []) == Handle(p, tooLarge, st1, body).0;
    } else if !stop && body == [] {
      assert Stream(p, tooLarge, st1, []) == Run([], [], st1, [], false);
      assert sent + [] == sent;
    }
  }

  // ---- the server ----

  /** Decoding the arguments ends in an exception. */
  predicate Throws<W(!new)>(svc: Service<W>, id: nat, body: seq<byte>)
    requires id < |svc.procedures|
  {
    Decode(Cpp, svc.conv, svc.procedures[id].args, body).fault == Some(BadText)
  }

  /** What the procedure is called with: the values decoded, and int64 zeros for those that could not be. */
  function CalledWith<W(!new)>(svc: Service<W>, id: nat, body: seq<byte>): seq<Value>
    requires id < |svc.procedures|
  {
    Arguments(svc.conv, svc.procedures[id].args, body)
  }

  /** The server has stopped without a word. */
  ghost predicate StopsSilently<W(!new)>(r: Run<Server<W>>, w: W) {
    r.stopped && r.sent == [] && r.st.world == w
  }

  /** The server has sent one reply with these bytes and waits for the next request. */
  ghost predicate Replies<W(!new)>(r: Run<Server<W>>, w: W, reply: seq<byte>) {
    !r.stopped && r.sent == [Frame(1, reply)] && r.st.world == w && r.st.sectionID == 0 && r.st.sectionLen == 4
  }

  ghost predicate RepliesIfShort<W(!new)>(r: Run<Server<W>>, w: W, reply: seq<byte>) {
    if |reply| <= LENGTH_SPAN then Replies(r, w, reply) else StopsSilently(r, w)
  }

  /** The procedure has been called, in the world before the request, and has left another. */
  ghost predicate AfterCall<W(!new)>(svc: Service<W>, leftover: seq<byte>, s: Server<W>, id: nat, vals: seq<Value>, r: Run<Server<W>>)
    requires id < |svc.procedures|
  {
    var (w, ret) := svc.called(s.world, id, vals);
    if ret.None? || |ret.value| != |svc.procedures[id].rets| then StopsSilently(r, w)
    else
      var reply := EncodeFrom(svc.conv, |s.results|, svc.procedures[id].rets, ret.value);
      if reply.Ok? then RepliesIfShort(r, w, reply.value)
      else if reply.fault == BadText || reply.fault == Overrun || reply.fault == Overflow then StopsSilently(r, w)
      else RepliesIfShort(r, w, leftover)
  }

  /** The section that completes a request, once the header has been taken note of. */
  lemma LastSectionDecides<W(!new)>(svc: Service<W>, leftover: seq<byte>, s: Server<W>, section: seq<byte>, id: nat, body: seq<byte>)
    requires |body| < LENGTH_SPAN && id < 256 && Completes(s, section, id, body)
    ensures var (sent, s', stop) := Handle(LeavingParser(svc, leftover), CppTooLarge, s, section);
      var r := Run([], sent, s', [], stop);
      if id >= |svc.procedures| || Throws(svc, id, body) then StopsSilently(r, s.world)
      else AfterCall(svc, leftover, s, id, CalledWith(svc, id, body), r)
  {
    ParseAnswers(svc, leftover, s, section, id, body);
    HandleAfterParse(svc, leftover, s, section);
  }

  lemma HeaderBeforeBody<W(!new)>(svc: Service<W>, leftover: seq<byte>, s: Server<W>, id: nat, body: seq<byte>)
    requires s.sectionID == 0 && id < 256 && 0 < |body| < LENGTH_SPAN
    ensures Handle(LeavingParser(svc, leftover), CppTooLarge, s, Header(id, |body|))
         == ([], s.(procedureID := id, sectionLen := |body|, sectionID := 1), false)
  {
    HeaderRoundTrip(id, |body|);
    HandleAfterParse(svc, leftover, s, Header(id, |body|));
  }

  /**
   What a server makes of any request, whoever sent it. It stops without a word, and the world as it was, if the
   identifier is no procedure's or decoding the arguments throws. Otherwise it calls the procedure once with what was
   decoded, whether or not that was all, and replies, or stops if the results are none, of another number or too long.
   */
  lemma RequestDecides<W(!new)>(svc: Service<W>, leftover: seq<byte>, s: Server<W>, id: nat, body: seq<byte>)
    requires s.sectionID == 0 && s.sectionLen == 4 && id < 256 && |body| < LENGTH_SPAN
    ensures var r := Stream(LeavingParser(svc, leftover), CppTooLarge, s, Frame(id, body));
      && r.rest == []
      && if id >= |svc.procedures| || Throws(svc, id, body) then StopsSilently(r, s.world)
         else AfterCall(svc, leftover, s, id, CalledWith(svc, id, body), r)
  {
    var p := LeavingParser(svc, leftover);
    FrameInSections(p, CppTooLarge, s, id, body);
    if body == [] {
      LastSectionDecides(svc, leftover, s, Header(id, 0), id, body);
    } else {
      var s1 := s.(procedureID := id, sectionLen := |body|, sectionID := 1);
      HeaderBeforeBody(svc, leftover, s, id, body);
      LastSectionDecides(svc, leftover, s1, body, id, body);
    }
  }

  /**
   So, where the results can be encoded, exactly when it stops: for an identifier that no procedure has, for arguments
   that throw, or for a call it refuses. Otherwise it sends exactly one reply, the encoded results.
   */
  lemma WhenServerStops<W(!new)>(svc: Service<W>, s: Server<W>, id: nat, body: seq<byte>)
    requires s.sectionID == 0 && s.sectionLen == 4 && id < 256 && |body| < LENGTH_SPAN
    requires id < |svc.procedures| && !Throws(svc, id, body) ==>
               svc.Representable(id, svc.called(s.world, id, CalledWith(svc, id, body)).1)
    ensures var r := Stream(ServerParser(svc), CppTooLarge, s, Frame(id, body));
      && (r.stopped <==> id >= |svc.procedures| || Throws(svc, id, body) || Refuses(svc, s.world, id, CalledWith(svc, id, body)))
      && (r.stopped ==> r.sent == [])
      && (!r.stopped ==> var (w, ret) := svc.called(s.world, id, CalledWith(svc, id, body));
                         r.st.world == w && Encode(Cpp, svc.conv, svc.procedures[id].rets, ret.value).Ok?
                         && r.sent == [Frame(1, Encode(Cpp, svc.conv, svc.procedures[id].rets, ret.value).value)])
  {
    RequestDecides(svc, [], s, id, body);
    if id < |svc.procedures| && !Throws(svc, id, body) {
      var ret := svc.called(s.world, id, CalledWith(svc, id, body)).1;
      if ret.Some? && |ret.value| == |svc.procedures[id].rets| {
        RoomHardlyMatters(svc.conv, Space(|s.results|, MAX_OFFSET), svc.procedures[id].rets, ret.value);
      }
    }
  }

  // ---- the clients and the subscriber ----

  /**
   A call is turned into a frame just if its arguments have an encoding, of at most 2^24 bytes; and the frame is that
   encoding behind the number of the procedure, modulo 256, and its length.
   */
  lemma CommandsExactly(conv: Converter, procs: seq<GoClient.RemoteProcedure>, i: nat, args: seq<Value>, frame: seq<byte>)
    requires i < |procs|
    ensures GoClient.Command(conv, procs, i, args) == Some(frame)
       <==> |args| == |procs[i].args|
            && exists e :: IsList(Go, conv, procs[i].args, args, e) && |e| <= 16777216 && frame == Frame(i % 256, e)
  {
    if |args| == |procs[i].args| {
      var encoded := Encode(Go, conv, procs[i].args, args);
      forall e
        ensures encoded == Ok(e) <==> IsList(Go, conv, procs[i].args, args, e)
      {
        ListEncodedExactly(Go, conv, procs[i].args, args, e);
      }
      assert encoded.Ok? ==> IsList(Go, conv, procs[i].args, args, encoded.value);
    }
  }

  /** A C++ client between a request and its reply. */
  function CppClientParser(): Parser<RpcClient.Client> {
    Parser((c: RpcClient.Client) => c.sectionLen, (c, m) => RpcClient.ParseReply(c, m), c => (true, [], c))
  }

  /** A C++ client takes any reply, whatever its success flag says, and never stops for one. */
  lemma AnyReplyIsTaken(c: RpcClient.Client, flag: nat, body: seq<byte>)
    requires c.sectionID == 0 && c.sectionLen == 4 && flag < 256 && |body| < LENGTH_SPAN
    ensures var r := Stream(CppClientParser(), CppTooLarge, c, Frame(flag, body));
      !r.stopped && r.rest == [] && r.st == c.(callSuccessInt := flag, rets := body, replIsReady := true)
  {
    HeaderRoundTrip(flag, |body|);
    FrameInSections(CppClientParser(), CppTooLarge, c, flag, body);
  }

  /** A Go client between a request and its reply. */
  function GoClientParser(conv: Converter, procs: seq<GoClient.RemoteProcedure>): Parser<GoClient.Client> {
    Parser((c: GoClient.Client) => c.sectionLen, (c, m) => GoClient.ParseReply(conv, procs, c, m), c => (true, [], c))
  }

  /**
   A Go client stops, and makes no callback, if it does not know the name it has kept or cannot decode the whole reply;
   otherwise it makes that procedure's callback, with success just if the flag is 1.
   */
  lemma AnyReplyDecides(conv: Converter, procs: seq<GoClient.RemoteProcedure>, c: GoClient.Client, flag: nat, body: seq<byte>)
    requires c.sectionID == 0 && c.sectionLen == 4 && flag < 256 && |body| < LENGTH_SPAN
    ensures var r := Stream(GoClientParser(conv, procs), GoTooLarge, c, Frame(flag, body));
      var place := GoClient.Lookup(procs, c.lastRemoteProc);
      && (r.stopped <==> place.None? || Decode(Go, conv, procs[place.value].rets, body).fault.Some?)
      && (r.stopped ==> r.st.callbacks == c.callbacks)
      && (!r.stopped ==>
            && r.rest == [] && r.st.sectionID == 0 && r.st.sectionLen == 4
            && var made := GoClient.Callback(place.value, flag == 1, Decode(Go, conv, procs[place.value].rets, body).values);
            r.st.callbacks == c.callbacks + [made])
  {
    HeaderRoundTrip(flag, |body|);
    FrameInSections(GoClientParser(conv, procs), GoTooLarge, c, flag, body);
  }

  /**
   A subscriber does not look at the identifier. It stops, and makes no callback, for an empty body where it expects
   values and for one that throws; any other body is a callback, with int64 zeros for what could not be decoded.
   */
  lemma AnyDataDecides(conv: Converter, types: string, s: DataSubscriber.Subscriber, id: nat, body: seq<byte>)
    requires s.sectionID == 0 && s.sectionLen == 4 && id < 256 && |body| < LENGTH_SPAN
    ensures var r := Stream(DataSubscriber.SubscriberParser(conv, types), CppTooLarge, s, Frame(id, body));
      && (r.stopped <==> (body == [] && types != "") || Decode(Cpp, conv, types, body).fault == Some(BadText))
      && r.st.callbacks == (if r.stopped then s.callbacks else s.callbacks + [Arguments(conv, types, body)])
      && (!r.stopped ==> r.rest == [] && r.st.sectionID == 0 && r.st.sectionLen == 4)
  {
    HeaderRoundTrip(id, |body|);
    FrameInSections(DataSubscriber.SubscriberParser(conv, types), CppTooLarge, s, id, body);
  }
}
