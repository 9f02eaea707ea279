/** One frame on its way through a section machine, and the server's answer to it, whoever the client is. */
module RpcServing {
  import opened Bytes
  import opened Codec
  import opened EncodeInPlace
  import opened Frames
  import opened MessageManager
  import opened RpcServer

  /**
   A section machine that has `partial` of the announced section and `pending` (which begins with `partial`) still
   to come, where pending is a whole frame or, after its header, the body.
   */
  predicate Incoming(sectionID: nat, sectionLen: nat, missing: nat, partial: seq<byte>, pending: seq<byte>, id: nat, body: seq<byte>) {
    && missing > 0 && |partial| + missing == sectionLen
    && ((sectionID == 0 && sectionLen == 4 && pending == Frame(id, body))
        || (sectionID == 1 && sectionLen == |body| && pending == body))
    && |body| < LENGTH_SPAN && id < 256
  }

  /** Reading moves bytes from the channel to the chunk and changes nothing pending. */
  lemma ReadKeepsPending(partial: seq<byte>, channel: seq<byte>, n: nat)
    requires n <= |channel|
    ensures partial + channel[..n] + channel[n..] == partial + [] + channel
  {
    assert channel == channel[..n] + channel[n..];
  }

  /** What one pass of a transfer loop makes of the frame: more of the section, the header, or the body. */
  lemma IncomingStep(sectionID: nat, sectionLen: nat, missing: nat, partial: seq<byte>, chunk: seq<byte>, channel: seq<byte>,
                     id: nat, body: seq<byte>)
    requires Incoming(sectionID, sectionLen, missing, partial, partial + chunk + channel, id, body)
    ensures var n := Min(missing, |chunk|);
      && (n < missing ==> chunk[n..] == [])
      && (n < missing ==> Incoming(sectionID, sectionLen, missing - n, partial + chunk[..n],
                                   partial + chunk[..n] + chunk[n..] + channel, id, body))
      && (n == missing && sectionID == 0 ==> partial + chunk[..n] == Header(id, |body|) && chunk[n..] + channel == body)
      && (n == missing && sectionID != 0 ==> partial + chunk[..n] == body && chunk[n..] == [] && channel == [])
  {
    var n := Min(missing, |chunk|);
    var pending := partial + chunk + channel;
    assert chunk == chunk[..n] + chunk[n..];
    assert pending == (partial + chunk[..n]) + (chunk[n..] + channel);
    assert pending == partial + chunk[..n] + chunk[n..] + channel;
    if n == missing {
      assert pending[..sectionLen] == partial + chunk[..n] && pending[sectionLen..] == chunk[n..] + channel;
      if sectionID == 0 {
        assert Frame(id, body)[..4] == Header(id, |body|) && Frame(id, body)[4..] == body;
      }
    }
  }

  // ---- the server's end of a session ----

  /** The server's flow, the part of its last read that it has not parsed, and the channel it reads from. */
  datatype ServerEnd<W(!new)> = ServerEnd(flow: Flow<Server<W>>, chunk: seq<byte>, channel: seq<byte>)
  {
    function Pending(): seq<byte> {
      flow.partial + chunk + channel
    }

    /** Between two requests. */
    ghost predicate Rests() {
      && !flow.stopped && flow.st.sectionID == 0 && flow.st.sectionLen == 4
      && flow.partial == [] && flow.missing == 4 && chunk == [] && channel == []
    }

    predicate CanRead(n: nat) {
      !flow.stopped && chunk == [] && 0 < n <= |channel|
    }

    function Read(n: nat): ServerEnd<W>
      requires CanRead(n)
    {
      ServerEnd(flow, channel[..n], channel[n..])
    }

    predicate CanPass() {
      !flow.stopped && chunk != []
    }

    /** One pass of the transfer loop, and what it sends. */
    function Pass(p: Parser<Server<W>>): (ServerEnd<W>, seq<byte>) {
      var (f, rest, out) := Transfer(p, CppTooLarge, flow, chunk);
      (ServerEnd(f, rest, channel), Concat(out))
    }

    /** The request `body` for procedure `id` is on its way in. */
    predicate TakesIn(id: nat, body: seq<byte>) {
      && !flow.stopped && Incoming(flow.st.sectionID, flow.st.sectionLen, flow.missing, flow.partial, Pending(), id, body)
      && (flow.st.sectionID == 1 ==> flow.st.procedureID == id)
    }

    /** The next pass brings the last byte of the request. */
    predicate LastPass(body: seq<byte>) {
      flow.missing <= |chunk| && (flow.st.sectionID == 1 || body == [])
    }
  }

  /** A pass uses up part of the read and leaves the channel alone. */
  lemma PassTakes<W(!new)>(p: Parser<Server<W>>, e: ServerEnd<W>)
    requires e.CanPass() && e.flow.missing > 0
    ensures e.Pass(p).0.channel == e.channel && |e.Pass(p).0.chunk| < |e.chunk|
  {
    TransferShortens(p, CppTooLarge, e.flow, e.chunk);
  }

  // ---- the server's answer ----

  /** Why the server stops on a call: it fails, returns another number of values, or too much. */
  predicate Refuses<W(!new)>(svc: Service<W>, w: W, id: nat, vals: seq<Value>)
    requires id < |svc.procedures|
  {
    var ret := svc.called(w, id, vals).1;
    ret.None? || |ret.value| != |svc.procedures[id].rets| ||
    match Encode(Cpp, svc.conv, svc.procedures[id].rets, ret.value)
    case Ok(reply) => |reply| > LENGTH_SPAN
    case Err(_) => true
  }

  /** The server has run procedure `id` in world `w` and holds its encoded results. */
  ghost predicate Served<W(!new)>(svc: Service<W>, w: W, id: nat, vals: seq<Value>, st: Server<W>) {
    id < |svc.procedures| &&
    var (w', ret) := svc.called(w, id, vals);
    && ret.Some? && |ret.value| == |svc.procedures[id].rets|
    && st.world == w' && st.callSuccess
    && Encode(Cpp, svc.conv, svc.procedures[id].rets, ret.value) == Ok(st.results) && |st.results| < LENGTH_SPAN
  }

  /** The flow after the whole of a request has been taken in. */
  ghost predicate Answered<W(!new)>(svc: Service<W>, w: W, id: nat, vals: seq<Value>, f: Flow<Server<W>>, out: seq<seq<byte>>)
    requires id < |svc.procedures|
  {
    if Refuses(svc, w, id, vals) then f.stopped && out == []
    else
      && !f.stopped && f.st.sectionID == 0 && f.st.sectionLen == 4 && f.partial == [] && f.missing == 4
      && Served(svc, w, id, vals, f.st) && out == [Frame(1, f.st.results)]
  }

  lemma CallAnswers<W(!new)>(svc: Service<W>, s: Server<W>, body: seq<byte>, vals: seq<Value>)
    requires s.procedureID < |svc.procedures| && svc.Representable(s.procedureID, svc.called(s.world, s.procedureID, vals).1)
    requires Decode(Cpp, svc.conv, svc.procedures[s.procedureID].args, body) == Decoded(vals, [], None)
    ensures var (w', ret) := svc.called(s.world, s.procedureID, vals);
      var (ok, s') := HandleCall(svc, s, body, []);
      var proc := svc.procedures[s.procedureID];
      && (ok <==> ret.Some? && |ret.value| == |proc.rets|)
      && (ok ==> s' == s.(world := w', callSuccess := true, results := Encode(Cpp, svc.conv, proc.rets, ret.value).value)
                 && Encode(Cpp, svc.conv, proc.rets, ret.value).Ok?)
  {
    var proc := svc.procedures[s.procedureID];
    assert Arguments(svc.conv, proc.args, body) == vals;
    var ret := svc.called(s.world, s.procedureID, vals).1;
    if ret.Some? && |ret.value| == |proc.rets| {
      RoomHardlyMatters(svc.conv, Space(|s.results|, MAX_OFFSET), proc.rets, ret.value);
    }
  }

  lemma HandleAfterParse<W(!new)>(svc: Service<W>, leftover: seq<byte>, s: Server<W>, section: seq<byte>)
    requires |section| <= LENGTH_SPAN
    ensures var (ok, s1) := ParseRequest(svc, s, section, leftover);
      Handle(LeavingParser(svc, leftover), CppTooLarge, s, section) ==
      if !ok then ([], s1, true)
      else if s1.sectionID != 0 then ([], s1, false)
      else if |s1.results| > LENGTH_SPAN then ([], s1, true)
      else ([Frame(if s1.callSuccess then 1 else 0, s1.results)], s1, false)
  {
  }

  /** A section that completes a request: the header of an empty one, or the body. */
  predicate Completes<W(!new)>(s: Server<W>, section: seq<byte>, id: nat, body: seq<byte>) {
    (s.sectionID == 0 && section == Header(id, 0) && body == [])
    || (s.sectionID == 1 && section == body && s.procedureID == id)
  }

  lemma ParseAnswers<W(!new)>(svc: Service<W>, leftover: seq<byte>, s: Server<W>, section: seq<byte>, id: nat, body: seq<byte>)
    requires |body| < LENGTH_SPAN && id < 256 && Completes(s, section, id, body)
    ensures var before := if s.sectionID == 0 then s.(procedureID := id, sectionLen := 0) else s;
      var (ok, s1) := HandleCall(svc, before, body, leftover);
      ParseRequest(svc, s, section, leftover) == (ok, if ok then s1.(sectionID := 0, sectionLen := 4) else s1)
  {
    HeaderRoundTrip(id, 0);
  }

  /** After the last byte of a request: parse, dispatch, reply. */
  lemma HandleAnswers<W(!new)>(svc: Service<W>, s: Server<W>, section: seq<byte>, id: nat, body: seq<byte>, vals: seq<Value>)
    requires id < |svc.procedures| <= 256 && svc.Representable(id, svc.called(s.world, id, vals).1) && |body| < LENGTH_SPAN
    requires Decode(Cpp, svc.conv, svc.procedures[id].args, body) == Decoded(vals, [], None)
    requires Completes(s, section, id, body)
    ensures var (out, s', stop) := Handle(ServerParser(svc), CppTooLarge, s, section);
      Answered(svc, s.world, id, vals, if stop then Flow(s', section, 0, true) else Start(ServerParser(svc), s'), out)
  {
    ParseAnswers(svc, [], s, section, id, body);
    CallAnswers(svc, if s.sectionID == 0 then s.(procedureID := id, sectionLen := 0) else s, body, vals);
    HandleAfterParse(svc, [], s, section);
  }

  /** The pass that brings the last byte of a request. */
  lemma ServeLast<W(!new)>(svc: Service<W>, f: Flow<Server<W>>, chunk: seq<byte>, id: nat, body: seq<byte>, vals: seq<Value>)
    requires id < |svc.procedures| <= 256 && svc.Representable(id, svc.called(f.st.world, id, vals).1)
    requires !f.stopped && |body| < LENGTH_SPAN
    requires Decode(Cpp, svc.conv, svc.procedures[id].args, body) == Decoded(vals, [], None)
    requires f.missing <= |chunk| && Completes(f.st, f.partial + chunk[..f.missing], id, body)
    ensures var (f', rest, out) := Transfer(ServerParser(svc), CppTooLarge, f, chunk);
      rest == chunk[f.missing..] && Answered(svc, f.st.world, id, vals, f', out)
  {
    HandleAnswers(svc, f.st, f.partial + chunk[..f.missing], id, body, vals);
  }

  /** What a pass leads to: more of the request, or, with its last byte, a stop or the reply. */
  ghost predicate Outcome<W(!new)>(svc: Service<W>, e: ServerEnd<W>, id: nat, body: seq<byte>, vals: seq<Value>,
                                   e': ServerEnd<W>, reply: seq<byte>)
    requires id < |svc.procedures|
  {
    if !e.LastPass(body) then e'.TakesIn(id, body) && e'.flow.st.world == e.flow.st.world && reply == []
    else if Refuses(svc, e.flow.st.world, id, vals) then e'.flow.stopped && reply == []
    else e'.Rests() && Served(svc, e.flow.st.world, id, vals, e'.flow.st) && reply == Frame(1, e'.flow.st.results)
  }

  /** A pass that brings more of a request, or completes its header. */
  lemma ServeMore<W(!new)>(svc: Service<W>, e: ServerEnd<W>, id: nat, body: seq<byte>)
    requires e.CanPass() && e.TakesIn(id, body) && !e.LastPass(body)
    ensures var (e', reply) := e.Pass(ServerParser(svc));
      e'.TakesIn(id, body) && e'.flow.st.world == e.flow.st.world && reply == []
  {
    var f := e.flow;
    var n := Min(f.missing, |e.chunk|);
    IncomingStep(f.st.sectionID, f.st.sectionLen, f.missing, f.partial, e.chunk, e.channel, id, body);
    if n == f.missing {
      HeaderRoundTrip(id, |body|);
      assert [] + e.chunk[n..] + e.channel == body;
    }
  }

  /** The section a last pass completes, and that nothing is left after it. */
  lemma LastSection<W(!new)>(e: ServerEnd<W>, id: nat, body: seq<byte>)
    requires e.TakesIn(id, body) && e.LastPass(body)
    ensures Completes(e.flow.st, e.flow.partial + e.chunk[..e.flow.missing], id, body)
    ensures e.chunk[e.flow.missing..] == [] && e.channel == []
  {
    var f := e.flow;
    IncomingStep(f.st.sectionID, f.st.sectionLen, f.missing, f.partial, e.chunk, e.channel, id, body);
  }

  /** One pass of the server's transfer loop on an incoming request. */
  lemma ServeStep<W(!new)>(svc: Service<W>, e: ServerEnd<W>, id: nat, body: seq<byte>, vals: seq<Value>)
    requires id < |svc.procedures| <= 256 && svc.Representable(id, svc.called(e.flow.st.world, id, vals).1)
    requires Decode(Cpp, svc.conv, svc.procedures[id].args, body) == Decoded(vals, [], None)
    requires e.CanPass() && e.TakesIn(id, body)
    ensures var (e', reply) := e.Pass(ServerParser(svc)); Outcome(svc, e, id, body, vals, e', reply)
  {
    if e.LastPass(body) {
      LastSection(e, id, body);
      ServeLast(svc, e.flow, e.chunk, id, body, vals);
      var (f', rest, out) := Transfer(ServerParser(svc), CppTooLarge, e.flow, e.chunk);
      if out != [] {
        assert out == [out[0]] && Concat(out) == out[0] + [];
      }
    } else {
      ServeMore(svc, e, id, body);
    }
  }
}
