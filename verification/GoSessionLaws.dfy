/** What every step of a Go session keeps, and when a call is lost. */
module GoSessionLaws {
  import opened Bytes
  import opened Codec
  import opened CodecLaws
  import opened Frames
  import opened MessageManager
  import opened MessageManagerGo
  import opened RpcServer
  import opened RpcServing
  import opened GoClient
  import opened GoSession

  /** The way round of the call in flight. */
  predicate NextPlace(a: Place, b: Place) {
    a == b || match a
              case Quiet => b.Taken?
              case Taken => b.Prepared?
              case Prepared => b.AtServer?
              case AtServer => b.AtClient? || b.Lost?
              case AtClient => b.Quiet? || b.Lost?
              case Lost => false
  }

  lemma InitInv<W(!new)>(setup: Setup<W>, w0: W)
    ensures Inv(setup, w0, Init(setup, w0))
  {
    assert Answers([]) == [];
  }

  // ---- frames ----

  lemma FrameStartsWithId(id: nat, body: seq<byte>)
    requires id < 256 && |body| < LENGTH_SPAN
    ensures HeaderId(Frame(id, body)[..4]) == id && Frame(id, body)[4..] == body && Frame(id, body) != []
  {
    HeaderRoundTrip(id, |body|);
    assert Frame(id, body)[..4] == Header(id, |body|);
  }

  /** Equal frames ask for the same procedure with the same bytes. */
  lemma FramesTell<W(!new)>(setup: Setup<W>, a: Call, b: Call)
    requires |setup.local| <= 256 && setup.Serialises(a) && setup.Serialises(b)
    ensures setup.SameRequest(a, b) <==> setup.FrameOf(a) == setup.FrameOf(b)
  {
    FrameStartsWithId(a.proc, setup.Request(a));
    FrameStartsWithId(b.proc, setup.Request(b));
  }

  lemma SameCommand<W(!new)>(setup: Setup<W>, command: seq<byte>, name: string, a: Call, b: Call)
    requires setup.Serialises(a) && setup.Serialises(b) && setup.SameRequest(a, b) && CommandIs(setup, command, name, a)
    ensures CommandIs(setup, command, name, b)
  {
  }

  // ---- the caller ----

  lemma BooksAfterLock<W(!new)>(setup: Setup<W>, b: Ledger, c: Call)
    requires |setup.local| <= 256 && setup.NeverOvertakes() && AllSerialise(setup, b.issued) && Books(setup, b)
    requires b.caller.Outside? && !b.locked && setup.Proper(c) && (b.answered < |b.issued| ==> setup.allows(Last(b.issued), c))
    ensures Books(setup, b.(locked := true, caller := Serialising, call := c))
  {
    if b.answered < |b.issued| && setup.Serialises(c) {
      FramesTell(setup, Last(b.issued), c);
    }
  }

  lemma LockStep<W(!new)>(setup: Setup<W>, w0: W, s: State<W>, c: Call, s': State<W>)
    requires |setup.local| <= 256 && setup.NeverOvertakes() && Inv(setup, w0, s) && Apply(setup, s, Lock(c)) == Some(s')
    ensures Inv(setup, w0, s') && PlaceOf(s') == PlaceOf(s) && !Stuck(s')
  {
    BooksAfterLock(setup, LedgerOf(s), c);
    CallerKeepsFlow(setup, s, World(setup, w0, s.issued, s.client.callbacks), Oldest(s), s');
  }

  /** Past serialisation the command is the call's own frame and the name kept is the call's. */
  lemma PreparedIsCurrent<W(!new)>(setup: Setup<W>, client: Client, c: Call, client': Client)
    requires |setup.local| <= 256 && setup.Proper(c)
    requires Prepare(setup.service.conv, setup.local, client, c.proc, c.args) == (true, client')
    ensures setup.Serialises(c) && CommandIs(setup, client'.command, client'.lastRemoteProc, c)
    ensures client' == client.(command := client'.command, lastRemoteProc := client'.lastRemoteProc)
  {
  }

  lemma IssuedGrows<W(!new)>(setup: Setup<W>, w0: W, issued: seq<Call>, callbacks: seq<Callback>, c: Call)
    requires AnsweredDirectly(setup, w0, issued, callbacks) && setup.Serialises(c)
    ensures AnsweredDirectly(setup, w0, issued + [c], callbacks)
    ensures World(setup, w0, issued + [c], callbacks) == World(setup, w0, issued, callbacks)
  {
    assert (issued + [c])[..|callbacks|] == issued[..|callbacks|];
  }

  lemma BooksAfterFill<W(!new)>(setup: Setup<W>, b: Ledger, command: seq<byte>, name: string)
    requires AllSerialise(setup, b.issued) && Books(setup, b) && b.caller.Serialising? && setup.Serialises(b.call)
    requires CommandIs(setup, command, name, b.call)
    ensures AllSerialise(setup, b.issued + [b.call])
    ensures Books(setup, b.(command := command, name := name, locked := false, caller := Offering, issued := b.issued + [b.call]))
  {
    if b.answered < |b.issued| {
      SameCommand(setup, command, name, b.call, b.issued[b.answered]);
    }
  }

  /** What the caller does does not touch what the flow has under way. */
  lemma CallerKeepsFlow<W(!new)>(setup: Setup<W>, s: State<W>, w: W, c: Call, s': State<W>)
    requires setup.Serialises(c) || PlaceOf(s).Quiet? || PlaceOf(s).Lost?
    requires FlowAt(setup, s, w, c, PlaceOf(s))
    requires s' == s.(client := s'.client, locked := s'.locked, caller := s'.caller, call := s'.call, issued := s'.issued)
    requires s'.client == s.client.(command := s'.client.command, lastRemoteProc := s'.client.lastRemoteProc)
    ensures PlaceOf(s') == PlaceOf(s) && FlowAt(setup, s', w, c, PlaceOf(s'))
  {
  }

  lemma QuietWhoever<W(!new)>(setup: Setup<W>, s: State<W>, w: W, c: Call, c': Call)
    requires FlowAt(setup, s, w, c, Quiet)
    ensures FlowAt(setup, s, w, c', Quiet)
  {
  }

  /** What Fill does to the state, whichever way it ends. */
  lemma FillShape<W(!new)>(setup: Setup<W>, s: State<W>, s': State<W>)
    requires |setup.local| <= 256 && Apply(setup, s, Fill) == Some(s') && setup.Proper(s.call)
    ensures s.caller.Serialising? && (s'.caller.Offering? <==> setup.Serialises(s.call))
    ensures s'.client == s.client.(command := s'.client.command, lastRemoteProc := s'.client.lastRemoteProc)
    ensures s' == s.(client := s'.client, locked := s'.locked, caller := s'.caller, issued := s'.issued)
    ensures setup.Serialises(s.call) ==> !s'.locked && s'.issued == s.issued + [s.call]
                                         && CommandIs(setup, s'.client.command, s'.client.lastRemoteProc, s.call)
    ensures !setup.Serialises(s.call) ==> s'.caller.Outside? && s'.locked == s.locked && s'.issued == s.issued
  {
    if setup.Serialises(s.call) {
      PreparedIsCurrent(setup, s.client, s.call, s'.client);
    }
  }

  lemma FilledStep<W(!new)>(setup: Setup<W>, w0: W, s: State<W>, s': State<W>)
    requires |setup.local| <= 256 && Inv(setup, w0, s) && Apply(setup, s, Fill) == Some(s') && setup.Serialises(s.call)
    ensures Inv(setup, w0, s') && PlaceOf(s') == PlaceOf(s) && !Stuck(s')
  {
    var w := World(setup, w0, s.issued, s.client.callbacks);
    FillShape(setup, s, s');
    CallerKeepsFlow(setup, s, w, Oldest(s), s');
    IssuedGrows(setup, w0, s.issued, s.client.callbacks, s.call);
    BooksAfterFill(setup, LedgerOf(s), s'.client.command, s'.client.lastRemoteProc);
    if s.flow.AwaitCommand? {
      QuietWhoever(setup, s', w, Oldest(s), Oldest(s'));
    }
  }

  lemma GivenUpStep<W(!new)>(setup: Setup<W>, w0: W, s: State<W>, s': State<W>)
    requires |setup.local| <= 256 && Inv(setup, w0, s) && Apply(setup, s, Fill) == Some(s') && !setup.Serialises(s.call)
    ensures Inv(setup, w0, s') && PlaceOf(s') == PlaceOf(s) && Stuck(s')
  {
    FillShape(setup, s, s');
    CallerKeepsFlow(setup, s, World(setup, w0, s.issued, s.client.callbacks), Oldest(s), s');
  }

  lemma FillStep<W(!new)>(setup: Setup<W>, w0: W, s: State<W>, s': State<W>)
    requires |setup.local| <= 256 && Inv(setup, w0, s) && Apply(setup, s, Fill) == Some(s')
    ensures Inv(setup, w0, s') && PlaceOf(s') == PlaceOf(s)
    ensures Stuck(s') <==> Command(setup.service.conv, setup.local, s.call.proc, s.call.args).None?
  {
    if setup.Serialises(s.call) {
      FilledStep(setup, w0, s, s');
    } else {
      GivenUpStep(setup, w0, s, s');
    }
  }

  // ---- the flow goroutine up to its reads ----

  lemma HandshakeStep<W(!new)>(setup: Setup<W>, w0: W, s: State<W>, s': State<W>)
    requires Inv(setup, w0, s) && Apply(setup, s, Handshake) == Some(s')
    ensures Inv(setup, w0, s') && PlaceOf(s) == Quiet && PlaceOf(s') == Taken && !Stuck(s')
  {
  }

  lemma CopyStep<W(!new)>(setup: Setup<W>, w0: W, s: State<W>, s': State<W>)
    requires |setup.local| <= 256 && Inv(setup, w0, s) && Apply(setup, s, Copy) == Some(s')
    ensures Inv(setup, w0, s') && PlaceOf(s) == Taken && PlaceOf(s') == Prepared
  {
    FrameStartsWithId(Oldest(s).proc, setup.Request(Oldest(s)));
  }

  lemma FrameFits<W(!new)>(setup: Setup<W>, c: Call)
    requires setup.Serialises(c)
    ensures !GoTooLarge(0, setup.FrameOf(c))
  {
    var n := |setup.FrameOf(c)|;
    assert n < 0x1_0000_0000 && n % 0x1_0000_0000 == n;
  }

  /** A call's own frame is never too large for the connection. */
  lemma FrameGoesOut<W(!new)>(setup: Setup<W>, s: State<W>, c: Call)
    requires setup.Serialises(c) && s.flow.Sending? && s.outbox == setup.FrameOf(c)
    ensures Apply(setup, s, Send) ==
      Some(s.(flow := if s.sent == [] then Reading else Measuring, outbox := [], sent := s.sent + [s.outbox],
              server := s.server.(channel := s.server.channel + s.outbox)))
  {
    FrameFits(setup, c);
  }

  lemma SendFlow<W(!new)>(setup: Setup<W>, w: W, c: Call, s: State<W>, s': State<W>)
    requires |setup.local| <= 256 && setup.Serialises(c) && FlowAt(setup, s, w, c, Prepared)
    requires Apply(setup, s, Send) == Some(s')
    ensures PlaceOf(s') == AtServer && FlowAt(setup, s', w, c, AtServer) && s'.client == s.client
    ensures LedgerOf(s') == LedgerOf(s).(out := true, sent := s.sent + [setup.FrameOf(c)])
  {
    FrameGoesOut(setup, s, c);
    var frame := setup.FrameOf(c);
    assert s'.server.Pending() == frame by {
      assert [] + [] + ([] + frame) == frame;
    }
    FrameStartsWithId(c.proc, setup.Request(c));
  }

  lemma BooksAfterSend<W(!new)>(setup: Setup<W>, b: Ledger)
    requires AllSerialise(setup, b.issued) && Books(setup, b) && b.flying && !b.out
    ensures b.answered < |b.issued| && Books(setup, b.(out := true, sent := b.sent + [setup.FrameOf(b.issued[b.answered])]))
  {
  }

  lemma SendStep<W(!new)>(setup: Setup<W>, w0: W, s: State<W>, s': State<W>)
    requires |setup.local| <= 256 && Inv(setup, w0, s) && Apply(setup, s, Send) == Some(s')
    ensures Inv(setup, w0, s') && PlaceOf(s) == Prepared && PlaceOf(s') == AtServer
  {
    BooksAfterSend(setup, LedgerOf(s));
    SendFlow(setup, World(setup, w0, s.issued, s.client.callbacks), Oldest(s), s, s');
  }

  lemma MeasureFlow<W(!new)>(setup: Setup<W>, w: W, c: Call, s: State<W>, s': State<W>)
    requires setup.Serialises(c) || PlaceOf(s).Quiet? || PlaceOf(s).Lost?
    requires FlowAt(setup, s, w, c, PlaceOf(s)) && Apply(setup, s, Measure) == Some(s')
    ensures PlaceOf(s') == PlaceOf(s) && FlowAt(setup, s', w, c, PlaceOf(s'))
    ensures LedgerOf(s') == LedgerOf(s) && s'.client == s.client
  {
  }

  lemma MeasureStep<W(!new)>(setup: Setup<W>, w0: W, s: State<W>, s': State<W>)
    requires Inv(setup, w0, s) && Apply(setup, s, Measure) == Some(s')
    ensures Inv(setup, w0, s') && PlaceOf(s') == PlaceOf(s)
  {
    MeasureFlow(setup, World(setup, w0, s.issued, s.client.callbacks), Oldest(s), s, s');
  }

  lemma ReadFlow<W(!new)>(setup: Setup<W>, w: W, c: Call, s: State<W>, step: Step, s': State<W>)
    requires setup.Serialises(c) || PlaceOf(s).Quiet? || PlaceOf(s).Lost?
    requires FlowAt(setup, s, w, c, PlaceOf(s)) && Apply(setup, s, step) == Some(s') && (step.ClientRead? || step.ServerRead?)
    ensures PlaceOf(s') == PlaceOf(s) && FlowAt(setup, s', w, c, PlaceOf(s'))
    ensures LedgerOf(s') == LedgerOf(s) && s'.client == s.client
  {
    match step
    case ClientRead(n) =>
      ReadKeepsPending(s.buffer, s.toClient, n);
      assert ClientPending(s') == ClientPending(s);
    case ServerRead(n) =>
      ReadKeepsPending(s.server.flow.partial, s.server.channel, n);
      assert s'.server.Pending() == s.server.Pending();
  }

  lemma ReadStep<W(!new)>(setup: Setup<W>, w0: W, s: State<W>, step: Step, s': State<W>)
    requires Inv(setup, w0, s) && Apply(setup, s, step) == Some(s') && (step.ClientRead? || step.ServerRead?)
    ensures Inv(setup, w0, s') && PlaceOf(s') == PlaceOf(s)
  {
    ReadFlow(setup, World(setup, w0, s.issued, s.client.callbacks), Oldest(s), s, step, s');
  }

  // ---- the reply ----

  /** The client's pass is the Go loop's iteration, up to the point where SendMessage waits. */
  lemma ClientPassIsGoTransfer<W(!new)>(setup: Setup<W>, s: State<W>, s': State<W>)
    requires s.flow.Reading? && TransferReply(setup, s) == Some(s')
    ensures var p := Parser((c: Client) => c.sectionLen, (c, m) => ParseReply(setup.service.conv, setup.local, c, m), c => (true, [], c));
      var g := GoTransfer(p, GoRun([], [], GoFlow(s.client, s.buffer, s.missing, false)), s.chunk);
      && g.flow == GoFlow(s'.client, s'.buffer, s'.missing, s'.flow.Stopped?) && g.sent == []
      && s'.chunk == s.chunk[Min(s.client.sectionLen, |s.chunk|)..]
  {
  }

  /** The callback a reply leads to is the one a direct call is answered with. */
  lemma DeliverIsDirect<W(!new)>(setup: Setup<W>, w: W, c: Call, st: Server<W>, client: Client) returns (answer: Callback)
    requires setup.WellFormed() && setup.Serialises(c) && Served(setup.service, w, c.proc, Seen(setup, c), st)
    requires client.lastRemoteProc == setup.local[c.proc].name && client.replySuccess
    ensures Deliver(setup.service.conv, setup.local, client, st.results)
         == (true, client.(callbacks := client.callbacks + [answer], sectionLen := 4, sectionID := 0))
    ensures Direct(setup, w, c) == (st.world, Some(answer))
  {
    var svc, id := setup.service, c.proc;
    var ret := svc.called(w, id, Seen(setup, c)).1;
    assert svc.Representable(id, ret) && setup.Arrives(id, ret);
    NamesArePlaces(setup.local);
    EncodingDecodes(Cpp, Go, svc.conv, svc.procedures[id].rets, setup.local[id].rets, ret.value);
    answer := Callback(id, true, Images(Go, svc.conv, setup.local[id].rets, ret.value));
  }

  /** A read in the middle of a section that brings more than is missing. */
  predicate Overlong<W(!new)>(s: State<W>) {
    s.buffer != [] && |s.chunk| > s.missing
  }

  /** The next pass brings the last byte of the reply. */
  predicate LastOfReply<W(!new)>(s: State<W>, body: seq<byte>) {
    !Overlong(s) && s.missing <= |s.chunk| && (s.client.sectionID == 1 || body == [])
  }

  /** What one pass of the client's loop leads to while a reply is coming in: header, part, or wedge. */
  lemma ReplyMoves<W(!new)>(setup: Setup<W>, s: State<W>, body: seq<byte>, s': State<W>)
    requires s.chunk != [] && s.flow.Reading? && s.missing > 0
    requires Incoming(s.client.sectionID, s.client.sectionLen, s.missing, s.buffer, ClientPending(s), 1, body)
    requires s.client.sectionID == 1 ==> s.client.replySuccess
    requires TransferReply(setup, s) == Some(s') && !LastOfReply(s, body)
    ensures Overlong(s) <==> s'.missing < 0
    ensures Overlong(s) ==> s' == s.(buffer := s'.buffer, missing := s'.missing, chunk := s'.chunk)
    ensures !Overlong(s) ==>
      && Incoming(s'.client.sectionID, s'.client.sectionLen, s'.missing, s'.buffer, ClientPending(s'), 1, body)
      && (s'.client.sectionID == 1 ==> s'.client.replySuccess) && s'.missing > 0 && |s'.chunk| < |s.chunk|
      && (s'.flow.Reading? || (s'.flow.Measuring? && s'.buffer == [])) && (Overlong(s') ==> s'.chunk == [])
      && s' == s.(client := s.client.(replySuccess := s'.client.replySuccess, sectionID := s'.client.sectionID,
                                      sectionLen := s'.client.sectionLen),
                  flow := s'.flow, buffer := s'.buffer, missing := s'.missing, chunk := s'.chunk)
  {
    var n := Min(s.missing, |s.chunk|);
    if !Overlong(s) {
      assert Min(s.client.sectionLen, |s.chunk|) == n;
      IncomingStep(s.client.sectionID, s.client.sectionLen, s.missing, s.buffer, s.chunk, s.toClient, 1, body);
      if n == s.missing {
        HeaderRoundTrip(1, |body|);
        assert [] + s.chunk[n..] + s.toClient == body;
      }
    }
  }

  /** The pass that brings the last byte: the reply is handed to the callback of the name kept. */
  lemma ReplyEnds<W(!new)>(setup: Setup<W>, s: State<W>, body: seq<byte>, s': State<W>) returns (before: Client)
    requires s.chunk != [] && s.flow.Reading? && s.missing > 0
    requires Incoming(s.client.sectionID, s.client.sectionLen, s.missing, s.buffer, ClientPending(s), 1, body)
    requires s.client.sectionID == 1 ==> s.client.replySuccess
    requires TransferReply(setup, s) == Some(s') && LastOfReply(s, body)
    ensures !s.locked && s.chunk[s.missing..] == [] && s.toClient == [] && before.replySuccess
    ensures before == s.client.(replySuccess := true, sectionLen := before.sectionLen)
    ensures var (ok, client) := Deliver(setup.service.conv, setup.local, before, body);
      ok ==> s' == s.(client := client, buffer := [], missing := client.sectionLen, chunk := [],
                      flow := if client.sectionID != 0 then Measuring else AwaitCommand)
  {
    before := if s.client.sectionID == 1 then s.client else s.client.(replySuccess := true, sectionLen := 0);
    assert Min(s.client.sectionLen, |s.chunk|) == s.missing;
    IncomingStep(s.client.sectionID, s.client.sectionLen, s.missing, s.buffer, s.chunk, s.toClient, 1, body);
    HeaderRoundTrip(1, |body|);
  }

  lemma AnswerGrows<W(!new)>(setup: Setup<W>, w0: W, issued: seq<Call>, callbacks: seq<Callback>, answer: Callback, w': W)
    requires AnsweredDirectly(setup, w0, issued, callbacks) && |callbacks| < |issued|
    requires Direct(setup, World(setup, w0, issued, callbacks), issued[|callbacks|]) == (w', Some(answer))
    ensures AnsweredDirectly(setup, w0, issued, callbacks + [answer]) && World(setup, w0, issued, callbacks + [answer]) == w'
  {
    var n := |callbacks|;
    assert issued[..n + 1][..n] == issued[..n];
    assert Answers(callbacks + [answer]) == Answers(callbacks) + [Some(answer)];
  }

  lemma BooksAfterReply<W(!new)>(setup: Setup<W>, b: Ledger)
    requires AllSerialise(setup, b.issued) && Books(setup, b) && b.out && b.flying && !b.locked
    ensures Books(setup, b.(answered := b.answered + 1, out := false, flying := false))
  {
    if b.caller.Offering? {
      SameCommand(setup, b.command, b.name, b.issued[b.answered], b.issued[b.answered + 1]);
    }
  }

  lemma QuietAfterReply<W(!new)>(setup: Setup<W>, w: W, c: Call, s: State<W>, client: Client, s': State<W>)
    requires setup.Serialises(c) && FlowAt(setup, s, w, c, AtClient) && client.sectionLen == 4 && client.sectionID == 0
    requires s.toClient == [] && s' == s.(client := client, buffer := [], missing := 4, chunk := [], flow := AwaitCommand)
    ensures FlowAt(setup, s', s.server.flow.st.world, c, Quiet)
  {
  }

  lemma EndFlow<W(!new)>(setup: Setup<W>, w: W, c: Call, s: State<W>, s': State<W>) returns (answer: Callback)
    requires setup.WellFormed() && setup.Serialises(c) && FlowAt(setup, s, w, c, AtClient)
    requires Apply(setup, s, ClientTransfer) == Some(s') && LastOfReply(s, s.server.flow.st.results)
    requires !s.locked ==> s.client.lastRemoteProc == setup.local[c.proc].name
    ensures !s.locked && Direct(setup, w, c) == (s'.server.flow.st.world, Some(answer))
    ensures s'.client.callbacks == s.client.callbacks + [answer] && s'.flow.AwaitCommand?
    ensures s' == s.(client := s'.client, buffer := [], missing := s'.missing, chunk := [], flow := AwaitCommand)
    ensures s'.client.command == s.client.command && s'.client.lastRemoteProc == s.client.lastRemoteProc
    ensures FlowAt(setup, s', s'.server.flow.st.world, c, Quiet)
  {
    var before := ReplyEnds(setup, s, s.server.flow.st.results, s');
    answer := DeliverIsDirect(setup, w, c, s.server.flow.st, before);
    QuietAfterReply(setup, w, c, s, before.(callbacks := before.callbacks + [answer], sectionLen := 4, sectionID := 0), s');
  }

  lemma EndStep<W(!new)>(setup: Setup<W>, w0: W, s: State<W>, s': State<W>)
    requires setup.WellFormed() && Inv(setup, w0, s) && PlaceOf(s) == AtClient
    requires Apply(setup, s, ClientTransfer) == Some(s') && LastOfReply(s, s.server.flow.st.results)
    ensures Inv(setup, w0, s') && PlaceOf(s') == Quiet && |s'.client.callbacks| == |s.client.callbacks| + 1
    ensures s'.issued == s.issued && s'.caller == s.caller && !s'.locked
  {
    var answer := EndFlow(setup, World(setup, w0, s.issued, s.client.callbacks), Oldest(s), s, s');
    AnswerGrows(setup, w0, s.issued, s.client.callbacks, answer, s'.server.flow.st.world);
    BooksAfterReply(setup, LedgerOf(s));
    QuietWhoever(setup, s', s'.server.flow.st.world, Oldest(s), Oldest(s'));
  }

  lemma PartFlow<W(!new)>(setup: Setup<W>, w: W, c: Call, s: State<W>, s': State<W>)
    requires setup.Serialises(c) && FlowAt(setup, s, w, c, AtClient) && PlaceOf(s) == AtClient
    requires Apply(setup, s, ClientTransfer) == Some(s') && !LastOfReply(s, s.server.flow.st.results)
    ensures PlaceOf(s') == (if Overlong(s) then Lost else AtClient) && FlowAt(setup, s', w, c, PlaceOf(s'))
    ensures LedgerOf(s') == LedgerOf(s) && s'.client.callbacks == s.client.callbacks
    ensures !Overlong(s) ==> s'.toClient == s.toClient && |s'.chunk| < |s.chunk| && (Overlong(s') ==> s'.chunk == [])
  {
    ReplyMoves(setup, s, s.server.flow.st.results, s');
  }

  lemma PartStep<W(!new)>(setup: Setup<W>, w0: W, s: State<W>, s': State<W>)
    requires Inv(setup, w0, s) && PlaceOf(s) == AtClient
    requires Apply(setup, s, ClientTransfer) == Some(s') && !LastOfReply(s, s.server.flow.st.results)
    ensures Inv(setup, w0, s') && PlaceOf(s') == (if Overlong(s) then Lost else AtClient) && LedgerOf(s') == LedgerOf(s)
    ensures !Overlong(s) ==> s'.toClient == s.toClient && |s'.chunk| < |s.chunk| && (Overlong(s') ==> s'.chunk == [])
  {
    PartFlow(setup, World(setup, w0, s.issued, s.client.callbacks), Oldest(s), s, s');
  }

  // ---- the server ----

  lemma CallIsServed<W(!new)>(setup: Setup<W>, c: Call, e: ServerEnd<W>)
    requires setup.WellFormed() && setup.Serialises(c) && e.CanPass() && e.TakesIn(c.proc, setup.Request(c))
    ensures var (end, reply) := e.Pass(ServerParser(setup.service));
      Outcome(setup.service, e, c.proc, setup.Request(c), Seen(setup, c), end, reply)
  {
    var svc := setup.service;
    EncodingDecodes(Go, Cpp, svc.conv, setup.local[c.proc].args, svc.procedures[c.proc].args, c.args);
    assert svc.Representable(c.proc, svc.called(e.flow.st.world, c.proc, Seen(setup, c)).1);
    ServeStep(svc, e, c.proc, setup.Request(c), Seen(setup, c));
  }

  /** The server's pass on the call in flight. */
  lemma PassOnCall<W(!new)>(setup: Setup<W>, c: Call, s: State<W>) returns (end: ServerEnd<W>, reply: seq<byte>)
    requires setup.WellFormed() && setup.Serialises(c) && s.server.CanPass() && s.server.TakesIn(c.proc, setup.Request(c))
    ensures Apply(setup, s, ServerTransfer) == Some(s.(server := end, toClient := s.toClient + reply))
    ensures Outcome(setup.service, s.server, c.proc, setup.Request(c), Seen(setup, c), end, reply)
    ensures end.channel == s.server.channel && |end.chunk| < |s.server.chunk|
  {
    CallIsServed(setup, c, s.server);
    PassTakes(ServerParser(setup.service), s.server);
    var (e, r) := s.server.Pass(ServerParser(setup.service));
    end, reply := e, r;
  }

  /** The server's pass brings the last byte of the call in flight, and it will not answer. */
  predicate ServerRefuses<W(!new)>(setup: Setup<W>, s: State<W>) {
    var c := Oldest(s);
    setup.Serialises(c) && s.server.LastPass(setup.Request(c))
    && Refuses(setup.service, s.server.flow.st.world, c.proc, Seen(setup, c))
  }

  /** A pass of the server's loop leaves the call at the server, brings the reply into being, or stops the server. */
  lemma ServerMoves<W(!new)>(setup: Setup<W>, w: W, c: Call, s: State<W>, end: ServerEnd<W>, reply: seq<byte>, s': State<W>)
    requires setup.Serialises(c) && c == Oldest(s) && FlowAt(setup, s, w, c, AtServer) && PlaceOf(s) == AtServer
    requires s' == s.(server := end, toClient := s.toClient + reply)
    requires Outcome(setup.service, s.server, c.proc, setup.Request(c), Seen(setup, c), end, reply)
    ensures FlowAt(setup, s', w, c, PlaceOf(s')) && (PlaceOf(s') == AtServer || PlaceOf(s') == AtClient || PlaceOf(s') == Lost)
    ensures PlaceOf(s') == Lost <==> ServerRefuses(setup, s)
  {
    assert s'.toClient == reply;
    if reply != [] {
      assert ClientPending(s') == [] + [] + reply == reply;
    }
  }

  lemma ServerFlow<W(!new)>(setup: Setup<W>, w: W, s: State<W>, s': State<W>)
    requires setup.WellFormed() && setup.Serialises(Oldest(s)) && FlowAt(setup, s, w, Oldest(s), AtServer) && PlaceOf(s) == AtServer
    requires Apply(setup, s, ServerTransfer) == Some(s')
    ensures FlowAt(setup, s', w, Oldest(s), PlaceOf(s')) && (PlaceOf(s') == AtServer || PlaceOf(s') == AtClient || PlaceOf(s') == Lost)
    ensures PlaceOf(s') == Lost <==> ServerRefuses(setup, s)
    ensures s' == s.(server := s'.server, toClient := s'.toClient)
  {
    var end, reply := PassOnCall(setup, Oldest(s), s);
    ServerMoves(setup, w, Oldest(s), s, end, reply, s');
  }

  lemma ServerStep<W(!new)>(setup: Setup<W>, w0: W, s: State<W>, s': State<W>)
    requires setup.WellFormed() && Inv(setup, w0, s) && PlaceOf(s) == AtServer && Apply(setup, s, ServerTransfer) == Some(s')
    ensures Inv(setup, w0, s') && (PlaceOf(s') == AtServer || PlaceOf(s') == AtClient || PlaceOf(s') == Lost)
    ensures PlaceOf(s') == Lost <==> ServerRefuses(setup, s)
  {
    ServerFlow(setup, World(setup, w0, s.issued, s.client.callbacks), s, s');
  }

  // ---- every step ----

  /** Bytes to parse say where the call in flight is. */
  lemma BytesShowThePlace<W(!new)>(setup: Setup<W>, w0: W, s: State<W>)
    requires Inv(setup, w0, s)
    ensures s.flow.Reading? && s.chunk != [] ==> PlaceOf(s) == AtClient || (PlaceOf(s) == Lost && s.missing < 0)
    ensures s.server.CanPass() ==> PlaceOf(s) == AtServer
  {
  }

  lemma WedgedFlow<W(!new)>(setup: Setup<W>, w: W, c: Call, s: State<W>, s': State<W>)
    requires FlowAt(setup, s, w, c, Lost) && s.missing < 0 && Apply(setup, s, ClientTransfer) == Some(s')
    ensures FlowAt(setup, s', w, c, Lost) && PlaceOf(s') == Lost
    ensures s' == s.(buffer := s'.buffer, missing := s'.missing, chunk := s'.chunk)
  {
  }

  /** A wedged client goes on taking bytes and never completes a section. */
  lemma WedgedStep<W(!new)>(setup: Setup<W>, w0: W, s: State<W>, s': State<W>)
    requires Inv(setup, w0, s) && PlaceOf(s) == Lost && s.missing < 0 && Apply(setup, s, ClientTransfer) == Some(s')
    ensures Inv(setup, w0, s') && PlaceOf(s') == Lost && LedgerOf(s') == LedgerOf(s)
  {
    WedgedFlow(setup, World(setup, w0, s.issued, s.client.callbacks), Oldest(s), s, s');
  }

  /** A pass of the client's loop. */
  lemma ClientMoves<W(!new)>(setup: Setup<W>, w0: W, s: State<W>, s': State<W>)
    requires setup.WellFormed() && Inv(setup, w0, s) && Apply(setup, s, ClientTransfer) == Some(s')
    ensures Inv(setup, w0, s') && NextPlace(PlaceOf(s), PlaceOf(s'))
    ensures PlaceOf(s') == Lost <==> PlaceOf(s) == Lost || Overlong(s)
  {
    BytesShowThePlace(setup, w0, s);
    if PlaceOf(s) == Lost {
      WedgedStep(setup, w0, s, s');
    } else if LastOfReply(s, s.server.flow.st.results) {
      EndStep(setup, w0, s, s');
    } else {
      PartStep(setup, w0, s, s');
    }
  }

  /** Passes of the two transfer loops. */
  lemma TransferMoves<W(!new)>(setup: Setup<W>, w0: W, s: State<W>, step: Step, s': State<W>)
    requires setup.WellFormed() && Inv(setup, w0, s) && Apply(setup, s, step) == Some(s')
    requires step.ServerTransfer? || step.ClientTransfer?
    ensures Inv(setup, w0, s') && NextPlace(PlaceOf(s), PlaceOf(s'))
    ensures PlaceOf(s') == Lost <==>
      PlaceOf(s) == Lost || (step.ServerTransfer? && ServerRefuses(setup, s)) || (step.ClientTransfer? && Overlong(s))
  {
    if step.ServerTransfer? {
      BytesShowThePlace(setup, w0, s);
      ServerStep(setup, w0, s, s');
    } else {
      ClientMoves(setup, w0, s, s');
    }
  }

  /** Steps of the two flows. */
  lemma FlowMoves<W(!new)>(setup: Setup<W>, w0: W, s: State<W>, step: Step, s': State<W>)
    requires setup.WellFormed() && Inv(setup, w0, s) && Apply(setup, s, step) == Some(s') && !step.Lock? && !step.Fill?
    ensures Inv(setup, w0, s') && NextPlace(PlaceOf(s), PlaceOf(s'))
    ensures PlaceOf(s') == Lost <==>
      PlaceOf(s) == Lost || (step.ServerTransfer? && ServerRefuses(setup, s)) || (step.ClientTransfer? && Overlong(s))
  {
    match step
    case Handshake => HandshakeStep(setup, w0, s, s');
    case Copy => CopyStep(setup, w0, s, s');
    case Send => SendStep(setup, w0, s, s');
    case Measure => MeasureStep(setup, w0, s, s');
    case ClientRead(_) | ServerRead(_) => ReadStep(setup, w0, s, step, s');
    case ServerTransfer | ClientTransfer => TransferMoves(setup, w0, s, step, s');
  }

  /** Every step keeps the invariant and moves the call in flight along its cycle, if at all. */
  lemma StepPreserves<W(!new)>(setup: Setup<W>, w0: W, s: State<W>, step: Step, s': State<W>)
    requires setup.WellFormed() && setup.NeverOvertakes() && Inv(setup, w0, s) && Apply(setup, s, step) == Some(s')
    ensures Inv(setup, w0, s') && NextPlace(PlaceOf(s), PlaceOf(s'))
  {
    if step.Lock? {
      LockStep(setup, w0, s, step.call, s');
    } else if step.Fill? {
      FillStep(setup, w0, s, s');
    } else {
      FlowMoves(setup, w0, s, step, s');
    }
  }
}
