/** Safety of the session over every run: one place holds the call, and what calls return is what direct calls return. */
module RpcSessionLaws {
  import opened Bytes
  import opened Codec
  import opened CodecLaws
  import opened EncodeInPlace
  import opened Frames
  import opened MessageManager
  import opened RpcServer
  import opened RpcClient
  import opened RpcServing
  import opened RpcSession

  /** The way round: the call moves to the next place, stays where it is, or is lost with a stopped flow. */
  predicate NextPlace(a: Place, b: Place) {
    a == b || match a
              case Idle => b.Marked?
              case Marked => b.Prepared? || b.Lost?
              case Prepared => b.AtServer?
              case AtServer => b.AtClient? || b.Lost?
              case AtClient => b.Ready?
              case Ready => b.Idle?
              case Lost => false
  }

  lemma InitInv<W(!new)>(setup: Setup<W>, w0: W)
    requires setup.WellFormed()
    ensures Inv(setup, w0, Init(setup, w0))
  {
    assert Calls([]) == [] && Results([]) == [];
  }

  /** A step that returns no call keeps the invariant if it keeps what is known of the call's place. */
  lemma SameLog<W(!new)>(setup: Setup<W>, w0: W, s: State<W>, s': State<W>)
    requires Inv(setup, w0, s) && s'.log == s.log && At(setup, s', WorldAfter(setup, w0, s.log), PlaceOf(s'))
    ensures Inv(setup, w0, s')
  {
  }

  // ---- the caller ----

  /** What the encoder leaves behind in the argument buffer makes no difference to a proper call. */
  lemma EncodesAsFromEmpty<W(!new)>(setup: Setup<W>, c: Call, n: nat)
    requires setup.Proper(c) && |c.args| == |setup.local[c.id].args|
    ensures EncodeFrom(setup.service.conv, n, setup.local[c.id].args, c.args)
         == Encode(Cpp, setup.service.conv, setup.local[c.id].args, c.args)
  {
    var conv, sig := setup.service.conv, setup.local[c.id].args;
    RoomHardlyMatters(conv, Space(n, MAX_OFFSET), sig, c.args);
    if Encode(Cpp, conv, sig, c.args).Err? {
      RoomIsIdle(conv, 0, n, MAX_OFFSET, sig, c.args);
    }
  }

  /** A call that is given up before it goes anywhere has returned nothing, as a direct call returns nothing. */
  lemma GivesUp<W(!new)>(setup: Setup<W>, w0: W, s: State<W>, c: Call, s': State<W>)
    requires Inv(setup, w0, s) && PlaceOf(s).Idle? && setup.Proper(c)
    requires |c.args| != |setup.local[c.id].args| || Encode(Cpp, setup.service.conv, setup.local[c.id].args, c.args).Err?
    requires s' == s.(caller := Outside, client := s.client.(args := s'.client.args), log := s.log + [Returned(c, None)])
    ensures Inv(setup, w0, s') && PlaceOf(s') == Idle
  {
    LogGrows(setup, w0, s.log, c, None, WorldAfter(setup, w0, s.log));
  }

  /** Taking note of a call, or waking from a wait, moves nothing. */
  lemma WaitingAt<W(!new)>(setup: Setup<W>, w: W, s: State<W>, step: Step, s': State<W>)
    requires At(setup, s, w, PlaceOf(s)) && Apply(setup, s, step) == Some(s') && s'.log == s.log
    requires step.Enter? || step.Turn? || step.Wake? || step.FlowWake?
    ensures At(setup, s', w, PlaceOf(s')) && PlaceOf(s') == PlaceOf(s)
  {
  }

  lemma PushAt<W(!new)>(setup: Setup<W>, w: W, s: State<W>, s': State<W>)
    requires At(setup, s, w, Idle) && PlaceOf(s).Idle? && s.caller.Pushing? && Outstanding(setup, s)
    requires s' == s.(caller := Awaiting, client := Push(s.client, s.call.id, Request(setup, s)))
    ensures At(setup, s', w, Marked) && PlaceOf(s') == Marked
  {
  }

  lemma EnterStep<W(!new)>(setup: Setup<W>, w0: W, s: State<W>, c: Call, s': State<W>)
    requires Inv(setup, w0, s) && Apply(setup, s, Enter(c)) == Some(s')
    ensures Inv(setup, w0, s') && PlaceOf(s') == PlaceOf(s)
  {
    if |c.args| != |setup.local[c.id].args| {
      GivesUp(setup, w0, s, c, s');
    } else {
      WaitingAt(setup, WorldAfter(setup, w0, s.log), s, Enter(c), s');
      SameLog(setup, w0, s, s');
    }
  }

  lemma PushStep<W(!new)>(setup: Setup<W>, w0: W, s: State<W>, leftover: seq<byte>, s': State<W>)
    requires Inv(setup, w0, s) && Apply(setup, s, PushArgs(leftover)) == Some(s')
    ensures Inv(setup, w0, s') && PlaceOf(s) == Idle && (PlaceOf(s') == Idle || PlaceOf(s') == Marked)
  {
    EncodesAsFromEmpty(setup, s.call, |s.client.args|);
    if Outstanding(setup, s) {
      PushAt(setup, WorldAfter(setup, w0, s.log), s, s');
      SameLog(setup, w0, s, s');
    } else {
      GivesUp(setup, w0, s, s.call, s');
    }
  }

  lemma WaitingStep<W(!new)>(setup: Setup<W>, w0: W, s: State<W>, step: Step, s': State<W>)
    requires Inv(setup, w0, s) && Apply(setup, s, step) == Some(s') && (step.Turn? || step.Wake? || step.FlowWake?)
    ensures Inv(setup, w0, s') && PlaceOf(s') == PlaceOf(s)
  {
    WaitingAt(setup, WorldAfter(setup, w0, s.log), s, step, s');
    SameLog(setup, w0, s, s');
  }

  /** The reply decodes to what the procedure returned, in the client's own form. */
  lemma ReplyDecodes<W(!new)>(setup: Setup<W>, s: State<W>, w: W)
    requires setup.WellFormed() && Outstanding(setup, s) && Served(setup.service, w, s.call.id, Seen(setup, s.call), s.server.flow.st)
    ensures Direct(setup, w, s.call)
         == (s.server.flow.st.world, Some(Decode(Cpp, setup.service.conv, setup.local[s.call.id].rets, s.server.flow.st.results).values))
    ensures Decode(Cpp, setup.service.conv, setup.local[s.call.id].rets, s.server.flow.st.results).fault.None?
  {
    var svc, id := setup.service, s.call.id;
    var ret := svc.called(w, id, Seen(setup, s.call)).1;
    assert setup.service.Representable(id, ret) && setup.Arrives(id, ret);
    EncodingDecodes(Cpp, Cpp, svc.conv, svc.procedures[id].rets, setup.local[id].rets, ret.value);
  }

  lemma IdleAfterReply<W(!new)>(setup: Setup<W>, w: W, s: State<W>, s': State<W>)
    requires At(setup, s, w, Ready) && s' == s.(caller := Outside, client := Collect(s.client), log := s'.log)
    ensures At(setup, s', s.server.flow.st.world, Idle) && PlaceOf(s') == Idle
  {
  }

  lemma CollectShape<W(!new)>(setup: Setup<W>, s: State<W>, s': State<W>)
    requires Apply(setup, s, CollectReply) == Some(s') && s.call.id < |setup.local|
    ensures s' == s.(caller := Outside, client := Collect(s.client), log := s'.log)
    ensures var d := Decode(Cpp, setup.service.conv, setup.local[s.call.id].rets, s.client.rets);
      s'.log == s.log + [Returned(s.call, if d.fault.None? then Some(d.values) else None)]
  {
  }

  /** The reply taken, the call returns what a direct call returns. */
  lemma CollectAt<W(!new)>(setup: Setup<W>, w: W, s: State<W>, s': State<W>)
    requires setup.WellFormed() && At(setup, s, w, Ready) && Apply(setup, s, CollectReply) == Some(s')
    ensures At(setup, s', s.server.flow.st.world, Idle) && PlaceOf(s') == Idle
    ensures Direct(setup, w, s.call).0 == s.server.flow.st.world && Direct(setup, w, s.call).1.Some?
    ensures s'.log == s.log + [Returned(s.call, Direct(setup, w, s.call).1)]
  {
    CollectShape(setup, s, s');
    IdleAfterReply(setup, w, s, s');
    ReplyDecodes(setup, s, w);
  }

  lemma CollectStep<W(!new)>(setup: Setup<W>, w0: W, s: State<W>, s': State<W>)
    requires setup.WellFormed() && Inv(setup, w0, s) && Apply(setup, s, CollectReply) == Some(s')
    ensures Inv(setup, w0, s') && PlaceOf(s) == Ready && PlaceOf(s') == Idle && |s'.log| == |s.log| + 1
  {
    var w := WorldAfter(setup, w0, s.log);
    CollectAt(setup, w, s, s');
    LogGrows(setup, w0, s.log, s.call, Direct(setup, w, s.call).1, s.server.flow.st.world);
  }

  // ---- the flow thread up to its reads ----

  lemma BuildAt<W(!new)>(setup: Setup<W>, w: W, s: State<W>, s': State<W>)
    requires setup.WellFormed() && At(setup, s, w, PlaceOf(s)) && PlaceOf(s) != Lost && Apply(setup, s, Build) == Some(s')
    ensures PlaceOf(s) == Marked && At(setup, s', w, PlaceOf(s')) && s'.log == s.log && s'.call == s.call
    ensures PlaceOf(s') == if |s.client.args| > LENGTH_SPAN then Lost else Prepared
  {
  }

  lemma SendAt<W(!new)>(setup: Setup<W>, w: W, s: State<W>, s': State<W>)
    requires setup.WellFormed() && At(setup, s, w, PlaceOf(s)) && PlaceOf(s) != Lost && Apply(setup, s, Send) == Some(s')
    ensures PlaceOf(s) == Prepared && At(setup, s', w, PlaceOf(s')) && PlaceOf(s') == AtServer && s'.log == s.log && s'.call == s.call
  {
    var frame := Frame(s.call.id, Request(setup, s));
    assert s'.server.Pending() == frame by {
      assert [] + [] + ([] + frame) == frame;
    }
  }

  lemma BuildStep<W(!new)>(setup: Setup<W>, w0: W, s: State<W>, s': State<W>)
    requires setup.WellFormed() && Inv(setup, w0, s) && PlaceOf(s) != Lost && Apply(setup, s, Build) == Some(s')
    ensures Inv(setup, w0, s') && PlaceOf(s) == Marked
    ensures PlaceOf(s') == if |s.client.args| > LENGTH_SPAN then Lost else Prepared
  {
    BuildAt(setup, WorldAfter(setup, w0, s.log), s, s');
    SameLog(setup, w0, s, s');
  }

  lemma SendStep<W(!new)>(setup: Setup<W>, w0: W, s: State<W>, s': State<W>)
    requires setup.WellFormed() && Inv(setup, w0, s) && PlaceOf(s) != Lost && Apply(setup, s, Send) == Some(s')
    ensures Inv(setup, w0, s') && PlaceOf(s) == Prepared && PlaceOf(s') == AtServer
  {
    SendAt(setup, WorldAfter(setup, w0, s.log), s, s');
    SameLog(setup, w0, s, s');
  }

  /** A read leaves the call where it is. */
  lemma ReadAt<W(!new)>(setup: Setup<W>, w: W, s: State<W>, step: Step, s': State<W>)
    requires At(setup, s, w, PlaceOf(s)) && Apply(setup, s, step) == Some(s') && (step.ClientRead? || step.ServerRead?)
    ensures At(setup, s', w, PlaceOf(s')) && PlaceOf(s') == PlaceOf(s) && s'.log == s.log && s'.call == s.call
  {
    match step
    case ClientRead(n) =>
      ReadKeepsPending(s.partial, s.toClient, n);
      assert ClientPending(s') == ClientPending(s);
    case ServerRead(n) =>
      ReadKeepsPending(s.server.flow.partial, s.server.channel, n);
      assert s'.server.Pending() == s.server.Pending();
  }

  lemma ReadStep<W(!new)>(setup: Setup<W>, w0: W, s: State<W>, step: Step, s': State<W>)
    requires Inv(setup, w0, s) && Apply(setup, s, step) == Some(s') && (step.ClientRead? || step.ServerRead?)
    ensures Inv(setup, w0, s') && PlaceOf(s') == PlaceOf(s)
  {
    ReadAt(setup, WorldAfter(setup, w0, s.log), s, step, s');
    SameLog(setup, w0, s, s');
  }

  // ---- the reply ----

  /** The client's pass is the message manager's iteration, up to the point where writeMessage waits. */
  lemma ClientPassIsTransfer<W(!new)>(s: State<W>)
    requires s.flow.Reading?
    ensures var p := Parser((c: Client) => c.sectionLen, (c, m) => ParseReply(c, m), c => (true, [], c));
      var (f, rest, out) := Transfer(p, CppTooLarge, Flow(s.client, s.partial, s.missing, false), s.chunk);
      var s' := TransferReply(s);
      && out == [] && rest == s'.chunk && f.st == s'.client && f.stopped == s'.flow.Halted?
      && f == if s'.flow.AwaitSend? then Start(p, s'.client) else Flow(s'.client, s'.partial, s'.missing, f.stopped)
  {
  }

  /** What one pass of the client's loop leads to while a reply is coming in. */
  lemma ReplyMoves<W(!new)>(s: State<W>, body: seq<byte>)
    requires s.chunk != [] && s.flow.Reading?
    requires Incoming(s.client.sectionID, s.client.sectionLen, s.missing, s.partial, ClientPending(s), 1, body)
    ensures var s' := TransferReply(s);
      if s'.flow.Reading? then
        && Incoming(s'.client.sectionID, s'.client.sectionLen, s'.missing, s'.partial, ClientPending(s'), 1, body)
        && s'.client == s.client.(callSuccessInt := s'.client.callSuccessInt, sectionID := s'.client.sectionID,
                                  sectionLen := s'.client.sectionLen)
      else
        && s'.flow.AwaitSend? && s'.chunk == [] && s'.toClient == [] && |s'.partial| < LENGTH_SPAN
        && s'.client == s.client.(callSuccessInt := s'.client.callSuccessInt, rets := body, replIsReady := true,
                                  sectionID := 0, sectionLen := 4)
  {
    var n := Min(s.missing, |s.chunk|);
    IncomingStep(s.client.sectionID, s.client.sectionLen, s.missing, s.partial, s.chunk, s.toClient, 1, body);
    if n == s.missing && s.client.sectionID == 0 {
      HeaderRoundTrip(1, |body|);
      assert [] + s.chunk[n..] + s.toClient == body;
    }
  }

  lemma ReplyAt<W(!new)>(setup: Setup<W>, w: W, s: State<W>, s': State<W>)
    requires At(setup, s, w, AtClient) && PlaceOf(s) == AtClient && s.chunk != [] && s' == TransferReply(s)
    ensures At(setup, s', w, PlaceOf(s')) && (PlaceOf(s') == AtClient || PlaceOf(s') == Ready)
    ensures s'.log == s.log && s'.call == s.call && s'.caller == s.caller
    ensures |s'.chunk| < |s.chunk| && s'.toClient == s.toClient
  {
    ReplyMoves(s, s.server.flow.st.results);
  }

  // ---- the server ----

  /** The server's pass on the outstanding call is a pass on a request it can read and answer. */
  lemma CallIsServed<W(!new)>(setup: Setup<W>, s: State<W>)
    requires setup.WellFormed() && Outstanding(setup, s)
    requires s.server.CanPass() && s.server.TakesIn(s.call.id, Request(setup, s))
    ensures var (end, reply) := s.server.Pass(ServerParser(setup.service));
      Outcome(setup.service, s.server, s.call.id, Request(setup, s), Seen(setup, s.call), end, reply)
  {
    var svc, c := setup.service, s.call;
    EncodingDecodes(Cpp, Cpp, svc.conv, setup.local[c.id].args, svc.procedures[c.id].args, c.args);
    assert svc.Representable(c.id, svc.called(s.server.flow.st.world, c.id, Seen(setup, c)).1);
    ServeStep(svc, s.server, c.id, Request(setup, s), Seen(setup, c));
  }

  lemma PassOnCall<W(!new)>(setup: Setup<W>, s: State<W>) returns (end: ServerEnd<W>, reply: seq<byte>)
    requires setup.WellFormed() && Outstanding(setup, s)
    requires s.server.CanPass() && s.server.TakesIn(s.call.id, Request(setup, s))
    ensures Apply(setup, s, ServerTransfer) == Some(s.(server := end, toClient := s.toClient + reply))
    ensures Outcome(setup.service, s.server, s.call.id, Request(setup, s), Seen(setup, s.call), end, reply)
    ensures end.channel == s.server.channel && |end.chunk| < |s.server.chunk|
  {
    CallIsServed(setup, s);
    PassTakes(ServerParser(setup.service), s.server);
    var (e, r) := s.server.Pass(ServerParser(setup.service));
    end, reply := e, r;
  }

  /** The server's pass brings the call's last byte, and it will not answer. */
  predicate ServerRefuses<W(!new)>(setup: Setup<W>, s: State<W>) {
    && setup.Proper(s.call) && |s.call.args| == |setup.local[s.call.id].args|
    && Encode(Cpp, setup.service.conv, setup.local[s.call.id].args, s.call.args).Ok?
    && s.server.LastPass(Request(setup, s))
    && Refuses(setup.service, s.server.flow.st.world, s.call.id, Seen(setup, s.call))
  }

  /** A pass of the server's loop leaves the call at the server, brings the reply into being, or stops the server. */
  lemma ServerMoves<W(!new)>(setup: Setup<W>, w: W, s: State<W>, end: ServerEnd<W>, reply: seq<byte>, s': State<W>)
    requires At(setup, s, w, AtServer) && s' == s.(server := end, toClient := s.toClient + reply)
    requires Outcome(setup.service, s.server, s.call.id, Request(setup, s), Seen(setup, s.call), end, reply)
    ensures At(setup, s', w, PlaceOf(s')) && (PlaceOf(s') == AtServer || PlaceOf(s') == AtClient || PlaceOf(s') == Lost)
    ensures PlaceOf(s') == Lost <==> ServerRefuses(setup, s)
  {
    assert s'.toClient == reply;
    if reply != [] {
      assert ClientPending(s') == [] + [] + reply == reply;
    }
  }

  /** Bytes at the client's flow, or at the server, say where the call is. */
  lemma BytesShowThePlace<W(!new)>(setup: Setup<W>, w: W, s: State<W>)
    requires At(setup, s, w, PlaceOf(s))
    ensures s.flow.Reading? && s.chunk != [] ==> PlaceOf(s) == AtClient
    ensures s.server.CanPass() ==> PlaceOf(s) == AtServer
  {
  }

  lemma ClientPassAt<W(!new)>(setup: Setup<W>, w: W, s: State<W>, s': State<W>)
    requires At(setup, s, w, PlaceOf(s)) && Apply(setup, s, ClientTransfer) == Some(s')
    ensures At(setup, s', w, PlaceOf(s')) && s'.log == s.log
    ensures PlaceOf(s) == AtClient && (PlaceOf(s') == AtClient || PlaceOf(s') == Ready)
  {
    BytesShowThePlace(setup, w, s);
    ReplyAt(setup, w, s, s');
  }

  lemma ServerPassAt<W(!new)>(setup: Setup<W>, w: W, s: State<W>, s': State<W>)
    requires setup.WellFormed() && At(setup, s, w, PlaceOf(s)) && Apply(setup, s, ServerTransfer) == Some(s')
    ensures At(setup, s', w, PlaceOf(s')) && s'.log == s.log && PlaceOf(s) == AtServer
    ensures PlaceOf(s') == AtServer || PlaceOf(s') == AtClient || PlaceOf(s') == Lost
    ensures PlaceOf(s') == Lost <==> ServerRefuses(setup, s)
  {
    BytesShowThePlace(setup, w, s);
    var end, reply := PassOnCall(setup, s);
    ServerMoves(setup, w, s, end, reply, s');
  }

  lemma ReplyStep<W(!new)>(setup: Setup<W>, w0: W, s: State<W>, s': State<W>)
    requires Inv(setup, w0, s) && Apply(setup, s, ClientTransfer) == Some(s')
    ensures Inv(setup, w0, s') && PlaceOf(s) == AtClient && (PlaceOf(s') == AtClient || PlaceOf(s') == Ready)
  {
    ClientPassAt(setup, WorldAfter(setup, w0, s.log), s, s');
    SameLog(setup, w0, s, s');
  }

  lemma ServerStep<W(!new)>(setup: Setup<W>, w0: W, s: State<W>, s': State<W>)
    requires setup.WellFormed() && Inv(setup, w0, s) && Apply(setup, s, ServerTransfer) == Some(s')
    ensures Inv(setup, w0, s') && PlaceOf(s) == AtServer
    ensures PlaceOf(s') == AtServer || PlaceOf(s') == AtClient || PlaceOf(s') == Lost
    ensures PlaceOf(s') == Lost <==> ServerRefuses(setup, s)
  {
    ServerPassAt(setup, WorldAfter(setup, w0, s.log), s, s');
    SameLog(setup, w0, s, s');
  }

  // ---- every step ----

  /** A lost call is the end of the session: no thread can move. */
  lemma LostIsTheEnd<W(!new)>(setup: Setup<W>, w: W, s: State<W>, step: Step)
    requires At(setup, s, w, Lost)
    ensures Apply(setup, s, step).None?
  {
  }

  /** A step of the calling thread. */
  predicate CallerStep(step: Step) {
    step.Enter? || step.Turn? || step.PushArgs? || step.Wake? || step.CollectReply?
  }

  lemma CallerMoves<W(!new)>(setup: Setup<W>, w0: W, s: State<W>, step: Step, s': State<W>)
    requires setup.WellFormed() && Inv(setup, w0, s) && Apply(setup, s, step) == Some(s') && CallerStep(step)
    ensures Inv(setup, w0, s') && NextPlace(PlaceOf(s), PlaceOf(s')) && (PlaceOf(s') == Lost <==> PlaceOf(s) == Lost)
  {
    match step
    case Enter(c) => EnterStep(setup, w0, s, c, s');
    case PushArgs(leftover) => PushStep(setup, w0, s, leftover, s');
    case CollectReply => CollectStep(setup, w0, s, s');
    case Turn | Wake => WaitingStep(setup, w0, s, step, s');
    case _ =>
  }

  lemma FlowMoves<W(!new)>(setup: Setup<W>, w0: W, s: State<W>, step: Step, s': State<W>)
    requires setup.WellFormed() && Inv(setup, w0, s) && PlaceOf(s) != Lost && Apply(setup, s, step) == Some(s') && !CallerStep(step)
    ensures Inv(setup, w0, s') && NextPlace(PlaceOf(s), PlaceOf(s'))
    ensures PlaceOf(s') == Lost <==>
      (step.Build? && |s.client.args| > LENGTH_SPAN) || (step.ServerTransfer? && ServerRefuses(setup, s))
  {
    match step
    case FlowWake => WaitingStep(setup, w0, s, step, s');
    case Build => BuildStep(setup, w0, s, s');
    case Send => SendStep(setup, w0, s, s');
    case ClientRead(_) | ServerRead(_) => ReadStep(setup, w0, s, step, s');
    case ClientTransfer => ReplyStep(setup, w0, s, s');
    case ServerTransfer => ServerStep(setup, w0, s, s');
    case _ =>
  }

  lemma StepMoves<W(!new)>(setup: Setup<W>, w0: W, s: State<W>, step: Step, s': State<W>)
    requires setup.WellFormed() && Inv(setup, w0, s) && PlaceOf(s) != Lost && Apply(setup, s, step) == Some(s')
    ensures Inv(setup, w0, s') && NextPlace(PlaceOf(s), PlaceOf(s'))
    ensures PlaceOf(s') == Lost <==>
      (step.Build? && |s.client.args| > LENGTH_SPAN) || (step.ServerTransfer? && ServerRefuses(setup, s))
  {
    if CallerStep(step) {
      CallerMoves(setup, w0, s, step, s');
    } else {
      FlowMoves(setup, w0, s, step, s');
    }
  }

  /** Every step of every thread keeps the invariant and moves the call along its cycle, if at all. */
  lemma StepPreserves<W(!new)>(setup: Setup<W>, w0: W, s: State<W>, step: Step, s': State<W>)
    requires setup.WellFormed() && Inv(setup, w0, s) && Apply(setup, s, step) == Some(s')
    ensures Inv(setup, w0, s') && NextPlace(PlaceOf(s), PlaceOf(s'))
  {
    if PlaceOf(s) == Lost {
      LostIsTheEnd(setup, WorldAfter(setup, w0, s.log), s, step);
    } else {
      StepMoves(setup, w0, s, step, s');
    }
  }

  /** A run: any number of enabled steps of any threads in any order. */
  ghost predicate Run<W(!new)>(setup: Setup<W>, w0: W, states: seq<State<W>>, steps: seq<Step>) {
    && |states| == |steps| + 1 && states[0] == Init(setup, w0)
    && forall k :: 0 <= k < |steps| ==> Apply(setup, states[k], steps[k]) == Some(states[k + 1])
  }

  lemma {:induction false} RunInv<W(!new)>(setup: Setup<W>, w0: W, states: seq<State<W>>, steps: seq<Step>, k: nat)
    requires setup.WellFormed() && Run(setup, w0, states, steps) && k < |states|
    ensures Inv(setup, w0, states[k])
  {
    if k == 0 {
      InitInv(setup, w0);
    } else {
      RunInv(setup, w0, states, steps, k - 1);
      StepPreserves(setup, w0, states[k - 1], steps[k - 1], states[k]);
    }
  }

  /**
   End-to-end refinement: whatever the interleaving and however the bytes are cut up, at every point of every run
   the calls that have returned have returned what calling the procedures directly, one after the other, returns;
   in particular each of them has run exactly once, in order.
   */
  lemma RemoteCallsAreDirectCalls<W(!new)>(setup: Setup<W>, w0: W, states: seq<State<W>>, steps: seq<Step>, k: nat)
    requires setup.WellFormed() && Run(setup, w0, states, steps) && k < |states|
    ensures AllProper(setup, states[k].log)
    ensures DirectRun(setup, w0, Calls(states[k].log)).1 == Results(states[k].log)
    ensures states[k].client.canCall ==> DirectRun(setup, w0, Calls(states[k].log)).0 == states[k].server.flow.st.world
  {
    RunInv(setup, w0, states, steps, k);
  }

  /** Under the invariant a part holds the call just if it is the one the flags and buffers point to. */
  lemma InvMeansOnePlace<W(!new)>(setup: Setup<W>, w0: W, s: State<W>, p: Place)
    requires Inv(setup, w0, s)
    ensures Holds(s, p) <==> p == PlaceOf(s)
  {
    match p
    case Idle | Marked | Prepared | AtServer | AtClient | Ready | Lost =>
  }

  /** Conservation: in every reachable state exactly one part of the system holds the call or the right to make one. */
  lemma OnePlaceHoldsTheCall<W(!new)>(setup: Setup<W>, w0: W, states: seq<State<W>>, steps: seq<Step>, k: nat)
    requires setup.WellFormed() && Run(setup, w0, states, steps) && k < |states|
    ensures forall p :: Holds(states[k], p) <==> p == PlaceOf(states[k])
  {
    RunInv(setup, w0, states, steps, k);
    forall p
      ensures Holds(states[k], p) <==> p == PlaceOf(states[k])
    {
      InvMeansOnePlace(setup, w0, states[k], p);
    }
  }

  /** And from one state to the next the call goes round its cycle and no other way. */
  lemma TheCallGoesRound<W(!new)>(setup: Setup<W>, w0: W, states: seq<State<W>>, steps: seq<Step>, k: nat)
    requires setup.WellFormed() && Run(setup, w0, states, steps) && k < |steps|
    ensures NextPlace(PlaceOf(states[k]), PlaceOf(states[k + 1]))
  {
    RunInv(setup, w0, states, steps, k);
    StepPreserves(setup, w0, states[k], steps[k], states[k + 1]);
  }

  /**
   Exactly how a call is lost: its arguments take more than 2^24 bytes and writeMessage gives up; or the server has
   taken in the last byte of a request that it will not answer, because the procedure fails, returns another number of
   values, or returns more than 2^24 bytes.
   */
  lemma WhenCallsAreLost<W(!new)>(setup: Setup<W>, w0: W, s: State<W>, step: Step, s': State<W>)
    requires setup.WellFormed() && Inv(setup, w0, s) && PlaceOf(s) != Lost && Apply(setup, s, step) == Some(s')
    ensures PlaceOf(s') == Lost <==>
      (step.Build? && |s.client.args| > LENGTH_SPAN) || (step.ServerTransfer? && ServerRefuses(setup, s))
  {
    StepMoves(setup, w0, s, step, s');
  }
}
