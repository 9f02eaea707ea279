/**
 A C++ client and a C++ server joined by two byte channels, as a labelled step system: the caller's thread, the
 client's flow thread and the server's thread interleave freely, and a read returns any nonempty prefix of what is
 in its channel.
 */
module RpcSession {
  import opened Bytes
  import opened Codec
  import opened CodecLaws
  import opened EncodeInPlace
  import opened Frames
  import opened MessageManager
  import opened RpcServer
  import opened RpcClient
  import opened RpcServing

  datatype Call = Call(id: nat, args: seq<Value>)

  /** A call that has returned: its values, or None when callSync returned false. */
  datatype Returned = Returned(call: Call, result: Option<seq<Value>>)

  /** The signatures on the client's side and the service on the server's. */
  datatype Setup<!W(!new)> = Setup(local: seq<Procedure>, service: Service<W>)
  {
    /**
     Same procedures in the same order (strings may be wide on one side and narrow on the other), at most 256, and
     results that the signatures can carry.
     */
    ghost predicate WellFormed() {
      && |local| == |service.procedures| <= 256 && service.ReturnsEncode()
      && (forall k :: 0 <= k < |local| ==> Compatible(local[k].args, service.procedures[k].args)
                                           && Compatible(service.procedures[k].rets, local[k].rets))
      && (forall w, id, args :: 0 <= id < |local| ==> Arrives(id, service.called(w, id, args).1))
    }

    /** Results of the right number arrive as they are. */
    predicate Arrives(id: nat, ret: Option<seq<Value>>)
      requires id < |local| == |service.procedures|
      requires Compatible(service.procedures[id].rets, local[id].rets)
    {
      ret.Some? && |ret.value| == |service.procedures[id].rets| ==>
        AllDeliver(Cpp, service.conv, local[id].rets, ret.value)
    }

    /**
     A call a program may make: an existing procedure and, if the encoder takes the arguments at all, arguments
     that arrive as they are and do not fill exactly 2^24 bytes. No text has exactly 65536 bytes, and no offset
     overflows.
     */
    predicate Proper(c: Call) {
      && c.id < |local| == |service.procedures| && |local[c.id].args| == |service.procedures[c.id].args|
      && (|c.args| == |local[c.id].args| ==>
            match Encode(Cpp, service.conv, local[c.id].args, c.args)
            case Ok(b) =>
              |b| <= MAX_OFFSET && |b| != LENGTH_SPAN && AllDeliver(Cpp, service.conv, service.procedures[c.id].args, c.args)
            case Err(f) => f != Overrun && EncodeFrom(service.conv, 0, local[c.id].args, c.args) == Err(f))
    }
  }

  // ---- the abstract machine: calling the procedure directly ----

  /** A direct call: nothing happens if the arguments are refused, otherwise the procedure runs once. */
  function Direct<W(!new)>(setup: Setup<W>, w: W, c: Call): (W, Option<seq<Value>>)
    requires setup.Proper(c)
  {
    var svc := setup.service;
    if |c.args| != |setup.local[c.id].args| || Encode(Cpp, svc.conv, setup.local[c.id].args, c.args).Err? then (w, None) else
      var (w', ret) := svc.called(w, c.id, Seen(setup, c));
      if ret.Some? && |ret.value| == |svc.procedures[c.id].rets| && |ret.value| == |setup.local[c.id].rets|
      then (w', Some(Images(Cpp, svc.conv, setup.local[c.id].rets, ret.value)))
      else (w', None)
  }

  /** Direct calls one after the other: the final world and every result. */
  function DirectRun<W(!new)>(setup: Setup<W>, w: W, calls: seq<Call>): (W, seq<Option<seq<Value>>>)
    requires forall k :: 0 <= k < |calls| ==> setup.Proper(calls[k])
  {
    if calls == [] then (w, []) else
      var (w1, results) := DirectRun(setup, w, calls[..|calls| - 1]);
      var (w2, result) := Direct(setup, w1, calls[|calls| - 1]);
      (w2, results + [result])
  }

  // ---- the concrete machine ----

  datatype CallerPc = Outside | Waiting | Pushing | Awaiting | Collecting

  datatype FlowPc = AwaitSend | Building | Sending | Reading | Halted

  datatype State<W(!new)> = State(
    client: Client, caller: CallerPc, call: Call,
    flow: FlowPc, outbox: seq<byte>, partial: seq<byte>, missing: nat, chunk: seq<byte>,
    toClient: seq<byte>, server: ServerEnd<W>, log: seq<Returned>)

  datatype Step =
    | Enter(call: Call)              // callSync is called
    | Turn                           // its wait for canCall is over
    | PushArgs(leftover: seq<byte>)  // it encodes and hands over, or gives up leaving bytes behind
    | Wake                           // its wait for replIsReady is over
    | CollectReply                   // it takes the reply and returns
    | FlowWake                       // writeMessage's wait for sendIsReady is over
    | Build                          // it builds the frame
    | Send                           // the frame goes to the connection
    | ClientRead(n: nat)
    | ClientTransfer
    | ServerRead(n: nat)
    | ServerTransfer

  function Init<W(!new)>(setup: Setup<W>, w: W): State<W> {
    State(FRESH_CLIENT, Outside, Call(0, []), AwaitSend, [], [], 4, [], [],
          ServerEnd(Start(ServerParser(setup.service), FreshServer(w)), [], []), [])
  }

  /** The state after a step, or None where the step is not enabled. */
  function Apply<W(!new)>(setup: Setup<W>, s: State<W>, step: Step): Option<State<W>> {
    var conv := setup.service.conv;
    match step
    case Enter(c) =>
      if !s.caller.Outside? || !setup.Proper(c) then None
      else if |c.args| != |setup.local[c.id].args| then Some(s.(log := s.log + [Returned(c, None)]))
      else Some(s.(caller := Waiting, call := c))
    case Turn => if s.caller.Waiting? && s.client.canCall then Some(s.(caller := Pushing)) else None
    case PushArgs(leftover) =>
      if !s.caller.Pushing? || s.call.id >= |setup.local| || |s.call.args| != |setup.local[s.call.id].args| then None else
        (match EncodeFrom(conv, |s.client.args|, setup.local[s.call.id].args, s.call.args)
         case Ok(b) => Some(s.(caller := Awaiting, client := Push(s.client, s.call.id, b)))
         case Err(_) => Some(s.(caller := Outside, client := s.client.(args := leftover),
                                log := s.log + [Returned(s.call, None)])))
    case Wake => if s.caller.Awaiting? && s.client.replIsReady then Some(s.(caller := Collecting)) else None
    case CollectReply =>
      if !s.caller.Collecting? || s.call.id >= |setup.local| then None else
        var d := Decode(Cpp, conv, setup.local[s.call.id].rets, s.client.rets);
        Some(s.(caller := Outside, client := Collect(s.client),
                log := s.log + [Returned(s.call, if d.fault.None? then Some(d.values) else None)]))
    case FlowWake => if s.flow.AwaitSend? && s.client.sendIsReady then Some(s.(flow := Building)) else None
    case Build =>
      if !s.flow.Building? then None else
        (match BuildRequest(s.client)
         case (Some(frame), c) => Some(s.(flow := Sending, outbox := frame, client := c))
         case (None, _) => Some(s.(flow := Halted)))
    case Send =>
      if !s.flow.Sending? then None
      else if |s.partial| > MAX_MESSAGE then Some(s.(flow := Halted))
      else Some(s.(flow := Reading, server := s.server.(channel := s.server.channel + s.outbox),
                   outbox := [], partial := [], missing := s.client.sectionLen))
    case ClientRead(n) =>
      if s.flow.Reading? && s.chunk == [] && 0 < n <= |s.toClient|
      then Some(s.(chunk := s.toClient[..n], toClient := s.toClient[n..])) else None
    case ClientTransfer => if s.flow.Reading? && s.chunk != [] then Some(TransferReply(s)) else None
    case ServerRead(n) => if s.server.CanRead(n) then Some(s.(server := s.server.Read(n))) else None
    case ServerTransfer =>
      if !s.server.CanPass() then None else
        var (end, reply) := s.server.Pass(ServerParser(setup.service));
        Some(s.(server := end, toClient := s.toClient + reply))
  }

  /** One pass of the client's transfer loop, up to writeMessage's wait if a whole reply has been parsed. */
  function TransferReply<W(!new)>(s: State<W>): State<W> {
    var n := Min(s.missing, |s.chunk|);
    var partial, rest := s.partial + s.chunk[..n], s.chunk[n..];
    if n < s.missing then s.(partial := partial, missing := s.missing - n, chunk := rest) else
      var (ok, c) := ParseReply(s.client, partial);
      if !ok then s.(client := c, partial := partial, missing := 0, chunk := rest, flow := Halted)
      else if c.sectionID != 0 then s.(client := c, partial := [], missing := c.sectionLen, chunk := rest)
      else s.(client := c, partial := partial, missing := 0, chunk := rest, flow := AwaitSend)
  }

  /** A run: the state after these steps, or None if one of them is not enabled when its turn comes. */
  function Exec<W(!new)>(setup: Setup<W>, s: State<W>, steps: seq<Step>): Option<State<W>>
    decreases |steps|
  {
    if steps == [] then Some(s) else
      match Apply(setup, s, steps[0])
      case None => None
      case Some(t) => Exec(setup, t, steps[1..])
  }

  // ---- where the outstanding call is ----

  datatype Place = Idle | Marked | Prepared | AtServer | AtClient | Ready | Lost

  function ClientPending<W(!new)>(s: State<W>): seq<byte> {
    (if s.flow.Reading? then s.partial else []) + s.chunk + s.toClient
  }

  function PlaceOf<W(!new)>(s: State<W>): Place {
    if s.client.canCall then Idle
    else if s.client.replIsReady then Ready
    else if s.flow.Halted? || s.server.flow.stopped then Lost
    else if s.client.sendIsReady then Marked
    else if s.flow.Sending? then Prepared
    else if s.server.Pending() != [] then AtServer
    else AtClient
  }

  /** Whether a part of the system, looked at by itself, holds the call or the right to make one. */
  predicate Holds<W(!new)>(s: State<W>, p: Place) {
    match p
    case Idle => s.client.canCall
    case Marked => s.client.sendIsReady && !s.flow.Halted?
    case Prepared => s.flow.Sending?
    case AtServer => s.server.Pending() != [] && !s.server.flow.stopped
    case AtClient => ClientPending(s) != []
    case Ready => s.client.replIsReady
    case Lost => s.flow.Halted? || s.server.flow.stopped
  }

  // ---- the invariant ----

  ghost predicate ClientRests<W(!new)>(s: State<W>) {
    && s.client.sectionID == 0 && s.client.sectionLen == 4 && s.chunk == [] && s.toClient == []
    && |s.partial| < LENGTH_SPAN
    && (s.flow.Reading? ==> s.partial == [] && s.missing == 4)
  }

  predicate Flags(c: Client, canCall: bool, sendIsReady: bool, replIsReady: bool) {
    c.canCall == canCall && c.sendIsReady == sendIsReady && c.replIsReady == replIsReady
  }

  ghost predicate Outstanding<W(!new)>(setup: Setup<W>, s: State<W>) {
    && setup.Proper(s.call) && |s.call.args| == |setup.local[s.call.id].args|
    && Encode(Cpp, setup.service.conv, setup.local[s.call.id].args, s.call.args).Ok?
  }

  function Request<W(!new)>(setup: Setup<W>, s: State<W>): seq<byte>
    requires s.call.id < |setup.local| && |s.call.args| == |setup.local[s.call.id].args|
    requires Encode(Cpp, setup.service.conv, setup.local[s.call.id].args, s.call.args).Ok?
  {
    Encode(Cpp, setup.service.conv, setup.local[s.call.id].args, s.call.args).value
  }

  /** The arguments of a call as the server sees them. */
  function Seen<W(!new)>(setup: Setup<W>, c: Call): seq<Value>
    requires setup.Proper(c) && |c.args| == |setup.local[c.id].args|
  {
    Images(Cpp, setup.service.conv, setup.service.procedures[c.id].args, c.args)
  }

  /** Everything known when the call is at `place` and `w` is the world after the calls that have returned. */
  ghost predicate At<W(!new)>(setup: Setup<W>, s: State<W>, w: W, place: Place) {
    match place
    case Idle =>
      && Flags(s.client, true, false, false) && s.flow.AwaitSend? && s.server.flow.st.world == w
      && (s.caller.Outside? || ((s.caller.Waiting? || s.caller.Pushing?) && setup.Proper(s.call)
                                && |s.call.args| == |setup.local[s.call.id].args|))
      && s.server.Rests() && ClientRests(s)
    case Marked =>
      && Flags(s.client, false, true, false) && (s.flow.AwaitSend? || s.flow.Building?) && s.server.flow.st.world == w
      && s.caller.Awaiting? && Outstanding(setup, s) && s.server.Rests() && ClientRests(s)
      && s.client.procedureID == s.call.id && s.client.args == Request(setup, s)
    case Prepared =>
      && Flags(s.client, false, false, false) && s.flow.Sending? && s.server.flow.st.world == w
      && s.caller.Awaiting? && Outstanding(setup, s) && s.server.Rests() && ClientRests(s)
      && s.outbox == Frame(s.call.id, Request(setup, s)) && |Request(setup, s)| < LENGTH_SPAN
    case AtServer =>
      && Flags(s.client, false, false, false) && s.flow.Reading? && s.server.flow.st.world == w
      && s.caller.Awaiting? && Outstanding(setup, s) && ClientRests(s) && s.server.TakesIn(s.call.id, Request(setup, s))
    case AtClient =>
      && Flags(s.client, false, false, false) && s.flow.Reading?
      && s.caller.Awaiting? && Outstanding(setup, s) && s.server.Rests()
      && Served(setup.service, w, s.call.id, Seen(setup, s.call), s.server.flow.st)
      && Incoming(s.client.sectionID, s.client.sectionLen, s.missing, s.partial, ClientPending(s), 1, s.server.flow.st.results)
    case Ready =>
      && Flags(s.client, false, false, true) && s.flow.AwaitSend?
      && (s.caller.Awaiting? || s.caller.Collecting?) && Outstanding(setup, s) && s.server.Rests() && ClientRests(s)
      && Served(setup.service, w, s.call.id, Seen(setup, s.call), s.server.flow.st) && s.client.rets == s.server.flow.st.results
    case Lost =>
      && s.caller.Awaiting? && ClientRests(s)
      && ((s.flow.Halted? && Flags(s.client, false, true, false) && s.server.Rests())
          || (s.server.flow.stopped && s.flow.Reading? && Flags(s.client, false, false, false)))
  }

  function Calls(log: seq<Returned>): seq<Call> {
    seq(|log|, k requires 0 <= k < |log| => log[k].call)
  }

  function Results(log: seq<Returned>): seq<Option<seq<Value>>> {
    seq(|log|, k requires 0 <= k < |log| => log[k].result)
  }

  ghost predicate AllProper<W(!new)>(setup: Setup<W>, log: seq<Returned>) {
    forall k :: 0 <= k < |log| ==> setup.Proper(log[k].call)
  }

  /** The world after the calls that have returned, made directly. */
  ghost function WorldAfter<W(!new)>(setup: Setup<W>, w0: W, log: seq<Returned>): W
    requires AllProper(setup, log)
  {
    DirectRun(setup, w0, Calls(log)).0
  }

  /** What has been returned is what direct calls return. */
  ghost predicate LogIsDirect<W(!new)>(setup: Setup<W>, w0: W, log: seq<Returned>) {
    AllProper(setup, log) && DirectRun(setup, w0, Calls(log)).1 == Results(log)
  }

  ghost predicate Inv<W(!new)>(setup: Setup<W>, w0: W, s: State<W>) {
    && LogIsDirect(setup, w0, s.log)
    && At(setup, s, WorldAfter(setup, w0, s.log), PlaceOf(s))
  }

  lemma LogGrows<W(!new)>(setup: Setup<W>, w0: W, log: seq<Returned>, c: Call, result: Option<seq<Value>>, w': W)
    requires LogIsDirect(setup, w0, log) && setup.Proper(c)
    requires Direct(setup, WorldAfter(setup, w0, log), c) == (w', result)
    ensures LogIsDirect(setup, w0, log + [Returned(c, result)]) && WorldAfter(setup, w0, log + [Returned(c, result)]) == w'
  {
    var more := log + [Returned(c, result)];
    assert Calls(more)[..|log|] == Calls(log) && Calls(more)[|log|] == c;
    assert Results(more) == Results(log) + [result];
  }
}
