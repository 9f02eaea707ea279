/**
 A Go client and a C++ server joined by two byte channels, as a labelled step system: the calling goroutine, the
 client's flow goroutine and the server's thread interleave at every critical section, channel operation and read.
 */
module GoSession {
  import opened Bytes
  import opened Codec
  import opened CodecLaws
  import opened Frames
  import opened MessageManager
  import opened RpcServer
  import opened RpcServing
  import opened GoClient

  /** A call of a procedure by its place in the table; calling by name looks the place up first. */
  datatype Call = Call(proc: nat, args: seq<Value>)

  /**
   The signatures on the client's side, the service on the server's, and the program's habits: whether it may make the
   second of two calls while the first is unanswered.
   */
  datatype Setup<!W(!new)> = Setup(local: seq<RemoteProcedure>, service: Service<W>, allows: (Call, Call) -> bool)
  {
    /**
     Same procedures in the same order (strings may be wide on the server's side), at most 256, names distinct, and
     results that the signatures can carry.
     */
    ghost predicate WellFormed() {
      && |local| == |service.procedures| <= 256 && DistinctNames(local) && service.ReturnsEncode()
      && (forall k :: 0 <= k < |local| ==> Compatible(local[k].args, service.procedures[k].args)
                                           && Compatible(service.procedures[k].rets, local[k].rets))
      && (forall w, id, args :: 0 <= id < |local| ==> Arrives(id, service.called(w, id, args).1))
    }

    /** Results of the right number arrive as they are. */
    predicate Arrives(id: nat, ret: Option<seq<Value>>)
      requires id < |local| == |service.procedures|
      requires Compatible(service.procedures[id].rets, local[id].rets)
    {
      ret.Some? && |ret.value| == |service.procedures[id].rets| ==>
        AllDeliver(Go, service.conv, local[id].rets, ret.value)
    }

    /** A call whose arguments, if the encoder takes them, arrive as they are and do not fill exactly 2^24 bytes. */
    predicate Proper(c: Call) {
      if c.proc >= |local| || c.proc >= |service.procedures| || |local[c.proc].args| != |service.procedures[c.proc].args| then false
      else if |c.args| != |local[c.proc].args| then true
      else
        match Encode(Go, service.conv, local[c.proc].args, c.args)
        case Ok(b) => |b| != LENGTH_SPAN && AllDeliver(Cpp, service.conv, service.procedures[c.proc].args, c.args)
        case Err(_) => true
    }

    /** A call that gets past its serialisation. */
    predicate Serialises(c: Call) {
      Proper(c) && Command(service.conv, local, c.proc, c.args).Some?
    }

    function Request(c: Call): (b: seq<byte>)
      requires Serialises(c)
      ensures Encode(Go, service.conv, local[c.proc].args, c.args) == Ok(b) && |b| < LENGTH_SPAN
    {
      Encode(Go, service.conv, local[c.proc].args, c.args).value
    }

    /** The bytes that ask for a call. */
    function FrameOf(c: Call): seq<byte>
      requires Serialises(c)
    {
      Frame(c.proc, Request(c))
    }

    predicate SameRequest(a: Call, b: Call)
      requires Serialises(a) && Serialises(b)
    {
      a.proc == b.proc && Request(a) == Request(b)
    }

    /** Nothing is asked for while something else is unanswered. */
    ghost predicate NeverOvertakes() {
      forall a, b :: Serialises(a) && Serialises(b) && allows(a, b) ==> FrameOf(a) == FrameOf(b)
    }
  }

  /** The arguments of a call as the server sees them. */
  function Seen<W(!new)>(setup: Setup<W>, c: Call): seq<Value>
    requires setup.Serialises(c)
  {
    Images(Cpp, setup.service.conv, setup.service.procedures[c.proc].args, c.args)
  }

  // ---- the abstract machine: calling the procedure directly ----

  /** A direct call of a procedure, and the callback it is answered with if it succeeds. */
  function Direct<W(!new)>(setup: Setup<W>, w: W, c: Call): (W, Option<Callback>)
    requires setup.Serialises(c)
  {
    var svc, id := setup.service, c.proc;
    var (w', ret) := svc.called(w, id, Seen(setup, c));
    if ret.Some? && |ret.value| == |svc.procedures[id].rets| == |setup.local[id].rets|
    then (w', Some(Callback(id, true, Images(Go, svc.conv, setup.local[id].rets, ret.value))))
    else (w', None)
  }

  function DirectRun<W(!new)>(setup: Setup<W>, w: W, calls: seq<Call>): (W, seq<Option<Callback>>)
    requires forall k :: 0 <= k < |calls| ==> setup.Serialises(calls[k])
  {
    if calls == [] then (w, []) else
      var (w1, results) := DirectRun(setup, w, calls[..|calls| - 1]);
      var (w2, result) := Direct(setup, w1, calls[|calls| - 1]);
      (w2, results + [result])
  }

  // ---- the concrete machine ----

  datatype CallerPc = Outside | Serialising | Offering

  datatype FlowPc = AwaitCommand | Copying | Sending | Measuring | Reading | Stopped

  /** `issued` and `sent` are histories: the calls that got past serialisation, and the messages given to the connection. */
  datatype State<W(!new)> = State(
    client: Client, locked: bool, caller: CallerPc, call: Call, issued: seq<Call>,
    flow: FlowPc, outbox: seq<byte>, sent: seq<seq<byte>>, buffer: seq<byte>, missing: int, chunk: seq<byte>,
    toClient: seq<byte>, server: ServerEnd<W>)

  datatype Step =
    | Lock(call: Call)   // Call takes the lock
    | Fill               // it serialises and releases the lock, or gives up and keeps it
    | Handshake          // commandReady passes from Call, which returns, to SendMessage
    | Copy               // SendMessage copies the command, with the lock
    | Send               // the message goes to the connection; the first section was measured when the manager was made
    | Measure            // GetMessageLen, with the lock
    | ClientRead(n: nat)
    | ClientTransfer
    | ServerRead(n: nat)
    | ServerTransfer

  function Init<W(!new)>(setup: Setup<W>, w: W): State<W> {
    State(FRESH_GO_CLIENT, false, Outside, Call(0, []), [], AwaitCommand, [], [], [], 4, [], [],
          ServerEnd(Start(ServerParser(setup.service), FreshServer(w)), [], []))
  }

  /** The call that was made last. */
  function Last(issued: seq<Call>): Call {
    if issued == [] then Call(0, []) else issued[|issued| - 1]
  }

  function Apply<W(!new)>(setup: Setup<W>, s: State<W>, step: Step): Option<State<W>> {
    var conv := setup.service.conv;
    match step
    case Lock(c) =>
      if !s.caller.Outside? || s.locked || !setup.Proper(c) then None
      else if |s.client.callbacks| < |s.issued| && !setup.allows(Last(s.issued), c) then None
      else Some(s.(locked := true, caller := Serialising, call := c))
    case Fill =>
      if !s.caller.Serialising? || s.call.proc >= |setup.local| then None else
        (match Prepare(conv, setup.local, s.client, s.call.proc, s.call.args)
         case (true, c) => Some(s.(client := c, locked := false, caller := Offering, issued := s.issued + [s.call]))
         case (false, c) => Some(s.(client := c, caller := Outside)))
    case Handshake =>
      if s.caller.Offering? && s.flow.AwaitCommand? then Some(s.(caller := Outside, flow := Copying)) else None
    case Copy =>
      if !s.flow.Copying? || s.locked then None
      else if s.client.command == [] then Some(s.(flow := Stopped))
      else Some(s.(flow := Sending, outbox := s.client.command))
    case Send =>
      if !s.flow.Sending? then None
      else if GoTooLarge(0, s.outbox) then Some(s.(flow := Stopped))
      else Some(s.(flow := if s.sent == [] then Reading else Measuring, outbox := [], sent := s.sent + [s.outbox],
                   server := s.server.(channel := s.server.channel + s.outbox)))
    case Measure =>
      if !s.flow.Measuring? || s.locked then None
      else Some(s.(flow := Reading, buffer := [], missing := s.client.sectionLen))
    case ClientRead(n) =>
      if s.flow.Reading? && s.chunk == [] && 0 < n <= |s.toClient|
      then Some(s.(chunk := s.toClient[..n], toClient := s.toClient[n..])) else None
    case ClientTransfer => if s.flow.Reading? && s.chunk != [] then TransferReply(setup, s) else None
    case ServerRead(n) => if s.server.CanRead(n) then Some(s.(server := s.server.Read(n))) else None
    case ServerTransfer =>
      if !s.server.CanPass() then None else
        var (end, reply) := s.server.Pass(ServerParser(setup.service));
        Some(s.(server := end, toClient := s.toClient + reply))
  }

  /** One pass of the Go transfer loop, up to SendMessage's wait or GetMessageLen; parsing needs the lock. */
  function TransferReply<W(!new)>(setup: Setup<W>, s: State<W>): Option<State<W>> {
    var n := Min(s.client.sectionLen, |s.chunk|);
    var buffer, rest, missing := s.buffer + s.chunk[..n], s.chunk[n..], s.missing - n;
    if missing != 0 then Some(s.(buffer := buffer, missing := missing, chunk := rest))
    else if s.locked then None
    else
      var (ok, c) := ParseReply(setup.service.conv, setup.local, s.client, buffer);
      if !ok then Some(s.(client := c, buffer := buffer, missing := 0, chunk := rest, flow := Stopped))
      else Some(s.(client := c, buffer := [], missing := c.sectionLen, chunk := rest,
                   flow := if c.sectionID != 0 then Measuring else AwaitCommand))
  }

  /** A run: the state after these steps, or None if one of them is not enabled when its turn comes. */
  function Exec<W(!new)>(setup: Setup<W>, s: State<W>, steps: seq<Step>): Option<State<W>>
    decreases |steps|
  {
    if steps == [] then Some(s) else
      match Apply(setup, s, steps[0])
      case None => None
      case Some(t) => Exec(setup, t, steps[1..])
  }

  // ---- what is to be true of every run ----

  ghost predicate AllSerialise<W(!new)>(setup: Setup<W>, calls: seq<Call>) {
    forall k :: 0 <= k < |calls| ==> setup.Serialises(calls[k])
  }

  function Answers(callbacks: seq<Callback>): (r: seq<Option<Callback>>)
    ensures |r| == |callbacks|
  {
    seq(|callbacks|, k requires 0 <= k < |callbacks| => Some(callbacks[k]))
  }

  /** The calls that have been answered have been answered as direct calls are, one after the other. */
  ghost predicate AnsweredDirectly<W(!new)>(setup: Setup<W>, w0: W, issued: seq<Call>, callbacks: seq<Callback>) {
    && |callbacks| <= |issued| && AllSerialise(setup, issued)
    && DirectRun(setup, w0, issued[..|callbacks|]).1 == Answers(callbacks)
  }

  /** Each message sent asks for the call in the same place. */
  ghost predicate AsksInOrder<W(!new)>(setup: Setup<W>, issued: seq<Call>, sent: seq<seq<byte>>)
    requires AllSerialise(setup, issued)
  {
    |sent| <= |issued| && forall k :: 0 <= k < |sent| ==> sent[k] == setup.FrameOf(issued[k])
  }

  /** Requests and replies meet: what is asked for is what was called, and what is called back is the answer to it. */
  ghost predicate Meets<W(!new)>(setup: Setup<W>, w0: W, s: State<W>) {
    AnsweredDirectly(setup, w0, s.issued, s.client.callbacks) && AsksInOrder(setup, s.issued, s.sent)
  }

  // ---- the invariant ----

  function ClientPending<W(!new)>(s: State<W>): seq<byte> {
    s.buffer + s.chunk + s.toClient
  }

  /** The world after the calls that have been answered, made directly. */
  ghost function World<W(!new)>(setup: Setup<W>, w0: W, issued: seq<Call>, callbacks: seq<Callback>): W
    requires AnsweredDirectly(setup, w0, issued, callbacks)
  {
    DirectRun(setup, w0, issued[..|callbacks|]).0
  }

  /** Where the call in flight is: the one that SendMessage has been woken for. */
  datatype Place = Quiet | Taken | Prepared | AtServer | AtClient | Lost

  function PlaceOf<W(!new)>(s: State<W>): Place {
    if s.flow.AwaitCommand? then Quiet
    else if s.flow.Copying? then Taken
    else if s.flow.Sending? then Prepared
    else if s.server.flow.stopped || s.missing < 0 then Lost
    else if s.server.Pending() != [] then AtServer
    else AtClient
  }

  /** A call has given up, and kept the lock. */
  predicate Stuck<W(!new)>(s: State<W>) {
    s.locked && s.caller.Outside?
  }

  ghost predicate ClientRests<W(!new)>(s: State<W>) {
    && s.client.sectionID == 0 && s.client.sectionLen == 4 && s.buffer == [] && s.missing == 4
    && s.chunk == [] && s.toClient == []
  }

  /** What the channels and the two section machines hold of call `c`; `w` is the world before it. */
  ghost predicate FlowAt<W(!new)>(setup: Setup<W>, s: State<W>, w: W, c: Call, place: Place)
    requires setup.Serialises(c) || place.Quiet? || place.Lost?
  {
    match place
    case Quiet => s.flow.AwaitCommand? && s.server.flow.st.world == w && s.server.Rests() && ClientRests(s)
    case Taken => s.flow.Copying? && s.server.flow.st.world == w && s.server.Rests() && ClientRests(s)
    case Prepared =>
      && s.flow.Sending? && s.server.flow.st.world == w && s.server.Rests() && ClientRests(s)
      && s.outbox == setup.FrameOf(c)
    case AtServer =>
      && (s.flow.Measuring? || s.flow.Reading?) && s.server.flow.st.world == w && ClientRests(s)
      && s.server.TakesIn(c.proc, setup.Request(c))
    case AtClient =>
      && (s.flow.Reading? || (s.flow.Measuring? && s.buffer == []))
      && s.server.Rests() && Served(setup.service, w, c.proc, Seen(setup, c), s.server.flow.st) && s.missing > 0
      && Incoming(s.client.sectionID, s.client.sectionLen, s.missing, s.buffer, ClientPending(s), 1, s.server.flow.st.results)
      && (s.client.sectionID == 1 ==> s.client.replySuccess)
    case Lost =>
      || (s.server.flow.stopped && (s.flow.Measuring? || s.flow.Reading?) && ClientRests(s))
      || (s.flow.Reading? && s.missing < 0 && s.client.sectionLen > 0 && s.server.Rests())
  }

  /** The oldest call without an answer. */
  function Oldest<W(!new)>(s: State<W>): Call {
    if |s.client.callbacks| < |s.issued| then s.issued[|s.client.callbacks|] else Call(0, [])
  }

  function Count(b: bool): nat {
    if b then 1 else 0
  }

  /** The part of a state that the caller, the lock and the histories make up; `flying` and `out` say how far the flow is. */
  datatype Ledger = Ledger(answered: nat, command: seq<byte>, name: string, locked: bool, caller: CallerPc, call: Call,
                           issued: seq<Call>, sent: seq<seq<byte>>, flying: bool, out: bool)

  function LedgerOf<W(!new)>(s: State<W>): Ledger {
    Ledger(|s.client.callbacks|, s.client.command, s.client.lastRemoteProc, s.locked, s.caller, s.call, s.issued, s.sent,
           !s.flow.AwaitCommand?, s.flow.Measuring? || s.flow.Reading?)
  }

  /** The prepared command and the name kept for its reply are those of this call. */
  ghost predicate CommandIs<W(!new)>(setup: Setup<W>, command: seq<byte>, name: string, c: Call)
    requires setup.Serialises(c)
  {
    command == setup.FrameOf(c) && name == setup.local[c.proc].name
  }

  /** How the caller, the lock, the command and the histories go together. */
  ghost predicate Books<W(!new)>(setup: Setup<W>, b: Ledger)
    requires AllSerialise(setup, b.issued)
  {
    var n := b.answered;
    && |b.issued| == n + Count(b.flying) + Count(b.caller.Offering?)
    && (b.caller.Serialising? ==> b.locked && setup.Proper(b.call)) && (b.caller.Offering? ==> !b.locked)
    && (n < |b.issued| && !(b.locked && b.caller.Outside?) ==> CommandIs(setup, b.command, b.name, b.issued[n]))
    && (|b.issued| == n + 2 ==> setup.SameRequest(b.issued[n], b.issued[n + 1]))
    && (n < |b.issued| && b.caller.Serialising? && setup.Serialises(b.call) ==> setup.SameRequest(b.issued[n], b.call))
    && |b.sent| == n + Count(b.out) && AsksInOrder(setup, b.issued, b.sent)
  }

  ghost predicate Inv<W(!new)>(setup: Setup<W>, w0: W, s: State<W>) {
    && AnsweredDirectly(setup, w0, s.issued, s.client.callbacks) && Books(setup, LedgerOf(s))
    && FlowAt(setup, s, World(setup, w0, s.issued, s.client.callbacks), Oldest(s), PlaceOf(s))
  }
}
