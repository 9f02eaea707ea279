/** A Go session over whole runs: when requests and replies meet, what happens when they do not, and when calls are lost. */
module GoSessionRuns {
  import opened Bytes
  import opened Frames
  import opened RpcServing
  import opened GoClient
  import opened GoSession
  import opened GoSessionLaws

  lemma {:induction false} ExecInv<W(!new)>(setup: Setup<W>, w0: W, s: State<W>, steps: seq<Step>, t: State<W>)
    requires setup.WellFormed() && setup.NeverOvertakes() && Inv(setup, w0, s) && Exec(setup, s, steps) == Some(t)
    ensures Inv(setup, w0, t)
    decreases |steps|
  {
    if steps != [] {
      var u := Apply(setup, s, steps[0]).value;
      StepPreserves(setup, w0, s, steps[0], u);
      ExecInv(setup, w0, u, steps[1..], t);
    }
  }

  lemma InvMeets<W(!new)>(setup: Setup<W>, w0: W, s: State<W>)
    requires Inv(setup, w0, s)
    ensures Meets(setup, w0, s)
  {
  }

  /**
   Replies meet their requests: in every state of every run of a program that overtakes no call with a different one,
   each message sent asks for the call in the same place, and the callbacks made are, call by call, those that direct
   calls are answered with: the right procedure's, with its results decoded under its own signature.
   */
  lemma RepliesMeetRequests<W(!new)>(setup: Setup<W>, w0: W, steps: seq<Step>, s: State<W>)
    requires setup.WellFormed() && setup.NeverOvertakes() && Exec(setup, Init(setup, w0), steps) == Some(s)
    ensures Meets(setup, w0, s)
  {
    InitInv(setup, w0);
    ExecInv(setup, w0, Init(setup, w0), steps, s);
    InvMeets(setup, w0, s);
  }

  /** While a call is unanswered, and none has given up, the header prepared and the name kept are its own. */
  lemma CommandBelongsToCall<W(!new)>(setup: Setup<W>, w0: W, steps: seq<Step>, s: State<W>)
    requires setup.WellFormed() && setup.NeverOvertakes() && Exec(setup, Init(setup, w0), steps) == Some(s)
    requires |s.client.callbacks| < |s.issued| && !Stuck(s)
    ensures var c := s.issued[|s.client.callbacks|];
      && setup.Serialises(c) && s.client.command == setup.FrameOf(c) && HeaderId(s.client.command[..4]) == c.proc
      && s.client.lastRemoteProc == setup.local[c.proc].name
  {
    InitInv(setup, w0);
    ExecInv(setup, w0, Init(setup, w0), steps, s);
    FrameStartsWithId(Oldest(s).proc, setup.Request(Oldest(s)));
  }

  /** From one state to the next the call in flight goes round its places and no other way. */
  lemma GoCallGoesRound<W(!new)>(setup: Setup<W>, w0: W, steps: seq<Step>, s: State<W>, step: Step, s': State<W>)
    requires setup.WellFormed() && setup.NeverOvertakes() && Exec(setup, Init(setup, w0), steps) == Some(s)
    requires Apply(setup, s, step) == Some(s')
    ensures NextPlace(PlaceOf(s), PlaceOf(s'))
  {
    InitInv(setup, w0);
    ExecInv(setup, w0, Init(setup, w0), steps, s);
    StepPreserves(setup, w0, s, step, s');
  }

  // ---- lost calls ----

  predicate Hopeless<W(!new)>(s: State<W>) {
    Stuck(s) || PlaceOf(s) == Lost
  }

  /**
   Exactly how a client gets stuck: a serialisation fails, which keeps the lock; the server has taken in the last byte
   of a request that it will not answer, because the procedure fails, returns another number of values, or returns more
   than 2^24 bytes; or a read brings more than is missing of a section already begun.
   */
  lemma WhenCallsAreLost<W(!new)>(setup: Setup<W>, w0: W, s: State<W>, step: Step, s': State<W>)
    requires setup.WellFormed() && setup.NeverOvertakes() && Inv(setup, w0, s) && !Hopeless(s)
    requires Apply(setup, s, step) == Some(s')
    ensures Hopeless(s') <==>
      (step.Fill? && Command(setup.service.conv, setup.local, s.call.proc, s.call.args).None?)
      || (step.ServerTransfer? && ServerRefuses(setup, s)) || (step.ClientTransfer? && Overlong(s))
  {
    if step.Lock? {
      LockStep(setup, w0, s, step.call, s');
    } else if step.Fill? {
      FillStep(setup, w0, s, s');
    } else {
      FlowsKeepLock(setup, s, step, s');
      FlowMoves(setup, w0, s, step, s');
    }
  }

  lemma FlowsKeepLock<W(!new)>(setup: Setup<W>, s: State<W>, step: Step, s': State<W>)
    requires Apply(setup, s, step) == Some(s') && !step.Lock? && !step.Fill?
    ensures s'.locked == s.locked && s'.issued == s.issued
    ensures s'.caller == if step.Handshake? then Outside else s.caller
    ensures step.Handshake? ==> s.caller.Offering?
  {
  }

  lemma NothingDelivered<W(!new)>(setup: Setup<W>, s: State<W>, step: Step, s': State<W>)
    requires Apply(setup, s, step) == Some(s') && (s.locked || !step.ClientTransfer?)
    ensures s'.client.callbacks == s.client.callbacks
  {
  }

  lemma StuckStays<W(!new)>(setup: Setup<W>, s: State<W>, step: Step, s': State<W>)
    requires Stuck(s) && Apply(setup, s, step) == Some(s')
    ensures Stuck(s') && s'.client.callbacks == s.client.callbacks
  {
    NothingDelivered(setup, s, step, s');
    if !step.Lock? && !step.Fill? {
      FlowsKeepLock(setup, s, step, s');
    }
  }

  lemma LostPlaceStays<W(!new)>(setup: Setup<W>, w0: W, s: State<W>, step: Step, s': State<W>)
    requires setup.WellFormed() && setup.NeverOvertakes() && Inv(setup, w0, s) && PlaceOf(s) == Lost
    requires Apply(setup, s, step) == Some(s')
    ensures PlaceOf(s') == Lost && s'.client.callbacks == s.client.callbacks
  {
    StepPreserves(setup, w0, s, step, s');
    if step.ClientTransfer? {
      BytesShowThePlace(setup, w0, s);
      WedgedStep(setup, w0, s, s');
    } else {
      NothingDelivered(setup, s, step, s');
    }
  }

  /** After that no callback is ever made. */
  lemma LostStays<W(!new)>(setup: Setup<W>, w0: W, s: State<W>, step: Step, s': State<W>)
    requires setup.WellFormed() && setup.NeverOvertakes() && Inv(setup, w0, s) && Hopeless(s)
    requires Apply(setup, s, step) == Some(s')
    ensures Hopeless(s') && s'.client.callbacks == s.client.callbacks
  {
    if Stuck(s) {
      StuckStays(setup, s, step, s');
    } else {
      LostPlaceStays(setup, w0, s, step, s');
    }
  }

  // ---- an unanswered call can be answered ----

  predicate FlowStep(step: Step) {
    !step.Lock? && !step.Fill?
  }

  function Rank(p: Place): nat {
    match p case Taken => 4 case Prepared => 3 case AtServer => 2 case AtClient => 1 case _ => 0
  }

  function BytesLeft<W(!new)>(s: State<W>): nat {
    if PlaceOf(s) == AtServer then 2 * |s.server.channel| + |s.server.chunk| else 2 * |s.toClient| + |s.chunk|
  }

  /** The server will answer the call in flight. */
  ghost predicate WillAnswer<W(!new)>(setup: Setup<W>, w0: W, issued: seq<Call>, callbacks: seq<Callback>) {
    && AnsweredDirectly(setup, w0, issued, callbacks) && |callbacks| < |issued|
    && var c := issued[|callbacks|];
    !Refuses(setup.service, World(setup, w0, issued, callbacks), c.proc, Seen(setup, c))
  }

  /** The call in flight can go on: the lock is free, the server will answer, and no read in hand is overlong. */
  ghost predicate GoesOn<W(!new)>(setup: Setup<W>, w0: W, s: State<W>) {
    && Inv(setup, w0, s) && WillAnswer(setup, w0, s.issued, s.client.callbacks)
    && !s.locked && !s.flow.AwaitCommand? && PlaceOf(s) != Lost && (Overlong(s) ==> s.chunk == [])
  }

  /** The step that a lone call takes next, reading no more than is missing. */
  function NextStep<W(!new)>(s: State<W>): Step {
    match PlaceOf(s)
    case Taken => Copy
    case Prepared => Send
    case AtServer => if s.server.chunk == [] then ServerRead(|s.server.channel|) else ServerTransfer
    case _ =>
      if s.flow.Measuring? then Measure
      else if s.chunk == [] then ClientRead(if 0 < s.missing < |s.toClient| then s.missing else |s.toClient|)
      else ClientTransfer
  }

  /** The caller has not moved and nothing has been delivered. */
  predicate Meanwhile<W(!new)>(s: State<W>, s': State<W>) {
    s'.issued == s.issued && s'.caller == s.caller && s'.client.callbacks == s.client.callbacks && s'.locked == s.locked
  }

  /** A step nearer to the answer. */
  predicate Nearer<W(!new)>(s: State<W>, s': State<W>) {
    && 0 < Rank(PlaceOf(s'))
    && (Rank(PlaceOf(s')) < Rank(PlaceOf(s)) || (PlaceOf(s') == PlaceOf(s) &&
        (BytesLeft(s') < BytesLeft(s) || (BytesLeft(s') == BytesLeft(s) && s.flow.Measuring? && !s'.flow.Measuring?))))
  }

  /** A step nearer for a call in flight, from a state and to a state in which no overlong read is in hand. */
  ghost predicate Advances<W(!new)>(setup: Setup<W>, s: State<W>, s': State<W>) {
    Apply(setup, s, NextStep(s)) == Some(s') && Meanwhile(s, s') && Nearer(s, s') && (Overlong(s') ==> s'.chunk == [])
  }

  lemma AdvanceEarly<W(!new)>(setup: Setup<W>, w: W, c: Call, s: State<W>) returns (s': State<W>)
    requires |setup.local| <= 256 && setup.Serialises(c) && (PlaceOf(s) == Taken || PlaceOf(s) == Prepared) && !s.locked
    requires FlowAt(setup, s, w, c, PlaceOf(s)) && s.client.command == setup.FrameOf(c)
    ensures Advances(setup, s, s')
  {
    FrameStartsWithId(c.proc, setup.Request(c));
    s' := Apply(setup, s, NextStep(s)).value;
    if PlaceOf(s) == Prepared {
      SendFlow(setup, w, c, s, s');
    }
  }

  lemma AdvanceServerRead<W(!new)>(setup: Setup<W>, w: W, c: Call, s: State<W>) returns (s': State<W>)
    requires setup.Serialises(c) && PlaceOf(s) == AtServer && FlowAt(setup, s, w, c, AtServer) && s.server.chunk == []
    ensures Advances(setup, s, s')
  {
    assert s.server.flow.partial + [] + [] == s.server.flow.partial;
    s' := Apply(setup, s, NextStep(s)).value;
    ReadFlow(setup, w, c, s, NextStep(s), s');
  }

  lemma ServerNearer<W(!new)>(s: State<W>, end: ServerEnd<W>, reply: seq<byte>, s': State<W>)
    requires s' == s.(server := end, toClient := s.toClient + reply) && PlaceOf(s) == AtServer
    requires end.channel == s.server.channel && |end.chunk| < |s.server.chunk| && s.buffer == []
    requires PlaceOf(s') == AtServer || PlaceOf(s') == AtClient
    ensures Meanwhile(s, s') && Nearer(s, s') && !Overlong(s')
  {
  }

  lemma ServerAnswers<W(!new)>(setup: Setup<W>, w: W, c: Call, s: State<W>, end: ServerEnd<W>, reply: seq<byte>, s': State<W>)
    requires setup.Serialises(c) && c == Oldest(s) && PlaceOf(s) == AtServer && FlowAt(setup, s, w, c, AtServer)
    requires Outcome(setup.service, s.server, c.proc, setup.Request(c), Seen(setup, c), end, reply)
    requires !Refuses(setup.service, w, c.proc, Seen(setup, c)) && s' == s.(server := end, toClient := s.toClient + reply)
    ensures PlaceOf(s') == AtServer || PlaceOf(s') == AtClient
  {
    ServerMoves(setup, w, c, s, end, reply, s');
  }

  lemma AdvanceServerPass<W(!new)>(setup: Setup<W>, w: W, c: Call, s: State<W>) returns (s': State<W>)
    requires setup.WellFormed() && setup.Serialises(c) && c == Oldest(s) && PlaceOf(s) == AtServer
    requires FlowAt(setup, s, w, c, AtServer) && s.server.chunk != [] && !Refuses(setup.service, w, c.proc, Seen(setup, c))
    ensures Advances(setup, s, s')
  {
    var end, reply := PassOnCall(setup, c, s);
    s' := s.(server := end, toClient := s.toClient + reply);
    ServerAnswers(setup, w, c, s, end, reply, s');
    ServerNearer(s, end, reply, s');
  }

  lemma AdvanceMeasure<W(!new)>(setup: Setup<W>, w: W, c: Call, s: State<W>) returns (s': State<W>)
    requires setup.Serialises(c) && PlaceOf(s) == AtClient && FlowAt(setup, s, w, c, AtClient) && !s.locked && s.flow.Measuring?
    ensures Advances(setup, s, s')
  {
    s' := s.(flow := Reading, buffer := [], missing := s.client.sectionLen);
  }

  lemma BytesAreComing<W(!new)>(setup: Setup<W>, w: W, c: Call, s: State<W>)
    requires setup.Serialises(c) && FlowAt(setup, s, w, c, AtClient) && s.chunk == []
    ensures s.toClient != [] && s.missing > 0
  {
    assert s.buffer + [] + [] == s.buffer;
  }

  lemma ReadIsNearer<W(!new)>(s: State<W>, n: nat, s': State<W>)
    requires PlaceOf(s) == AtClient && PlaceOf(s') == AtClient && s.chunk == [] && 0 < n <= |s.toClient| && n <= s.missing
    requires s' == s.(chunk := s.toClient[..n], toClient := s.toClient[n..])
    ensures Meanwhile(s, s') && Nearer(s, s') && !Overlong(s')
  {
  }

  lemma AdvanceClientRead<W(!new)>(setup: Setup<W>, w: W, c: Call, s: State<W>) returns (s': State<W>)
    requires setup.Serialises(c) && PlaceOf(s) == AtClient && FlowAt(setup, s, w, c, AtClient) && s.flow.Reading? && s.chunk == []
    ensures Advances(setup, s, s')
  {
    BytesAreComing(setup, w, c, s);
    var n := if s.missing < |s.toClient| then s.missing else |s.toClient|;
    s' := s.(chunk := s.toClient[..n], toClient := s.toClient[n..]);
    ReadFlow(setup, w, c, s, ClientRead(n), s');
    ReadIsNearer(s, n, s');
  }

  lemma PassIsEnabled<W(!new)>(setup: Setup<W>, w: W, c: Call, s: State<W>)
    requires setup.Serialises(c) && FlowAt(setup, s, w, c, AtClient) && !s.locked && s.flow.Reading? && s.chunk != []
    ensures Apply(setup, s, ClientTransfer).Some?
  {
  }

  lemma AdvanceClientPass<W(!new)>(setup: Setup<W>, w: W, c: Call, s: State<W>) returns (s': State<W>)
    requires setup.Serialises(c) && PlaceOf(s) == AtClient && FlowAt(setup, s, w, c, AtClient) && !s.locked && !Overlong(s)
    requires s.flow.Reading? && s.chunk != [] && !LastOfReply(s, s.server.flow.st.results)
    ensures Advances(setup, s, s')
  {
    PassIsEnabled(setup, w, c, s);
    s' := Apply(setup, s, ClientTransfer).value;
    PartFlow(setup, w, c, s, s');
  }

  lemma Advance<W(!new)>(setup: Setup<W>, w: W, c: Call, s: State<W>) returns (s': State<W>)
    requires setup.WellFormed() && setup.Serialises(c) && c == Oldest(s) && !s.locked && s.client.command == setup.FrameOf(c)
    requires Rank(PlaceOf(s)) > 0 && FlowAt(setup, s, w, c, PlaceOf(s)) && (Overlong(s) ==> s.chunk == [])
    requires !Refuses(setup.service, w, c.proc, Seen(setup, c))
    requires !(PlaceOf(s) == AtClient && s.flow.Reading? && s.chunk != [] && LastOfReply(s, s.server.flow.st.results))
    ensures Advances(setup, s, s')
  {
    if PlaceOf(s) == Taken || PlaceOf(s) == Prepared {
      s' := AdvanceEarly(setup, w, c, s);
    } else if PlaceOf(s) == AtServer {
      if s.server.chunk == [] {
        s' := AdvanceServerRead(setup, w, c, s);
      } else {
        s' := AdvanceServerPass(setup, w, c, s);
      }
    } else if s.flow.Measuring? {
      s' := AdvanceMeasure(setup, w, c, s);
    } else if s.chunk == [] {
      s' := AdvanceClientRead(setup, w, c, s);
    } else {
      s' := AdvanceClientPass(setup, w, c, s);
    }
  }

  lemma WhatGoesOn<W(!new)>(setup: Setup<W>, w0: W, s: State<W>)
    requires GoesOn(setup, w0, s)
    ensures setup.Serialises(Oldest(s)) && s.client.command == setup.FrameOf(Oldest(s)) && Rank(PlaceOf(s)) > 0
    ensures FlowAt(setup, s, World(setup, w0, s.issued, s.client.callbacks), Oldest(s), PlaceOf(s))
  {
  }

  lemma StillGoesOn<W(!new)>(setup: Setup<W>, w0: W, s: State<W>, s': State<W>)
    requires WillAnswer(setup, w0, s.issued, s.client.callbacks) && !s.locked
    requires Advances(setup, s, s') && Inv(setup, w0, s')
    ensures GoesOn(setup, w0, s')
  {
  }

  lemma Next<W(!new)>(setup: Setup<W>, w0: W, s: State<W>) returns (s': State<W>)
    requires setup.WellFormed() && GoesOn(setup, w0, s)
    requires !(PlaceOf(s) == AtClient && s.flow.Reading? && s.chunk != [] && LastOfReply(s, s.server.flow.st.results))
    ensures Advances(setup, s, s') && GoesOn(setup, w0, s')
  {
    WhatGoesOn(setup, w0, s);
    s' := Advance(setup, World(setup, w0, s.issued, s.client.callbacks), Oldest(s), s);
    FlowMoves(setup, w0, s, NextStep(s), s');
    StillGoesOn(setup, w0, s, s');
  }

  ghost predicate FlowSteps(steps: seq<Step>) {
    forall k :: 0 <= k < |steps| ==> FlowStep(steps[k])
  }

  lemma OneStepMore<W(!new)>(setup: Setup<W>, s: State<W>, step: Step, u: State<W>, more: seq<Step>, t: State<W>)
    requires Apply(setup, s, step) == Some(u) && Exec(setup, u, more) == Some(t)
    ensures Exec(setup, s, [step] + more) == Some(t)
    ensures FlowStep(step) && FlowSteps(more) ==> FlowSteps([step] + more)
  {
    assert ([step] + more)[1..] == more;
  }

  /** A state in which call n of these has just been answered. */
  ghost predicate JustAnswered<W(!new)>(setup: Setup<W>, w0: W, issued: seq<Call>, caller: CallerPc, n: nat, t: State<W>) {
    Inv(setup, w0, t) && PlaceOf(t) == Quiet && !t.locked && |t.client.callbacks| == n + 1 && t.issued == issued && t.caller == caller
  }

  /** The last step of an answer. */
  lemma NextAnswers<W(!new)>(setup: Setup<W>, w0: W, s: State<W>) returns (s': State<W>)
    requires setup.WellFormed() && GoesOn(setup, w0, s)
    requires PlaceOf(s) == AtClient && s.flow.Reading? && s.chunk != [] && LastOfReply(s, s.server.flow.st.results)
    ensures Apply(setup, s, ClientTransfer) == Some(s')
    ensures JustAnswered(setup, w0, s.issued, s.caller, |s.client.callbacks|, s')
  {
    PassIsEnabled(setup, World(setup, w0, s.issued, s.client.callbacks), Oldest(s), s);
    s' := Apply(setup, s, ClientTransfer).value;
    EndStep(setup, w0, s, s');
  }

  /** The next step either answers the call or leaves it going on, nearer to its answer. */
  lemma Onward<W(!new)>(setup: Setup<W>, w0: W, s: State<W>) returns (u: State<W>)
    requires setup.WellFormed() && GoesOn(setup, w0, s)
    ensures Apply(setup, s, NextStep(s)) == Some(u)
    ensures JustAnswered(setup, w0, s.issued, s.caller, |s.client.callbacks|, u) || (GoesOn(setup, w0, u) && Advances(setup, s, u))
  {
    if PlaceOf(s) == AtClient && s.flow.Reading? && s.chunk != [] && LastOfReply(s, s.server.flow.st.results) {
      u := NextAnswers(setup, w0, s);
    } else {
      u := Next(setup, w0, s);
    }
  }

  /** From any point on, a call in flight that the server will answer can be answered. */
  lemma {:induction false} CallCanBeAnswered<W(!new)>(setup: Setup<W>, w0: W, s: State<W>) returns (steps: seq<Step>, t: State<W>)
    requires setup.WellFormed() && GoesOn(setup, w0, s)
    ensures Exec(setup, s, steps) == Some(t) && FlowSteps(steps)
    ensures JustAnswered(setup, w0, s.issued, s.caller, |s.client.callbacks|, t)
    decreases Rank(PlaceOf(s)), BytesLeft(s), Count(s.flow.Measuring?)
  {
    var u := Onward(setup, w0, s);
    var more := [];
    t := u;
    if !JustAnswered(setup, w0, s.issued, s.caller, |s.client.callbacks|, u) {
      more, t := CallCanBeAnswered(setup, w0, u);
    }
    steps := [NextStep(s)] + more;
    OneStepMore(setup, s, NextStep(s), u, more, t);
  }

  // ---- overtaking ----

  /** One call that SendMessage has been woken for, and another that takes the lock and replaces its command. */
  lemma Overtaken<W(!new)>(setup: Setup<W>, w0: W, c0: Call, c1: Call) returns (steps: seq<Step>, s: State<W>)
    requires |setup.local| <= 256 && setup.Serialises(c0) && setup.Serialises(c1) && setup.allows(c0, c1)
    ensures Exec(setup, Init(setup, w0), steps) == Some(s) && s.issued == [c0, c1]
    ensures CommandIs(setup, s.client.command, s.client.lastRemoteProc, c1) && !s.locked && s.caller.Offering? && s.flow.Copying?
    ensures s == Init(setup, w0).(client := s.client, call := c1, issued := s.issued, caller := Offering, flow := Copying)
    ensures s.client == FRESH_GO_CLIENT.(command := s.client.command, lastRemoteProc := s.client.lastRemoteProc)
  {
    var s0 := Init(setup, w0);
    var s1 := s0.(locked := true, caller := Serialising, call := c0);
    var s2 := Apply(setup, s1, Fill).value;
    PreparedIsCurrent(setup, s1.client, c0, s2.client);
    var s3 := s2.(caller := Outside, flow := Copying);
    var s4 := s3.(locked := true, caller := Serialising, call := c1);
    s := Apply(setup, s4, Fill).value;
    PreparedIsCurrent(setup, s4.client, c1, s.client);
    assert [] + [c0] == [c0] && [c0] + [c1] == [c0, c1];
    OneStepMore(setup, s4, Fill, s, [], s);
    OneStepMore(setup, s3, Lock(c1), s4, [Fill] + [], s);
    OneStepMore(setup, s2, Handshake, s3, [Lock(c1)] + ([Fill] + []), s);
    OneStepMore(setup, s1, Fill, s2, [Handshake] + ([Lock(c1)] + ([Fill] + [])), s);
    steps := [Lock(c0)] + ([Fill] + ([Handshake] + ([Lock(c1)] + ([Fill] + []))));
    OneStepMore(setup, s0, Lock(c0), s1, [Fill] + ([Handshake] + ([Lock(c1)] + ([Fill] + []))), s);
  }

  lemma FirstAndRest(a: seq<Step>, b: seq<Step>)
    requires a != []
    ensures a + b == [a[0]] + (a[1..] + b)
  {
  }

  lemma {:induction false} ExecOn<W(!new)>(setup: Setup<W>, s: State<W>, a: seq<Step>, t: State<W>, b: seq<Step>, u: State<W>)
    requires Exec(setup, s, a) == Some(t) && Exec(setup, t, b) == Some(u)
    ensures Exec(setup, s, a + b) == Some(u)
    decreases |a|
  {
    if a == [] {
      assert a + b == b;
    } else {
      var v := Apply(setup, s, a[0]).value;
      ExecOn(setup, v, a[1..], t, b, u);
      FirstAndRest(a, b);
      OneStepMore(setup, s, a[0], v, a[1..] + b, u);
    }
  }

  /** The message that then goes out asks for the second call in place of the first. */
  lemma OvertakenIsSent<W(!new)>(setup: Setup<W>, w0: W, c0: Call, c1: Call) returns (steps: seq<Step>, s: State<W>)
    requires |setup.local| <= 256 && setup.Serialises(c0) && setup.Serialises(c1) && setup.allows(c0, c1)
    ensures Exec(setup, Init(setup, w0), steps) == Some(s)
    ensures s.issued == [c0, c1] && s.sent == [setup.FrameOf(c1)] && s.client.callbacks == []
  {
    var before, t := Overtaken(setup, w0, c0, c1);
    FrameStartsWithId(c1.proc, setup.Request(c1));
    var u := t.(flow := Sending, outbox := setup.FrameOf(c1));
    FrameGoesOut(setup, u, c1);
    s := Apply(setup, u, Send).value;
    OneStepMore(setup, u, Send, s, [], s);
    OneStepMore(setup, t, Copy, u, [Send] + [], s);
    ExecOn(setup, Init(setup, w0), before, t, [Copy] + ([Send] + []), s);
    steps := before + ([Copy] + ([Send] + []));
  }

  /**
   Exactly when requests and replies meet: they do in every state of every run if and only if the program prepares no
   call that asks for something else while another is unanswered.
   */
  lemma PatienceIsExact<W(!new)>(setup: Setup<W>, w0: W)
    requires setup.WellFormed()
    ensures setup.NeverOvertakes()
       <==> forall steps, s :: Exec(setup, Init(setup, w0), steps) == Some(s) ==> Meets(setup, w0, s)
  {
    if setup.NeverOvertakes() {
      forall steps, s | Exec(setup, Init(setup, w0), steps) == Some(s)
        ensures Meets(setup, w0, s)
      {
        RepliesMeetRequests(setup, w0, steps, s);
      }
    } else {
      var a, b :| setup.Serialises(a) && setup.Serialises(b) && setup.allows(a, b) && setup.FrameOf(a) != setup.FrameOf(b);
      var steps, s := OvertakenIsSent(setup, w0, a, b);
      assert s.sent[0] == setup.FrameOf(b) && s.issued[0] == a;
      assert !Meets(setup, w0, s);
    }
  }

  // ---- what becomes of an overtaken call ----

  /** The steps of the flows do not look at the history of calls. */
  lemma {:induction false} HistoryIsIdle<W(!new)>(setup: Setup<W>, s: State<W>, steps: seq<Step>, t: State<W>, issued: seq<Call>)
    requires Exec(setup, s, steps) == Some(t) && FlowSteps(steps)
    ensures Exec(setup, s.(issued := issued), steps) == Some(t.(issued := issued))
    decreases |steps|
  {
    if steps != [] {
      var u := Apply(setup, s, steps[0]).value;
      OneIsIdle(setup, s, steps[0], u, issued);
      HistoryIsIdle(setup, u, steps[1..], t, issued);
    }
  }

  lemma OneIsIdle<W(!new)>(setup: Setup<W>, s: State<W>, step: Step, t: State<W>, issued: seq<Call>)
    requires Apply(setup, s, step) == Some(t) && FlowStep(step)
    ensures Apply(setup, s.(issued := issued), step) == Some(t.(issued := issued))
  {
  }

  /** The state of an overtaken call is, but for its history, that of a call made twice. */
  lemma TwinInv<W(!new)>(setup: Setup<W>, w0: W, c: Call, s: State<W>)
    requires setup.Serialises(c) && CommandIs(setup, s.client.command, s.client.lastRemoteProc, c)
    requires s == Init(setup, w0).(client := s.client, call := s.call, issued := [c, c], caller := Offering, flow := Copying)
    requires s.client == FRESH_GO_CLIENT.(command := s.client.command, lastRemoteProc := s.client.lastRemoteProc)
    ensures Inv(setup, w0, s) && PlaceOf(s) == Taken && World(setup, w0, s.issued, s.client.callbacks) == w0
  {
    assert Answers([]) == [] && [c, c][..0] == [];
  }

  /** The server answers the call, and then answers it again. */
  ghost predicate AnswersTwice<W(!new)>(setup: Setup<W>, w0: W, c: Call)
    requires setup.Serialises(c)
  {
    && !Refuses(setup.service, w0, c.proc, Seen(setup, c))
    && !Refuses(setup.service, setup.service.called(w0, c.proc, Seen(setup, c)).0, c.proc, Seen(setup, c))
  }

  lemma FirstAnswer<W(!new)>(setup: Setup<W>, w0: W, c: Call, s: State<W>) returns (steps: seq<Step>, t: State<W>)
    requires setup.WellFormed() && setup.Serialises(c) && AnswersTwice(setup, w0, c) && !s.locked && s.chunk == []
    requires Inv(setup, w0, s) && PlaceOf(s) == Taken && World(setup, w0, s.issued, s.client.callbacks) == w0
    requires s.issued == [c, c] && s.client.callbacks == []
    ensures Exec(setup, s, steps) == Some(t) && FlowSteps(steps) && JustAnswered(setup, w0, [c, c], s.caller, 0, t)
  {
    steps, t := CallCanBeAnswered(setup, w0, s);
  }

  lemma WorldAfterOne<W(!new)>(setup: Setup<W>, w0: W, c: Call, callbacks: seq<Callback>)
    requires setup.Serialises(c) && AnsweredDirectly(setup, w0, [c, c], callbacks) && |callbacks| == 1
    ensures World(setup, w0, [c, c], callbacks) == setup.service.called(w0, c.proc, Seen(setup, c)).0
  {
    assert [c, c][..1] == [c] && [c][..0] == [];
    assert DirectRun(setup, w0, []) == (w0, []);
  }

  lemma SecondAnswer<W(!new)>(setup: Setup<W>, w0: W, c: Call, s: State<W>) returns (steps: seq<Step>, t: State<W>)
    requires setup.WellFormed() && setup.Serialises(c) && AnswersTwice(setup, w0, c)
    requires JustAnswered(setup, w0, [c, c], Offering, 0, s)
    ensures Exec(setup, s, steps) == Some(t) && FlowSteps(steps) && JustAnswered(setup, w0, [c, c], Outside, 1, t)
  {
    var u := s.(caller := Outside, flow := Copying);
    HandshakeStep(setup, w0, s, u);
    WorldAfterOne(setup, w0, c, s.client.callbacks);
    var more;
    more, t := CallCanBeAnswered(setup, w0, u);
    steps := [Handshake] + more;
    OneStepMore(setup, s, Handshake, u, more, t);
  }

  lemma AnsweredTwice<W(!new)>(setup: Setup<W>, w0: W, c: Call, s: State<W>) returns (steps: seq<Step>, t: State<W>)
    requires setup.WellFormed() && setup.Serialises(c) && AnswersTwice(setup, w0, c) && !s.locked && s.chunk == []
    requires Inv(setup, w0, s) && PlaceOf(s) == Taken && World(setup, w0, s.issued, s.client.callbacks) == w0
    requires s.issued == [c, c] && s.client.callbacks == [] && s.caller.Offering?
    ensures Exec(setup, s, steps) == Some(t) && FlowSteps(steps) && JustAnswered(setup, w0, [c, c], Outside, 1, t)
  {
    var one, u := FirstAnswer(setup, w0, c, s);
    var two;
    two, t := SecondAnswer(setup, w0, c, u);
    ExecOn(setup, s, one, u, two, t);
    steps := one + two;
  }

  /**
   What becomes of it: wherever the server answers the second call, and answers it again, there is a run in which both
   calls return, the second one is run twice and the first one never, and both callbacks are those of the second call.
   */
  lemma OvertakingCallRunsTwice<W(!new)>(setup: Setup<W>, w0: W, c0: Call, c1: Call) returns (steps: seq<Step>, s: State<W>)
    requires setup.WellFormed() && setup.Serialises(c0) && setup.Serialises(c1) && setup.allows(c0, c1)
    requires AnswersTwice(setup, w0, c1)
    ensures Exec(setup, Init(setup, w0), steps) == Some(s) && s.caller.Outside? && s.issued == [c0, c1]
    ensures s.sent == [setup.FrameOf(c1), setup.FrameOf(c1)]
    ensures DirectRun(setup, w0, [c1, c1]) == (s.server.flow.st.world, Answers(s.client.callbacks)) && |s.client.callbacks| == 2
  {
    var before, actual := Overtaken(setup, w0, c0, c1);
    var twin := actual.(issued := [c1, c1]);
    TwinInv(setup, w0, c1, twin);
    var path, u := AnsweredTwice(setup, w0, c1, twin);
    HistoryIsIdle(setup, twin, path, u, [c0, c1]);
    s := u.(issued := [c0, c1]);
    assert twin.(issued := [c0, c1]) == actual;
    steps := before + path;
    ExecOn(setup, Init(setup, w0), before, actual, path, s);
    TwiceAnswered(setup, w0, c1, u);
  }

  lemma TwiceAnswered<W(!new)>(setup: Setup<W>, w0: W, c: Call, u: State<W>)
    requires setup.Serialises(c) && JustAnswered(setup, w0, [c, c], Outside, 1, u)
    ensures u.sent == [setup.FrameOf(c), setup.FrameOf(c)]
    ensures DirectRun(setup, w0, [c, c]) == (u.server.flow.st.world, Answers(u.client.callbacks))
  {
    assert [c, c][..2] == [c, c];
  }

  /** So a call of one procedure can be answered to another procedure's callback. */
  lemma WrongCallback<W(!new)>(setup: Setup<W>, w0: W, c0: Call, c1: Call) returns (steps: seq<Step>, s: State<W>)
    requires setup.WellFormed() && setup.Serialises(c0) && setup.Serialises(c1) && setup.allows(c0, c1)
    requires AnswersTwice(setup, w0, c1) && c0.proc != c1.proc
    ensures Exec(setup, Init(setup, w0), steps) == Some(s) && s.issued == [c0, c1]
    ensures |s.client.callbacks| == 2 && s.client.callbacks[0].proc == c1.proc
    ensures !AnsweredDirectly(setup, w0, s.issued, s.client.callbacks)
  {
    steps, s := OvertakingCallRunsTwice(setup, w0, c0, c1);
    assert [c1, c1][..1] == [c1] && [c1][..0] == [];
    assert DirectRun(setup, w0, [c1, c1]).1[0] == Answers(s.client.callbacks)[0];
    FirstOfTwo(setup, w0, c0, c1);
    FirstOfTwo(setup, w0, c1, c1);
    assert s.issued[..2] == [c0, c1];
  }

  lemma FirstOfTwo<W(!new)>(setup: Setup<W>, w0: W, a: Call, b: Call)
    requires setup.Serialises(a) && setup.Serialises(b)
    ensures var r := DirectRun(setup, w0, [a, b]).1;
      |r| == 2 && r[0] == Direct(setup, w0, a).1 && (r[0].Some? ==> r[0].value.proc == a.proc)
  {
    assert [a, b][..1] == [a] && [a][..0] == [];
    assert DirectRun(setup, w0, []) == (w0, []);
    assert DirectRun(setup, w0, [a]).1 == [] + [Direct(setup, w0, a).1];
  }
}
