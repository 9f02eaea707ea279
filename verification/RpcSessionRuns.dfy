/** Calls that return: from which states some run brings the call in flight back, and with what. */
module RpcSessionRuns {
  import opened Bytes
  import opened Frames
  import opened RpcServing
  import opened RpcSession
  import opened RpcSessionLaws

  /** The call in flight has not been lost, and no thread will refuse it: `w` is the world before it. */
  ghost predicate WillReturn<W(!new)>(setup: Setup<W>, w: W, s: State<W>) {
    && PlaceOf(s) != Lost && Outstanding(setup, s) && (PlaceOf(s) == Marked ==> |s.client.args| <= LENGTH_SPAN)
    && !Refuses(setup.service, w, s.call.id, Seen(setup, s.call))
  }

  // ---- nearer to the return ----

  function Rank(p: Place): nat {
    match p case Marked => 5 case Prepared => 4 case AtServer => 3 case AtClient => 2 case Ready => 1 case _ => 0
  }

  function BytesLeft<W(!new)>(s: State<W>): nat {
    if PlaceOf(s) == AtServer then 2 * |s.server.channel| + |s.server.chunk| else 2 * |s.toClient| + |s.chunk|
  }

  /** Whether a wait that is over has still to end. */
  function Waits<W(!new)>(s: State<W>): nat {
    if (PlaceOf(s) == Marked && s.flow.AwaitSend?) || (PlaceOf(s) == Ready && s.caller.Awaiting?) then 1 else 0
  }

  /** The step that takes the call in flight on. */
  function NextStep<W(!new)>(s: State<W>): Step {
    match PlaceOf(s)
    case Marked => if s.flow.AwaitSend? then FlowWake else Build
    case Prepared => Send
    case AtServer => if s.server.chunk == [] then ServerRead(|s.server.channel|) else ServerTransfer
    case AtClient => if s.chunk == [] then ClientRead(|s.toClient|) else ClientTransfer
    case _ => if s.caller.Awaiting? then Wake else CollectReply
  }

  predicate Nearer<W(!new)>(s: State<W>, s': State<W>) {
    && 0 < Rank(PlaceOf(s'))
    && (Rank(PlaceOf(s')) < Rank(PlaceOf(s)) || (PlaceOf(s') == PlaceOf(s) &&
        (BytesLeft(s') < BytesLeft(s) || (BytesLeft(s') == BytesLeft(s) && Waits(s') < Waits(s)))))
  }

  /** A step that brings the call in flight nearer to its return. */
  ghost predicate Advances<W(!new)>(setup: Setup<W>, w: W, s: State<W>, s': State<W>) {
    && Apply(setup, s, NextStep(s)) == Some(s') && Nearer(s, s')
    && At(setup, s', w, PlaceOf(s')) && s'.log == s.log && s'.call == s.call
  }

  lemma AdvanceMarked<W(!new)>(setup: Setup<W>, w: W, s: State<W>) returns (s': State<W>)
    requires setup.WellFormed() && At(setup, s, w, Marked) && PlaceOf(s) == Marked && |s.client.args| <= LENGTH_SPAN
    ensures Advances(setup, w, s, s')
  {
    s' := Apply(setup, s, NextStep(s)).value;
    if s.flow.AwaitSend? {
      WaitingAt(setup, w, s, FlowWake, s');
    } else {
      BuildAt(setup, w, s, s');
    }
  }

  lemma AdvancePrepared<W(!new)>(setup: Setup<W>, w: W, s: State<W>) returns (s': State<W>)
    requires setup.WellFormed() && At(setup, s, w, Prepared) && PlaceOf(s) == Prepared
    ensures Advances(setup, w, s, s')
  {
    s' := Apply(setup, s, Send).value;
    SendAt(setup, w, s, s');
  }

  lemma AdvanceServerRead<W(!new)>(setup: Setup<W>, w: W, s: State<W>) returns (s': State<W>)
    requires At(setup, s, w, AtServer) && PlaceOf(s) == AtServer && s.server.chunk == []
    ensures Advances(setup, w, s, s')
  {
    assert s.server.flow.partial + [] + [] == s.server.flow.partial;
    s' := Apply(setup, s, NextStep(s)).value;
    ReadAt(setup, w, s, NextStep(s), s');
  }

  lemma AdvanceServerPass<W(!new)>(setup: Setup<W>, w: W, s: State<W>) returns (s': State<W>)
    requires setup.WellFormed() && At(setup, s, w, AtServer) && PlaceOf(s) == AtServer && s.server.chunk != []
    requires !Refuses(setup.service, w, s.call.id, Seen(setup, s.call))
    ensures Advances(setup, w, s, s')
  {
    var end, reply := PassOnCall(setup, s);
    s' := s.(server := end, toClient := s.toClient + reply);
    ServerMoves(setup, w, s, end, reply, s');
  }

  lemma AdvanceClientRead<W(!new)>(setup: Setup<W>, w: W, s: State<W>) returns (s': State<W>)
    requires At(setup, s, w, AtClient) && PlaceOf(s) == AtClient && s.chunk == []
    ensures Advances(setup, w, s, s')
  {
    BytesAreComing(setup, w, s);
    s' := s.(chunk := s.toClient[..|s.toClient|], toClient := s.toClient[|s.toClient|..]);
    ReadAt(setup, w, s, ClientRead(|s.toClient|), s');
  }

  lemma BytesAreComing<W(!new)>(setup: Setup<W>, w: W, s: State<W>)
    requires At(setup, s, w, AtClient) && s.chunk == []
    ensures s.toClient != []
  {
    assert s.partial + [] + [] == s.partial;
  }

  lemma PassIsNearer<W(!new)>(s: State<W>, s': State<W>)
    requires PlaceOf(s) == AtClient && (PlaceOf(s') == AtClient || PlaceOf(s') == Ready)
    requires |s'.chunk| < |s.chunk| && s'.toClient == s.toClient
    ensures Nearer(s, s')
  {
  }

  lemma AdvanceClientPass<W(!new)>(setup: Setup<W>, w: W, s: State<W>) returns (s': State<W>)
    requires At(setup, s, w, AtClient) && PlaceOf(s) == AtClient && s.chunk != []
    ensures Advances(setup, w, s, s')
  {
    s' := TransferReply(s);
    PassIsEnabled(setup, s);
    ReplyAt(setup, w, s, s');
    PassIsNearer(s, s');
  }

  lemma PassIsEnabled<W(!new)>(setup: Setup<W>, s: State<W>)
    requires s.flow.Reading? && s.chunk != []
    ensures Apply(setup, s, ClientTransfer) == Some(TransferReply(s))
  {
  }

  lemma AdvanceReady<W(!new)>(setup: Setup<W>, w: W, s: State<W>) returns (s': State<W>)
    requires At(setup, s, w, Ready) && PlaceOf(s) == Ready && s.caller.Awaiting?
    ensures Advances(setup, w, s, s')
  {
    s' := s.(caller := Collecting);
    WaitingAt(setup, w, s, Wake, s');
  }

  lemma Advance<W(!new)>(setup: Setup<W>, w: W, s: State<W>) returns (s': State<W>)
    requires setup.WellFormed() && At(setup, s, w, PlaceOf(s)) && WillReturn(setup, w, s)
    requires PlaceOf(s) != Idle && !(PlaceOf(s) == Ready && s.caller.Collecting?)
    ensures Advances(setup, w, s, s')
  {
    match PlaceOf(s)
    case Marked => s' := AdvanceMarked(setup, w, s);
    case Prepared => s' := AdvancePrepared(setup, w, s);
    case AtServer =>
      if s.server.chunk == [] {
        s' := AdvanceServerRead(setup, w, s);
      } else {
        s' := AdvanceServerPass(setup, w, s);
      }
    case AtClient =>
      if s.chunk == [] {
        s' := AdvanceClientRead(setup, w, s);
      } else {
        s' := AdvanceClientPass(setup, w, s);
      }
    case _ => s' := AdvanceReady(setup, w, s);
  }

  /** One step further the call can still return. */
  lemma StillReturns<W(!new)>(setup: Setup<W>, w: W, s: State<W>, s': State<W>)
    requires WillReturn(setup, w, s) && Advances(setup, w, s, s')
    ensures WillReturn(setup, w, s')
  {
  }

  /** In this state the call in flight has just returned what a direct call returns. */
  ghost predicate JustReturned<W(!new)>(setup: Setup<W>, w: W, s: State<W>, t: State<W>)
    requires setup.Proper(s.call)
  {
    && PlaceOf(t) == Idle && t.caller.Outside? && Direct(setup, w, s.call).1.Some?
    && t.log == s.log + [Returned(s.call, Direct(setup, w, s.call).1)]
  }

  lemma OneStepMore<W(!new)>(setup: Setup<W>, s: State<W>, step: Step, u: State<W>, more: seq<Step>, t: State<W>)
    requires Apply(setup, s, step) == Some(u) && Exec(setup, u, more) == Some(t)
    ensures Exec(setup, s, [step] + more) == Some(t)
  {
    assert ([step] + more)[1..] == more;
  }

  lemma LastStep<W(!new)>(setup: Setup<W>, w: W, s: State<W>) returns (t: State<W>)
    requires setup.WellFormed() && At(setup, s, w, Ready) && PlaceOf(s) == Ready && s.caller.Collecting?
    ensures Exec(setup, s, [CollectReply]) == Some(t) && JustReturned(setup, w, s, t)
  {
    t := Apply(setup, s, CollectReply).value;
    CollectAt(setup, w, s, t);
    OneStepMore(setup, s, CollectReply, t, [], t);
  }

  lemma {:induction false} ReturnsFrom<W(!new)>(setup: Setup<W>, w: W, s: State<W>) returns (steps: seq<Step>, t: State<W>)
    requires setup.WellFormed() && At(setup, s, w, PlaceOf(s)) && PlaceOf(s) != Idle && WillReturn(setup, w, s)
    ensures Exec(setup, s, steps) == Some(t) && JustReturned(setup, w, s, t)
    decreases Rank(PlaceOf(s)), BytesLeft(s), Waits(s)
  {
    if PlaceOf(s) == Ready && s.caller.Collecting? {
      steps := [CollectReply];
      t := LastStep(setup, w, s);
    } else {
      var u := Advance(setup, w, s);
      StillReturns(setup, w, s, u);
      var more;
      more, t := ReturnsFrom(setup, w, u);
      steps := [NextStep(s)] + more;
      OneStepMore(setup, s, NextStep(s), u, more, t);
    }
  }

  // ---- a call that does not return ----

  /** The call has been lost, or is going to be. */
  ghost predicate Doomed<W(!new)>(setup: Setup<W>, w: W, s: State<W>) {
    At(setup, s, w, PlaceOf(s)) && PlaceOf(s) != Idle && !WillReturn(setup, w, s)
  }

  lemma DoomedHasNotReturned<W(!new)>(setup: Setup<W>, w: W, s: State<W>)
    requires Doomed(setup, w, s)
    ensures PlaceOf(s) != AtClient && PlaceOf(s) != Ready
  {
  }

  lemma DoomedWaits<W(!new)>(setup: Setup<W>, w: W, s: State<W>, step: Step, s': State<W>)
    requires setup.WellFormed() && Doomed(setup, w, s) && PlaceOf(s) != Lost && Apply(setup, s, step) == Some(s')
    requires CallerStep(step) || step.FlowWake?
    ensures Doomed(setup, w, s') && s'.log == s.log
  {
    DoomedHasNotReturned(setup, w, s);
    if step.FlowWake? {
      WaitingAt(setup, w, s, step, s');
    }
  }

  lemma DoomedSends<W(!new)>(setup: Setup<W>, w: W, s: State<W>, step: Step, s': State<W>)
    requires setup.WellFormed() && Doomed(setup, w, s) && PlaceOf(s) != Lost && Apply(setup, s, step) == Some(s')
    requires step.Build? || step.Send?
    ensures Doomed(setup, w, s') && s'.log == s.log
  {
    if step.Build? {
      BuildAt(setup, w, s, s');
    } else {
      SendAt(setup, w, s, s');
    }
  }

  lemma DoomedIsServed<W(!new)>(setup: Setup<W>, w: W, s: State<W>, step: Step, s': State<W>)
    requires setup.WellFormed() && Doomed(setup, w, s) && PlaceOf(s) != Lost && Apply(setup, s, step) == Some(s')
    requires step.ClientRead? || step.ServerRead? || step.ClientTransfer? || step.ServerTransfer?
    ensures Doomed(setup, w, s') && s'.log == s.log
  {
    DoomedHasNotReturned(setup, w, s);
    BytesShowThePlace(setup, w, s);
    match step
    case ClientRead(_) | ServerRead(_) => ReadAt(setup, w, s, step, s');
    case ServerTransfer => ServerPassAt(setup, w, s, s');
    case _ =>
  }

  lemma DoomedStep<W(!new)>(setup: Setup<W>, w: W, s: State<W>, step: Step, s': State<W>)
    requires setup.WellFormed() && Doomed(setup, w, s) && Apply(setup, s, step) == Some(s')
    ensures Doomed(setup, w, s') && s'.log == s.log
  {
    if PlaceOf(s) == Lost {
      LostIsTheEnd(setup, w, s, step);
    } else if CallerStep(step) || step.FlowWake? {
      DoomedWaits(setup, w, s, step, s');
    } else if step.Build? || step.Send? {
      DoomedSends(setup, w, s, step, s');
    } else {
      DoomedIsServed(setup, w, s, step, s');
    }
  }

  lemma {:induction false} NeverReturns<W(!new)>(setup: Setup<W>, w: W, s: State<W>, steps: seq<Step>, t: State<W>)
    requires setup.WellFormed() && Doomed(setup, w, s) && Exec(setup, s, steps) == Some(t)
    ensures t.log == s.log
    decreases |steps|
  {
    if steps != [] {
      var u := Apply(setup, s, steps[0]).value;
      DoomedStep(setup, w, s, steps[0], u);
      NeverReturns(setup, w, u, steps[1..], t);
    }
  }

  /**
   Exactly which calls return: from any state of a run with a call in flight there is a run in which it returns if and
   only if it is not lost, its arguments take no more than 2^24 bytes, and the server does not refuse it.
   */
  lemma ReturnsExactly<W(!new)>(setup: Setup<W>, w0: W, s: State<W>)
    requires setup.WellFormed() && Inv(setup, w0, s) && PlaceOf(s) != Idle
    ensures (exists steps, t :: Exec(setup, s, steps) == Some(t) && |t.log| > |s.log|)
       <==> WillReturn(setup, WorldAfter(setup, w0, s.log), s)
  {
    var w := WorldAfter(setup, w0, s.log);
    if WillReturn(setup, w, s) {
      var steps, t := ReturnsFrom(setup, w, s);
    } else {
      forall steps, t | Exec(setup, s, steps) == Some(t)
        ensures t.log == s.log
      {
        NeverReturns(setup, w, s, steps, t);
      }
    }
  }

  /** And then it can return at once what a direct call returns. */
  lemma CallCanReturn<W(!new)>(setup: Setup<W>, w0: W, s: State<W>) returns (steps: seq<Step>, t: State<W>)
    requires setup.WellFormed() && Inv(setup, w0, s) && PlaceOf(s) != Idle && WillReturn(setup, WorldAfter(setup, w0, s.log), s)
    ensures Exec(setup, s, steps) == Some(t) && JustReturned(setup, WorldAfter(setup, w0, s.log), s, t)
  {
    steps, t := ReturnsFrom(setup, WorldAfter(setup, w0, s.log), s);
  }
}
