/**
 A publisher and a subscriber joined by a byte channel, as a labelled step system: publish, the publisher's flow
 thread and the subscriber's flow thread interleave freely, and a read returns any nonempty prefix of what is in
 the channel.
 */
module PublishSession {
  import opened Bytes
  import opened Codec
  import opened CodecLaws
  import opened Frames
  import opened MessageManager
  import opened EncodeInPlace
  import opened DataPublisher
  import opened DataSubscriber

  /** The two ends' signatures, their converter, and the publisher's grouping switch. */
  datatype Setup = Setup(conv: Converter, sent: string, received: string, grouping: bool)
  {
    /**
     Values a program may publish: if the encoder takes them, they arrive as they are and do not fill exactly 2^24
     bytes; and the encoder overruns nothing, nor does its offset overflow.
     */
    predicate Publishable(data: seq<Value>) {
      if |data| != |sent| then true
      else if |data| != |received| then false
      else
        match Encode(Cpp, conv, sent, data)
        case Ok(b) => |b| <= MAX_OFFSET && |b| != LENGTH_SPAN && AllDeliver(Cpp, conv, received, data)
        case Err(f) => f != Overrun && EncodeFrom(conv, 0, sent, data) == Err(f)
    }

    predicate Accepted(data: seq<Value>) {
      |data| == |sent| && Encode(Cpp, conv, sent, data).Ok? && Publishable(data)
    }
  }

  /**
   `first` holds until a message has gone to the connection. `published` and `received` are histories: the values
   accepted by publish, and the bytes the subscriber has taken in. `popped` counts the values whose frames have left
   the queue for a message that was built and not dropped.
   */
  datatype State = State(
    queue: seq<seq<byte>>, outbox: Option<seq<byte>>, first: bool, halted: bool, channel: seq<byte>,
    subscriber: Flow<Subscriber>, chunk: seq<byte>,
    published: seq<seq<Value>>, popped: nat, received: seq<byte>)

  datatype Step =
    | Publish(data: seq<Value>)   // publish is called
    | Write(n: nat, ok: bool)     // writeMessage takes a batch from a nonempty queue, or fails on a body too long
    | Send                        // the message goes to the connection, or is the first one and dropped as too long
    | Read(n: nat)
    | TransferData

  function Init(setup: Setup): State {
    State([], None, true, false, [], Start(SubscriberParser(setup.conv, setup.received), FRESH_SUBSCRIBER), [], [], 0, [])
  }

  /** dataFlow looks at the size of the first message only. */
  predicate Drops(s: State) {
    s.first && s.outbox.Some? && |s.outbox.value| > MAX_MESSAGE
  }

  function Published(setup: Setup, s: State, data: seq<Value>): State {
    if |data| != |setup.sent| then s else
      match Encode(Cpp, setup.conv, setup.sent, data)
      case Ok(b) => s.(queue := s.queue + [b], published := s.published + [data])
      case Err(_) => s
  }

  /** A pass of the subscriber's inner loop. */
  function Pass(setup: Setup, s: State): State
    requires s.chunk != []
  {
    var (f, rest, out) := Transfer(SubscriberParser(setup.conv, setup.received), CppTooLarge, s.subscriber, s.chunk);
    s.(subscriber := f, chunk := rest, received := s.received + s.chunk[..|s.chunk| - |rest|])
  }

  function Apply(setup: Setup, s: State, step: Step): Option<State> {
    match step
    case Publish(data) => if setup.Publishable(data) then Some(Published(setup, s, data)) else None
    case Write(n, ok) =>
      if s.halted || s.outbox.Some? || s.queue == [] || !IsBatch(s.queue, setup.grouping, n, ok) then None
      else if !ok then Some(s.(queue := s.queue[n + 1..], halted := true))
      else Some(s.(queue := s.queue[n..], outbox := Some(Framed(s.queue[..n])), popped := s.popped + n))
    case Send =>
      if s.outbox.None? then None
      else if Drops(s) then Some(s.(outbox := None, halted := true, popped := 0))
      else Some(s.(outbox := None, first := false, channel := s.channel + s.outbox.value))
    case Read(n) =>
      if !s.subscriber.stopped && s.chunk == [] && 0 < n <= |s.channel|
      then Some(s.(chunk := s.channel[..n], channel := s.channel[n..])) else None
    case TransferData =>
      if s.subscriber.stopped || s.chunk == [] then None else Some(Pass(setup, s))
  }

  // ---- the invariant ----

  ghost predicate AllAccepted(setup: Setup, published: seq<seq<Value>>) {
    forall k :: 0 <= k < |published| ==> setup.Accepted(published[k])
  }

  ghost function Bodies(setup: Setup, published: seq<seq<Value>>): (r: seq<seq<byte>>)
    requires AllAccepted(setup, published)
    ensures |r| == |published|
  {
    seq(|published|, k requires 0 <= k < |published| => Encode(Cpp, setup.conv, setup.sent, published[k]).value)
  }

  /** The published values as the subscriber is meant to see them. */
  ghost function Seen(setup: Setup, published: seq<seq<Value>>): (r: seq<seq<Value>>)
    requires AllAccepted(setup, published) && |setup.sent| == |setup.received|
    ensures |r| == |published|
  {
    seq(|published|, k requires 0 <= k < |published| => Images(Cpp, setup.conv, setup.received, published[k]))
  }

  /** Bytes that have left the queue and have not been taken in. */
  function InFlight(s: State): seq<byte> {
    s.chunk + s.channel + (match s.outbox case Some(m) => m case None => [])
  }

  /** `bodies` are the encodings of everything published: those popped have come in or are on their way. */
  ghost predicate QueueIs(bodies: seq<seq<byte>>, s: State) {
    && s.popped <= |bodies| && (!s.halted ==> s.queue == bodies[s.popped..])
    && (forall k :: 0 <= k < |bodies| ==> |bodies[k]| != LENGTH_SPAN)
    && (forall k :: 0 <= k < s.popped ==> |bodies[k]| < LENGTH_SPAN)
    && s.received + InFlight(s) == Framed(bodies[..s.popped])
    && s.outbox != Some([])
    && (s.first ==> s.received == s.chunk == s.channel == [])
  }

  /** The subscriber is where the received bytes lead. */
  ghost predicate CaughtUp(setup: Setup, s: State) {
    var p := SubscriberParser(setup.conv, setup.received);
    var r := Stream(p, CppTooLarge, FRESH_SUBSCRIBER, s.received);
    Follows(p, CppTooLarge, FRESH_SUBSCRIBER, s.received, r.sections, r.sent, s.subscriber)
    && (!s.subscriber.stopped ==> Midway(p, s.subscriber))
  }

  ghost predicate Inv(setup: Setup, s: State) {
    && AllAccepted(setup, s.published) && QueueIs(Bodies(setup, s.published), s) && CaughtUp(setup, s)
    && (!setup.grouping && s.outbox.Some? ==> |s.outbox.value| <= MAX_MESSAGE)
  }

  lemma PublishKeepsQueue(bodies: seq<seq<byte>>, b: seq<byte>, s: State, s': State)
    requires QueueIs(bodies, s) && |b| != LENGTH_SPAN
    requires s' == s.(queue := s.queue + [b], published := s'.published)
    ensures QueueIs(bodies + [b], s')
  {
    var after := bodies + [b];
    assert after[..s.popped] == bodies[..s.popped];
    assert after[s.popped..] == bodies[s.popped..] + [b];
    assert InFlight(s') == InFlight(s);
  }

  lemma PublishStep(setup: Setup, s: State, data: seq<Value>, s': State)
    requires Inv(setup, s) && Apply(setup, s, Publish(data)) == Some(s')
    ensures Inv(setup, s')
  {
    if s' != s {
      var bodies := Bodies(setup, s.published);
      var b := Encode(Cpp, setup.conv, setup.sent, data).value;
      assert Bodies(setup, s'.published) == bodies + [b];
      PublishKeepsQueue(bodies, b, s, s');
    }
  }

  lemma WriteKeepsQueue(bodies: seq<seq<byte>>, grouping: bool, s: State, n: nat, s': State)
    requires QueueIs(bodies, s) && !s.halted && s.outbox.None? && IsBatch(s.queue, grouping, n, true)
    requires s' == s.(queue := s.queue[n..], outbox := Some(Framed(s.queue[..n])), popped := s.popped + n)
    ensures QueueIs(bodies, s')
  {
    assert s.queue[..n] == bodies[s.popped..][..n];
    assert bodies[..s.popped + n] == bodies[..s.popped] + s.queue[..n];
    FramedAppend(bodies[..s.popped], s.queue[..n]);
    assert InFlight(s') == InFlight(s) + Framed(s.queue[..n]);
    Assoc(s.received, InFlight(s), Framed(s.queue[..n]));
    assert Framed(s.queue[..n]) != [] by { FramedGrows(s.queue, 1, n); }
    forall k | 0 <= k < s.popped + n
      ensures |bodies[k]| < LENGTH_SPAN
    {
      if k >= s.popped {
        assert bodies[k] == s.queue[k - s.popped];
      }
    }
  }

  /** A body without grouping. */
  lemma BatchFits(queue: seq<seq<byte>>, grouping: bool, n: nat)
    requires IsBatch(queue, grouping, n, true)
    ensures !grouping ==> |Framed(queue[..n])| <= MAX_MESSAGE
  {
    if !grouping {
      FramedLast(queue, 0);
    }
  }

  lemma WriteStep(setup: Setup, s: State, n: nat, ok: bool, s': State)
    requires Inv(setup, s) && Apply(setup, s, Write(n, ok)) == Some(s')
    ensures Inv(setup, s')
  {
    if ok {
      WriteKeepsQueue(Bodies(setup, s.published), setup.grouping, s, n, s');
      BatchFits(s.queue, setup.grouping, n);
    }
  }

  /** Reading, sending and taking in move bytes along and change nothing else the queue's invariant speaks of. */
  lemma MovingKeepsQueue(bodies: seq<seq<byte>>, s: State, s': State)
    requires QueueIs(bodies, s) && s'.received + InFlight(s') == s.received + InFlight(s)
    requires s'.popped == s.popped && s'.queue == s.queue && s'.halted == s.halted
    requires s'.outbox == s.outbox || s'.outbox.None?
    requires s'.first ==> s.first && s'.received == s'.chunk == s'.channel == []
    ensures QueueIs(bodies, s')
  {
  }

  lemma MovingKeepsFlight(setup: Setup, s: State, step: Step, s': State)
    requires Apply(setup, s, step) == Some(s') && ((step.Send? && !Drops(s)) || step.Read?)
    ensures InFlight(s') == InFlight(s)
  {
    if step.Read? {
      assert s.channel == s.channel[..step.n] + s.channel[step.n..];
    } else {
      Assoc(s.chunk, s.channel, s.outbox.value);
      assert s.chunk + (s.channel + s.outbox.value) + [] == s.chunk + (s.channel + s.outbox.value);
    }
  }

  lemma ChannelStep(setup: Setup, s: State, step: Step, s': State)
    requires Inv(setup, s) && Apply(setup, s, step) == Some(s') && (step.Send? || step.Read?)
    ensures Inv(setup, s')
  {
    if step.Send? && Drops(s) {
      DropKeepsQueue(Bodies(setup, s.published), s, s');
    } else {
      MovingKeepsFlight(setup, s, step, s');
      MovingKeepsQueue(Bodies(setup, s.published), s, s');
    }
  }

  /** What was in a dropped message was all that had ever left the queue. */
  lemma DropKeepsQueue(bodies: seq<seq<byte>>, s: State, s': State)
    requires QueueIs(bodies, s) && Drops(s) && s' == s.(outbox := None, halted := true, popped := 0)
    ensures QueueIs(bodies, s') && s'.received + InFlight(s') == []
  {
    assert bodies[..0] == [];
  }

  /** A pass of the subscriber's loop takes bytes from the front of the chunk. */
  lemma TransferMoves(setup: Setup, s: State, s': State)
    requires Apply(setup, s, TransferData) == Some(s')
    ensures s' == s.(subscriber := s'.subscriber, chunk := s'.chunk, received := s'.received) && |s'.chunk| <= |s.chunk|
    ensures var taken := s.chunk[..|s.chunk| - |s'.chunk|];
      s.chunk == taken + s'.chunk && s'.received == s.received + taken
  {
    TransferTakes(SubscriberParser(setup.conv, setup.received), CppTooLarge, s.subscriber, s.chunk);
  }

  lemma TakingMovesBytes(received: seq<byte>, taken: seq<byte>, rest: seq<byte>, channel: seq<byte>, last: seq<byte>)
    ensures received + taken + (rest + channel + last) == received + (taken + rest + channel + last)
  {
    Assoc(taken, rest, channel);
    Assoc(taken, rest + channel, last);
    Assoc(received, taken, rest + channel + last);
  }

  lemma TransferStep(setup: Setup, s: State, s': State)
    requires Inv(setup, s) && Apply(setup, s, TransferData) == Some(s')
    ensures Inv(setup, s')
  {
    TransferMoves(setup, s, s');
    TransferKeepsUp(setup, s, s', s.chunk[..|s.chunk| - |s'.chunk|]);
    TakingMovesBytes(s.received, s.chunk[..|s.chunk| - |s'.chunk|], s'.chunk, s.channel,
                     match s.outbox case Some(m) => m case None => []);
    MovingKeepsQueue(Bodies(setup, s.published), s, s');
  }

  lemma TransferKeepsUp(setup: Setup, s: State, s': State, taken: seq<byte>)
    requires CaughtUp(setup, s) && Apply(setup, s, TransferData) == Some(s')
    requires s.chunk == taken + s'.chunk && s'.received == s.received + taken
    ensures CaughtUp(setup, s')
  {
    var p := SubscriberParser(setup.conv, setup.received);
    var (f, rest, out) := Transfer(p, CppTooLarge, s.subscriber, s.chunk);
    SubscriberIsSteady(setup.conv, setup.received);
    var r := Stream(p, CppTooLarge, FRESH_SUBSCRIBER, s.received);
    TransferAdvances(p, CppTooLarge, (t: Subscriber) => SubscriberInv(t), FRESH_SUBSCRIBER, s.received, r.sections, r.sent,
                     s.subscriber, s.chunk, f, rest, out, taken);
  }

  lemma StepPreserves(setup: Setup, s: State, step: Step, s': State)
    requires Inv(setup, s) && Apply(setup, s, step) == Some(s')
    ensures Inv(setup, s')
  {
    match step
    case Publish(data) => PublishStep(setup, s, data, s');
    case Write(n, ok) => WriteStep(setup, s, n, ok, s');
    case Send | Read(_) => ChannelStep(setup, s, step, s');
    case TransferData => TransferStep(setup, s, s');
  }

  ghost predicate Run(setup: Setup, states: seq<State>, steps: seq<Step>) {
    && |states| == |steps| + 1 && states[0] == Init(setup)
    && forall k :: 0 <= k < |steps| ==> Apply(setup, states[k], steps[k]) == Some(states[k + 1])
  }

  lemma {:induction false} RunInv(setup: Setup, states: seq<State>, steps: seq<Step>, k: nat)
    requires Run(setup, states, steps) && k < |states|
    ensures Inv(setup, states[k])
  {
    if k == 0 {
      assert Bodies(setup, []) == [];
    } else {
      RunInv(setup, states, steps, k - 1);
      StepPreserves(setup, states[k - 1], steps[k - 1], states[k]);
    }
  }

  /**
   Grouping changes messages, not the stream: as long as the publisher's flow runs, what has been taken in, what is
   on its way and what is queued are together the frames of everything published, grouping or not.
   */
  lemma StreamIsConserved(setup: Setup, states: seq<State>, steps: seq<Step>, k: nat)
    requires Run(setup, states, steps) && k < |states| && !states[k].halted
    ensures AllAccepted(setup, states[k].published)
    ensures states[k].received + InFlight(states[k]) + Framed(states[k].queue) == Framed(Bodies(setup, states[k].published))
  {
    RunInv(setup, states, steps, k);
    var s := states[k];
    var bodies := Bodies(setup, s.published);
    assert bodies == bodies[..s.popped] + s.queue;
    FramedAppend(bodies[..s.popped], s.queue);
  }

  lemma Decodes(setup: Setup, published: seq<seq<Value>>, n: nat)
    requires Compatible(setup.sent, setup.received) && AllAccepted(setup, published) && n <= |published|
    requires forall k :: 0 <= k < n ==> |Bodies(setup, published)[k]| < LENGTH_SPAN
    ensures Carries(setup.conv, setup.received, Bodies(setup, published)[..n], Seen(setup, published)[..n])
  {
    forall k | 0 <= k < n
      ensures Decode(Cpp, setup.conv, setup.received, Bodies(setup, published)[k]) == Decoded(Seen(setup, published)[k], [], None)
    {
      assert setup.Accepted(published[k]);
      EncodingDecodes(Cpp, Cpp, setup.conv, setup.sent, setup.received, published[k]);
    }
  }

  /**
   End to end: in every state of every run the callback has been given the first so many published values, in the
   order they were published, each once; and the count is that of the frames that have come in whole. The subscriber
   never stops.
   */
  lemma PublishedInOrder(setup: Setup, states: seq<State>, steps: seq<Step>, k: nat)
    requires Compatible(setup.sent, setup.received) && Run(setup, states, steps) && k < |states|
    ensures var s := states[k];
      && AllAccepted(setup, s.published) && !s.subscriber.stopped
      && s.subscriber.st.callbacks <= Seen(setup, s.published)
      && forall n :: 0 <= n <= |s.published| ==>
           (n <= |s.subscriber.st.callbacks| <==> |Framed(Bodies(setup, s.published)[..n])| <= |s.received|)
  {
    RunInv(setup, states, steps, k);
    var s := states[k];
    DeliveredFrom(setup, s);
  }

  lemma DeliveredFrom(setup: Setup, s: State)
    requires Compatible(setup.sent, setup.received) && Inv(setup, s)
    ensures !s.subscriber.stopped && s.subscriber.st.callbacks <= Seen(setup, s.published)
    ensures forall n :: 0 <= n <= |s.published| ==>
              (n <= |s.subscriber.st.callbacks| <==> |Framed(Bodies(setup, s.published)[..n])| <= |s.received|)
  {
    var bodies, seen := Bodies(setup, s.published), Seen(setup, s.published);
    Decodes(setup, s.published, s.popped);
    var m := Whole(bodies[..s.popped], |s.received|);
    DeliveredExactly(setup.conv, setup.received, FRESH_SUBSCRIBER, bodies[..s.popped], seen[..s.popped], s.received);
    assert s.subscriber.st.callbacks == seen[..m];
    forall n | 0 <= n <= |s.published|
      ensures n <= m <==> |Framed(bodies[..n])| <= |s.received|
    {
      WholeOfPopped(bodies, s, n);
    }
  }

  lemma WholeOfPopped(bodies: seq<seq<byte>>, s: State, n: nat)
    requires QueueIs(bodies, s) && n <= |bodies|
    ensures n <= Whole(bodies[..s.popped], |s.received|) <==> |Framed(bodies[..n])| <= |s.received|
  {
    if n <= s.popped {
      assert bodies[..s.popped][..n] == bodies[..n];
      WholeCounts(bodies[..s.popped], |s.received|, n);
    } else {
      FramedLast(bodies, s.popped);
      FramedGrows(bodies, s.popped + 1, n);
    }
  }

  /** When nothing is queued or on its way, everything published has been delivered. */
  lemma EverythingArrives(setup: Setup, states: seq<State>, steps: seq<Step>, k: nat)
    requires Compatible(setup.sent, setup.received) && Run(setup, states, steps) && k < |states|
    requires !states[k].halted && states[k].queue == [] && InFlight(states[k]) == []
    ensures AllAccepted(setup, states[k].published)
    ensures states[k].subscriber.st.callbacks == Seen(setup, states[k].published)
  {
    var s := states[k];
    PublishedInOrder(setup, states, steps, k);
    StreamIsConserved(setup, states, steps, k);
    var bodies := Bodies(setup, s.published);
    assert bodies[..|bodies|] == bodies && s.received + [] + [] == s.received;
  }

  /**
   What waitPublishComplete waits for is an empty queue. Everything published has then left the queue, but it has
   been handed to the connection just if no message is waiting between writeMessage and the write that follows it.
   */
  lemma EmptyQueueIsComplete(setup: Setup, states: seq<State>, steps: seq<Step>, k: nat)
    requires Run(setup, states, steps) && k < |states| && !states[k].halted && states[k].queue == []
    ensures var s := states[k];
      && AllAccepted(setup, s.published)
      && s.received + InFlight(s) == Framed(Bodies(setup, s.published))
      && (s.received + (s.chunk + s.channel) == Framed(Bodies(setup, s.published)) <==> s.outbox.None?)
  {
    RunInv(setup, states, steps, k);
    StreamIsConserved(setup, states, steps, k);
    var s := states[k];
    assert s.received + InFlight(s) + [] == s.received + InFlight(s);
    if s.outbox.None? {
      assert InFlight(s) == s.chunk + s.channel;
    } else {
      assert |s.received + InFlight(s)| > |s.received + (s.chunk + s.channel)|;
    }
  }

  // ---- when the publisher stops ----

  /** writeMessage comes upon a body of more than 2^24 bytes: the first one, or one that grouping lets it reach. */
  ghost predicate Chokes(queue: seq<seq<byte>>, grouping: bool) {
    exists n :: 0 <= n < |queue| && ChokesAt(queue, grouping, n)
  }

  predicate ChokesAt(queue: seq<seq<byte>>, grouping: bool, n: nat)
    requires n < |queue|
  {
    && |queue[n]| > LENGTH_SPAN && (forall k :: 0 <= k < n ==> |queue[k]| <= LENGTH_SPAN)
    && (n > 0 ==> grouping && |Framed(queue[..n])| < GROUP_SIZE)
  }

  lemma ChokingIsFailing(queue: seq<seq<byte>>, grouping: bool, n: nat, ok: bool)
    requires IsBatch(queue, grouping, n, ok)
    ensures !ok <==> Chokes(queue, grouping)
  {
    if !ok {
      assert ChokesAt(queue, grouping, n);
    } else if Chokes(queue, grouping) {
      var n' :| 0 <= n' < |queue| && ChokesAt(queue, grouping, n');
      if n' > 1 {
        FramedGrows(queue, n' - 1, n');
      }
      BatchIsUnique(queue, grouping, n, ok, n', false);
    }
  }

  /**
   A step stops the publisher's flow just if writeMessage comes upon a body that is too long, or the frames of the
   first batch exceed 2^24 + 4 bytes; and that takes grouping.
   */
  lemma WhenPublishingStops(setup: Setup, states: seq<State>, steps: seq<Step>, k: nat)
    requires Run(setup, states, steps) && k < |steps| && !states[k].halted
    ensures states[k + 1].halted <==>
            || (steps[k].Write? && Chokes(states[k].queue, setup.grouping))
            || (steps[k].Send? && setup.grouping && states[k].first && |states[k].outbox.value| > 16777220)
  {
    RunInv(setup, states, steps, k);
    assert Apply(setup, states[k], steps[k]) == Some(states[k + 1]);
    StepStops(setup, states[k], steps[k], states[k + 1]);
  }

  lemma StepStops(setup: Setup, s: State, step: Step, s': State)
    requires Inv(setup, s) && !s.halted && Apply(setup, s, step) == Some(s')
    ensures s'.halted <==>
            || (step.Write? && Chokes(s.queue, setup.grouping))
            || (step.Send? && setup.grouping && s.first && |s.outbox.value| > MAX_MESSAGE)
  {
    match step
    case Write(n, ok) => ChokingIsFailing(s.queue, setup.grouping, n, ok);
    case _ =>
  }

  predicate NothingSent(s: State) {
    s.halted && s.first && s.outbox.None? && s.received == s.chunk == s.channel == []
  }

  lemma NothingMore(setup: Setup, s: State, step: Step, s': State)
    requires NothingSent(s) && Apply(setup, s, step) == Some(s')
    ensures NothingSent(s')
  {
  }

  lemma DroppingSendsNothing(setup: Setup, s: State, s': State)
    requires Inv(setup, s) && Drops(s) && Apply(setup, s, Send) == Some(s')
    ensures NothingSent(s')
  {
  }

  lemma NothingDelivered(setup: Setup, s: State)
    requires Inv(setup, s) && s.received == []
    ensures s.subscriber.st.callbacks == []
  {
    assert Stream(SubscriberParser(setup.conv, setup.received), CppTooLarge, FRESH_SUBSCRIBER, []).rest == [];
  }

  lemma {:induction false} NothingFollows(setup: Setup, states: seq<State>, steps: seq<Step>, k: nat, j: nat)
    requires Run(setup, states, steps) && k < j < |states| && steps[k].Send? && Drops(states[k])
    ensures NothingSent(states[j])
  {
    if j > k + 1 {
      NothingFollows(setup, states, steps, k, j - 1);
      NothingMore(setup, states[j - 1], steps[j - 1], states[j]);
    } else {
      RunInv(setup, states, steps, k);
      DroppingSendsNothing(setup, states[k], states[j]);
    }
  }

  /** If the first message is dropped, nothing ever arrives. */
  lemma DroppedIsLost(setup: Setup, states: seq<State>, steps: seq<Step>, k: nat, j: nat)
    requires Run(setup, states, steps) && k < j < |states| && steps[k].Send? && Drops(states[k])
    ensures NothingSent(states[j]) && states[j].subscriber.st.callbacks == []
  {
    NothingFollows(setup, states, steps, k, j);
    RunInv(setup, states, steps, j);
    NothingDelivered(setup, states[j]);
  }

  /** So of two values published before the publisher's flow runs, grouping can lose both. */
  lemma FirstBatchTooLarge(setup: Setup, a: seq<Value>, b: seq<Value>) returns (states: seq<State>, steps: seq<Step>)
    requires setup.grouping && setup.Accepted(a) && setup.Accepted(b)
    requires 4 + |Encode(Cpp, setup.conv, setup.sent, a).value| < GROUP_SIZE
    requires |Encode(Cpp, setup.conv, setup.sent, b).value| < LENGTH_SPAN
    requires |Encode(Cpp, setup.conv, setup.sent, a).value| + |Encode(Cpp, setup.conv, setup.sent, b).value| > LENGTH_SPAN - 4
    ensures Run(setup, states, steps)
    ensures var s := states[|steps|];
      s.published == [a, b] && s.queue == [] && NothingSent(s)
  {
    var x, y := Encode(Cpp, setup.conv, setup.sent, a).value, Encode(Cpp, setup.conv, setup.sent, b).value;
    steps := [Publish(a), Publish(b), Write(2, true), Send];
    var s0 := Init(setup);
    var s1 := s0.(queue := [x], published := [a]);
    Publishing(setup, s0, a, s1);
    var s2 := s1.(queue := [x, y], published := [a, b]);
    Publishing(setup, s1, b, s2);
    TwoFrames(x, y);
    var s3 := s2.(queue := [], outbox := Some(Framed([x, y])), popped := 2);
    assert s2.queue[..2] == s2.queue && s2.queue[2..] == [];
    assert Apply(setup, s2, Write(2, true)) == Some(s3);
    var s4 := s3.(outbox := None, halted := true, popped := 0);
    assert Apply(setup, s3, Send) == Some(s4);
    states := [s0, s1, s2, s3, s4];
  }

  lemma Publishing(setup: Setup, s: State, data: seq<Value>, s': State)
    requires setup.Accepted(data)
    requires s' == s.(queue := s'.queue, published := s'.published)
    requires s'.queue == s.queue + [Encode(Cpp, setup.conv, setup.sent, data).value] && s'.published == s.published + [data]
    ensures Apply(setup, s, Publish(data)) == Some(s')
  {
  }

  lemma TwoFrames(x: seq<byte>, y: seq<byte>)
    ensures |Framed([x, y][..1])| == 4 + |x| && |Framed([x, y])| == 8 + |x| + |y|
  {
    assert [x, y][..1] == [x] && [x, y][..2] == [x, y] && [x, y][..0] == [];
    FramedLast([x, y], 0);
    FramedLast([x, y], 1);
  }

  /** n copies of one text, and another one. */
  function Copies(n: nat, text: seq<byte>, last: seq<byte>): (r: seq<seq<byte>>)
    ensures |r| == n + 1
  {
    if n == 0 then [last] else [text] + Copies(n - 1, text, last)
  }

  lemma {:induction false} CopiesEncode(n: nat, text: seq<byte>, last: seq<byte>)
    requires |text| < MAX_COUNT && |last| < MAX_COUNT
    ensures TextBlocks(Cpp, Options(Copies(n, text, last))).Ok?
    ensures |TextBlocks(Cpp, Options(Copies(n, text, last))).value| == n * (2 + |text|) + 2 + |last|
    ensures forall k :: 0 <= k <= n ==> |Copies(n, text, last)[k]| < MAX_COUNT
  {
    if n == 0 {
      assert TextBlocks(Cpp, Options([last])[1..]) == Ok([]);
    } else {
      CopiesEncode(n - 1, text, last);
      assert Options(Copies(n, text, last))[1..] == Options(Copies(n - 1, text, last));
      assert n * (2 + |text|) == (n - 1) * (2 + |text|) + 2 + |text|;
    }
  }

  /** An array of strings under the signature "S". */
  lemma ArrayOfTexts(conv: Converter, ts: seq<seq<byte>>)
    requires |ts| < MAX_COUNT && (forall k :: 0 <= k < |ts| ==> |ts[k]| < MAX_COUNT)
    requires TextBlocks(Cpp, Options(ts)).Ok? && |TextBlocks(Cpp, Options(ts)).value| < LENGTH_SPAN - 2
    ensures Setup(conv, "S", "S", true).Accepted([Texts(ts)])
    ensures |Encode(Cpp, conv, "S", [Texts(ts)]).value| == 2 + |TextBlocks(Cpp, Options(ts)).value|
  {
    var c := ContentOf(conv, Texts(ts));
    assert c.texts == Options(ts);
    KeepsAll(Cpp, c.texts);
    assert "S"[1..] == "" && [Texts(ts)][1..] == [];
    assert EncodeItem(Cpp, conv, 'S', Texts(ts)) == Ok(ToLE(|ts|, 2) + TextBlocks(Cpp, Options(ts)).value);
    assert Delivers(Cpp, conv, 'S', Texts(ts));
  }

  /** An empty array, and 256 strings of 65533 bytes with one of 249: frames of 2^24 + 7 bytes. */
  lemma GroupingLosesBoth(conv: Converter, text: seq<byte>, last: seq<byte>)
    returns (setup: Setup, states: seq<State>, steps: seq<Step>)
    requires |text| == 65533 && |last| == 249
    ensures Run(setup, states, steps) && setup == Setup(conv, "S", "S", true)
    ensures var s := states[|steps|];
      && s.published == [[Texts([])], [Texts(Copies(256, text, last))]] && s.queue == [] && NothingSent(s)
  {
    setup := Setup(conv, "S", "S", true);
    assert Options([]) == [];
    ArrayOfTexts(conv, []);
    CopiesEncode(256, text, last);
    ArrayOfTexts(conv, Copies(256, text, last));
    states, steps := FirstBatchTooLarge(setup, [Texts([])], [Texts(Copies(256, text, last))]);
  }

  /** So waiting can end early: here the queue is empty and nothing has been sent. */
  lemma WaitingCanEndEarly(conv: Converter) returns (setup: Setup, states: seq<State>, steps: seq<Step>)
    ensures Run(setup, states, steps) && setup.conv == conv
    ensures var s := states[|steps|];
      s.published == [[]] && s.queue == [] && !s.halted && s.received + (s.chunk + s.channel) == []
  {
    setup := Setup(conv, "", "", false);
    steps := [Publish([]), Write(1, true)];
    var s0 := Init(setup);
    var s1 := s0.(queue := [[]], published := [[]]);
    assert s0.queue + [[]] == s1.queue && s0.published + [[]] == s1.published;
    assert Apply(setup, s0, steps[0]) == Some(s1);
    var s2 := s1.(queue := [], outbox := Some(Framed([[]])), popped := 1);
    assert s1.queue[..1] == [[]] && s1.queue[1..] == [];
    assert Apply(setup, s1, steps[1]) == Some(s2);
    states := [s0, s1, s2];
  }
}
