/**
 messagemanager.go: the Go reassembly loop. It takes up to a whole section length from the read buffer each time,
 not the number of bytes missing, and so agrees with the stream specification on an exact set of divisions only.
 */
module MessageManagerGo {
  import opened Bytes
  import opened MessageManager

  /** The Go manager between iterations: `missing` goes below zero once too much has been taken. */
  datatype GoFlow<S> = GoFlow(st: S, buffer: seq<byte>, missing: int, stopped: bool)

  /** What has happened so far. */
  datatype GoRun<S> = GoRun(sections: seq<seq<byte>>, sent: seq<seq<byte>>, flow: GoFlow<S>)

  function GoStart<S>(p: Parser<S>, st: S): GoFlow<S> {
    GoFlow(st, [], p.len(st), false)
  }

  /** One iteration of the inner loop. */
  function GoTransfer<S>(p: Parser<S>, r: GoRun<S>, chunk: seq<byte>): GoRun<S> {
    var f := r.flow;
    var n := Min(p.len(f.st), |chunk|);
    var buffer, missing := f.buffer + chunk[..n], f.missing - n;
    if missing != 0 then r.(flow := f.(buffer := buffer, missing := missing)) else
      var (sent, st', stop) := Handle(p, GoTooLarge, f.st, buffer);
      GoRun(r.sections + [buffer], r.sent + sent, if stop then GoFlow(st', buffer, 0, true) else GoStart(p, st'))
  }

  /** The inner loop over everything one read returned. */
  function GoConsume<S>(p: Parser<S>, r: GoRun<S>, chunk: seq<byte>): GoRun<S>
    decreases |chunk|
  {
    var n := Min(p.len(r.flow.st), |chunk|);
    if r.flow.stopped || n == 0 then r else GoConsume(p, GoTransfer(p, r, chunk), chunk[n..])
  }

  /** Successive reads; one that brings nothing ends the loop. */
  function GoReceive<S>(p: Parser<S>, r: GoRun<S>, chunks: seq<seq<byte>>): GoRun<S>
    decreases |chunks|
  {
    if chunks == [] || r.flow.stopped || chunks[0] == [] then r else GoReceive(p, GoConsume(p, r, chunks[0]), chunks[1..])
  }

  lemma {:induction false} EmptyReadEnds<S>(p: Parser<S>, r: GoRun<S>, chunks: seq<seq<byte>>)
    ensures GoReceive(p, r, chunks) == GoReceive(p, r, BeforeEmpty(chunks))
    decreases |chunks|
  {
    if chunks != [] && chunks[0] != [] && !r.flow.stopped {
      EmptyReadEnds(p, GoConsume(p, r, chunks[0]), chunks[1..]);
      assert BeforeEmpty(chunks)[1..] == BeforeEmpty(chunks[1..]);
    }
  }

  // ---- divisions on which it follows the stream ----

  /** The Go run has recorded what the stream specification gives. */
  ghost predicate Agrees<S(!new)>(p: Parser<S>, g: GoRun<S>, r: Run<S>) {
    && g.sections == r.sections && g.sent == r.sent && g.flow.st == r.st && g.flow.stopped == r.stopped
    && (!r.stopped ==> g.flow.buffer == r.rest && g.flow.missing == p.len(r.st) - |r.rest| > 0)
  }

  /** One iteration that takes no more than is missing. */
  lemma GoodTransfer<S(!new)>(p: Parser<S>, inv: S -> bool, g: GoRun<S>, r: Run<S>, chunk: seq<byte>)
    requires Steady(p, GoTooLarge, inv) && inv(r.st) && Agrees(p, g, r) && !r.stopped && chunk != []
    requires r.rest == [] || |chunk| <= p.len(r.st) - |r.rest|
    ensures var n := Min(p.len(r.st), |chunk|);
      var r' := r.Then(Stream(p, GoTooLarge, r.st, r.rest + chunk[..n]));
      n > 0 && Agrees(p, GoTransfer(p, g, chunk), r') && (r'.stopped || (inv(r'.st) && (n == |chunk| || r'.rest == [])))
  {
    var len := p.len(r.st);
    var n := Min(len, |chunk|);
    var bytes := r.rest + chunk[..n];
    StreamSteady(p, GoTooLarge, inv, r.st, bytes);
    if |bytes| < len {
      assert r.sections + [] == r.sections && r.sent + [] == r.sent;
    } else {
      assert bytes[..len] == bytes && bytes[len..] == [];
      var (sent, st', stop) := Handle(p, GoTooLarge, r.st, bytes);
      if !stop {
        assert Stream(p, GoTooLarge, st', []) == Run([], [], st', [], false);
        assert [bytes] + [] == [bytes] && sent + [] == sent;
      }
    }
  }

  /** A read that begins at a section boundary, or brings no more than is missing, is handled as the stream has it. */
  lemma {:induction false} GoodConsume<S(!new)>(p: Parser<S>, inv: S -> bool, g: GoRun<S>, r: Run<S>, chunk: seq<byte>)
    requires Steady(p, GoTooLarge, inv) && inv(r.st) && Agrees(p, g, r) && !r.stopped
    requires r.rest == [] || |chunk| <= p.len(r.st) - |r.rest|
    ensures Agrees(p, GoConsume(p, g, chunk), r.Then(Stream(p, GoTooLarge, r.st, r.rest + chunk)))
    decreases |chunk|
  {
    if chunk == [] {
      assert r.rest + chunk == r.rest;
      assert r.Then(Stream(p, GoTooLarge, r.st, r.rest)) == r;
    } else {
      var n := Min(p.len(r.st), |chunk|);
      GoodTransfer(p, inv, g, r, chunk);
      var part := Stream(p, GoTooLarge, r.st, r.rest + chunk[..n]);
      var r' := r.Then(part);
      StreamAppend(p, GoTooLarge, inv, r.st, r.rest + chunk[..n], chunk[n..]);
      assert r.rest + chunk[..n] + chunk[n..] == r.rest + chunk;
      if !r'.stopped {
        GoodConsume(p, inv, GoTransfer(p, g, chunk), r', chunk[n..]);
        var more := Stream(p, GoTooLarge, part.st, part.rest + chunk[n..]);
        Assoc(r.sections, part.sections, more.sections);
        Assoc(r.sent, part.sent, more.sent);
      }
    }
  }

  // ---- what one overlong read does ----

  /** Once more has been taken than was missing, nothing is ever delivered again. */
  lemma {:induction false} WedgedConsume<S>(p: Parser<S>, g: GoRun<S>, chunk: seq<byte>)
    requires g.flow.missing < 0
    ensures var g' := GoConsume(p, g, chunk);
      g'.sections == g.sections && g'.sent == g.sent && g'.flow.st == g.flow.st && g'.flow.stopped == g.flow.stopped
      && g'.flow.missing < 0
    decreases |chunk|
  {
    var n := Min(p.len(g.flow.st), |chunk|);
    if !g.flow.stopped && n > 0 {
      WedgedConsume(p, GoTransfer(p, g, chunk), chunk[n..]);
    }
  }

  lemma {:induction false} WedgedForever<S>(p: Parser<S>, g: GoRun<S>, chunks: seq<seq<byte>>)
    requires g.flow.missing < 0
    ensures GoReceive(p, g, chunks).sections == g.sections && GoReceive(p, g, chunks).flow.missing < 0
    decreases |chunks|
  {
    if chunks != [] && !g.flow.stopped && chunks[0] != [] {
      WedgedConsume(p, g, chunks[0]);
      WedgedForever(p, GoConsume(p, g, chunks[0]), chunks[1..]);
    }
  }

  lemma OverlongConsume<S(!new)>(p: Parser<S>, g: GoRun<S>, r: Run<S>, chunk: seq<byte>)
    requires Agrees(p, g, r) && !r.stopped && r.rest != [] && |chunk| > p.len(r.st) - |r.rest|
    ensures GoConsume(p, g, chunk).flow.missing < 0 && GoConsume(p, g, chunk).sections == g.sections
  {
    var n := Min(p.len(r.st), |chunk|);
    WedgedConsume(p, GoTransfer(p, g, chunk), chunk[n..]);
  }

  /** No read that arrives in the middle of a section is longer than the bytes missing, as long as the flow runs. */
  ghost predicate Fits<S(!new)>(p: Parser<S>, r: Run<S>, chunks: seq<seq<byte>>)
    decreases |chunks|
  {
    chunks == [] || r.stopped ||
    ((r.rest == [] || |chunks[0]| <= p.len(r.st) - |r.rest|)
     && Fits(p, r.Then(Stream(p, GoTooLarge, r.st, r.rest + chunks[0])), chunks[1..]))
  }

  lemma {:induction false} PiecewiseGrows<S(!new)>(p: Parser<S>, r: Run<S>, chunks: seq<seq<byte>>)
    ensures |Piecewise(p, GoTooLarge, r, chunks).sections| >= |r.sections|
    decreases |chunks|
  {
    if chunks != [] && !r.stopped {
      PiecewiseGrows(p, r.Then(Stream(p, GoTooLarge, r.st, r.rest + chunks[0])), chunks[1..]);
    }
  }

  lemma {:induction false} ReceiveExactly<S(!new)>(p: Parser<S>, inv: S -> bool, g: GoRun<S>, r: Run<S>, chunks: seq<seq<byte>>)
    requires Steady(p, GoTooLarge, inv) && (!r.stopped ==> inv(r.st)) && Agrees(p, g, r) && [] !in chunks
    ensures Fits(p, r, chunks) ==> Agrees(p, GoReceive(p, g, chunks), Piecewise(p, GoTooLarge, r, chunks))
    ensures !Fits(p, r, chunks) ==>
              |GoReceive(p, g, chunks).sections| < |Piecewise(p, GoTooLarge, r, chunks).sections|
              && GoReceive(p, g, chunks).flow.missing < 0
    decreases |chunks|
  {
    if chunks != [] && !r.stopped {
      var part := Stream(p, GoTooLarge, r.st, r.rest + chunks[0]);
      var r', g' := r.Then(part), GoConsume(p, g, chunks[0]);
      StreamSteady(p, GoTooLarge, inv, r.st, r.rest + chunks[0]);
      if r.rest == [] || |chunks[0]| <= p.len(r.st) - |r.rest| {
        GoodConsume(p, inv, g, r, chunks[0]);
        ReceiveExactly(p, inv, g', r', chunks[1..]);
      } else {
        OverlongConsume(p, g, r, chunks[0]);
        WedgedForever(p, g', chunks[1..]);
        assert part.sections != [];
        PiecewiseGrows(p, r', chunks[1..]);
      }
    }
  }

  /**
   The exact domain: up to a read that brings nothing, which ends it, the Go loop delivers the sections of the stream if
   and only if every read fits. One read that does not leaves the missing count negative for good, and no section is
   delivered after it.
   */
  lemma GoLoopIsExact<S(!new)>(p: Parser<S>, inv: S -> bool, st: S, chunks: seq<seq<byte>>)
    requires Steady(p, GoTooLarge, inv) && inv(st)
    ensures var g := GoReceive(p, GoRun([], [], GoStart(p, st)), chunks);
      var r := Stream(p, GoTooLarge, st, Concat(BeforeEmpty(chunks)));
      && (g.sections == r.sections <==> Fits(p, Run([], [], st, [], false), BeforeEmpty(chunks)))
      && (g.sections == r.sections ==> g.sent == r.sent && g.flow.st == r.st && g.flow.stopped == r.stopped)
      && (g.sections != r.sections ==> g.flow.missing < 0 && |g.sections| < |r.sections|)
  {
    var g0, r0 := GoRun([], [], GoStart(p, st)), Run([], [], st, [], false);
    var read := BeforeEmpty(chunks);
    assert Stream(p, GoTooLarge, st, []) == r0;
    EmptyReadEnds(p, g0, chunks);
    ReceiveExactly(p, inv, g0, r0, read);
    PiecewiseIsStream(p, GoTooLarge, inv, st, [], read);
    assert [] + Concat(read) == Concat(read);
  }

  // ---- the loop itself ----

  /** Go checks the size of whatever it writes; a message that is too large counts as one that could not be written. */
  function Checked<S>(p: Parser<S>): Parser<S> {
    p.(write := s => var (ok, message, s') := p.write(s); (ok && !GoTooLarge(0, message), message, s'))
  }

  class GoMessageManager<S(!new)> {
    const parser: Parser<S>
    var st: S
    var messageLength: nat
    var messageMissingBytes: int
    var stopRequest: bool
    var readMessage: seq<byte>
    var sent: seq<seq<byte>>
    ghost var sections: seq<seq<byte>>

    constructor (parser: Parser<S>, st: S)
      ensures this.parser == parser && Valid() && View() == GoRun([], [], GoStart(parser, st))
    {
      this.parser := parser;
      this.st := st;
      messageLength := parser.len(st);
      messageMissingBytes := parser.len(st);
      stopRequest, readMessage := false, [];
      sent, sections := [], [];
    }

    ghost predicate Valid()
      reads this
    {
      stopRequest || (messageLength == parser.len(st) && messageMissingBytes == messageLength - |readMessage|)
    }

    ghost function View(): GoRun<S>
      reads this
    {
      GoRun(sections, sent, GoFlow(st, readMessage, messageMissingBytes, stopRequest))
    }

    /** One pass of the inner loop; returns what is left of the read buffer. */
    method TransferOnce(readBuffer: seq<byte>) returns (rest: seq<byte>)
      requires Valid() && !stopRequest && readBuffer != [] && messageLength > 0
      modifies this
      ensures Valid() && View() == GoTransfer(parser, old(View()), readBuffer)
      ensures rest == readBuffer[Min(old(messageLength), |readBuffer|)..]
    {
      var n := Min(messageLength, |readBuffer|);
      readMessage := readMessage + readBuffer[..n];
      rest := readBuffer[n..];
      messageMissingBytes := messageMissingBytes - n;
      if messageMissingBytes == 0 {
        sections := sections + [readMessage];
        var (success, st1) := parser.parse(st, readMessage);
        st := st1;
        if !success {
          stopRequest := true;
          return;
        }
        var (replyOk, replyMessage, st2) := parser.write(st);
        st := st2;
        if !replyOk || |replyMessage| % 0x1_0000_0000 > MAX_MESSAGE {
          stopRequest := true;
          return;
        }
        if replyMessage != [] {
          sent := sent + [replyMessage];
        }
        readMessage := [];
        messageLength := parser.len(st);
        messageMissingBytes := messageLength;
      }
    }

    /** A requester's first message, which may not be empty. */
    method WriteFirst()
      requires Valid() && !stopRequest
      modifies this`st, this`sent, this`stopRequest
      ensures (parser.len(st) == parser.len(old(st)) ==> Valid()) && st == parser.write(old(st)).2
      ensures var (ok, message, _) := Checked(parser).write(old(st));
        && (stopRequest <==> !ok || message == [])
        && sent == if stopRequest then old(sent) else old(sent) + [message]
    {
      var (replyOk, message, st1) := parser.write(st);
      st := st1;
      if !replyOk || |message| == 0 || |message| % 0x1_0000_0000 > MAX_MESSAGE {
        stopRequest := true;
      } else {
        sent := sent + [message];
      }
    }

    /** A pass of dataFlow for a parser that announces length zero: it only writes. */
    method WriteOnly()
      requires Valid() && !stopRequest && messageLength == 0 && readMessage == []
      modifies this
      ensures Valid() && sections == old(sections) && readMessage == []
      ensures var (ok, message, st') := Checked(parser).write(old(st));
        && st == st' && stopRequest == !ok
        && sent == old(sent) + if stopRequest || message == [] then [] else [message]
    {
      var (replyOk, replyMessage, st1) := parser.write(st);
      st := st1;
      if !replyOk || |replyMessage| % 0x1_0000_0000 > MAX_MESSAGE {
        stopRequest := true;
        return;
      }
      if |replyMessage| > 0 {
        sent := sent + [replyMessage];
      }
      messageLength := parser.len(st);
      messageMissingBytes := messageLength;
    }

    /** dataFlow for a parser that always announces length zero and so never reads: `rounds` passes of it. */
    method WriteFlow(rounds: nat)
      requires Valid() && !stopRequest && readMessage == [] && (forall s :: parser.len(s) == 0)
      modifies this
      ensures sections == old(sections)
      ensures var (messages, st', stopped) := Writes(Checked(parser), old(st), rounds);
        sent == old(sent) + messages && st == st' && stopRequest == stopped
    {
      ghost var all := Writes(Checked(parser), st, rounds);
      ghost var out: seq<seq<byte>> := [];
      var k := 0;
      assert [] + all.0 == all.0 && sent == old(sent) + [];
      while !stopRequest && k < rounds
        invariant 0 <= k <= rounds && Valid() && readMessage == [] && sections == old(sections)
        invariant sent == old(sent) + out && WritesLeft(Checked(parser), all, out, st, rounds - k, stopRequest)
      {
        OneMoreWrite(Checked(parser), all, out, st, rounds - k);
        ghost var message := Checked(parser).write(st).1;
        WriteOnly();
        if !stopRequest {
          Assoc(old(sent), out, if message == [] then [] else [message]);
          out := out + if message == [] then [] else [message];
        }
        k := k + 1;
      }
      assert out + [] == out;
    }

    /** dataFlow over the results of successive reads. */
    method DataFlow(chunks: seq<seq<byte>>, ghost inv: S -> bool)
      requires Valid() && !stopRequest && inv(st)
      requires Steady(parser, GoTooLarge, inv)
      modifies this
      ensures Valid() && View() == GoReceive(parser, old(View()), chunks)
    {
      ghost var target := GoReceive(parser, View(), chunks);
      var k := 0;
      assert chunks[0..] == chunks;
      while !stopRequest && k < |chunks|
        invariant 0 <= k <= |chunks| && Valid() && (!stopRequest ==> inv(st))
        invariant GoReceive(parser, View(), chunks[k..]) == target
      {
        var readBuffer := chunks[k];
        assert chunks[k..][0] == chunks[k] && chunks[k..][1..] == chunks[k + 1..];
        if |readBuffer| == 0 {
          break;
        }
        ghost var whole := GoConsume(parser, View(), readBuffer);
        while !stopRequest && readBuffer != []
          invariant Valid() && (!stopRequest ==> inv(st))
          invariant GoConsume(parser, View(), readBuffer) == whole
          decreases |readBuffer|
        {
          ghost var st0, section := st, readMessage + readBuffer[..Min(messageLength, |readBuffer|)];
          readBuffer := TransferOnce(readBuffer);
          assert |section| == parser.len(st0) ==> stopRequest || st == Handle(parser, GoTooLarge, st0, section).1;
        }
        k := k + 1;
      }
    }
  }
}
