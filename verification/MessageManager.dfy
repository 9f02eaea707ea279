/** messageManager.h: cutting arbitrarily divided reads into the sections a parser announces. */
module MessageManager {
  import opened Bytes

  /**
   What an implementation of the pure virtual methods does: the length it announces, and what parseMessage and
   writeMessage return and do to its state.
   */
  datatype Parser<!S> = Parser(len: S -> nat, parse: (S, seq<byte>) -> (bool, S), write: S -> (bool, seq<byte>, S))

  const MAX_MESSAGE := 16777220

  /** The size check made before a nonempty reply is sent; C++ looks at the section, Go at the reply. */
  type SizeCheck = (nat, seq<byte>) -> bool

  function CppTooLarge(section: nat, reply: seq<byte>): bool {
    section > MAX_MESSAGE
  }

  /** Go looks at the length as a uint32. */
  function GoTooLarge(section: nat, reply: seq<byte>): bool {
    |reply| % 0x1_0000_0000 > MAX_MESSAGE
  }

  /** Parse one section and answer it: the messages sent, the next state, and whether the flow stops. */
  function Handle<S>(p: Parser<S>, tooLarge: SizeCheck, st: S, section: seq<byte>): (seq<seq<byte>>, S, bool) {
    var (parsed, st1) := p.parse(st, section);
    if !parsed then ([], st1, true) else
      var (written, reply, st2) := p.write(st1);
      if !written then ([], st2, true)
      else if reply == [] then ([], st2, false)
      else if tooLarge(|section|, reply) then ([], st2, true)
      else ([reply], st2, false)
  }

  /**
   A section stops the flow just if it is not parsed, is not answered, or has an answer that is too large; and what is
   sent is the answer, if there is one and the flow goes on.
   */
  lemma WhenHandlingStops<S>(p: Parser<S>, tooLarge: SizeCheck, st: S, section: seq<byte>)
    ensures var (sent, st', stop) := Handle(p, tooLarge, st, section);
      var (parsed, st1) := p.parse(st, section);
      var (written, reply, st2) := p.write(st1);
      && (stop <==> !parsed || !written || (reply != [] && tooLarge(|section|, reply)))
      && (sent == [reply] <==> !stop && reply != []) && (sent != [] ==> sent == [reply])
      && st' == if parsed then st2 else st1
  {
  }

  /**
   The check is not the same one: after a section of a size that any parser here announces C++ sends an answer of any
   size, while Go stops if the answer is too large.
   */
  lemma SizeChecksDiffer<S>(p: Parser<S>, st: S, section: seq<byte>)
    requires |section| <= 16777220 && p.parse(st, section).0
    ensures var (written, reply, st') := p.write(p.parse(st, section).1);
      written && reply != [] ==>
        && Handle(p, CppTooLarge, st, section) == ([reply], st', false)
        && Handle(p, GoTooLarge, st, section) ==
             if |reply| % 0x1_0000_0000 > 16777220 then ([], st', true) else ([reply], st', false)
  {
  }

  // ---- the byte-stream specification ----

  /** What a whole stream leads to: sections parsed, messages sent, state, unfinished section, stopped. */
  datatype Run<S> = Run(sections: seq<seq<byte>>, sent: seq<seq<byte>>, st: S, rest: seq<byte>, stopped: bool)
  {
    function Then(more: Run<S>): Run<S> {
      Run(sections + more.sections, sent + more.sent, more.st, more.rest, more.stopped)
    }
  }

  function Stream<S>(p: Parser<S>, tooLarge: SizeCheck, st: S, bytes: seq<byte>): (r: Run<S>)
    decreases |bytes|
  {
    var n := p.len(st);
    if n == 0 || |bytes| < n then Run([], [], st, bytes, false) else
      var (sent, st', stop) := Handle(p, tooLarge, st, bytes[..n]);
      if stop then Run([bytes[..n]], sent, st', [], true)
      else Run([bytes[..n]], sent, st', [], false).Then(Stream(p, tooLarge, st', bytes[n..]))
  }

  /** An invariant of the parser that makes it announce a positive length after every section it accepts. */
  ghost predicate Steady<S(!new)>(p: Parser<S>, tooLarge: SizeCheck, inv: S -> bool) {
    && (forall s :: inv(s) ==> p.len(s) > 0)
    && (forall s, m :: inv(s) && |m| == p.len(s) && !Handle(p, tooLarge, s, m).2 ==> inv(Handle(p, tooLarge, s, m).1))
  }

  lemma {:induction false} StreamSteady<S(!new)>(p: Parser<S>, tooLarge: SizeCheck, inv: S -> bool, st: S, bytes: seq<byte>)
    requires Steady(p, tooLarge, inv) && inv(st)
    ensures var r := Stream(p, tooLarge, st, bytes); !r.stopped ==> inv(r.st) && |r.rest| < p.len(r.st)
    decreases |bytes|
  {
    var n := p.len(st);
    if n <= |bytes| && !Handle(p, tooLarge, st, bytes[..n]).2 {
      StreamSteady(p, tooLarge, inv, Handle(p, tooLarge, st, bytes[..n]).1, bytes[n..]);
    }
  }

  /** A stream may be handled piece by piece, carrying the unfinished section over. */
  lemma {:induction false} StreamAppend<S(!new)>(p: Parser<S>, tooLarge: SizeCheck, inv: S -> bool, st: S, a: seq<byte>, b: seq<byte>)
    requires Steady(p, tooLarge, inv) && inv(st)
    ensures var r := Stream(p, tooLarge, st, a);
      Stream(p, tooLarge, st, a + b) == if r.stopped then r else r.Then(Stream(p, tooLarge, r.st, r.rest + b))
    decreases |a|
  {
    var n := p.len(st);
    var r := Stream(p, tooLarge, st, a);
    if |a| < n {
      var more := Stream(p, tooLarge, st, a + b);
      assert [] + more.sections == more.sections && [] + more.sent == more.sent;
    } else {
      assert (a + b)[..n] == a[..n] && (a + b)[n..] == a[n..] + b;
      var (sent, st', stop) := Handle(p, tooLarge, st, a[..n]);
      if !stop {
        StreamAppend(p, tooLarge, inv, st', a[n..], b);
        var tail := Stream(p, tooLarge, st', a[n..]);
        if !tail.stopped {
          var more := Stream(p, tooLarge, tail.st, tail.rest + b);
          Assoc([a[..n]], tail.sections, more.sections);
          Assoc(sent, tail.sent, more.sent);
        }
      }
    }
  }

  // ---- a parser that only writes ----

  /** The nonempty messages of so many writes, the state after them, and whether one of them failed. */
  function Writes<S>(p: Parser<S>, st: S, rounds: nat): (seq<seq<byte>>, S, bool)
    decreases rounds
  {
    if rounds == 0 then ([], st, false) else
      var (written, message, st1) := p.write(st);
      if !written then ([], st1, true) else
        var (more, st2, stopped) := Writes(p, st1, rounds - 1);
        ((if message == [] then [] else [message]) + more, st2, stopped)
  }

  /** One write: its message if there is one, and whether it failed. */
  lemma OneWrite<S>(p: Parser<S>, st: S)
    ensures var (written, message, st1) := p.write(st);
      Writes(p, st, 1) == (if written && message != [] then [message] else [], st1, !written)
  {
    assert Writes(p, p.write(st).2, 0).0 == [];
    assert forall m: seq<seq<byte>> :: m + [] == m;
  }

  /** So many writes and then so many more, unless one has failed. */
  lemma {:induction false} WritesAppend<S>(p: Parser<S>, st: S, m: nat, n: nat)
    ensures var (some, st1, failed) := Writes(p, st, m);
      var (more, st2, stopped) := Writes(p, st1, n);
      Writes(p, st, m + n) == if failed then (some, st1, true) else (some + more, st2, stopped)
    decreases m
  {
    if m == 0 {
      assert [] + Writes(p, st, n).0 == Writes(p, st, n).0;
    } else {
      var (written, message, st1) := p.write(st);
      if written {
        WritesAppend(p, st1, m - 1, n);
        var (some, st2, failed) := Writes(p, st1, m - 1);
        Assoc(if message == [] then [] else [message], some, Writes(p, st2, n).0);
      }
    }
  }

  /** `out` has been written, and `all` is that followed by what is left to write. */
  ghost predicate WritesLeft<S>(p: Parser<S>, all: (seq<seq<byte>>, S, bool), out: seq<seq<byte>>, st: S, rounds: nat, stopped: bool) {
    if stopped then all == (out, st, true)
    else all == (out + Writes(p, st, rounds).0, Writes(p, st, rounds).1, Writes(p, st, rounds).2)
  }

  lemma OneMoreWrite<S>(p: Parser<S>, all: (seq<seq<byte>>, S, bool), out: seq<seq<byte>>, st: S, rounds: nat)
    requires WritesLeft(p, all, out, st, rounds, false) && rounds > 0
    ensures var (written, message, st1) := p.write(st);
      if written then WritesLeft(p, all, out + if message == [] then [] else [message], st1, rounds - 1, false)
      else WritesLeft(p, all, out, st1, rounds - 1, true)
  {
    var (written, message, st1) := p.write(st);
    if written {
      Assoc(out, if message == [] then [] else [message], Writes(p, st1, rounds - 1).0);
    } else {
      assert out + [] == out;
    }
  }

  // ---- one iteration of the transfer loop ----

  /** The manager between two iterations: bytes of the current section so far, bytes missing, stopped. */
  datatype Flow<S> = Flow(st: S, partial: seq<byte>, missing: nat, stopped: bool)

  function Start<S>(p: Parser<S>, st: S): Flow<S> {
    Flow(st, [], p.len(st), false)
  }

  function Min(a: nat, b: nat): nat {
    if a < b then a else b
  }

  /** Move what fits from the chunk into the section, and handle the section if that completes it. */
  function Transfer<S>(p: Parser<S>, tooLarge: SizeCheck, f: Flow<S>, chunk: seq<byte>): (Flow<S>, seq<byte>, seq<seq<byte>>) {
    var n := Min(f.missing, |chunk|);
    var partial := f.partial + chunk[..n];
    if n < f.missing then (f.(partial := partial, missing := f.missing - n), chunk[n..], []) else
      var (sent, st', stop) := Handle(p, tooLarge, f.st, partial);
      if stop then (Flow(st', partial, 0, true), chunk[n..], sent)
      else (Start(p, st'), chunk[n..], sent)
  }

  /** Between iterations the manager has an unfinished section of the announced length. */
  ghost predicate Midway<S>(p: Parser<S>, f: Flow<S>) {
    !f.stopped && f.missing > 0 && |f.partial| + f.missing == p.len(f.st)
  }

  /** One iteration does what the stream does with the bytes it takes. */
  lemma TransferFollowsStream<S(!new)>(p: Parser<S>, tooLarge: SizeCheck, inv: S -> bool, f: Flow<S>, chunk: seq<byte>)
    requires Steady(p, tooLarge, inv) && inv(f.st) && Midway(p, f) && chunk != []
    ensures var (f', rest, sent) := Transfer(p, tooLarge, f, chunk);
      var taken := chunk[..|chunk| - |rest|];
      var r := Stream(p, tooLarge, f.st, f.partial + taken);
      && |rest| < |chunk| && rest == chunk[|taken|..]
      && r.sent == sent && r.st == f'.st && r.stopped == f'.stopped
      && r.sections == (if |taken| == f.missing then [f.partial + taken] else [])
      && (!f'.stopped ==> inv(f'.st) && Midway(p, f') && f'.partial == r.rest)
  {
    var n := Min(f.missing, |chunk|);
    var (f', rest, sent) := Transfer(p, tooLarge, f, chunk);
    var taken := chunk[..n];
    assert chunk[..|chunk| - |rest|] == taken;
    var bytes := f.partial + taken;
    if n == f.missing {
      assert bytes[..p.len(f.st)] == bytes && bytes[p.len(f.st)..] == [];
      if !Handle(p, tooLarge, f.st, bytes).2 {
        var st' := Handle(p, tooLarge, f.st, bytes).1;
        assert Stream(p, tooLarge, st', []) == Run([], [], st', [], false);
      }
    }
  }

  lemma TransferShortens<S>(p: Parser<S>, tooLarge: SizeCheck, f: Flow<S>, chunk: seq<byte>)
    ensures |Transfer(p, tooLarge, f, chunk).1| == |chunk| - Min(f.missing, |chunk|)
  {
  }

  lemma TransferTakes<S>(p: Parser<S>, tooLarge: SizeCheck, f: Flow<S>, chunk: seq<byte>)
    ensures var rest := Transfer(p, tooLarge, f, chunk).1;
      && |rest| == |chunk| - Min(f.missing, |chunk|)
      && chunk == chunk[..|chunk| - |rest|] + rest
  {
  }

  /** Bytes handled so far, the record of what they led to, and the manager now. */
  ghost predicate Follows<S(!new)>(p: Parser<S>, tooLarge: SizeCheck, st0: S, done: seq<byte>,
                                   sections: seq<seq<byte>>, sent: seq<seq<byte>>, f: Flow<S>)
  {
    var r := Stream(p, tooLarge, st0, done);
    r.sections == sections && r.sent == sent && r.st == f.st && r.stopped == f.stopped && (!f.stopped ==> r.rest == f.partial)
  }

  lemma TransferAdvances<S(!new)>(p: Parser<S>, tooLarge: SizeCheck, inv: S -> bool, st0: S, done: seq<byte>,
                                  sections: seq<seq<byte>>, sent: seq<seq<byte>>, f: Flow<S>, chunk: seq<byte>,
                                  f': Flow<S>, rest: seq<byte>, out: seq<seq<byte>>, taken: seq<byte>)
    requires Steady(p, tooLarge, inv) && inv(st0) && Follows(p, tooLarge, st0, done, sections, sent, f)
    requires Midway(p, f) && chunk != [] && (f', rest, out) == Transfer(p, tooLarge, f, chunk) && chunk == taken + rest
    ensures taken != []
    ensures Follows(p, tooLarge, st0, done + taken, sections + Completed(f, chunk), sent + out, f')
    ensures !f'.stopped ==> Midway(p, f')
  {
    StreamSteady(p, tooLarge, inv, st0, done);
    TransferFollowsStream(p, tooLarge, inv, f, chunk);
    assert taken == chunk[..|chunk| - |rest|];
    StreamAppend(p, tooLarge, inv, st0, done, taken);
  }

  lemma TakenSoFar(done: seq<byte>, readBuffer: seq<byte>, from: nat, to: nat)
    requires from <= to <= |readBuffer|
    ensures done + readBuffer[..from] + readBuffer[from..to] == done + readBuffer[..to]
    ensures from == 0 ==> done + readBuffer[..from] == done
    ensures to == |readBuffer| ==> done + readBuffer[..to] == done + readBuffer && readBuffer[from..to] == readBuffer[from..]
  {
    assert readBuffer[..from] + readBuffer[from..to] == readBuffer[..to];
    Assoc(done, readBuffer[..from], readBuffer[from..to]);
  }

  /** The section an iteration completes, if it completes one. */
  function Completed<S>(f: Flow<S>, chunk: seq<byte>): seq<seq<byte>> {
    if |chunk| < f.missing then [] else [f.partial + chunk[..f.missing]]
  }

  class MessageManager<S(!new)> {
    const parser: Parser<S>
    const isRequester: bool
    var st: S
    var message: seq<byte>
    var messageLastIdx: nat
    var messageLength: nat
    var messageMissingBytes: nat
    var isInitialized: bool
    var stopRequested: bool
    /** The messages handed to the connection. */
    var sent: seq<seq<byte>>
    /** The arguments parseMessage was called with. */
    ghost var sections: seq<seq<byte>>

    constructor (parser: Parser<S>, requester: bool, st: S)
      ensures this.parser == parser && this.isRequester == requester && this.st == st
      ensures !isInitialized && !stopRequested && sent == [] && sections == []
    {
      this.parser := parser;
      this.isRequester := requester;
      this.st := st;
      isInitialized, stopRequested := false, false;
      message, messageLastIdx, messageLength, messageMissingBytes := [], 0, 0, 0;
      sent, sections := [], [];
    }

    /** The section buffer has the announced size, of which the first messageLastIdx bytes are filled. */
    ghost predicate Valid()
      reads this
    {
      && isInitialized
      && |message| == messageLength && messageLastIdx + messageMissingBytes == messageLength
    }

    ghost function View(): Flow<S>
      reads this
      requires Valid()
    {
      Flow(st, message[..messageLastIdx], messageMissingBytes, stopRequested)
    }

    method ResetSection()
      modifies this`message, this`messageLastIdx, this`messageLength, this`messageMissingBytes
      ensures |message| == messageLength == messageMissingBytes == parser.len(st) && messageLastIdx == 0
    {
      messageLastIdx := 0;
      messageLength := parser.len(st);
      message := Resized(message, messageLength);
      messageMissingBytes := messageLength;
    }

    method Init()
      modifies this
      ensures Valid() && !stopRequested == !old(stopRequested) && View() == Start(parser, st).(stopped := stopRequested)
      ensures st == old(st) && sent == old(sent) && sections == old(sections)
    {
      ResetSection();
      isInitialized := true;
    }

    /** The section buffer is full: parse it, answer, and make room for the next section. */
    method AnswerSection() returns (ghost out: seq<seq<byte>>)
      requires Valid() && messageMissingBytes == 0 && !stopRequested
      modifies this
      ensures Valid() && sections == old(sections) + [old(message)] && sent == old(sent) + out
      ensures var (replies, st', stop) := Handle(parser, CppTooLarge, old(st), old(message));
        out == replies && View() == if stop then Flow(st', old(message), 0, true) else Start(parser, st')
    {
      out := [];
      assert message[..messageLength] == message && sent + [] == sent;
      var section := message[..messageLength];
      sections := sections + [section];
      var (parsed, st1) := parser.parse(st, section);
      st := st1;
      if !parsed {
        stopRequested := true;
        return;
      }
      var (written, replyMessage, st2) := parser.write(st);
      st := st2;
      if !written {
        stopRequested := true;
        return;
      }
      if replyMessage != [] {
        if |message| > MAX_MESSAGE {
          stopRequested := true;
          return;
        }
        out := [replyMessage];
        sent := sent + [replyMessage];
      }
      ResetSection();
    }

    /** One pass through the inner loop of dataFlow; `out` is what it sent. */
    method TransferOnce(readBuffer: seq<byte>, bytesParsed: nat) returns (bytesParsed': nat, ghost out: seq<seq<byte>>)
      requires Valid() && Midway(parser, View()) && bytesParsed < |readBuffer|
      modifies this
      ensures Valid() && bytesParsed' <= |readBuffer| && sent == old(sent) + out
      ensures (View(), readBuffer[bytesParsed'..], out) == Transfer(parser, CppTooLarge, old(View()), readBuffer[bytesParsed..])
      ensures sections == old(sections) + Completed(old(View()), readBuffer[bytesParsed..])
    {
      out := [];
      var transferredBytes := messageMissingBytes;
      if |readBuffer| - bytesParsed < transferredBytes {
        transferredBytes := |readBuffer| - bytesParsed;
      }
      ghost var chunk := readBuffer[bytesParsed..];
      var piece := readBuffer[bytesParsed..bytesParsed + transferredBytes];
      assert piece == chunk[..transferredBytes];
      message := Overwritten(message, messageLastIdx, piece);
      assert message[..messageLastIdx + transferredBytes] == message[..messageLastIdx] + piece;

      messageLastIdx := messageLastIdx + transferredBytes;
      messageMissingBytes := messageMissingBytes - transferredBytes;
      bytesParsed' := bytesParsed + transferredBytes;
      assert readBuffer[bytesParsed'..] == chunk[transferredBytes..];

      if messageMissingBytes == 0 {
        assert message == old(View()).partial + chunk[..transferredBytes];
        out := AnswerSection();
      }
    }

    /** The first message of a requester. */
    method WriteFirst()
      requires Valid() && !stopRequested
      modifies this`st, this`sent, this`stopRequested
      ensures st == parser.write(old(st)).2
      ensures stopRequested <==> !parser.write(old(st)).0 || |parser.write(old(st)).1| > MAX_MESSAGE
      ensures sent == old(sent) + if stopRequested || parser.write(old(st)).1 == [] then [] else [parser.write(old(st)).1]
    {
      var (written, first, st1) := parser.write(st);
      st := st1;
      if !written {
        stopRequested := true;
      } else if first != [] {
        if |first| > MAX_MESSAGE {
          stopRequested := true;
        } else {
          sent := sent + [first];
        }
      }
    }

    /**
     A pass of dataFlow for a parser that announces length zero: it only writes. The section buffer is not resized
     here, so it fits the next section only if that again has length zero.
     */
    method WriteOnly()
      requires Valid() && !stopRequested && messageLength == 0
      modifies this
      ensures st == parser.write(old(st)).2 && stopRequested == !parser.write(old(st)).0 && sections == old(sections)
      ensures sent == old(sent) + if stopRequested || parser.write(old(st)).1 == [] then [] else [parser.write(old(st)).1]
      ensures !stopRequested ==> messageLength == messageMissingBytes == parser.len(st) && (Valid() <==> parser.len(st) == 0)
    {
      var (written, reply, st1) := parser.write(st);
      st := st1;
      if !written {
        stopRequested := true;
        return;
      }
      if reply != [] {
        sent := sent + [reply];
      }
      messageLastIdx := 0;
      messageLength := parser.len(st);
      messageMissingBytes := messageLength;
    }

    /** So many passes that only write. */
    method WriteRounds(rounds: nat)
      requires Valid() && !stopRequested && messageLength == 0 && (forall s :: parser.len(s) == 0)
      modifies this
      ensures sections == old(sections)
      ensures var (messages, st', stopped) := Writes(parser, old(st), rounds);
        sent == old(sent) + messages && st == st' && stopRequested == stopped
    {
      ghost var all := Writes(parser, st, rounds);
      ghost var out: seq<seq<byte>> := [];
      var k := 0;
      assert [] + all.0 == all.0 && sent == old(sent) + [];
      while !stopRequested && k < rounds
        invariant 0 <= k <= rounds && (!stopRequested ==> Valid() && messageLength == 0) && sections == old(sections)
        invariant sent == old(sent) + out && WritesLeft(parser, all, out, st, rounds - k, stopRequested)
      {
        OneMoreWrite(parser, all, out, st, rounds - k);
        ghost var said := if parser.write(st).1 == [] then [] else [parser.write(st).1];
        WriteOnly();
        if !stopRequested {
          Assoc(old(sent), out, said);
          out := out + said;
        }
        k := k + 1;
      }
      assert out + [] == out;
    }

    /** The whole of dataFlow, for a parser that always announces length zero and so never reads: `rounds` passes of it. */
    method WriteFlow(rounds: nat)
      requires !isInitialized && !stopRequested && sent == [] && (forall s :: parser.len(s) == 0)
      modifies this
      ensures sections == old(sections)
      ensures var (messages, st', stopped) := Writes(parser, old(st), if isRequester then rounds + 1 else rounds);
        if isRequester && parser.write(old(st)).0 && |parser.write(old(st)).1| > MAX_MESSAGE
        then stopRequested && sent == [] && st == parser.write(old(st)).2
        else sent == messages && st == st' && stopRequested == stopped
    {
      Init();
      if isRequester {
        WriteFirst();
        if stopRequested {
          return;
        }
      }
      assert sent + Writes(parser, st, rounds).0
          == Writes(parser, old(st), if isRequester then rounds + 1 else rounds).0;
      WriteRounds(rounds);
    }

    /** What has been handled, `done`, led to the record kept and to the state the manager is in. */
    ghost predicate On(st0: S, done: seq<byte>, answers: seq<seq<byte>>)
      reads this
    {
      && Valid() && Follows(parser, CppTooLarge, st0, done, sections, answers, View())
      && (!stopRequested ==> Midway(parser, View()))
    }

    /** One pass of the inner loop moves on by at least a byte. */
    method ConsumeOnce(readBuffer: seq<byte>, bytesParsed: nat,
                       ghost inv: S -> bool, ghost st0: S, ghost done: seq<byte>, ghost answers: seq<seq<byte>>)
      returns (bytesParsed': nat, ghost out: seq<seq<byte>>)
      requires Steady(parser, CppTooLarge, inv) && inv(st0)
      requires On(st0, done, answers) && !stopRequested && bytesParsed < |readBuffer|
      modifies this
      ensures bytesParsed < bytesParsed' <= |readBuffer| && sent == old(sent) + out
      ensures On(st0, done + readBuffer[bytesParsed..bytesParsed'], answers + out)
    {
      ghost var f, before, chunk := View(), sections, readBuffer[bytesParsed..];
      bytesParsed', out := TransferOnce(readBuffer, bytesParsed);
      assert bytesParsed' >= bytesParsed by { TransferTakes(parser, CppTooLarge, f, chunk); }
      assert chunk == readBuffer[bytesParsed..bytesParsed'] + readBuffer[bytesParsed'..];
      TransferAdvances(parser, CppTooLarge, inv, st0, done, before, answers, f, chunk,
                       View(), readBuffer[bytesParsed'..], out, readBuffer[bytesParsed..bytesParsed']);
    }

    /** The inner loop of dataFlow: everything one read returned. */
    method Consume(readBuffer: seq<byte>, ghost inv: S -> bool, ghost st0: S, ghost done: seq<byte>, ghost answers: seq<seq<byte>>)
      returns (ghost answers': seq<seq<byte>>)
      requires Steady(parser, CppTooLarge, inv) && inv(st0)
      requires On(st0, done, answers) && !stopRequested
      modifies this
      ensures exists out :: answers' == answers + out && sent == old(sent) + out
      ensures On(st0, done + readBuffer, answers')
    {
      var bytesParsed := 0;
      ghost var out := [];
      TakenSoFar(done, readBuffer, 0, 0);
      assert sent == old(sent) + [] && answers + [] == answers;
      while !stopRequested && bytesParsed < |readBuffer|
        invariant bytesParsed <= |readBuffer| && sent == old(sent) + out
        invariant On(st0, done + readBuffer[..bytesParsed], answers + out)
        decreases |readBuffer| - bytesParsed
      {
        ghost var from, more := bytesParsed, [];
        bytesParsed, more := ConsumeOnce(readBuffer, bytesParsed, inv, st0, done + readBuffer[..from], answers + out);
        TakenSoFar(done, readBuffer, from, bytesParsed);
        Assoc(answers, out, more);
        Assoc(old(sent), out, more);
        out := out + more;
      }
      answers' := answers + out;
      TakenSoFar(done, readBuffer, bytesParsed, |readBuffer|);
      if stopRequested {
        StoppedAbsorbs(parser, inv, st0, done + readBuffer[..bytesParsed], readBuffer[bytesParsed..], sections, answers', View());
      }
    }

    /** The reading loop, until a read fails or the flow stops. */
    method Receive(chunks: seq<seq<byte>>, ghost inv: S -> bool) returns (ghost answers: seq<seq<byte>>)
      requires Steady(parser, CppTooLarge, inv) && inv(st)
      requires Valid() && View() == Start(parser, st) && sections == []
      modifies this
      ensures Valid() && sent == old(sent) + answers
      ensures Follows(parser, CppTooLarge, old(st), Concat(chunks), sections, answers, View())
    {
      ghost var st0 := st;
      answers := [];
      var k := 0;
      assert sent == old(sent) + [] && chunks[0..] == chunks && [] + Concat(chunks) == Concat(chunks);
      ghost var done: seq<byte> := [];
      while !stopRequested && k < |chunks|
        invariant 0 <= k <= |chunks| && sent == old(sent) + answers
        invariant done + Concat(chunks[k..]) == Concat(chunks) && On(st0, done, answers)
      {
        Assoc(done, chunks[k], Concat(chunks[k + 1..]));
        assert chunks[k..][0] == chunks[k] && chunks[k..][1..] == chunks[k + 1..];
        ghost var before, answered := sent, answers;
        answers := Consume(chunks[k], inv, st0, done, answers);
        ghost var out :| answers == answered + out && sent == before + out;
        Assoc(old(sent), answered, out);
        done := done + chunks[k];
        k := k + 1;
      }
      if stopRequested {
        StoppedAbsorbs(parser, inv, st0, done, Concat(chunks[k..]), sections, answers, View());
      } else {
        assert chunks[k..] == [] && done + [] == done;
      }
    }

    /**
     The whole of dataFlow over the results of successive reads. The division of the stream into reads leaves no
     trace: sections, messages sent and final state are those of the stream itself.
     */
    method DataFlow(chunks: seq<seq<byte>>, ghost inv: S -> bool)
      requires !isInitialized && !stopRequested && sent == [] && sections == []
      requires Steady(parser, CppTooLarge, inv) && inv(st)
      requires isRequester ==> inv(parser.write(st).2) && parser.len(parser.write(st).2) == parser.len(st)
      modifies this
      ensures Valid()
      ensures
        var (ok, first, st0) := if isRequester then parser.write(old(st)) else (true, [], old(st));
        if !ok || |first| > MAX_MESSAGE then stopRequested && sections == [] && sent == [] && st == st0
        else
          var r := Stream(parser, CppTooLarge, st0, Concat(chunks));
          && sections == r.sections && sent == (if first == [] then [] else [first]) + r.sent
          && st == r.st && stopRequested == r.stopped && (!stopRequested ==> View().partial == r.rest)
    {
      Init();
      if isRequester {
        WriteFirst();
        if stopRequested {
          return;
        }
      }
      assert sent == if isRequester && parser.write(old(st)).1 != [] then [parser.write(old(st)).1] else [];
      ghost var answers := Receive(chunks, inv);
    }
  }

  lemma StoppedAbsorbs<S(!new)>(p: Parser<S>, inv: S -> bool, st0: S, done: seq<byte>, more: seq<byte>,
                                sections: seq<seq<byte>>, sent: seq<seq<byte>>, f: Flow<S>)
    requires Steady(p, CppTooLarge, inv) && inv(st0) && f.stopped && Follows(p, CppTooLarge, st0, done, sections, sent, f)
    ensures Follows(p, CppTooLarge, st0, done + more, sections, sent, f)
  {
    StreamAppend(p, CppTooLarge, inv, st0, done, more);
  }

  // ---- the transfer loop over any number of reads ----

  /** The sections handled, the messages sent, and the manager after that. */
  datatype Progress<S> = Progress(sections: seq<seq<byte>>, sent: seq<seq<byte>>, flow: Flow<S>)

  /** The inner loop: transfers until the chunk is used up or the flow stops. */
  function Feed<S>(p: Parser<S>, tooLarge: SizeCheck, g: Progress<S>, chunk: seq<byte>): Progress<S>
    decreases |chunk|
  {
    if chunk == [] || g.flow.stopped then g else
      var (f, rest, out) := Transfer(p, tooLarge, g.flow, chunk);
      var g' := Progress(g.sections + Completed(g.flow, chunk), g.sent + out, f);
      if |rest| < |chunk| then Feed(p, tooLarge, g', rest) else g'
  }

  /** The outer loop: one chunk after another. */
  function FeedAll<S>(p: Parser<S>, tooLarge: SizeCheck, g: Progress<S>, chunks: seq<seq<byte>>): Progress<S>
    decreases |chunks|
  {
    if chunks == [] || g.flow.stopped then g else FeedAll(p, tooLarge, Feed(p, tooLarge, g, chunks[0]), chunks[1..])
  }

  /** The loop is in step with the stream of the bytes it has taken, and in mid-section unless stopped. */
  ghost predicate InStep<S(!new)>(p: Parser<S>, tooLarge: SizeCheck, st0: S, done: seq<byte>, g: Progress<S>) {
    Follows(p, tooLarge, st0, done, g.sections, g.sent, g.flow) && (!g.flow.stopped ==> Midway(p, g.flow))
  }

  lemma {:induction false} FeedKeepsStep<S(!new)>(p: Parser<S>, tooLarge: SizeCheck, inv: S -> bool, st0: S,
                                                  done: seq<byte>, g: Progress<S>, chunk: seq<byte>)
    requires Steady(p, tooLarge, inv) && inv(st0) && InStep(p, tooLarge, st0, done, g)
    ensures InStep(p, tooLarge, st0, done + chunk, Feed(p, tooLarge, g, chunk))
    decreases |chunk|
  {
    if g.flow.stopped {
      StreamAppend(p, tooLarge, inv, st0, done, chunk);
    } else if chunk == [] {
      assert done + chunk == done;
    } else {
      var (f, rest, out) := Transfer(p, tooLarge, g.flow, chunk);
      TransferTakes(p, tooLarge, g.flow, chunk);
      var taken := chunk[..|chunk| - |rest|];
      assert chunk == taken + rest;
      TransferAdvances(p, tooLarge, inv, st0, done, g.sections, g.sent, g.flow, chunk, f, rest, out, taken);
      var g' := Progress(g.sections + Completed(g.flow, chunk), g.sent + out, f);
      FeedKeepsStep(p, tooLarge, inv, st0, done + taken, g', rest);
      Assoc(done, taken, rest);
    }
  }

  lemma {:induction false} FeedAllKeepsStep<S(!new)>(p: Parser<S>, tooLarge: SizeCheck, inv: S -> bool, st0: S,
                                                     done: seq<byte>, g: Progress<S>, chunks: seq<seq<byte>>)
    requires Steady(p, tooLarge, inv) && inv(st0) && InStep(p, tooLarge, st0, done, g)
    ensures InStep(p, tooLarge, st0, done + Concat(chunks), FeedAll(p, tooLarge, g, chunks))
    decreases |chunks|
  {
    if g.flow.stopped {
      StreamAppend(p, tooLarge, inv, st0, done, Concat(chunks));
    } else if chunks == [] {
      assert done + Concat(chunks) == done;
    } else {
      FeedKeepsStep(p, tooLarge, inv, st0, done, g, chunks[0]);
      FeedAllKeepsStep(p, tooLarge, inv, st0, done + chunks[0], Feed(p, tooLarge, g, chunks[0]), chunks[1..]);
      Assoc(done, chunks[0], Concat(chunks[1..]));
    }
  }

  /** The loop, with its partial section and its count of missing bytes, does what the stream specification says. */
  lemma LoopIsStream<S(!new)>(p: Parser<S>, tooLarge: SizeCheck, inv: S -> bool, st: S, chunks: seq<seq<byte>>)
    requires Steady(p, tooLarge, inv) && inv(st)
    ensures InStep(p, tooLarge, st, Concat(chunks), FeedAll(p, tooLarge, Progress([], [], Start(p, st)), chunks))
  {
    assert Stream(p, tooLarge, st, []) == Run([], [], st, [], false);
    FeedAllKeepsStep(p, tooLarge, inv, st, [], Progress([], [], Start(p, st)), chunks);
    assert [] + Concat(chunks) == Concat(chunks);
  }

  /**
   Chunk independence: two ways of cutting up one stream lead the loop to the same sections, messages and stop, and,
   unless it stops, to the same state, partial section and count of missing bytes.
   */
  lemma ChunkIndependence<S(!new)>(p: Parser<S>, tooLarge: SizeCheck, inv: S -> bool, st: S, a: seq<seq<byte>>, b: seq<seq<byte>>)
    requires Steady(p, tooLarge, inv) && inv(st) && Concat(a) == Concat(b)
    ensures var g, h := FeedAll(p, tooLarge, Progress([], [], Start(p, st)), a), FeedAll(p, tooLarge, Progress([], [], Start(p, st)), b);
      && g.sections == h.sections && g.sent == h.sent && g.flow.st == h.flow.st && g.flow.stopped == h.flow.stopped
      && (!g.flow.stopped ==> g.flow == h.flow)
  {
    LoopIsStream(p, tooLarge, inv, st, a);
    LoopIsStream(p, tooLarge, inv, st, b);
  }

  // ---- the specification over chunks ----

  /** Reading chunk after chunk, each handled together with the unfinished section left by the ones before. */
  function Piecewise<S>(p: Parser<S>, tooLarge: SizeCheck, r: Run<S>, chunks: seq<seq<byte>>): Run<S>
    decreases |chunks|
  {
    if chunks == [] || r.stopped then r
    else Piecewise(p, tooLarge, r.Then(Stream(p, tooLarge, r.st, r.rest + chunks[0])), chunks[1..])
  }

  lemma {:induction false} PiecewiseIsStream<S(!new)>(p: Parser<S>, tooLarge: SizeCheck, inv: S -> bool, st: S,
                                                      done: seq<byte>, chunks: seq<seq<byte>>)
    requires Steady(p, tooLarge, inv) && inv(st)
    ensures Piecewise(p, tooLarge, Stream(p, tooLarge, st, done), chunks) == Stream(p, tooLarge, st, done + Concat(chunks))
    decreases |chunks|
  {
    var r := Stream(p, tooLarge, st, done);
    StreamAppend(p, tooLarge, inv, st, done, Concat(chunks));
    if chunks == [] {
      assert done + Concat(chunks) == done;
    } else if !r.stopped {
      StreamAppend(p, tooLarge, inv, st, done, chunks[0]);
      Assoc(done, chunks[0], Concat(chunks[1..]));
      PiecewiseIsStream(p, tooLarge, inv, st, done + chunks[0], chunks[1..]);
    }
  }
}
