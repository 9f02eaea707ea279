/** dataPublisher.h: a queue of encoded values, emptied frame by frame into messages. */
module DataPublisher {
  import opened Bytes
  import opened ByteOrder
  import opened Codec
  import opened DataSignatureCpp
  import opened EncodeInPlace
  import opened Frames

  /** Once a message has reached this size no further frame is put into it. */
  const GROUP_SIZE := 1024

  /** Bodies one after the other, each behind its header. */
  function Framed(bodies: seq<seq<byte>>): seq<byte> {
    if bodies == [] then [] else Frame(1, bodies[0]) + Framed(bodies[1..])
  }

  lemma {:induction false} FramedAppend(a: seq<seq<byte>>, b: seq<seq<byte>>)
    ensures Framed(a + b) == Framed(a) + Framed(b)
  {
    if a == [] {
      assert a + b == b;
    } else {
      assert (a + b)[1..] == a[1..] + b;
      FramedAppend(a[1..], b);
      Assoc(Frame(1, a[0]), Framed(a[1..]), Framed(b));
    }
  }

  lemma FramedLast(queue: seq<seq<byte>>, n: nat)
    requires n < |queue|
    ensures Framed(queue[..n + 1]) == Framed(queue[..n]) + Frame(1, queue[n])
  {
    assert queue[..n + 1] == queue[..n] + [queue[n]];
    FramedAppend(queue[..n], [queue[n]]);
    assert Framed([queue[n]]) == Frame(1, queue[n]) + [];
  }

  lemma FramedGrows(queue: seq<seq<byte>>, m: nat, n: nat)
    requires m <= n <= |queue|
    ensures |Framed(queue[..m])| <= |Framed(queue[..n])|
  {
    assert queue[..n] == queue[..m] + queue[m..n];
    FramedAppend(queue[..m], queue[m..n]);
  }

  /** Each body lies behind the frames of those before it, and its header is its length, in three bytes, and a 1. */
  lemma FramedBytes(bodies: seq<seq<byte>>, k: nat)
    requires k < |bodies| && |bodies[k]| < LENGTH_SPAN
    ensures var off, n := |Framed(bodies[..k])|, |bodies[k]|;
      && off + 4 + n <= |Framed(bodies)|
      && Framed(bodies)[off + 4..off + 4 + n] == bodies[k]
      && var h := Framed(bodies)[off..off + 4];
      h[0] as int == n % 256 && h[1] as int == n / 256 % 256 && h[2] as int == n / 65536 % 256 && h[3] == 1
  {
    FramedLast(bodies, k);
    assert bodies == bodies[..k + 1] + bodies[k + 1..];
    FramedAppend(bodies[..k + 1], bodies[k + 1..]);
    var before, after := Framed(bodies[..k]), Framed(bodies[k + 1..]);
    assert Framed(bodies) == before + Header(1, |bodies[k]|) + bodies[k] + after;
    HeaderBytes(1, |bodies[k]|);
  }

  /**
   The first n bodies of the queue make the next message (`ok`), or the body after them is too long and they are
   lost with it: one body without grouping; with it, bodies until their frames fill 1024 bytes or none is left.
   */
  predicate IsBatch(queue: seq<seq<byte>>, grouping: bool, n: nat, ok: bool) {
    && n <= |queue| && (forall k :: 0 <= k < n ==> |queue[k]| <= LENGTH_SPAN)
    && (n > 1 ==> grouping && |Framed(queue[..n - 1])| < GROUP_SIZE)
    && if ok then n > 0 && (n == |queue| || !grouping || |Framed(queue[..n])| >= GROUP_SIZE)
       else n < |queue| && |queue[n]| > LENGTH_SPAN && (n > 0 ==> grouping && |Framed(queue[..n])| < GROUP_SIZE)
  }

  /** The queue and the grouping switch determine the batch. */
  lemma BatchIsUnique(queue: seq<seq<byte>>, grouping: bool, n: nat, ok: bool, n': nat, ok': bool)
    requires IsBatch(queue, grouping, n, ok) && IsBatch(queue, grouping, n', ok')
    ensures n == n' && ok == ok'
  {
    if n < n' {
      FramedGrows(queue, n, n' - 1);
    } else if n' < n {
      FramedGrows(queue, n', n - 1);
    }
  }

  /** The first n bodies of the queue are in the message, and each but the first was let in by the loop's test. */
  predicate Batched(queue: seq<seq<byte>>, grouping: bool, n: nat) {
    && n <= |queue| && (forall k :: 0 <= k < n ==> |queue[k]| <= LENGTH_SPAN)
    && (n > 1 ==> grouping && |Framed(queue[..n - 1])| < GROUP_SIZE)
  }

  /** What writeMessage has in hand when n bodies have gone from the queue into its message, which was `before`. */
  ghost predicate Grouped(queue: seq<seq<byte>>, grouping: bool, n: nat, before: seq<byte>,
                          left: seq<seq<byte>>, message: seq<byte>, offset: nat)
  {
    && Batched(queue, grouping, n) && left == queue[n..] && offset == |Framed(queue[..n])|
    && message == if n == 0 then before else Framed(queue[..n])
  }

  lemma GroupedStarts(queue: seq<seq<byte>>, grouping: bool, before: seq<byte>)
    ensures Grouped(queue, grouping, 0, before, queue, before, 0)
  {
    assert queue[..0] == [] && queue[0..] == queue;
  }

  lemma OneMoreGrouped(queue: seq<seq<byte>>, grouping: bool, n: nat, before: seq<byte>, left: seq<seq<byte>>,
                       message: seq<byte>, offset: nat, message': seq<byte>)
    requires Grouped(queue, grouping, n, before, left, message, offset) && left != [] && |left[0]| <= LENGTH_SPAN
    requires |message| < GROUP_SIZE && (n > 0 ==> grouping) && offset <= |message|
    requires message' == message[..offset] + Frame(1, left[0])
    ensures Grouped(queue, grouping, n + 1, before, left[1..], message', offset + 4 + |left[0]|)
  {
    FramedLast(queue, n);
    assert queue[..0] == [] && message[..offset] == Framed(queue[..n]);
  }

  /** Where the loop ends: at a body that is too long, or with a whole batch. */
  lemma GroupedEnds(queue: seq<seq<byte>>, grouping: bool, n: nat, before: seq<byte>, left: seq<seq<byte>>,
                    message: seq<byte>, offset: nat)
    requires Grouped(queue, grouping, n, before, left, message, offset)
    ensures left != [] && |left[0]| > LENGTH_SPAN && (n > 0 ==> grouping && |message| < GROUP_SIZE) ==>
              IsBatch(queue, grouping, n, false) && left[1..] == queue[n + 1..]
    ensures n > 0 && (left == [] || !grouping || |message| >= GROUP_SIZE) ==> IsBatch(queue, grouping, n, true)
    ensures offset <= if n == 0 then 0 else |message|
  {
    assert queue[..0] == [];
  }

  class DataPublisher {
    const types: string
    const conv: Converter
    const host: Host
    const groupMessages: bool
    var messageStack: seq<seq<byte>>

    constructor (types: string, conv: Converter, host: Host, groupMessages: bool)
      ensures this.types == types && this.conv == conv && this.groupMessages == groupMessages && messageStack == []
    {
      this.types, this.conv, this.host, this.groupMessages := types, conv, host, groupMessages;
      messageStack := [];
    }

    /** The buffer given to the encoder holds 1024 bytes, so a text of 65536 bytes always overruns it. */
    method Publish(data: seq<Value>) returns (r: Status)
      modifies this`messageStack
      ensures |data| != |types| ==> r == Refused && messageStack == old(messageStack)
      ensures |data| == |types| ==>
        match EncodeFrom(conv, 0, types, data)
        case Ok(b) => r == Done && messageStack == old(messageStack) + [b]
        case Err(f) => r == StatusOf(f) && messageStack == old(messageStack)
    {
      if |data| != |types| {
        return Refused;
      }
      var message := new ByteVector(Resized([], 1024));
      var signature := new DataSignature(types, conv, host);
      LittleRoomIsIdle(conv, 0, 1024, types, data);
      r := signature.ToBinary(data, message);
      if r == Done {
        messageStack := messageStack + [message.data];
      }
    }

    /** One frame written at `offset`, where the message then ends. */
    method PutFrame(stackMessage: seq<byte>, retMessage: ByteVector, offset: nat)
      requires offset <= |retMessage.data|
      modifies retMessage
      ensures retMessage.data == old(retMessage.data)[..offset] + Frame(1, stackMessage)
    {
      retMessage.Resize(offset + 4 + |stackMessage|);
      Uint32ToBytes(host, 16777216 + |stackMessage|, retMessage, offset, true);
      assert retMessage.data[..offset + 4] == old(retMessage.data)[..offset] + Header(1, |stackMessage|);
      retMessage.Store(offset + 4, stackMessage);
      assert retMessage.data == retMessage.data[..offset + 4] + retMessage.data[offset + 4..];
      Assoc(old(retMessage.data)[..offset], Header(1, |stackMessage|), stackMessage);
    }

    /** writeMessage after its wait for a nonempty queue. */
    method WriteMessage(retMessage: ByteVector) returns (ok: bool, ghost n: nat)
      requires messageStack != []
      modifies this`messageStack, retMessage
      ensures |old(retMessage.data)| >= GROUP_SIZE ==>
                ok && retMessage.data == old(retMessage.data) && messageStack == old(messageStack)
      ensures |old(retMessage.data)| < GROUP_SIZE ==>
                IsBatch(old(messageStack), groupMessages, n, ok)
                && messageStack == old(messageStack)[if ok then n else n + 1..]
                && (ok ==> retMessage.data == Framed(old(messageStack)[..n]))
    {
      n := 0;
      var offset: nat := 0;
      var grouping := true;
      ghost var queue, before := messageStack, retMessage.data;
      GroupedStarts(queue, groupMessages, before);
      while grouping && messageStack != [] && |retMessage.data| < 1024
        invariant Grouped(queue, groupMessages, n, before, messageStack, retMessage.data, offset)
        invariant grouping == (n == 0 || groupMessages) && (n > 0 ==> |before| < GROUP_SIZE)
        decreases |messageStack|
      {
        GroupedEnds(queue, groupMessages, n, before, messageStack, retMessage.data, offset);
        grouping := groupMessages;
        ghost var left, message := messageStack, retMessage.data;
        var stackMessage := messageStack[0];
        messageStack := messageStack[1..];
        if |stackMessage| > 16777216 {
          return false, n;
        }
        PutFrame(stackMessage, retMessage, offset);
        OneMoreGrouped(queue, groupMessages, n, before, left, message, offset, retMessage.data);
        offset := offset + 4 + |stackMessage|;
        n := n + 1;
      }
      GroupedEnds(queue, groupMessages, n, before, messageStack, retMessage.data, offset);
      ok := true;
    }
  }
}
