/** udpSocket.h: making a byte stream out of datagrams, the buffering part of `read`. */
module UdpSocket {
  import opened Bytes
  import opened MessageManager

  const MAX_DATAGRAM := 65507

  /** What recvfrom returns. */
  datatype Receipt = Received(d: seq<byte>) | Failed

  /** A read of at most `size` bytes: the bytes, and what is then unread and not yet received. */
  function ReadOnce(unread: seq<byte>, datagrams: seq<seq<byte>>, size: nat): (seq<byte>, seq<byte>, seq<seq<byte>>)
    requires unread != [] || datagrams != []
  {
    var buffer, later := if unread == [] then datagrams[0] else unread, if unread == [] then datagrams[1..] else datagrams;
    var n := Min(size, |buffer|);
    (buffer[..n], buffer[n..], later)
  }

  /** A read takes the front of what is unread, or of the next datagram; it leaves some only if its buffer is full. */
  lemma ReadTakesAllItCan(unread: seq<byte>, datagrams: seq<seq<byte>>, size: nat)
    requires unread != [] || datagrams != []
    ensures var buffer := if unread == [] then datagrams[0] else unread;
      var (chunk, unread', later) := ReadOnce(unread, datagrams, size);
      && chunk + unread' == buffer && |chunk| <= size && (unread' != [] ==> |chunk| == size)
      && later == if unread == [] then datagrams[1..] else datagrams
  {
  }

  /** What successive reads return, what is then unread and not yet received, and whether the last of them failed. */
  datatype Reads = Reads(chunks: seq<seq<byte>>, unread: seq<byte>, later: seq<seq<byte>>, failed: bool)
  {
    /** Bytes that reads to come will return: nothing after a failed read. */
    function Ahead(): seq<byte> {
      if failed then [] else unread + Concat(BeforeEmpty(later))
    }
  }

  /**
   One read after another, until one of them fails, or there is nothing to read and it waits. An empty datagram is taken
   for a disconnected peer.
   */
  function ReadAll(unread: seq<byte>, datagrams: seq<seq<byte>>, sizes: seq<nat>): Reads
    decreases |sizes|
  {
    if sizes == [] || (unread == [] && datagrams == []) then Reads([], unread, datagrams, false)
    else if unread == [] && datagrams[0] == [] then Reads([], [], datagrams[1..], true)
    else
      var (chunk, unread', later) := ReadOnce(unread, datagrams, sizes[0]);
      var more := ReadAll(unread', later, sizes[1..]);
      more.(chunks := [chunk] + more.chunks)
  }

  lemma SplitOff(buffer: seq<byte>, n: nat, later: seq<byte>)
    requires n <= |buffer|
    ensures buffer[..n] + (buffer[n..] + later) == buffer + later
  {
    Assoc(buffer[..n], buffer[n..], later);
    assert buffer[..n] + buffer[n..] == buffer;
  }

  lemma ReadOnceConserves(unread: seq<byte>, datagrams: seq<seq<byte>>, size: nat)
    requires unread != [] || (datagrams != [] && datagrams[0] != [])
    ensures var (chunk, unread', later) := ReadOnce(unread, datagrams, size);
      chunk + (unread' + Concat(BeforeEmpty(later))) == unread + Concat(BeforeEmpty(datagrams))
  {
    var buffer, later := if unread == [] then datagrams[0] else unread, if unread == [] then datagrams[1..] else datagrams;
    SplitOff(buffer, Min(size, |buffer|), Concat(BeforeEmpty(later)));
    if unread == [] {
      assert BeforeEmpty(datagrams)[1..] == BeforeEmpty(later);
      assert unread + Concat(BeforeEmpty(datagrams)) == Concat(BeforeEmpty(datagrams));
    }
  }

  /** Conservation: bytes returned and bytes ahead are together the datagrams before the first empty one, in order. */
  lemma {:induction false} ReadsConserve(unread: seq<byte>, datagrams: seq<seq<byte>>, sizes: seq<nat>)
    ensures var r := ReadAll(unread, datagrams, sizes);
      Concat(r.chunks) + r.Ahead() == unread + Concat(BeforeEmpty(datagrams))
    decreases |sizes|
  {
    if sizes == [] || (unread == [] && datagrams == []) {
      assert [] + (unread + Concat(BeforeEmpty(datagrams))) == unread + Concat(BeforeEmpty(datagrams));
    } else if unread == [] && datagrams[0] == [] {
      assert BeforeEmpty(datagrams) == [];
    } else {
      var (chunk, unread', later) := ReadOnce(unread, datagrams, sizes[0]);
      var more := ReadAll(unread', later, sizes[1..]);
      ReadOnceConserves(unread, datagrams, sizes[0]);
      ReadsConserve(unread', later, sizes[1..]);
      assert ([chunk] + more.chunks)[1..] == more.chunks;
      Assoc(chunk, Concat(more.chunks), more.Ahead());
    }
  }

  /** The bytes before the first empty datagram are all the bytes just if nothing but empty datagrams come after it. */
  lemma {:induction false} AllBytesAhead(datagrams: seq<seq<byte>>)
    ensures Concat(BeforeEmpty(datagrams)) == Concat(datagrams)
       <==> forall k :: |BeforeEmpty(datagrams)| <= k < |datagrams| ==> datagrams[k] == []
  {
    if datagrams != [] {
      var more := datagrams[1..];
      if datagrams[0] != [] {
        AllBytesAhead(more);
        assert BeforeEmpty(datagrams)[1..] == BeforeEmpty(more);
        assert forall k :: 0 <= k < |more| ==> more[k] == datagrams[k + 1];
        assert Concat(BeforeEmpty(datagrams))[|datagrams[0]|..] == Concat(BeforeEmpty(more));
        assert Concat(datagrams)[|datagrams[0]|..] == Concat(more);
        if Concat(BeforeEmpty(more)) == Concat(more) {
          forall k | |BeforeEmpty(datagrams)| <= k < |datagrams|
            ensures datagrams[k] == []
          {
            assert more[k - 1] == [];
          }
        } else {
          var k :| |BeforeEmpty(more)| <= k < |more| && more[k] != [];
          assert datagrams[k + 1] != [];
        }
      } else {
        NoBytes(datagrams);
      }
    }
  }

  lemma {:induction false} NoBytes(parts: seq<seq<byte>>)
    ensures Concat(parts) == [] <==> forall k :: 0 <= k < |parts| ==> parts[k] == []
  {
    if parts != [] {
      NoBytes(parts[1..]);
      assert forall k :: 0 <= k < |parts[1..]| ==> parts[1..][k] == parts[k + 1];
      if parts[0] == [] && Concat(parts[1..]) != [] {
        var k :| 0 <= k < |parts[1..]| && parts[1..][k] != [];
        assert parts[k + 1] != [];
      }
    }
  }

  /**
   Over datagrams the reading loop is chunk independent too: wherever the datagrams and the read sizes put the cuts,
   the parser is led where the bytes before the first empty datagram lead it, once they have been read; and until then
   what is still ahead leads on from there.
   */
  lemma DatagramsAreAStream<S(!new)>(p: Parser<S>, tooLarge: SizeCheck, inv: S -> bool, st: S,
                                     datagrams: seq<seq<byte>>, sizes: seq<nat>)
    requires Steady(p, tooLarge, inv) && inv(st)
    ensures var got := ReadAll([], datagrams, sizes);
      var g := FeedAll(p, tooLarge, Progress([], [], Start(p, st)), got.chunks);
      var all := Stream(p, tooLarge, st, Concat(BeforeEmpty(datagrams)));
      && (got.Ahead() == [] ==> InStep(p, tooLarge, st, Concat(BeforeEmpty(datagrams)), g))
      && all == (var r := Stream(p, tooLarge, st, Concat(got.chunks));
                 if r.stopped then r else r.Then(Stream(p, tooLarge, r.st, r.rest + got.Ahead())))
  {
    var got := ReadAll([], datagrams, sizes);
    ReadsConserve([], datagrams, sizes);
    assert [] + Concat(BeforeEmpty(datagrams)) == Concat(BeforeEmpty(datagrams));
    LoopIsStream(p, tooLarge, inv, st, got.chunks);
    StreamAppend(p, tooLarge, inv, st, Concat(got.chunks), got.Ahead());
    assert Concat(got.chunks) + [] == Concat(got.chunks);
  }

  /**
   The manager's read buffer is larger than any datagram, so it gets them one by one up to the first empty one: all of
   them just if none is empty.
   */
  lemma {:induction false} LargeReadsGetDatagrams(datagrams: seq<seq<byte>>, sizes: seq<nat>)
    requires |sizes| == |datagrams| && forall k :: 0 <= k < |sizes| ==> |datagrams[k]| <= MAX_DATAGRAM <= sizes[k]
    ensures ReadAll([], datagrams, sizes).chunks == BeforeEmpty(datagrams)
    ensures ReadAll([], datagrams, sizes).failed <==> [] in datagrams
    ensures ReadAll([], datagrams, sizes).Ahead() == []
    decreases |sizes|
  {
    if sizes != [] && datagrams[0] != [] {
      LargeRead(datagrams, sizes);
      LargeReadsGetDatagrams(datagrams[1..], sizes[1..]);
      EmptyAmong(datagrams);
    } else if sizes != [] {
      assert [] in datagrams;
    }
  }

  /** A large read takes the first datagram and leaves the rest. */
  lemma LargeRead(datagrams: seq<seq<byte>>, sizes: seq<nat>)
    requires sizes != [] && datagrams != [] && datagrams[0] != [] && |datagrams[0]| <= sizes[0]
    ensures var more := ReadAll([], datagrams[1..], sizes[1..]);
      ReadAll([], datagrams, sizes) == more.(chunks := [datagrams[0]] + more.chunks)
  {
    var first := datagrams[0];
    assert Min(sizes[0], |first|) == |first| && first[..|first|] == first && first[|first|..] == [];
  }

  lemma EmptyAmong(datagrams: seq<seq<byte>>)
    requires datagrams != [] && datagrams[0] != []
    ensures [] in datagrams <==> [] in datagrams[1..]
  {
    assert datagrams == [datagrams[0]] + datagrams[1..];
  }

  // ---- how far the reading loop has come ----

  /** `chunks` have been read, and `all` is that followed by what is left to read. */
  ghost predicate ReadsLeft(all: Reads, chunks: seq<seq<byte>>, unread: seq<byte>, later: seq<seq<byte>>, sizes: seq<nat>, failed: bool) {
    if failed then all == Reads(chunks, unread, later, true)
    else var more := ReadAll(unread, later, sizes); all == more.(chunks := chunks + more.chunks)
  }

  lemma OneMoreRead(all: Reads, chunks: seq<seq<byte>>, unread: seq<byte>, later: seq<seq<byte>>, sizes: seq<nat>)
    requires ReadsLeft(all, chunks, unread, later, sizes, false) && sizes != [] && (unread != [] || later != [])
    ensures if unread == [] && later[0] == [] then ReadsLeft(all, chunks, [], later[1..], sizes, true)
            else var (chunk, unread', later') := ReadOnce(unread, later, sizes[0]);
                 ReadsLeft(all, chunks + [chunk], unread', later', sizes[1..], false)
  {
    if unread == [] && later[0] == [] {
      assert chunks + [] == chunks;
    } else {
      var (chunk, unread', later') := ReadOnce(unread, later, sizes[0]);
      Assoc(chunks, [chunk], ReadAll(unread', later', sizes[1..]).chunks);
    }
  }

  lemma NoReadLeft(all: Reads, chunks: seq<seq<byte>>, unread: seq<byte>, later: seq<seq<byte>>, sizes: seq<nat>, failed: bool)
    requires ReadsLeft(all, chunks, unread, later, sizes, failed) && (failed || sizes == [] || (unread == [] && later == []))
    ensures all == Reads(chunks, unread, later, failed)
  {
    assert chunks + [] == chunks;
  }

  class UdpSocket {
    var internalBuffer: seq<byte>
    var internalBufferStartPos: int
    var internalBufferEndPos: int

    constructor ()
      ensures Valid() && Unread() == []
    {
      internalBuffer := Resized([], MAX_DATAGRAM);
      internalBufferStartPos, internalBufferEndPos := 0, 0;
    }

    predicate Valid()
      reads this
    {
      |internalBuffer| == MAX_DATAGRAM && 0 <= internalBufferStartPos <= internalBufferEndPos <= MAX_DATAGRAM
    }

    function Unread(): seq<byte>
      reads this
      requires Valid()
    {
      internalBuffer[internalBufferStartPos..internalBufferEndPos]
    }

    /**
     `receipt` is what recvfrom would return; it is asked only when the buffer is used up. After a failed receive the
     positions no longer make sense, and the socket must not be read again.
     */
    method Read(bytes: ByteVector, receipt: Receipt) returns (ok: bool, bytesRead: nat)
      requires Valid() && (receipt.Received? ==> |receipt.d| <= MAX_DATAGRAM)
      modifies this, bytes
      ensures ok <==> old(Unread()) != [] || (receipt.Received? && receipt.d != [])
      ensures Valid() <==> old(Unread()) != [] || receipt.Received?
      ensures !ok && Valid() ==> Unread() == []
      ensures !ok ==> bytes.data == old(bytes.data)
      ensures ok ==> Valid() && bytesRead <= |bytes.data| == |old(bytes.data)|
      ensures ok ==> bytes.data[bytesRead..] == old(bytes.data)[bytesRead..]
      ensures ok ==>
        var (chunk, unread, _) := ReadOnce(old(Unread()), if old(Unread()) == [] then [receipt.d] else [], |bytes.data|);
        bytes.data[..bytesRead] == chunk && Unread() == unread
    {
      bytesRead := 0;
      if internalBufferStartPos == internalBufferEndPos {
        internalBufferStartPos := 0;
        internalBufferEndPos := 0;
        if receipt.Failed? {
          internalBufferEndPos := -1;
          return false, 0;
        }
        internalBuffer := Overwritten(internalBuffer, 0, receipt.d);
        internalBufferEndPos := |receipt.d|;
        assert internalBuffer[0..|receipt.d|] == receipt.d;
        if |receipt.d| == 0 {
          return false, 0;
        }
      }
      bytesRead := Deliver(bytes);
      ok := true;
    }

    /** Reads of the given sizes, as the reading loop makes them, from a network that delivers these datagrams. */
    method ReadLoop(datagrams: seq<seq<byte>>, sizes: seq<nat>) returns (chunks: seq<seq<byte>>, failed: bool, next: nat)
      requires Valid() && forall k :: 0 <= k < |datagrams| ==> |datagrams[k]| <= MAX_DATAGRAM
      modifies this
      ensures Valid() && next <= |datagrams|
      ensures Reads(chunks, Unread(), datagrams[next..], failed) == ReadAll(old(Unread()), datagrams, sizes)
    {
      ghost var all := ReadAll(Unread(), datagrams, sizes);
      chunks, failed, next := [], false, 0;
      var i := 0;
      assert datagrams[0..] == datagrams && sizes[0..] == sizes && [] + all.chunks == all.chunks;
      while !failed && i < |sizes| && (internalBufferStartPos != internalBufferEndPos || next < |datagrams|)
        invariant Valid() && 0 <= i <= |sizes| && next <= |datagrams|
        invariant ReadsLeft(all, chunks, Unread(), datagrams[next..], sizes[i..], failed)
        decreases |sizes| - i, !failed
      {
        OneMoreRead(all, chunks, Unread(), datagrams[next..], sizes[i..]);
        assert datagrams[next..] != [] ==> datagrams[next..][0] == datagrams[next] && datagrams[next..][1..] == datagrams[next + 1..];
        assert sizes[i..][0] == sizes[i] && sizes[i..][1..] == sizes[i + 1..];
        ghost var before := Unread();
        var bytes := new ByteVector(Resized([], sizes[i]));
        var receipt := Received([]);
        if internalBufferStartPos == internalBufferEndPos {
          receipt := Received(datagrams[next]);
          next := next + 1;
        }
        var ok, bytesRead := Read(bytes, receipt);
        if ok {
          chunks := chunks + [bytes.data[..bytesRead]];
          i := i + 1;
        } else {
          failed := true;
        }
      }
      NoReadLeft(all, chunks, Unread(), datagrams[next..], sizes[i..], failed);
    }

    /** The second half of read: as much of the buffer as fits. */
    method Deliver(bytes: ByteVector) returns (bytesRead: nat)
      requires Valid()
      modifies this`internalBufferStartPos, this`internalBufferEndPos, bytes
      ensures Valid() && bytesRead == Min(|old(bytes.data)|, |old(Unread())|) && |bytes.data| == |old(bytes.data)|
      ensures bytes.data[..bytesRead] == old(Unread())[..bytesRead] && Unread() == old(Unread())[bytesRead..]
      ensures bytes.data[bytesRead..] == old(bytes.data)[bytesRead..]
    {
      var bytesInInternalBuffer := internalBufferEndPos - internalBufferStartPos;
      ghost var buffer := Unread();
      if |bytes.data| <= bytesInInternalBuffer {
        bytesRead := |bytes.data|;
        bytes.Store(0, internalBuffer[internalBufferStartPos..internalBufferStartPos + bytesRead]);
        internalBufferStartPos := internalBufferStartPos + bytesRead;
      } else {
        bytes.Store(0, internalBuffer[internalBufferStartPos..internalBufferEndPos]);
        internalBufferStartPos := 0;
        internalBufferEndPos := 0;
        bytesRead := bytesInInternalBuffer;
      }
      assert bytes.data[0..bytesRead] == buffer[..bytesRead] && Unread() == buffer[bytesRead..];
    }
  }
}
