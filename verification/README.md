# rpcmple, modelled and verified in Dafny

rpcmple lets a C++ and a Go process call each other's procedures and publish data over any byte stream. Four layers
stack up, and this project models each of them and proves what the stack as a whole promises.

- **Byte order and codec.** `Bytes`, `ByteOrder`, `Codec`, `CodecLaws`, `CodecAgreement`, `Canonicity`, `WireFormat`,
  `WireReading`, `EncodeInPlace`, `DataSignatureCpp`, `DataSignatureGo`. A signature string drives an encoder and a decoder. `Codec` is the
  specification, with a `Dialect` where the two implementations differ. The C++ code is a class that encodes in place
  into a buffer of any old size and content and decodes by offset; the Go code is a pair of methods over a writer and a
  reader. Both are proved against the specification, and the laws are proved about the specification. `EncodeInPlace`
  says what the size of the C++ buffer changes, and where it changes nothing. `WireFormat` and `WireReading` say byte by
  byte which bytes stand for which values, and prove that the encoders write, and the decoders read, exactly these.
- **Framing and reassembly.** `Frames`, `MessageManager`, `MessageManagerGo`. `Stream` says what a byte stream means to
  a parser that announces section lengths; the two `dataFlow` loops are compared with it.
- **Sessions.** `RpcServer`, `RpcClient`, `RpcServing`, `RpcSession`, `RpcSessionLaws`, `RpcSessionRuns` for a C++ client,
  `GoClient`, `GoSession`, `GoSessionLaws`, `GoSessionRuns` for a Go client of the same server. Each session is a labelled step
  system in which the caller's thread, the client's flow and the server interleave at every critical section, and a read
  returns any nonempty prefix of what is in its channel. It is proved to refine calling the procedures directly. `AnyFrame` says what each end makes of any frame at all.
- **Publish and subscribe.** `DataPublisher`, `DataSubscriber`, `PublishSession`, and `UdpSocket`, which makes a byte
  stream out of datagrams.

The main results are statements over all runs: `RpcSessionLaws.RemoteCallsAreDirectCalls`,
`RpcSessionLaws.OnePlaceHoldsTheCall`, `RpcSessionLaws.WhenCallsAreLost`, `RpcSessionRuns.ReturnsExactly`,
`GoSessionRuns.RepliesMeetRequests`, `GoSessionRuns.PatienceIsExact`, `GoSessionRuns.WhenCallsAreLost`, `PublishSession.PublishedInOrder`,
`PublishSession.StreamIsConserved`, `PublishSession.WhenPublishingStops`; over all streams and all ways of cutting them up:
`MessageManager.ChunkIndependence`, `MessageManager.MessageManager.DataFlow`, `MessageManagerGo.GoLoopIsExact`,
`UdpSocket.DatagramsAreAStream`; and over all signatures and values: `CodecLaws.ArrivesExactly`,
`WireFormat.ListEncodedExactly`, `WireReading.TypedReadExactly`, `CodecAgreement.OneWireFormat`, `Canonicity.Canonical`, `CodecLaws.PrefixFree`, `CodecLaws.PrefixesExactly`.

## Where the code and its documentation part

The model follows the code.

- The limits for strings, arrays (65536) and signatures (16777216 bytes) in the repository's `README.md:37` are
  accepted by the guards but do not survive the wire: a count of 65536 is written as 0, and a body of 16777216 bytes is
  announced as an empty body of the next procedure (`CodecLaws.ArrivesExactly`, `Frames.HeaderIsExact`). A text of
  exactly 65536 bytes makes the C++ encoder copy more than it made room for. From a buffer of less than 65536 bytes that
  always overruns it; from a larger one it does unless 65536 bytes are left at that point, and then the text goes out
  empty (`EncodeInPlace.RoomHardlyMatters`, `EncodeInPlace.RoomyEncoding`).
- The C++ encoder and decoder keep their offset in an `int`. Up to 2^31 - 1 bytes they do what is specified; what the
  guards on counts accept can be longer, and where the offset would overflow the model reports a fault and ends
  (`EncodeInPlace.RoomHardlyMatters`, `DataSignatureCpp.DataSignature.FromBinary`).
- Go writes all of an array or a text that fills the limit of 65536 behind a count of 0, so the encoding of 65536 numbers
  begins with the encoding of none (`CodecLaws.FullExtendsEmpty`, `CodecLaws.PrefixesExactly`).
- The repository's `README.md:31` gives 'u' as the variant's letter; the code uses 'v'.
- The C++ size check before a reply looks at the section just parsed, the Go check at the reply
  (`MessageManager.SizeChecksDiffer`).
- A server calls a procedure even if its arguments do not decode, with int64 zeros for those that are missing; only an
  exception, or an identifier no procedure has, keeps it from calling (`AnyFrame.RequestDecides`).
- Only a publisher's first message is checked against 16777220 bytes, and grouping can make it longer though no value
  is: then the message is dropped with all the values in it, the flow stops, and nothing ever arrives, while the queue is
  empty (`PublishSession.WhenPublishingStops`, `PublishSession.DroppedIsLost`, `PublishSession.GroupingLosesBoth`).
- `waitPublishComplete` waits for an empty queue, which is before the last message has been written
  (`PublishSession.EmptyQueueIsComplete`, `PublishSession.WaitingCanEndEarly`).
- The Go reading loop takes up to a whole section length from each read instead of the bytes missing. It agrees with the
  stream just if no read that arrives mid-section is longer than what is missing, and is stuck for good after one that
  is (`MessageManagerGo.GoLoopIsExact`).
- An empty datagram is taken for a disconnected peer and ends the reading loop, so the datagrams after it never arrive
  (`UdpSocket.DatagramsAreAStream`, `UdpSocket.AllBytesAhead`).
- A Go `Call` whose arguments cannot be serialised returns without releasing the client's lock, so no reply is delivered
  after it (`GoSessionRuns.WhenCallsAreLost`, `GoSessionRuns.LostStays`).
- In a Go program requests and replies meet if and only if no call is prepared, while another is unanswered, that asks
  for something else (`GoSessionRuns.PatienceIsExact`). A different call prepared between the hand-over of the first one
  and its copying takes its place: it is sent twice, the first one never, and the first callback is its own
  (`GoSessionRuns.OvertakingCallRunsTwice`, `GoSessionRuns.WrongCallback`).

## Conditions the theorems carry

Signatures on the two ends agree up to wide and narrow strings; at most 256 procedures, in the same order; one calling
thread; values within the counts that survive, and no NUL in text received as a wide string; encodings of at most
2^31 - 1 bytes and bodies not exactly 2^24 bytes long; procedures that fail or return too much stop the server, and the call is then lost, never answered wrongly.
Each is a named predicate (`Setup.WellFormed`, `Setup.Proper`, `Setup.Publishable`, `CodecLaws.AllDeliver`).

## Model

| member | source | states |
|---|---|---|
| ByteOrder.SwapIsReversal | rpcmple_cpp/include/rpcmple/rpcmple.h:41-58 | The mask-and-shift swaps are byte reversal, for all three widths |
| ByteOrder.SwapIsInvolution | rpcmple_cpp/include/rpcmple/rpcmple.h:41-58 | Swapping twice is the identity |
| ByteOrder.Int64ToBytes | rpcmple_cpp/include/rpcmple/rpcmple.h:73-84 | On either host, writes the eight two's-complement digits to the base 256 in the order asked for, and nothing else |
| ByteOrder.Uint32ToBytes | rpcmple_cpp/include/rpcmple/rpcmple.h:99-110 | On either host, writes the four low digits to the base 256 in the order asked for, and nothing else |
| ByteOrder.Uint16ToBytes | rpcmple_cpp/include/rpcmple/rpcmple.h:112-123 | On either host, writes the two low digits to the base 256 in the order asked for, and nothing else |
| ByteOrder.BytesToInt64 | rpcmple_cpp/include/rpcmple/rpcmple.h:179-192 | On either host, reads the sum of the bytes' weights in the order asked for, less 2^64 if the top byte is 128 or more |
| ByteOrder.BytesToUint32 | rpcmple_cpp/include/rpcmple/rpcmple.h:153-164 | On either host, reads the sum of the bytes' weights in the order asked for |
| ByteOrder.BytesToDouble | rpcmple_cpp/include/rpcmple/rpcmple.h:125-138 | On either host, reads the 64-bit pattern with these bytes, low byte first or last as asked for |
| ByteOrder.IntBytesInverse | rpcmple_cpp/include/rpcmple/rpcmple.h:73-84 | Signed numbers and their eight bytes determine each other |
| ByteOrder.UIntBytesInverse | rpcmple_cpp/include/rpcmple/rpcmple.h:86-97 | Unsigned numbers and their eight bytes determine each other |
| Bytes.ToLEByte | rpcmple_cpp/include/rpcmple/rpcmple.h:99-123 | Byte j of a number written little-endian is its digit of weight 256^j, for every number and width |
| Bytes.FromLEWeighs | rpcmple_cpp/include/rpcmple/rpcmple.h:140-164 | The number read is the sum of the bytes, byte j weighing 256^j |
| ByteOrder.TwosComplement | rpcmple_cpp/include/rpcmple/rpcmple.h:73-84 | Byte k of a signed number is its two's-complement digit of weight 256^k |
| ByteOrder.SignByte | rpcmple_cpp/include/rpcmple/rpcmple.h:179-192 | Eight bytes stand for the sum of their weights, less 2^64 just if the last of them is 128 or more |
| ByteOrder.LowByteFirst64 | rpcmple_cpp/include/rpcmple/rpcmple.h:60-71 | The first byte of a word is its low one, and shifting the word right by eight bits moves every byte one place forward |
| ByteOrder.ShiftDivides | rpcmple_cpp/include/rpcmple/rpcmple.h:86-97 | Numbers and bit patterns agree on which byte is first: shifting right by eight bits divides by 256 |
| ByteOrder.CrossHost64 | rpcmple_cpp/include/rpcmple/rpcmple.h:60-192 | The 64-bit word that a host of one byte order writes, a host of either order reads back, and both agree on the bytes |
| ByteOrder.CrossHost32 | rpcmple_cpp/include/rpcmple/rpcmple.h:99-164 | The same for 32-bit words |
| ByteOrder.CrossHost16 | rpcmple_cpp/include/rpcmple/rpcmple.h:112-151 | The same for 16-bit words |
| DataSignatureCpp.DataSignature.ToBinary | rpcmple_cpp/include/rpcmple/dataSignature.h:159-528 | In-place encoding into a buffer of any size and stale content leaves exactly the encoding specified for a buffer of that size, or reports its fault; an offset past 2^31 - 1 and the one copy that can overrun the buffer are reported as faults, and every other write lands inside it |
| EncodeInPlace.RoomHardlyMatters | rpcmple_cpp/include/rpcmple/dataSignature.h:351-526 | From less than 65536 bytes, and for every list that does not overrun an empty buffer, the encoding is that from an empty buffer if that is no longer than the offset may go, and the offset overflows if it is longer |
| EncodeInPlace.RoomyEncoding | rpcmple_cpp/include/rpcmple/dataSignature.h:436-466 | Where nothing is overrun, 65536 bytes of room being left at every text of that length, the encoding is that of the list with those texts empty |
| EncodeInPlace.OverrunsExactly | rpcmple_cpp/include/rpcmple/dataSignature.h:436-466 | Behind any list encoded within the room there was, a text of 65536 bytes overruns the buffer if and only if less than its two length bytes and 65536 more are left; otherwise it goes out as 00 00 |
| DataSignatureCpp.DataSignature.FromBinary | rpcmple_cpp/include/rpcmple/dataSignature.h:530-810 | For messages of at most 2^31 - 1 bytes, decoding by offset yields exactly the specified values, the specified fault, and after a fault the values before it followed by the slots as they were; no read is out of bounds |
| DataSignatureCpp.DataSignature.PutTexts | rpcmple_cpp/include/rpcmple/dataSignature.h:384-526 | The string-array branches, from any buffer: count, then each string behind its length, and the room left |
| DataSignatureCpp.DataSignature.PutVector | rpcmple_cpp/include/rpcmple/dataSignature.h:214-349 | The number-array branches: count modulo 65536, then that many words |
| DataSignatureCpp.DataSignature.GetTexts | rpcmple_cpp/include/rpcmple/dataSignature.h:708-808 | The string-array branches of the decoder with their bounds checks |
| DataSignatureGo.ToBinary | rpcmple_go/datasignature.go:40-243 | Appends exactly the specified encoding and succeeds just when there is one |
| DataSignatureGo.FromBinary | rpcmple_go/datasignature.go:247-394 | Succeeds just when the specified decoding has no fault, with its values, leaving the reader after them |
| WireFormat.EncodedExactly | rpcmple_cpp/include/rpcmple/dataSignature.h:159-528 | These bytes are what an encoder writes for a value under a letter if and only if the value may be sent under it and they are, byte by byte, its format: the type letter's ASCII code under 'v', counts and lengths in two little-endian bytes, numbers in eight, texts as they are |
| WireFormat.ListEncodedExactly | rpcmple_go/datasignature.go:40-243 | The same for lists: item after item in the order of the signature, nothing in between |
| WireFormat.RefusedExactly | rpcmple_go/datasignature.go:40-243 | Why an encoder refuses a value: which fault it reports, for every value, letter and implementation |
| WireFormat.ListRefusedExactly | rpcmple_cpp/include/rpcmple/dataSignature.h:159-528 | A refused list is refused for its first refused item, with that item's fault |
| WireReading.TypedReadExactly | rpcmple_go/datasignature.go:247-394 | Go reads a value from the front of some bytes if and only if the letter is one of the value's and the bytes begin with its format, the rest being what follows |
| WireReading.OnlyIncomplete | rpcmple_go/datasignature.go:247-394 | Under a type letter Go's decoder gives up for want of bytes and for nothing else |
| WireReading.CppReadsAsGo | rpcmple_cpp/include/rpcmple/dataSignature.h:541-808 | C++ reads what Go reads, with wide strings under 'w' and 'W': the text before the first NUL, converted, and an exception if one cannot be |
| WireReading.ThrowsExactly | rpcmple_cpp/include/rpcmple/dataSignature.h:708-743 | On an array of wide strings C++ throws if and only if some string is all there, as are those before it, and cannot be converted |
| WireReading.VariantReadExactly | rpcmple_cpp/include/rpcmple/dataSignature.h:541-560 | A variant is read under the letter whose ASCII code its first byte is, wide letters included, and not at all for any other byte |
| WireReading.ListReadExactly | rpcmple_cpp/include/rpcmple/dataSignature.h:530-810 | A list is read up to the first item that cannot be, with that item's fault and all that was left to read for it |
| WireReading.ImageIs | rpcmple_cpp/include/rpcmple/dataSignature.h:541-742 | What a receiver is meant to see of one value: itself, a string in the form of the receiver's letter |
| WireReading.ImagesOfTexts | rpcmple_cpp/include/rpcmple/dataSignature.h:708-808 | The same for an array of strings, string by string |
| CodecLaws.TagIsCode | rpcmple_cpp/include/rpcmple/dataSignature.h:169-193 | A variant's tag is the ASCII code of its type letter, and a byte is a tag just if it is the code of one |
| CodecLaws.ItemRoundTrip | rpcmple_cpp/include/rpcmple/dataSignature.h:159-810 | One value, any letter including the variant, either encoder, either decoder, any continuation: its image comes back and the continuation is untouched |
| CodecLaws.RoundTrip | rpcmple_cpp/include/rpcmple/dataSignature.h:159-810 | The same for value lists under any compatible signatures: the images, exactly the encoding's length consumed, no fault |
| CodecLaws.ArrivesExactly | rpcmple_go/datasignature.go:98-225 | An accepted value list arrives, with any continuation, if and only if every count is below 65536 and every wide-string receiver's text is readable and free of NUL |
| CodecLaws.ItemArrivesExactly | rpcmple_cpp/include/rpcmple/dataSignature.h:351-526 | The same for one value |
| CodecLaws.DecodeExtends | rpcmple_cpp/include/rpcmple/dataSignature.h:530-810 | A decoding that succeeds is not changed by bytes after it |
| CodecLaws.TruncationRejected | rpcmple_cpp/include/rpcmple/dataSignature.h:541-808 | Every strict prefix of bytes that decode completely is rejected, by either decoder |
| CodecLaws.PrefixFree | rpcmple_go/datasignature.go:247-394 | Among lists within the counts that survive no encoding is a proper prefix of another, whichever encoder wrote them, and equal encodings carry equal values |
| CodecLaws.PrefixesExactly | rpcmple_go/datasignature.go:98-225 | One value, arrays of strings apart: its encoding goes on from another one of the same letter if and only if Go wrote it and its count or length is 65536 |
| CodecLaws.FullExtendsEmpty | rpcmple_go/datasignature.go:98-225 | The failing inputs: Go's encoding of 65536 elements or bytes goes on from that of none, under every letter |
| CodecAgreement.OneWireFormat | rpcmple_go/datasignature.go:40-243 | Go and C++ write identical bytes for a value list if and only if it holds no array of exactly 65536 elements |
| CodecAgreement.VariantNormalises | rpcmple_cpp/include/rpcmple/dataSignature.h:169-193 | A value sent as a variant by either encoder is decoded by either decoder with its wide strings as UTF-8 strings and nothing else changed; sending what was decoded again changes neither the bytes nor the value decoded |
| Canonicity.Canonical | rpcmple_cpp/include/rpcmple/dataSignature.h:530-810 | For every signature, decoder and encoder: what was accepted re-encodes to the bytes consumed if and only if no variant carries a wide tag, no wide string changes sides, and no wide string C++ received contains a NUL; the new encoding is never longer |
| Canonicity.ItemCanonical | rpcmple_cpp/include/rpcmple/dataSignature.h:541-742 | The same for one value |
| Frames.HeaderRoundTrip | rpcmple_cpp/include/rpcmple/rpcServer.h:181-183 | Identifier and length below 2^24 are read back from the packed header |
| Frames.HeaderIsExact | rpcmple_go/rpcmplesignature.go:62-68 | What the header reads back as, for every identifier and every accepted length: the identifier modulo 256, or with a length of 2^24 the next one and length 0; so it is inverse if and only if the identifier is below 256 and the length below 2^24 |
| Frames.HeaderBytes | rpcmple_cpp/include/rpcmple/rpcClient.h:228-229 | The four bytes of a header: the length modulo 256, / 256 modulo 256, / 65536 modulo 256, and the identifier modulo 256 |
| MessageManager.StreamAppend | rpcmple_cpp/include/rpcmple/messageManager.h:121-182 | A stream may be handled in two pieces, carrying the unfinished section over |
| MessageManager.StreamSteady | rpcmple_cpp/include/rpcmple/messageManager.h:121-182 | After any stream the parser's invariant holds and less than a section is left over |
| MessageManager.TransferFollowsStream | rpcmple_cpp/include/rpcmple/messageManager.h:130-182 | One pass of the inner loop does with the bytes it takes what the stream specification does |
| MessageManager.TransferAdvances | rpcmple_cpp/include/rpcmple/messageManager.h:130-182 | Each pass takes at least one byte and keeps the manager in step with the stream |
| MessageManager.MessageManager.TransferOnce | rpcmple_cpp/include/rpcmple/messageManager.h:130-182 | The pass over the section buffer and its three counters is the specified transfer; copies stay in the buffer |
| MessageManager.MessageManager.WriteOnly | rpcmple_cpp/include/rpcmple/messageManager.h:184-206 | One pass of the branch for a parser that announces length 0, with its whole new state |
| MessageManager.MessageManager.WriteFlow | rpcmple_cpp/include/rpcmple/messageManager.h:75-211 | The whole flow of a parser that always announces length 0: the messages of so many writes in order, up to the first that fails |
| MessageManager.MessageManager.AnswerSection | rpcmple_cpp/include/rpcmple/messageManager.h:145-181 | A full section buffer is parsed and answered as specified, and the next section begun |
| MessageManager.MessageManager.WriteFirst | rpcmple_cpp/include/rpcmple/messageManager.h:82-109 | The requester's first message, and when it stops the flow |
| MessageManager.MessageManager.Consume | rpcmple_cpp/include/rpcmple/messageManager.h:130-182 | One read handled in full, for any read and any state in mid-section |
| MessageManager.MessageManager.DataFlow | rpcmple_cpp/include/rpcmple/messageManager.h:75-211 | Over any successive reads: sections, messages sent, final state, stop and unfinished section are those of the concatenated stream |
| MessageManager.LoopIsStream | rpcmple_cpp/include/rpcmple/messageManager.h:115-182 | Iterated transfers, with their partial section and missing count, stay in step with the stream of the bytes taken, for any division into reads |
| MessageManager.ChunkIndependence | rpcmple_cpp/include/rpcmple/messageManager.h:115-182 | Two divisions of one stream lead the transfer loop to the same sections, messages and stop, and to the same state, partial section and missing count |
| MessageManager.WhenHandlingStops | rpcmple_cpp/include/rpcmple/messageManager.h:145-176 | A section stops the flow if and only if it is not parsed, is not answered, or fails the size check on a nonempty answer; the answer is sent just if the flow goes on |
| MessageManager.SizeChecksDiffer | rpcmple_go/messagemanager.go:152-157 | After a section of any announced size C++ sends an answer of any size, and Go stops if its length modulo 2^32 exceeds 16777220 |
| MessageManager.WritesAppend | rpcmple_cpp/include/rpcmple/messageManager.h:184-206 | So many writes and then so many more are all of them in one go, unless one of the first has failed |
| MessageManagerGo.GoMessageManager.TransferOnce | rpcmple_go/messagemanager.go:128-169 | The Go pass, with `Next` of a whole section length and a missing count that may go negative |
| MessageManagerGo.GoMessageManager.DataFlow | rpcmple_go/messagemanager.go:81-176 | The Go loop over any successive reads, which one that brings nothing ends |
| MessageManagerGo.GoMessageManager.WriteFirst | rpcmple_go/messagemanager.go:179-207 | A requester's first message, and when it stops the flow: unwritten, empty or too large |
| MessageManagerGo.GoMessageManager.WriteFlow | rpcmple_go/messagemanager.go:87-126 | The whole loop of a parser that always announces length 0: the messages of so many writes in order, up to the first that fails or is too large |
| MessageManagerGo.WedgedForever | rpcmple_go/messagemanager.go:128-169 | Once the missing count is negative it stays so and no section is delivered, whatever comes |
| MessageManagerGo.ReceiveExactly | rpcmple_go/messagemanager.go:128-169 | From any state in step with the stream, over reads that bring something: in step to the end if every read fits, fewer sections and a negative count otherwise |
| MessageManagerGo.GoLoopIsExact | rpcmple_go/messagemanager.go:90-169 | Up to a read that brings nothing, the Go loop delivers the stream's sections if and only if every read fits, and then also its messages and state |
| RpcServer.ServerIsSteady | rpcmple_cpp/include/rpcmple/rpcServer.h:174-221 | The server announces 4 or a positive length below 2^24 after every section it accepts, so the flow never stops reading |
| RpcServer.RpcServer.AppendSignature | rpcmple_cpp/include/rpcmple/rpcServer.h:167-171 | Procedures are numbered in the order they are appended |
| RpcServer.RpcServer.Call | rpcmple_cpp/include/rpcmple/rpcServer.h:103-141 | Dispatch: the whole new state for every request and every service, with all ways of failing |
| RpcServer.NothingLeftOver | rpcmple_cpp/include/rpcmple/rpcServer.h:131-134 | Where all results can be encoded, what an earlier encoding left behind never matters |
| RpcServer.RpcServer.ParseMessage | rpcmple_cpp/include/rpcmple/rpcServer.h:174-219 | The request section machine, its whole new state, and that it stays at a section |
| RpcServer.RpcServer.WriteMessage | rpcmple_cpp/include/rpcmple/rpcServer.h:223-253 | The reply frame, nothing between sections, refusal above 2^24 |
| RpcClient.RpcClient.PushCall | rpcmple_cpp/include/rpcmple/rpcClient.h:134-146 | The critical section that encodes a call and hands it over, or leaves the flags alone |
| RpcClient.RpcClient.WriteMessage | rpcmple_cpp/include/rpcmple/rpcClient.h:219-245 | The request frame and the flag it clears |
| RpcClient.RpcClient.ParseMessage | rpcmple_cpp/include/rpcmple/rpcClient.h:247-294 | The reply section machine, its whole new state, and that it stays at a section |
| RpcClient.RpcClient.CollectReply | rpcmple_cpp/include/rpcmple/rpcClient.h:156-177 | The critical section that ends a call, and the values it returns |
| RpcClient.RpcClient.AppendSignature | rpcmple_cpp/include/rpcmple/rpcClient.h:105-110 | Position numbers a procedure, a name finds the last one appended under it |
| RpcServing.IncomingStep | rpcmple_cpp/include/rpcmple/messageManager.h:130-145 | What one pass makes of a frame on its way in, wherever it has been cut |
| RpcServing.ServeStep | rpcmple_cpp/include/rpcmple/rpcServer.h:103-253 | One pass of the server on an incoming request: before its last byte still incoming; with it stopped if the procedure fails, returns another number of values or too much, and otherwise run once on the arguments' images and answered with exactly the reply frame |
| AnyFrame.RequestDecides | rpcmple_cpp/include/rpcmple/rpcServer.h:103-253 | For every request frame, service and world: the server stops with nothing sent and the world unchanged if the identifier is no procedure's or decoding throws; otherwise it calls the procedure once with what was decoded and int64 zeros for the rest, and sends one reply, or stops with nothing sent if the results are none, of another number, too long, or throw |
| AnyFrame.WhenServerStops | rpcmple_cpp/include/rpcmple/rpcServer.h:103-253 | Where the results can be encoded, the server stops on a request if and only if the identifier is not below the number of procedures, decoding throws, or it refuses the call; if not, exactly one reply with the encoded results is sent |
| AnyFrame.AnyReplyIsTaken | rpcmple_cpp/include/rpcmple/rpcClient.h:247-294 | A C++ client takes every reply frame, whatever its flag, and hands over exactly its body |
| AnyFrame.AnyReplyDecides | rpcmple_go/rpcmpleclient.go:68-147 | A Go client stops on a reply frame, with no callback made, if and only if the name it kept is unknown or the body does not decode; otherwise it makes that procedure's callback, with success just if the flag is 1 |
| AnyFrame.CommandsExactly | rpcmple_go/rpcmplesignature.go:41-84 | A Go call becomes a frame if and only if its arguments have an encoding in the wire format, of at most 2^24 bytes, and then this frame |
| AnyFrame.AnyDataDecides | rpcmple_cpp/include/rpcmple/dataSubscriber.h:41-89 | A subscriber stops on a frame, with no callback made, if and only if the body is empty though values are expected, or throws; any other is one callback, with int64 zeros for what could not be decoded |
| RpcSessionLaws.ClientPassIsTransfer | rpcmple_cpp/include/rpcmple/messageManager.h:130-182 | The session's client pass is the message manager's transfer up to the wait in writeMessage |
| RpcSessionLaws.ReplyMoves | rpcmple_cpp/include/rpcmple/rpcClient.h:247-294 | One pass of the client on an incoming reply: still incoming, or handed over whole with replIsReady |
| RpcSessionLaws.ReplyDecodes | rpcmple_cpp/include/rpcmple/rpcClient.h:163-176 | The reply decodes, without fault, to what a direct call returns |
| RpcSessionLaws.StepPreserves | rpcmple_cpp/include/rpcmple/rpcClient.h:112-294 | Every step of every thread keeps the session's invariant and moves the call along its cycle, if at all |
| RpcSessionLaws.RemoteCallsAreDirectCalls | rpcmple_cpp/include/rpcmple/rpcClient.h:112-294 | End-to-end refinement: in every state of every run, the calls that have returned have returned what direct calls return, in order, each procedure run once |
| RpcSessionLaws.OnePlaceHoldsTheCall | rpcmple_cpp/include/rpcmple/rpcClient.h:143-283 | Conservation: in every reachable state exactly one of canCall, sendIsReady, the prepared frame, the server's bytes, the client's bytes, replIsReady, a stopped flow holds the call |
| RpcSessionLaws.TheCallGoesRound | rpcmple_cpp/include/rpcmple/rpcClient.h:143-283 | The flags follow that cycle and no other |
| RpcSessionLaws.WhenCallsAreLost | rpcmple_cpp/include/rpcmple/rpcClient.h:220-245 | A call is lost if and only if its arguments take more than 2^24 bytes, or its last byte reaches a server whose procedure fails, returns another number of values or too much |
| RpcSessionLaws.LostIsTheEnd | rpcmple_cpp/include/rpcmple/rpcClient.h:147-160 | After that no thread can move |
| RpcSessionRuns.ReturnsExactly | rpcmple_cpp/include/rpcmple/rpcClient.h:112-294 | From any state with a call in flight there is a run in which it returns if and only if it has not been lost, its arguments take no more than 2^24 bytes, and the server does not refuse it |
| RpcSessionRuns.CallCanReturn | rpcmple_cpp/include/rpcmple/rpcClient.h:112-294 | Then some run returns, as the next call to return, what a direct call returns: there is no deadlock |
| GoClient.NamesArePlaces | rpcmple_go/rpcmpleclient.go:57-61 | Every procedure's own name leads back to it if and only if names are distinct |
| GoClient.GoRpcClient.constructor | rpcmple_go/rpcmpleclient.go:45-64 | The procedure table maps each name to the last procedure that has it |
| GoClient.GoRpcClient.Call | rpcmple_go/rpcmpleclient.go:190-196 | Calling by name: unknown names change nothing, known ones prepare their procedure's request |
| GoClient.GoRpcClient.FillCommand | rpcmple_go/rpcmplesignature.go:41-86 | The request frame and the name kept; where it gives up, an empty command and the lock still held |
| GoClient.GoRpcClient.SendMessage | rpcmple_go/rpcmpleclient.go:157-178 | Nothing between two sections; otherwise the command is appended to the message, and an empty command is an error |
| GoClient.GoRpcClient.ParseMessage | rpcmple_go/rpcmpleclient.go:68-147 | The Go reply section machine, its whole new state including the callback made, and that it stays at a section |
| GoSessionLaws.ClientPassIsGoTransfer | rpcmple_go/messagemanager.go:128-169 | The session's client pass is the Go loop's iteration up to the wait in SendMessage |
| GoSessionLaws.DeliverIsDirect | rpcmple_go/rpcmpleclient.go:124-141 | The callback a reply leads to is the one a direct call is answered with |
| GoSessionLaws.ReplyMoves | rpcmple_go/messagemanager.go:128-169 | One pass of the Go client on an incoming reply, before its last byte: wedged exactly if the read is overlong, else still incoming |
| GoSessionLaws.ReplyEnds | rpcmple_go/rpcmpleclient.go:97-141 | The pass with the reply's last byte hands exactly the reply to the callback of the name kept |
| GoSessionLaws.StepPreserves | rpcmple_go/rpcmpleclient.go:45-178 | Every step of every goroutine and of the server keeps the invariant and moves the call in flight along its cycle, if at all |
| GoSessionRuns.RepliesMeetRequests | rpcmple_go/rpcmplesignature.go:41-86 | In every state of every run of a program that overtakes no call with a different one, each message sent asks for the call in its place and the callbacks made are call by call those of direct calls |
| GoSessionRuns.PatienceIsExact | rpcmple_go/rpcmplesignature.go:41-86 | That holds in all runs if and only if the program never overtakes so |
| GoSessionRuns.OvertakingCallRunsTwice | rpcmple_go/rpcmplesignature.go:52-84 | For any two calls of which the second may be made while the first is unanswered, and that the server answers: a run in which the second is sent and run twice, the first never, and both callbacks are the second's |
| GoSessionRuns.WrongCallback | rpcmple_go/rpcmpleclient.go:124-136 | If they are calls of different procedures, the first is answered to the second one's callback |
| GoSessionRuns.CallCanBeAnswered | rpcmple_go/rpcmpleclient.go:156-178 | From every reachable point a call in flight that the server will answer can be answered: there is no deadlock |
| GoSessionRuns.CommandBelongsToCall | rpcmple_go/rpcmplesignature.go:68-84 | While a call is unanswered and none has given up, the header identifier prepared and the name kept are its own |
| GoSessionRuns.GoCallGoesRound | rpcmple_go/rpcmpleclient.go:157-178 | The call in flight goes round its places and no other way |
| GoSessionRuns.WhenCallsAreLost | rpcmple_go/rpcmplesignature.go:57-65 | The client gets stuck if and only if a serialisation fails with the lock held, the request's last byte reaches a server whose procedure fails, returns another number of values or too much, or a read is overlong |
| GoSessionRuns.LostStays | rpcmple_go/rpcmplesignature.go:42-65 | After that no callback is made |
| DataPublisher.DataPublisher.Publish | rpcmple_cpp/include/rpcmple/dataPublisher.h:130-153 | Exactly one encoded value joins the queue, or none and the reason; a text of 65536 bytes always overruns |
| DataPublisher.DataPublisher.WriteMessage | rpcmple_cpp/include/rpcmple/dataPublisher.h:62-118 | The message is exactly the frames of the next batch and the queue what is behind it; a message already 1024 bytes long is left alone |
| DataPublisher.BatchIsUnique | rpcmple_cpp/include/rpcmple/dataPublisher.h:86-113 | Queue and grouping switch determine the batch, its frames before the last being below 1024 bytes |
| DataPublisher.FramedBytes | rpcmple_cpp/include/rpcmple/dataPublisher.h:104-112 | In a message each body lies behind the frames of those before it, with its length in three little-endian bytes and a 1 before it |
| DataSubscriber.DataSubscriber.ParseMessage | rpcmple_cpp/include/rpcmple/dataSubscriber.h:41-89 | The subscriber's section machine, its whole new state including the callback made |
| DataSubscriber.SubscriberIsSteady | rpcmple_cpp/include/rpcmple/dataSubscriber.h:41-91 | It announces 4 or a positive length below 2^24 after every section it accepts |
| DataSubscriber.FrameDelivers | rpcmple_cpp/include/rpcmple/dataSubscriber.h:41-89 | A whole frame is one callback with the decoded values |
| DataSubscriber.DeliveredExactly | rpcmple_cpp/include/rpcmple/dataSubscriber.h:41-89 | Of any beginning of a stream of frames exactly the complete frames have been delivered, in order |
| PublishSession.StepPreserves | rpcmple_cpp/include/rpcmple/dataPublisher.h:62-153 | Every step of publisher, flow threads and channel keeps the invariant, the first message's size check and what it drops included |
| PublishSession.StreamIsConserved | rpcmple_cpp/include/rpcmple/dataPublisher.h:86-113 | As long as the publisher's flow has not stopped, bytes taken in, bytes on their way and frames still queued are together the frames of everything published, grouping or not |
| PublishSession.PublishedInOrder | rpcmple_cpp/include/rpcmple/dataSubscriber.h:41-91 | In every state of every run the callbacks are a prefix, in order, of the published values, as long as the frames that have come in whole |
| PublishSession.EverythingArrives | rpcmple_cpp/include/rpcmple/dataPublisher.h:62-153 | When the publisher's flow has not stopped and nothing is queued or on its way, everything published has been delivered |
| PublishSession.EmptyQueueIsComplete | rpcmple_cpp/include/rpcmple/dataPublisher.h:155-163 | With an empty queue, and the publisher's flow not stopped, everything published has been handed to the connection if and only if no built message is waiting to be written |
| PublishSession.WhenPublishingStops | rpcmple_cpp/include/rpcmple/messageManager.h:82-109 | A step stops the publisher's flow if and only if writeMessage comes upon a body of more than 2^24 bytes, or the first message exceeds 2^24 + 4; the second takes grouping |
| PublishSession.DroppedIsLost | rpcmple_cpp/include/rpcmple/messageManager.h:91-97 | Once the first message has been dropped nothing is ever sent and no callback is made, in every later state of the run |
| PublishSession.FirstBatchTooLarge | rpcmple_cpp/include/rpcmple/dataPublisher.h:86-113 | For any two accepted values whose frames together exceed 2^24 + 4 bytes, the first below 1024: with grouping a run loses both, the queue then being empty |
| PublishSession.GroupingLosesBoth | rpcmple_cpp/include/rpcmple/messageManager.h:91-97 | Such an input: an empty array of strings, then one of 256 strings of 65533 bytes and one of 249 |
| PublishSession.WaitingCanEndEarly | rpcmple_cpp/include/rpcmple/dataPublisher.h:155-163 | A run in which the queue is empty and nothing published has been sent |
| UdpSocket.UdpSocket.Read | rpcmple_cpp/include/connectionmanager/udpSocket.h:141-185 | Positions stay within the buffer unless a receive fails; what is returned and what stays unread are exactly what the specification says |
| UdpSocket.UdpSocket.ReadLoop | rpcmple_cpp/include/connectionmanager/udpSocket.h:141-185 | Successive reads return what the specification says, up to the one that fails |
| UdpSocket.ReadTakesAllItCan | rpcmple_cpp/include/connectionmanager/udpSocket.h:168-182 | A read takes the front of what is unread, or of the next datagram, and leaves some of it only if its buffer is full |
| UdpSocket.ReadsConserve | rpcmple_cpp/include/connectionmanager/udpSocket.h:141-185 | For any datagrams and read sizes, bytes returned and bytes ahead are together the datagrams before the first empty one, in order |
| UdpSocket.AllBytesAhead | rpcmple_cpp/include/connectionmanager/udpSocket.h:162-166 | These are all the bytes if and only if only empty datagrams follow the first empty one |
| UdpSocket.LargeReadsGetDatagrams | rpcmple_cpp/include/connectionmanager/udpSocket.h:154-182 | Reads of at least 65507 bytes return the datagrams one by one up to the first empty one, and fail if and only if there is one |
| UdpSocket.DatagramsAreAStream | rpcmple_cpp/include/connectionmanager/udpSocket.h:141-185 | The reading loop leads the parser where the bytes before the first empty datagram lead it, and what is still ahead leads on from there |

## Left out

- RpcServer.RpcServer.Call: does not say which bytes a refused encoding of the results leaves to be sent, which depend on stale storage; an exception or an overrun while encoding ends the modelled run.
- RpcServer.RpcServer.ParseMessage: likewise, for the request that leads to that call. Both speak of messages of at most 2^31 - 1 bytes; a section has fewer than 2^24.
- DataSignatureCpp.DataSignature.FromBinary: says nothing of messages of 2^31 bytes or more, in which the source's `int` offset would overflow.
- RpcSessionLaws.RemoteCallsAreDirectCalls: one calling thread; two may both pass the wait for canCall before either claims it, and are not modelled. Arguments with a text of exactly 65536 bytes, or with an encoding of 2^31 bytes or more, are outside `Setup.Proper`: the encoder's behaviour ends there.
- PublishSession.PublishedInOrder: values with a text of exactly 65536 bytes, or with an encoding of 2^31 bytes or more, are outside `Setup.Publishable`: the encoder's behaviour ends there.
- MessageManager.MessageManager.DataFlow: for parsers that always announce a positive length, WriteFlow being for those that always announce 0; a section length that goes from 0 to positive meets a section buffer that was not resized for it, and a first message that changes the announced length one that is still of the old length.
- MessageManager.MessageManager.WriteFlow: for parsers that always announce length 0, for the same reason.
- MessageManagerGo.GoMessageManager.DataFlow: for parsers that always announce a positive length, WriteFlow being for those that always announce 0; one that announces 0 while bytes of its last read are left is handed empty sections for as long as it does.
- RpcSessionLaws.LostIsTheEnd: a flow that stops closes its connection, which makes the other side's read fail and its flow end too; that is not modelled, and brings the call back neither.
- CodecLaws.PrefixesExactly: not for arrays of strings, where one string of 65536 bytes may or may not make a proper prefix readable, depending on its bytes; PrefixFree and FullExtendsEmpty cover them.
- UdpSocket.UdpSocket.Read: after a failed receive the positions are -1 and the socket is not read again, as the message manager stops then.
- GoSessionRuns.RepliesMeetRequests: callbacks that themselves call would wait for the lock their caller holds, and are not modelled.
- Text conversion is a parameter with two results, bytes or an exception; UTF-8 itself is not modelled. A double is its 64-bit pattern.
- Stop requests, closed connections, failing writes, close callbacks and the exceptions' way out of a thread: a run is modelled up to the first of them.
- Liveness and fairness of condition variables, mutexes and channels: safety, the loops' own termination, and that a call can be answered are proved, not that it will be.
- rpcmple_go/datapublisher.go and rpcmple_go/datasubscriber.go: thinner twins of the C++ pair.
- Sockets, named pipes, standard streams, the vendored logging library, log lines, examples, getVariantValue overloads, Go buffer pools and reflection.
- Calling a C++ procedure by name, which looks its number up and calls by number.
