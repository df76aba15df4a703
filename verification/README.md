# Verified model of net-http-rs

This project models the byte-stream framing engine of the library and the connection state machines built on
it, and proves what they keep over every input, every read schedule and every run.

* **HTTP framing** (`Hex`, `ChunkedSpec`, `Chunked`, `HttpHead`, `HeadText`, `RequestFraming`, `RequestReader`,
  `ResponseText`, `ResponseFraming`, `ResponseReader`, `ResponsePanic`). Each resumable reader is an imperative method over a real fixed-capacity
  buffer that is compacted in place (`Buffers.BufferVec`), reading from a stream that delivers any number of
  bytes, blocks, ends or fails as it likes (`Buffers.Stream`). What one call may do is a relation on the
  *undelivered bytes*: what was moved to a message's own buffer, then what is in the header buffer, then what is
  still on the stream. Run lemmas over that relation show that the delivered messages are the framing of the
  byte stream, whatever the segmentation.
* **WebSocket** (`WsFrame`, `WsParser`, `WsAssembly`, `WsReading`, `WsWrite`, `WsRoundTrip`, `WsCuts`, `WsStream`,
  `WsUpgrade`). The frame codec of RFC 6455 section 5.2, a resumable parser proved equal to one fed a byte at a
  time, the continuation stack exactly as the code uses it against the meaning of the same pieces, the two nested
  writing loops with the exact condition under which they end, the reading loops with the reasons for which they
  lose a connection, and the handoff from HTTP.
* **Connections and servers** (`Correlation`, `HttpConnClient`, `GracefulDrain`, `HttpConnServer`, `ClientPool`,
  `ServerRegistry`). FIFO correlation, graceful drain, load balancing, and the id registries of the combined
  HTTP and WebSocket server.
* **Pooled reuse** (`ConnPool`, `HttpClient`). Guards, single ownership over all interleavings, and the retry
  loop with its measure.

`usize` arithmetic wraps modulo 2^64, as in a release build, wherever the code adds lengths it read.

## Where the obvious claim is false

* Segmentation of a chunked body is irrelevant if and only if every size line has at most 14 bytes
  (`ChunkedSpec.SegmentationIndependence`).
* A response without Content-Length is read as chunked if and only if a CRLF was already buffered behind its head
  when the head was found (`ResponseFraming.ProbeDecides`, `ResponseFraming.NothingTakenIff`). What was buffered is
  no free choice: `ResponseReader.Reader.ReadFrom` promises it to be what the one read in front of the head leaves
  in the buffer, a function of the reader and the stream before the call. For the WebSocket handshake the same
  decides whether early WebSocket bytes survive (`WsUpgrade.FromClientConn`, `WsUpgrade.HandshakeLeavesInputIff`).
* The reader of responses panics if and only if the bytes read so far behind such a head are an illegal chunked body
  (`ResponseReader.Reader.ReadFrom`), for example on `HTTP/1.1 200` with the chunk size `z`
  (`ResponsePanic.PanicWitness`). A stream of responses has a run that panics if and only if some body whose first
  size line fits the header buffer together with its head is illegal, or has a size line of more than 14 bytes
  behind its first one (`ResponseFraming.TameIff`, `ChunkedSpec.HarmlessIff`); cut at the right byte such a body
  makes the reader panic whenever it is fed as fast as it reads (`ResponsePanic.WildPrefix`,
  `ResponsePanic.FeedIllegal`).
* A graceful close waits for the answers only as long as flushing works: a flush that merely blocks is an error of
  `read_request` like any other, and the server removes the connection although requests are unanswered
  (src/http_conn.rs:252, src/http_server.rs:187). `HttpConnServer.HttpConnServer.ReadRequest` has the exact
  condition, that the stream takes less than what is pending; `GracefulDrain.Drain` and
  `ServerRegistry.ClosedConnDrains` speak of the other reads.
* The request reader's "should panic" branch is reachable, if and only if head length plus Content-Length
  overflows (`HttpHead.ReparseTotal`, with an input in `HttpHead.OverflowWitness`). A chunk of 2^64-2 bytes ends
  the body at once (`ChunkedSpec.SizeWrap`).
* A data message is dropped if and only if its last piece is the keepalive payload (`WsAssembly.ReturnedIff`); it
  survives every way of cutting its last frame if and only if that frame does not end in the keepalive payload
  (`WsAssembly.ReturnedForEveryCutIff`).
* Control frames stay out of the messages if and only if every control payload fits the reader's scratch buffer of
  twice the frame size: with frames already buffered a longer one leaves its first pieces in the text
  (`WsCuts.ControlsFitIff`), and no other way of delivering the bytes splits a control payload on a connection that
  stays up (`WsReading.PieceKeepsUnsplit`). RFC 6455 section 5.5 allows 125 bytes, so frame sizes below 63 are
  affected. In terms of pieces, the text is right if and only if no control payload and no keepalive payload
  ends up in it (`WsAssembly.CleanIff`).
* Any read that stops inside the payload of a control frame loses the connection: nothing more is ever read, and
  every later call returns a message that was already buffered until one disconnects. With less than 11000 rounds of
  input waiting, a call that returns no message disconnects if and only if that happened, the connection was down,
  the last read or the last flush of the call found the stream closed or failed, or the parser refuses the input
  (`WsStream.WsStream.GenericRead`), which it never does with a well-behaved peer (`WsStream.WsStream.NotRefused`).
* Stale fragments from an earlier connection are put in front of the first message
  (`WsAssembly.StaleFragments`).
* `write_msg` ends if and only if the message's largest frame fits the scratch buffer (`WsWrite.WritingEndsIff`);
  the frame sizes for which that is always so are exactly those from 6 for a client and 2 for a server
  (`WsWrite.FrameSizeBound`). An empty message produces no frame, so neither does the close reply, and a control
  message longer than the frame size is fragmented (`WsWrite.SingleFrameIff`), which RFC 6455 section 5.5 forbids.
* Reading from the client pool leaves it sorted if and only if the answering client was last or strictly busier than
  the next one, or a replaced client has only idle ones behind it, or nothing was answered
  (`ClientPool.ReadKeepsSortedIff`).
* The arm of `HttpClient::send` for a blocked exchange is never taken: the blocking exchange turns a blocked read
  into another round and an error of the socket into another error. Only the deadline gives a timeout.

## Model

| member | source | states |
|---|---|---|
| Hex.ParseHexUint | src/http_types.rs:697-716 | The shift/or loop succeeds exactly on at most 16 digits of either case, with their base-16 value below 2^64; a bad byte among the first 16 is reported before the length is |
| Hex.ShiftOrStep | src/http_types.rs:711-712 | One shift by four and or appends one digit and loses no bit, for up to 16 digits |
| Hex.OrBits | src/http_types.rs:712 | A bit of the or is set if and only if it is set in one of the two |
| Hex.DigitValues | src/http_types.rs:704-709 | Digits and letters of either case stand for consecutive values, and nothing else is a digit |
| Hex.ParseInvertsPrint | src/http_types.rs:697-716 | Parsing inverts hexadecimal printing at every width up to 16 digits, leading zeros included |
| Hex.CaseInsensitive | src/http_types.rs:704-709 | Upper-case letters parse like lower-case ones, errors included |
| ChunkedSpec.DecoderInvariant | src/http_types.rs:652-695 | All chunks but the last are sealed and non-empty; input is only taken from the front; finished means the last chunk has capacity 0; a suspended decoder leaves fewer than 16 bytes and no complete size line |
| ChunkedSpec.ChunkedStays | src/http_types.rs:679-688 | Once a size line was read the answer is never "not chunked", which is why the readers' unreachable arms are |
| ChunkedSpec.FirstLine | src/http_types.rs:424-432 | From the start, a CRLF in the input means that input is taken or the body is illegal; without one nothing is taken |
| ChunkedSpec.SplitInvariance | src/http_types.rs:652-695 | A decoder suspended on xs and resumed on its leftover followed by ys ends exactly as on xs followed by ys |
| ChunkedSpec.FinishedExtends | src/http_types.rs:655-656 | A finished decoder leaves everything behind the body alone |
| ChunkedSpec.RunIsDecode | src/http_types.rs:474-508 | Any run over segments that is not rejected gives the chunks, leftover and state of one decode of all the bytes |
| ChunkedSpec.SegmentationIndependence | src/http_types.rs:652-695 | For every input that decodes whole: all segmentations agree with it if and only if no size line has more than 14 bytes |
| ChunkedSpec.DecodeEncoded | src/http_types.rs:652-695 | Encoded non-empty chunks and the zero chunk decode to those chunks sealed, leaving exactly the tail (RFC 7230 section 4.1) |
| ChunkedSpec.DecodedIsEncoded | src/http_types.rs:652-695 | Conversely, whatever decodes is the encoding of exactly the chunks that come out, each with its size line and its CRLF, in front of exactly what is left, as long as no announced size overflows |
| ChunkedSpec.FinishedIff | src/http_types.rs:652-695 | An input decodes to these chunks and this rest, without overflow, if and only if it is their encoding |
| ChunkedSpec.ChunkedRoundTrip | src/http_types.rs:630-716 | The same under every segmentation: finished, the body is the concatenation of the chunks, the tail is unread |
| ChunkedSpec.HarmlessIff | src/http_types.rs:652-695 | The decoder finds some first bytes of an input illegal if and only if the input has a complete size line and, from there on, does not decode or holds a line of more than 14 bytes |
| ChunkedSpec.SizeWrap | src/http_types.rs:658 | A buffer of size + 2 is made if and only if that does not overflow; size 2^64-2 ends the body at once |
| Chunked.ReadChunkHeader | src/http_types.rs:630-650 | Finds the first CRLF and parses what is in front of it, or reports no line or a bad one |
| Chunked.ChunkList.FillLast | src/http_types.rs:667-678 | Copies into the last buffer; completing it cuts the CRLF off and seals it, or reports its absence; no other chunk changes |
| Chunked.ReadStep | src/http_types.rs:654-690 | One loop iteration is one step of the decoder's specification |
| Chunked.ReadChunks | src/http_types.rs:652-695 | The loop over real buffers computes exactly the decoder's specification: chunks, unread input and state |
| Chunked.ChunkList.Body | src/http_types.rs:443-447 | The body is the concatenation of the chunks in order |
| Buffers.BufferVec.RotateLeft | src/http_types.rs:232 | Compaction in place drops exactly the first n readable bytes |
| Buffers.BufferVec.MoveTo | src/http_types.rs:236 | Moving to a body buffer empties the source and appends all of it, in order |
| HttpHead.PrefixScan | src/http_types.rs:281-291 | On a prefix the head scanner waits or already gives its final answer, complete exactly when the whole head is there |
| HttpHead.FirstContentLength | src/http_types.rs:291-306 | All fields are looked at; the first one called Content-Length, in any case, gives the length; without one it is zero |
| HttpHead.SizeIff | src/http_types.rs:281-291 | A size is waited for exactly while the head is partial or its error is a token error; errors are the other head errors and a Content-Length that is no number |
| HttpHead.SameNameIff | src/http_types.rs:295 | Field names are compared byte by byte up to the case of the letters A to Z, and names of other length differ |
| HeadText.LineIff | src/http_types.rs:146-150 | A request line is accepted if and only if it is verb, path and version with single blanks, and then these are its parts |
| HeadText.FieldsScanned | src/http_types.rs:139 | Written fields are read back as they are, values trimmed; a 65th one is an error |
| HeadText.PrintedUsize | src/http_types.rs:296-302 | Printed numbers are read back at any width, with or without a plus sign, exactly if they fit the machine word |
| HeadText.RequestParsed | src/http_types.rs:130-164 | A written request is parsed to its verb, path, fields and body |
| HeadText.WrittenDelivered | src/http_types.rs:204-308 | A written request with the body it announces, in front of anything, is the next frame of the stream, with exactly its parts |
| HttpHead.ReparseTotal | src/http_types.rs:224-237 | Parsing again the announced number of bytes is complete, with a body of Content-Length bytes, if and only if head plus Content-Length does not overflow |
| HttpHead.OverflowWitness | src/http_types.rs:227-230 | A concrete request that reaches the "should panic" branch |
| RequestFraming.StepFrames | src/http_types.rs:204-279 | A call that delivers takes exactly the next frame of the stream; any other call leaves the undelivered bytes unchanged |
| RequestFraming.DeliveredBody | src/http_types.rs:281-308 | The body of a delivered request has the length its first Content-Length announces, or is empty without one |
| RequestFraming.RunRefinesFraming | src/http_types.rs:204-308 | Over any run, delivered requests followed by the frames of what is left are the frames of the stream, and what is left is the stream behind the delivered bytes |
| RequestFraming.SchedulesAgree | src/http_types.rs:204-279 | Of two runs over the same stream with different read schedules one delivers a prefix of the other |
| RequestFraming.CompleteRun | src/http_types.rs:204-279 | A run that leaves less than one whole request delivered every frame |
| RequestReader.TryHead | src/http_types.rs:216-241 | From the header buffer alone: deliver and keep what follows, start a body buffer of the announced size, wait, or reject, each in exactly its case; the "should panic" branch only on overflow |
| RequestReader.ReadHead | src/http_types.rs:215-260 | The Empty arm: any answer is one the framing allows, every byte is accounted for; blocked means that the last read blocked, and ReadEOF that the last read found the stream closed or failed, or overflow |
| RequestReader.ReadRest | src/http_types.rs:261-276 | The ReadBody arm: delivers the frame when the buffer is full, otherwise keeps every byte; its parse never fails; ReadEOF if and only if the last read found the stream closed or failed |
| RequestReader.ReadFrom | src/http_types.rs:204-279 | One call is a framing step on all undelivered bytes, on the in-buffer path and on the ReadBody path alike; the delivered body has the announced length; blocked means that the last read blocked and that the bytes read so far hold no whole request; ReadEOF means that the last read found the stream closed or failed, or overflow |
| ResponseFraming.RunRefinesFraming | src/http_types.rs:376-532 | Over any run, delivered responses followed by those of what is left are the responses of the stream, pipelined and chunked ones included, if every first size line was buffered with its head; a panic takes nothing |
| ResponseFraming.FixedRunRefinesFraming | src/http_types.rs:509-529 | For streams whose heads all carry Content-Length no condition on the schedule is needed |
| ResponseFraming.TameIff | src/http_types.rs:419-506 | For a header buffer of any capacity: no run with buffered size lines panics if and only if every body read as chunked is harmless |
| ResponsePanic.WildPrefix | src/http_types.rs:450-506 | Whenever the next body is not harmless, the stream up to some byte ends inside an illegal body |
| ResponsePanic.FeedIllegal | src/http_types.rs:450-506 | Fed such a stream as fast as it reads, the reader itself panics |
| ResponsePanic.PanicWitness | src/http_types.rs:450 | A concrete response on which it does, with the library's buffer size |
| ResponseFraming.ProbeDecides | src/http_types.rs:424-432 | A whole chunked response is delivered as such if and only if the bytes buffered with its head, as the reader fixes them, held a CRLF; otherwise it is delivered empty and its body stays |
| ResponseFraming.NothingTakenIff | src/http_types.rs:419-472 | The bytes behind a head without Content-Length all stay if and only if those buffered with it, as the reader fixes them, held no CRLF |
| ResponseFraming.ChunkedResponse | src/http_types.rs:474-508 | A head and a chunked encoding in front of anything are one response with that body, leaving exactly what follows |
| ResponseText.LastContentLen | src/http_types.rs:419-420 | For responses the last field called Content-Length gives the length; without one it is not known |
| ResponseText.ResponseFramed | src/http_types.rs:397-419 | A written response head in front of anything is framed as written: status, fields, a body right behind the empty line, and the length if there is one |
| ResponseText.ResponseDelivered | src/http_types.rs:509-529 | A written response with the body it announces, in front of anything, is the next response of the stream |
| ResponseReader.Reader.Probe | src/http_types.rs:419-456 | Tries exactly what is buffered behind the head as chunks: an empty body if it holds no CRLF, else a whole one, a suspended decoder, or a panic if and only if it is illegal |
| ResponseReader.Reader.StartBody | src/http_types.rs:458-472 | A body of known length is cut from the buffer, or gets a buffer of its own with what is there; no byte is lost |
| ResponseReader.Reader.TryHead | src/http_types.rs:397-417 | Parses the buffered head and goes on to the right arm; ReadEOF only for a full buffer without a head; a panic if and only if an illegal body is buffered behind it |
| ResponseReader.Reader.ReadHead | src/http_types.rs:387-473 | The Empty arm reads once, then decides by what is buffered; every byte is accounted for; it waits if and only if no head is buffered; ReadEOF means that the read found the stream closed or failed, or that a head does not fit |
| ResponseReader.Reader.ReadFixed | src/http_types.rs:509-529 | The ReadBody arm delivers exactly Content-Length bytes or keeps all it has; it fails if and only if the last read found the stream closed or failed |
| ResponseReader.Reader.ReadChunked | src/http_types.rs:474-508 | The ReadChunkedBody arm continues the suspended decoder and keeps it a decoding of everything behind the head; it panics if and only if that is illegal and fails if and only if the read does |
| ResponseReader.Reader.ReadFrom | src/http_types.rs:376-532 | One call is a framing step on all undelivered bytes with the probe fixed by the state before it; it panics if and only if the bytes read so far behind the head are an illegal body; blocked, it asked the stream and holds no whole response; ReadEOF means that the last read found the stream closed or failed, or that a head does not fit; a response leaves the state Empty |
| WsFrame.HeaderRoundTrip | src/ws_stream.rs:840 | Decoding an encoded frame header in front of anything gives it back with its exact size, for all three length forms |
| WsFrame.HeaderExact | src/ws_stream.rs:768-780 | A header is decided by exactly its own bytes: any fewer are incomplete, any more change nothing |
| WsFrame.RefusedIff | src/ws_stream.rs:781-785 | A header is refused exactly for the opcodes RFC 6455 section 5.2 reserves |
| WsFrame.MediumLengthRead | src/ws_stream.rs:768 | Any 16-bit length is read with its big-endian weights, masked or not |
| WsFrame.UnmaskMasked | src/ws_stream.rs:768 | Masking twice with the same key and offset is the identity |
| WsFrame.MaskStartsWithKey | src/ws_stream.rs:840 | The key starts at the first payload byte: masking zeros gives the key and masking the key gives zeros |
| WsFrame.MaskRepeats | src/ws_stream.rs:768 | The key repeats every four bytes |
| WsFrame.XorBits | src/ws_stream.rs:768 | Exclusive or is bit by bit the sum modulo 2 |
| WsFrame.HeaderBytes | src/ws_stream.rs:840 | FIN, opcode, MASK, the three length forms with their big-endian weights, and the key at the end of the header (RFC 6455 section 5.2) |
| WsFrame.HelloFrame | src/ws_stream.rs:768 | The masked example of RFC 6455 section 5.7 is read and written as the RFC has it |
| WsRoundTrip.TypesOnTheWire | src/ws_stream.rs:667-669 | Message types and opcodes correspond as in RFC 6455, for writing and for reading, and continuations belong to the message they continue |
| WsRoundTrip.CloseFrameRead | src/ws_stream.rs:790-803 | A close frame ends reading, and is an error exactly if it has a status |
| WsParser.PieceIsRun | src/ws_stream.rs:766-808 | Any piece the parser hands out, from any amount of input into any room, means exactly what its bytes mean one at a time |
| WsReading.PieceInStep | src/ws_stream.rs:766-808 | Every accepted piece keeps the pieces' meaning equal to that of the bytes consumed |
| WsParser.AnyPieceArises | src/ws_stream.rs:766-806 | Any next part of a payload comes out as one piece when exactly its bytes are buffered |
| WsReading.PieceKeepsUnsplit | src/ws_stream.rs:766-808 | A control payload is split only if its frame has no FIN, exceeds the scratch buffer, or the piece empties the read buffer inside it |
| WsReading.StallMeans | src/ws_stream.rs:772-780 | The loop reads more input only where what is buffered adds nothing to the meaning, which is never inside a control frame |
| WsReading.StarvedPiece | src/ws_stream.rs:710-726 | Inside a control frame with nothing buffered the parser gives an empty piece, does not move, and the loop does not read |
| WsReading.RefusalMeans | src/ws_stream.rs:781-803 | If the parser refuses what is buffered, some first bytes of the stream are malformed or a close frame |
| WsAssembly.CleanIff | src/ws_stream.rs:663-693 | The continuation stack gives the text the pieces mean, stale bytes in front of the first message only, if and only if no message ends in a keepalive piece and no control payload comes in several pieces |
| WsAssembly.CleanFresh | src/ws_stream.rs:663-693 | On a fresh connection: messages and unfinished rest are exactly those meant if and only if the pieces are clean, and then so are the Ping payloads |
| WsAssembly.EchoedAt | src/ws_stream.rs:679-684 | Exactly the Pings are echoed, the n-th echo having the payload of the n-th Ping |
| WsAssembly.PingText | src/ws_stream.rs:633 | The keepalive payload is the text in the source |
| WsAssembly.StaleFragments | src/ws_stream.rs:574-581 | Fragments left by a disconnect change the first message, and nothing else, if and only if they hold bytes |
| WsAssembly.ReturnedIff | src/ws_stream.rs:663-666 | A data message is returned if and only if its last piece is not the keepalive payload; otherwise its earlier pieces stay |
| WsAssembly.CutReturnedIff | src/ws_stream.rs:663-693 | The same for the last frame cut into any given pieces |
| WsAssembly.ReturnedForEveryCutIff | src/ws_stream.rs:663-666 | Every cut of the last frame returns the message if and only if its payload does not end in the keepalive payload |
| WsCuts.ControlsFitIff | src/ws_stream.rs:679-693 | For all frames carrying messages with whole control frames in between, read out of a full buffer: the messages come out unchanged if and only if every control payload fits the scratch buffer |
| WsAssembly.TidyLogIsClean | src/ws_stream.rs:663-693 | With whole control payloads, pieces are clean as soon as no message ends in the keepalive payload, however they were cut |
| WsCuts.CutsWire | src/ws_stream.rs:766-808 | Buffered frames come out of the parser in pieces of the scratch buffer's size |
| WsWrite.FramesPartition | src/ws_stream.rs:824-880 | Frame payloads concatenate to the message, are non-empty and at most the frame size, all but the last exactly that, FIN is on the last frame only and the message type on the first only |
| WsWrite.WritingEndsIff | src/ws_stream.rs:828-876 | The two nested loops end if and only if the message is empty or its largest frame fits twice the frame size |
| WsWrite.FrameSizeBound | src/ws_stream.rs:486-493 | Every message can be written if and only if the frame size is at least 6 for a client and 2 for a server |
| WsWrite.SingleFrameIff | src/ws_stream.rs:832-838 | A message is one frame if and only if it is not empty and fits the frame size |
| WsWrite.WireConcat | src/ws_stream.rs:864-873 | The bytes of two runs of frames, masked with the keys in drawing order, are the bytes of both together |
| WsRoundTrip.MessagesMeaning | src/ws_stream.rs:824-880 | The frames of any data messages, read back, are the non-empty ones with types and order |
| WsRoundTrip.ControlTransparency | src/ws_stream.rs:667-689 | Whole Ping and Pong frames anywhere change nothing but the list of control messages, which holds them all in order (RFC 6455 section 5.4) |
| WsRoundTrip.WireMeaning | src/ws_stream.rs:751-813 | The encoded, masked bytes of such a stream mean the messages and the control messages, byte by byte |
| WsRoundTrip.PeerIsSteady | src/ws_stream.rs:824-880 | No prefix of the bytes of such a peer is malformed, closes, or shows a fragmented or oversize control frame |
| WsRoundTrip.NeverRefused | src/ws_stream.rs:781-803 | Such a peer is never refused by the parser, however its bytes are cut |
| WsRoundTrip.Transparency | src/ws_stream.rs:631-708 | At any moment of any read schedule the returned messages and echoes are prefixes of those sent, and all of them once nothing more can be parsed, if no message ends in the keepalive payload and control payloads fit the scratch buffer |
| WsRoundTrip.EndToEnd | src/ws_stream.rs:824-880 | Messages written with any frame size come back under any segmentation as the same non-empty messages, types and order included, if none ends in the keepalive payload |
| WsRoundTrip.AllFramesSnoc | src/ws_stream.rs:824-880 | Writing one more message appends exactly its frames |
| WsStream.WsStream.constructor | src/ws_stream.rs:486-506 | A connected stream of any frame size starts with nothing written or read; the bytes read past the handshake are its first input |
| WsStream.WsStream.CheckConnected | src/ws_stream.rs:609-621 | Connected afterwards if and only if it was and is alive |
| WsStream.WsStream.ParserWrite | src/ws_stream.rs:840-849 | Appends one encoded frame behind the offset and draws one key, or changes nothing when it does not fit |
| WsStream.WsStream.FillScratch | src/ws_stream.rs:829-862 | A batch is consecutive frames of the message, as many as fit, and never more than twice the frame size |
| WsStream.WsStream.WriteBatches | src/ws_stream.rs:828-876 | The loop ends and hands the stream exactly the bytes of all frames of the message, or disconnects |
| WsStream.WsStream.WriteMsg | src/ws_stream.rs:824-880 | A successful write appends the message's frames to all frames written, and those are what was sent or waits; it fails, and disconnects, only if the connection is gone or its last flush failed |
| WsStream.WsStream.FillReadBuffer | src/ws_stream.rs:546-568 | Input is only moved from the stream to the buffer; zero means that the read blocked or the buffer is full; it disconnects if and only if the read found the stream closed or failed |
| WsStream.WsStream.Accept | src/ws_stream.rs:786-808 | A parser result takes its input out of the buffer and pushes its payload, keeping pieces and bytes in step |
| WsStream.WsStream.ReadPiece | src/ws_stream.rs:758-810 | One round keeps the input and takes some of it, or reads more, unless the parser is starved inside a control frame; the parser's refusals disconnect |
| WsStream.WsStream.ReadMsg | src/ws_stream.rs:751-813 | Ends on a message, blocked with nothing parseable buffered and after a read that blocked, or disconnected for one of the listed reasons; starved inside a control frame it always disconnects; no byte of the input is lost while connected |
| WsStream.WsStream.ResolveTop | src/ws_stream.rs:663-706 | Returns a data message, echoes a Ping as the frames of one Pong, drops the rest, exactly as reassembly says |
| WsStream.WsStream.WhenBlocked | src/ws_stream.rs:640-651 | When blocked, one keepalive Ping is written exactly if it is due and no fragment waits, then one flush sends what the stream takes of the waiting bytes |
| WsStream.WsStream.FlushWbuf | src/ws_stream.rs:732-741 | Sends exactly what the stream takes of the waiting bytes; disconnected if and only if the connection is down or that flush fails |
| WsStream.WsStream.GenericRead | src/ws_stream.rs:631-708 | Delivered messages and echoes are those of reassembling the pieces read; frames written are the echoes in order and at most one keepalive Ping; without a message it either waits after a read that blocked or disconnects, the latter if and only if one of the listed causes occurred |
| WsStream.EchoesArePongs | src/ws_stream.rs:679-683 | The frames of the echoes are Pongs and their continuations and carry exactly the payloads |
| WsStream.WsStream.Receives | src/ws_stream.rs:631-708 | If the peer's bytes are the frames of some messages, those delivered are the first non-empty ones, and all of them when the whole stream was read and the reader is blocked |
| WsStream.WsStream.ReceivesWithControls | src/ws_stream.rs:631-708 | The same with whole control frames that fit the scratch buffer anywhere in between, the Ping payloads being echoed in order |
| WsStream.WsStream.NotRefused | src/ws_stream.rs:781-803 | From such a peer the parser refuses nothing in any state of the connection |
| WsUpgrade.FromHttpConn | src/ws_stream.rs:374-395 | The handshake write panics if and only if no request is waiting or the stream fails; otherwise the server's WebSocket input is exactly the stream behind the requests served |
| WsUpgrade.FromClientConn | src/ws_stream.rs:180-203 | Upgrades exactly on a response that switches protocols and has the right accept value; then the client's WebSocket input is exactly what the response reader left behind it, which for a head found in this call without Content-Length is everything behind it if and only if no CRLF had been read behind it |
| WsUpgrade.HandshakeLeavesInputIff | src/http_types.rs:419-472 | Over any run: for a handshake response without Content-Length the input is everything behind its head if and only if the bytes buffered with it, as the reader fixes them, held no CRLF |
| Correlation.Fifo | src/http_conn.rs:172-227 | Over any interleaving, the pairs returned are the k-th written id with the k-th response of the stream, ignored ids left out, and the waiting ids are the unanswered suffix, if every first size line was buffered with its head |
| Correlation.CorrelatedAt | src/http_conn.rs:187-193 | The answer to request number k is the pair of its id and response number k, behind those of all earlier requests that are not ignored |
| HttpConnClient.HttpConnClient.WriteRawRequest | src/http_conn.rs:200-205 | Queues exactly the request's bytes and its id, or fails without the id |
| HttpConnClient.HttpConnClient.WriteRequest | src/http_conn.rs:207-227 | The same after probing an idle connection: it succeeds if and only if the probe blocks and the stream does not fail; a probe that does not block writes nothing |
| HttpConnClient.HttpConnClient.ReadNext | src/http_conn.rs:179-187 | A response answers and removes the oldest waiting id; each call is recorded with the probe the reader fixes |
| HttpConnClient.HttpConnClient.ReadResponse | src/http_conn.rs:172-198 | Returns the next pair somebody waits for, counts it, and keeps the correlation invariant; blocked, EOF, a bad response and panic each only for the listed reasons, blocked on the stream only after asking it |
| GracefulDrain.RunInvariant | src/http_conn.rs:251-281 | In every run responses never exceed requests, and a close is final and stops new requests |
| GracefulDrain.OpenRead | src/http_conn.rs:251-271 | An open connection takes a request, answers "nothing" or fails exactly as the network does, and fails for nothing else |
| GracefulDrain.Drain | src/http_conn.rs:251-271 | After try_close, a read that can flush takes no request, says nothing exactly while one is unanswered, and reports the end exactly when all are answered |
| HttpConnServer.HttpConnServer.ReadRequest | src/http_conn.rs:251-271 | Does what the drain specification says, delivers the reader's next request, and reads nothing once closed; open and flushed, it fails only for end of file, a failed read, overflow or a bad request, and answers "nothing" only after a read that blocked and with no whole request read; the flush counts as failed if and only if something stays pending |
| HttpConnServer.HttpConnServer.WriteResponse | src/http_conn.rs:273-281 | Queues the response and counts it if and only if one is waited for and the stream does not fail |
| HttpConnServer.HttpConnServer.TryClose | src/http_conn.rs:104-106 | Is the drain specification's close and touches nothing else |
| HttpConnServer.ServedRequests | src/http_conn.rs:251-271 | What a server connection delivers over its life are the first requests of its byte stream |
| ClientPool.HttpConnClientPool.WriteRequest | src/http_conn.rs:343-370 | Takes the last client, keeps the number of clients and all others, and sorts, except after a failed reconnect; the result is that of the attempts, and a reconnected client waits for this request only |
| ClientPool.OutcomeIs | src/http_conn.rs:349-368 | The first attempt that is not an end of file with a new connection behind it decides the result |
| ClientPool.HttpConnClientPool.ReadResponse | src/http_conn.rs:372-396 | The first client with an answer or an error decides, and the result is its answer or its error; an error replaces that client by a fresh one in place; nothing else moves, and it says whether the list is still sorted |
| ClientPool.SortUnstable | src/http_conn.rs:308-317 | Sorted by descending load and a permutation |
| ClientPool.WriteKeepsBalance | src/http_conn.rs:366-367 | A write to a sorted, balanced pool goes to a least-loaded client and keeps the pool balanced |
| ClientPool.PoolBalance | src/http_conn.rs:343-370 | Over any run of writes from a fresh pool: always a least-loaded client, loads differ by at most one, the total load is the number of writes |
| ClientPool.ReadKeepsSortedIff | src/http_conn.rs:372-396 | Over all four results the list is still sorted if and only if the answering client was last or strictly busier than the next, the replaced one was last or before an idle one, or nothing changed |
| ServerRegistry.LogOpens | src/ws_server.rs:150-161 | Opening an id never opened keeps every callback at most once and closes behind opens |
| ServerRegistry.LogCloses | src/ws_server.rs:202-206 | So does closing an opened id that was not closed |
| ServerRegistry.HttpWsServer.AddConnection | src/http_server.rs:51-54 | A new connection's id was never used by any HTTP or WebSocket connection |
| ServerRegistry.HttpWsServer.TickAccept | src/http_server.rs:142-164 | Accepting adds exactly one fresh connection for each accepted socket and leaves the others alone |
| ServerRegistry.HttpWsServer.ReadOne | src/http_server.rs:172-192 | One connection's read, with the application's decision, changes that connection only and queues it for upgrade exactly when it asked |
| ServerRegistry.ReadDecides | src/ws_server.rs:106-123 | What each kind of request does to an open connection: an upgrade queues it, a bad one and a request that the application wants closed close it, any other leaves it open |
| ServerRegistry.HttpWsServer.TickRead | src/http_server.rs:166-200 | Every connection is read once; exactly the failed ones leave; exactly the upgrading ones are pending, in id order |
| ServerRegistry.HttpWsServer.UpgradeOne | src/ws_server.rs:139-167 | One id leaves the HTTP registry and enters the other exactly if the handshake works and it is not closed at once |
| ServerRegistry.HttpWsServer.TransformConns | src/ws_server.rs:134-174 | The pending list is drained; each pending connection moves or is dropped; all others stay; a list in ascending order is opened in descending order |
| ServerRegistry.HttpWsServer.TickReadWs | src/ws_server.rs:176-208 | Exactly the WebSockets that fail, and those the application wants closed, leave, each with its close callback, in ascending order |
| ServerRegistry.HttpWsServer.TickConnections | src/http_server.rs:202-210 | What one tick of the library does to each connection, old or accepted in this tick, over all four phases |
| ServerRegistry.HttpWsServer.Tick | src/http_server.rs:202-213 | A tick keeps the registry invariant whatever the network and the application do, and leaves nothing pending |
| ServerRegistry.HttpWsServer.RunTicks | src/http_server.rs:202-213 | After any number of ticks each connection is exactly where its own events put it |
| ServerRegistry.HttpWsServer.Serve | src/http_server.rs:202-213 | Over all runs: registries disjoint, ids below the counter, each id opened at most once, closed at most once and only after its open |
| ServerRegistry.ClosedConnDrains | src/http_server.rs:166-213 | Over any ticks without failed flush or removal a closed connection is in the registry if and only if its responses were not all written before the last tick, and it takes no further request |
| ServerRegistry.OpenConnStays | src/http_server.rs:166-213 | Over any ticks in which nothing fails an open connection that is neither upgraded, closed nor removed stays, idle or not, and takes every request that arrives |
| ConnPool.PoppedIsFresh | src/conn_pool.rs:44-55 | What is handed out is the last unexpired entry; everything behind it was expired and is gone; nothing only if all were expired |
| ConnPool.PoppedAge | src/conn_pool.rs:47-52 | In numbers: what is handed out is younger than the idle time, what is thrown away is not |
| ConnPool.ConnPool.Pop | src/conn_pool.rs:44-55 | The loop computes that, under a guard that discards by default |
| ConnPool.ConnPool.GetOr | src/conn_pool.rs:31-42 | A pooled connection marked reused, or else the new one marked not reused |
| ConnPool.ConnPoolGuard.Reuse | src/conn_pool.rs:90-92 | Gives the connection back once, at the end, with its guard's time, and empties the guard |
| ConnPool.ConnPoolGuard.Drop | src/conn_pool.rs:99-108 | A dropped guard returns its connection only if it was told to reuse |
| ConnPool.ApplyKeepsOwned | src/conn_pool.rs:31-108 | Each step of any client keeps every connection in the pool once or under one guard |
| ConnPool.SingleOwner | src/conn_pool.rs:31-108 | So does every interleaving of all clients, from an empty pool |
| HttpClient.HttpClient.PoolFor | src/http_client.rs:31-38 | One pool per endpoint, made once and never replaced |
| HttpClient.Obtain | src/http_client.rs:41-42 | The last connection that is not expired, or a new one when all were, apart from all that stay pooled |
| HttpClient.TryNext | src/http_client.rs:41-61 | One round: everything behind the connection taken was expired; the connections that stay are untouched; a retry means that in this very exchange the reused one was found closed, stayed silent, or sent a head that does not fit; every other end of the round has its own cause |
| HttpClient.Send | src/http_client.rs:26-65 | At most one try per pooled connection and one more; every entry passed over was expired, or found closed or silent when tried; end of file only from a new connection found so, another error only if the request was not written or the head is bad, a panic only on an illegal body; the response is the next one of the winning connection's own stream, which goes back between responses, as all pooled ones are |
| HttpClient.HttpConnBlockingClient.Exchange | src/http_conn.rs:124-146 | Returns the next response of the stream, chunked if and only if a CRLF was buffered with its head as the reads go, and leaves the connection between responses; it counts as closed only if the last read found it so, a head does not fit, or 100000 reads brought nothing |

## Left out

- Sockets, TLS, listeners, URIs, request and response builders, header texts of the handshake, the accept value and timing: foreign I/O and thin wrappers. Clocks, random masks, connection attempts and the application's decisions are parameters.
- The buffer crate (`BufferVec`, `ExpandVec`, `WriteBuffer`) is not part of this model's sources: `fill_with` is taken as one read with end of file as a failure and a full buffer as success, `must_write` as queueing what the stream does not take, `ExpandVec` as a stack of byte strings whose `len` is zero when the stack is empty.
- `httparse` and the head parser of `http_req` are not part of this model's sources: a concrete CRLF scanner stands for them, with at most 64 fields, no bare LF, no leading blank lines and errors only at line ends.
- `embedded_websocket` is not part of this model's sources: the codec follows RFC 6455 section 5.2, a write that does not fit changes nothing, and the not-open error of a write cannot occur. It hands payload out as it arrives, at most a scratch buffer at a time, and gives an empty piece inside a frame with nothing buffered, as the comment at src/ws_stream.rs:713 says. Received payload goes straight to the continuation stack instead of through the scratch buffer.
- Memory limits: an allocation as large as an announced length is taken to succeed.
- HttpHead.ReparseTotal: speaks of buffers shorter than 2^64 bytes only, which every buffer is.
- WsStream.WsStream.WriteMsg: required to be called only where the loop ends, which WsWrite.WritingEndsIff states exactly; the reading methods, which write answers of any length, require the frame size of WsWrite.FrameSizeBound.
- WsStream.WsStream.GenericRead: nothing is promised of the input of a disconnected stream; one object models one connection, reconnecting is not modelled beyond WsAssembly.StaleFragments. A shutdown takes effect between calls.
- WsCuts.ControlsFitIff: speaks of control frames with FIN, as RFC 6455 section 5.5 demands; fragmented ones are excluded from the peer's frames here and in WsRoundTrip.Transparency.
- WsUpgrade.FromHttpConn: output still queued in the HTTP connection is dropped with it, as in the code; the model keeps it in the old connection's buffer. The handshake states before the handoff, their timeouts and retries are not modelled.
- HttpConnClient.HttpConnClient.ReadResponse: after a panic (an illegal chunked body, or a response nobody waits for behind an ignored one) nothing is promised of the connection.
- ClientPool.HttpConnClientPool.WriteRequest: endless reconnecting is cut by the finite list of attempts; clients are values with their waiting ids, not connection objects.
- ServerRegistry.HttpWsServer.Tick: connections are values of the drain specification, not connection objects; the tick result and an accept error are left out.
- HttpClient.Send: other clients' returns are excluded during one call; ConnPool.SingleOwner covers the interleavings. The pool's lock is taken as atomic steps. A request that cannot be written leaves nothing on the stream.
- Keepalive timing, idle-time statistics, logging and tracing, the self-referential request storage, `TickResult` as a lattice.
