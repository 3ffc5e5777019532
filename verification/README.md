# libcx, verified

A Dafny model of the parts of libcx (a C library for networked servers) whose correctness depends on
many steps: the WebSocket receive path, the Sec-WebSocket-Accept computation, the send path of a
connection, the linked list and the locked queue, and the streaming envelope parser with its printer.
`dafny verify dfyconfig.toml` checks the whole project.

## How the model is laid out

Code that changes things in place is modelled by classes and by methods over arrays with the loops of the
original; each such method is proved against a function on values, and the laws are proved about these
functions. References that the code is measured against are written down independently of it: frames on the
wire (`Wire`, section 5.2 of RFC 6455), SHA-1 (`Sha1Spec`, FIPS 180-4), Base64 with a decoder
(`Base64Spec`, section 3 of RFC 3548) and envelopes line by line (`EnvelopeGrammar`). What could be wrong in a
reference and in the code alike is tied down from outside: the word operations of SHA-1 by their values
(`WordArithmetic`), the frames by the examples of section 5.7 of RFC 6455 (`WireExamples`), digest, Base64 and reply
by the example of its section 1.3 (`SampleDigest`, `SampleReply`), envelopes by the message of `umtp/test_message.c`.

| part | modules | main results |
|---|---|---|
| growable buffer | `StringBuffer`, `FileDescriptor`, `Bytes` | every operation as an operation on the contents; loading until the end of input |
| WebSocket receive path | `Websocket`, `Wire`, `WireExamples`, `NetworkOrder`, `FrameCodec`, `Session`, `Closing`, `Messages`, `WsConnection`, `ReceiveRuns` | `ReceiveRuns.ReceiveAfterHandshake`, `ReceiveRuns.ReceiveSettledStream`, `Closing.ChunkIndependenceExactly`, `Messages.FragmentationIsTransparent`, `Messages.PingOnTheWire`, `Messages.CloseOnTheWire`, `Messages.RefusedExactly`, `FrameCodec.CreatedReadsBack` |
| accept value | `Sha1Spec`, `WordArithmetic`, `Sha1`, `SampleDigest`, `Base64Spec`, `Base64Enc`, `Handshake`, `SampleReply` | `Sha1.Sha1`, `Sha1.RunSteps`, `WordArithmetic.PlusIsModular`, `Base64Spec.DecodeUndoesEncode`, `Handshake.CreateReply`, `SampleReply.SampleReply` |
| send path | `SendSteps`, `ConnectionWorker`, `SendRuns` | `SendRuns.NoStrandedResponse`, `SendRuns.BytesConserved`, `SendRuns.LoopDeliversEverything`, `SendRuns.EverythingCanBeDelivered` |
| list and queue | `LinkedList`, `Queue`, `QueueRuns` | `LinkedList.List.Remove`, `QueueRuns.FirstInFirstOut`, `QueueRuns.GetsReturnWhatTheyTook` |
| envelope | `MessageFsm`, `MessageBody`, `Message`, `MessageParser`, `MessagePrinter`, `EnvelopeRoundTrip`, `EnvelopeGrammar`, `MessageRuns` | `EnvelopeGrammar.EnvelopesExactly`, `EnvelopeRoundTrip.RoundTrip`, `MessageBody.SeparatorKeepsBody`, `MessageParser.MessageParser.ReceiveAll`, `MessageParser.MessageParser.FdParse`, `MessageRuns.ParsePrinted` |

## Conventions

- The host is little-endian. Memory allocation succeeds. Sizes are natural numbers; where the code counts in a
  narrower type and it matters (the 32-bit payload length of a created frame, the 64-bit length of a frame, the
  64-bit counter of SHA-1, the 32-bit count of printed values, the int of an address comparison) the width is
  written out.
- C assertions are modelled as compiled out, so every theorem holds without them.
- `read` and `write` results are chosen by the environment: a script of outcomes for a descriptor, a sequence of
  results for a socket. A theorem for all scripts is a theorem for all sequences of short reads; the run theorems of
  the receive path are about scripts that deliver and block in any order.
- Where Ragel embeds an action in a transition twice, it is performed once, where it appears first; that is the
  generator's default, and what `umtp/test_body_parser.c` expects.
- A lock-protected section is one step of a transition system; producers, the event loop and queue threads
  interleave freely between steps.

## Where the code does not do what one would expect

- Chunking matters once the receiving side is shut. CLOSE and error states are overwritten with ESTABLISHED
  (`socket/ws/ws_connection.c:262` and `:269`), so frames behind a CLOSE that are already in the buffer are
  dispatched and frames still on the way are not. `Closing.ChunkIndependenceExactly` states exactly when the
  chunking matters, `Closing.CloseLosesWhatFollows` gives a family of streams for which it does.
- After a read that would block, a single buffered byte is looked at for reserved bits
  (`socket/ws/ws_connection.c:434-442`), while behind other frames it waits: `Closing.LoneByteMatters`. The condition of
  `Closing.ChunkIndependenceExactly` covers this too.
- Of the status codes of a CLOSE only 1000 and those from 3000 to 4999 are sent back; the others that may stand in a
  frame, 1002 among them, are answered with 1000, the rest with 1002 (`socket/ws/frame.c:124-155`):
  `Messages.StatusOfAnswer`.
- A text or binary fragment that is not final, inside an unfinished message, replaces what was collected
  (`socket/ws/ws_connection.c:254-261`), while a final one is refused: `Messages.MessageStep`, `Messages.RefusedExactly`.
- A created frame declares its full payload length but carries only that length modulo 2^32
  (`socket/ws/frame.c:226`): `FrameCodec.CreatedReadsBack` holds if and only if the length is a `uint32_t`.
- SHA-1 takes a length in bits, but bits behind the message in its last byte are not cleared
  (`socket/ws/sha1.c:194-197`): `Sha1.CodedTailIsPadding` is the exact condition.
- The `memset` that should clear shifted-out bytes has its arguments swapped and writes nothing
  (`string/string.c:72`), as the contract of `StringBuffer.Buffer.Shift` says.
- The default comparison of list data cuts an address difference to an `int` (`list/list.c:28`):
  `LinkedList.MatchByAddress` is the exact condition for a match by address to find the right element.
- A NULL item pushed on the queue is taken off without being delivered (`list/queue.c:84-91`):
  `QueueRuns.FirstInFirstOut` holds if and only if none was taken.
- A repeated blank on a protocol line emits the previous value again, with the blanks
  (`umtp/message_fsm.rl:25-27`), and an empty header value comes back as a space, or as the whole line if there is no space: `EnvelopeGrammar`
  says for every line what it is read as, `EnvelopeRoundTrip.RoundTrip` is exact about what survives being printed and
  parsed.
- A parser run on an empty buffer looks at the buffer's terminator and stops for good (`umtp/parser.h:60-63`):
  `MessageParser.MessageParser.ReceiveAll` is exact about when that matters.
- The body's marker is set behind the first character of its separator (`umtp/message_fsm.rl:38`). When that is a
  carriage return before a line feed, the body recorded is wrong, and in two ways: `MessageBody.BodyBehindCrLf` says
  what is recorded in each chunking, `MessageBody.CrLfKeepsBody` and `MessageBody.SeparatorKeepsBody` are the exact
  conditions for it to be the body that was sent.
- The length of a frame is added in 64 bits (`socket/ws/frame.c:100`), so a frame whose length wraps is taken to have
  arrived: `WsConnection.ArrivedLiesInBuffer` is exact about which frames then lie in the buffer,
  `WsConnection.WrappedLength` gives one that does not.
- A key whose length in bits exceeds 32 bits is hashed in part (`socket/ws/handshake.c:22`): `Handshake.CreateReply`.
- The index of an element to remove is an `unsigned int` (`list/list.c:341`): `LinkedList.RemovesTheFirst`.

## Model

| member | source | states |
|---|---|---|
| `StringBuffer.Buffer.constructor` | string/string.c:78-98 | a new buffer is empty, terminated and has the requested capacity |
| `StringBuffer.Buffer.MakeRoom` | string/string.c:119-162 | room for offset + size and never less than before; contents kept across reallocation; an offset behind the capacity is refused with an invalid-access status |
| `StringBuffer.Buffer.Append` | string/string.c:170-188 | contents become the first offset bytes followed by the source; growth only as needed; empty sources and bad offsets change nothing |
| `StringBuffer.Buffer.Cat` | string/string_buffer.h:93-94 | appending at the end of what is used concatenates |
| `StringBuffer.Buffer.Print` | string/string.c:340-394 | both the print that fits and the grow-and-print-again form leave prefix plus text, and the number of characters is returned |
| `StringBuffer.Buffer.Shift` | string/string.c:36-76 | the first n bytes go and the rest stays in order; the bytes behind the new terminator are not cleared; shifting more than there is changes nothing but the status |
| `StringBuffer.Buffer.Clear` | string/string_buffer.h:99-100 | shifting everything out empties the buffer and keeps its capacity |
| `StringBuffer.Buffer.ReadAppend` | string/string.c:190-233 | one read appends what the descriptor delivers; a negative size, a zero size, end of file and an error each have their own outcome |
| `StringBuffer.Buffer.Load` | string/string.c:241-282 | all bytes that arrive before the first non-data outcome are appended in order, that outcome is the one recorded, and capacity stays within used plus read size |
| `StringBuffer.Buffer.Fill` | string/string.c:285-312 | reads until the buffer is full or the input stops: the bytes delivered are the next ones, none is skipped, the capacity does not change, and what was delivered and what is still to arrive, also behind points where the descriptor blocks, is what was to arrive |
| `FileDescriptor.ReadTakesPrefix` | string/string.c:208-232 | a read of any size takes bytes off the front of what is ready and leaves the outcome that will stop the reads |
| `FileDescriptor.ReadFlows` | string/string.c:208-232 | a read of a descriptor that delivers and blocks in turn takes the next bytes or gets past a point where it blocks, and loses nothing |
| `NetworkOrder.Ntoh64UndoesHton64` | socket/ws/util.c:10-34 | the two byte-order conversions are each other's inverse |
| `NetworkOrder.ReadNetwork64` | socket/ws/util.c:23-34 | converting eight bytes loaded from memory yields the number they denote in network order |
| `NetworkOrder.WriteNetwork64` | socket/ws/util.c:10-21 | storing a converted number lays down its big-endian bytes |
| `Wire.UnmaskUndoesMask` | socket/ws/frame.c:71-79 | masking is its own inverse (section 5.3 of RFC 6455) |
| `Wire.ReadUndoesEncode` | socket/ws/frame.c:85-102 | reading a frame written in any form of its length, masked or not, with anything behind it, yields the frame and its size |
| `Wire.ReadIsLocal` | socket/ws/frame.c:191-196 | once a frame is complete, bytes behind it do not change how it is read |
| `FrameCodec.FirstByteFields` | socket/ws/frame.c:11-15 | fin, reserved bits and opcode extracted by bit masks are those of section 5.2 |
| `FrameCodec.SecondByteFields` | socket/ws/frame.c:16-17 | mask flag and 7-bit length extracted by bit masks are those of section 5.2 |
| `FrameCodec.ExtendedField` | socket/ws/frame.c:370-371 | the 16-bit length field is the big-endian number of its bytes |
| `FrameCodec.ExtendedContinuedField` | socket/ws/frame.c:374-375 | the 64-bit length field is the big-endian number of its bytes |
| `FrameCodec.WebsocketsFrame.ParseHeader` | socket/ws/frame.c:178-196 | the fields are those of the first two bytes and the payload offset accounts for length form and masking key |
| `FrameCodec.WebsocketsFrame.ParsePayloadLengthExtended` | socket/ws/frame.c:85-102 | the extended length is the declared one in all three forms; the frame length is added in 64 bits |
| `FrameCodec.WebsocketsFrame.Parse` | socket/ws/frame.c:198-214 | the pointers delimit key and payload of a complete frame |
| `FrameCodec.WebsocketsFrame.UnmaskPayloadData` | socket/ws/frame.c:62-83 | the payload is unmasked in place with its key and no byte before or behind it changes |
| `FrameCodec.CreatedReadsBack` | socket/ws/frame.c:216-234 | a created frame reads back as final, without reserved bits, with its opcode and payload if and only if the payload's length is a uint32_t; then its length is header plus payload |
| `FrameCodec.WriteHeader` | socket/ws/frame.c:310-357 | the header carries the mask bit if asked for and the shortest length form across the 125/126 and 65535/65536 boundaries |
| `FrameCodec.Create` | socket/ws/frame.c:216-308 | the frame fills a buffer preallocated for exactly header and payload without growing it |
| `Session.RunContinues` | socket/ws/ws_connection.c:360-372 | a pass over a first part and then over what it left plus a second part is the pass over both parts |
| `Session.RunStaysStopped` | socket/ws/ws_connection.c:332-358 | once the connection has left the established state later bytes change nothing |
| `Session.ChunkIndependence` | socket/ws/ws_connection.c:404-445 | for every stream that leaves the connection receiving, with no lone byte with a reserved bit left over, every way of cutting it into reads gives session and rest of one pass; `Closing.ChunkIndependenceExactly` is the exact condition for all streams |
| `Session.LegalDispatch` | socket/ws/ws_connection.c:206-274 | a legal frame is delivered, keeps the connection established and opens or closes a fragmented message as section 5.4 of RFC 6455 says |
| `Session.RunOfLegalStream` | socket/ws/ws_connection.c:360-372 | one pass over the bytes of a legal stream dispatches exactly its frames and uses up every byte |
| `Session.LegalStreamInChunks` | socket/ws/ws_connection.c:360-445 | for every legal stream and every chunking exactly the frames of the stream are dispatched, in order, each unmasked once, and nothing stays buffered |
| `Closing.RunIsCutThenRun` | socket/ws/ws_connection.c:262-269 | a pass is the pass up to the frame that shuts the receiving side, then a pass over what is behind it |
| `Closing.SettledInChunks` | socket/ws/ws_connection.c:404-445 | every chunking of a settled stream, from any state of the buffer, ends in the session of one pass |
| `Closing.ChunkIndependenceExactly` | socket/ws/ws_connection.c:360-445 | for every stream: all chunkings end in the session of one pass if and only if it is settled, that is, up to the first frame that shuts the receiving side, either the connection is refused, or it stays open and no lone byte with a reserved bit is left, or it is shut and no header stands complete behind that frame |
| `Closing.SameAsOneCallback` | socket/ws/ws_connection.c:360-445 | all chunkings end as a single callback does if and only if the stream is settled or is itself one byte |
| `Closing.LoneByteMatters` | socket/ws/ws_connection.c:434-442 | a byte with a reserved bit behind any legal frame is refused if it is read by itself and waits if it is read with the frame |
| `Closing.CloseLosesWhatFollows` | socket/ws/ws_connection.c:264-312 | any text frame behind any CLOSE frame is dispatched in one chunking and lost in another |
| `Messages.ReplyReadsBack` | socket/ws/frame.c:160-234 | what is sent for an opcode and a payload is read by the client as a final frame with both if and only if the payload's length is a uint32_t |
| `Messages.RefusedExactly` | socket/ws/ws_connection.c:206-330 | an unknown opcode, a continuation of nothing, a whole message inside an unfinished one and a control frame of more than 131 bytes or without fin are answered with one error frame of status 1002 and shut the receiving side; no other frame is answered with an error |
| `Messages.ReservedBitsRefused` | socket/ws/ws_connection.c:332-358 | reserved bits are refused with status 1002, the state becomes failed, and nothing is taken off the buffer |
| `Messages.StatusOfAnswer` | socket/ws/frame.c:104-158 | which status answers a CLOSE: 1000 without a code, 1002 for half of one, codes from 3000 to 4999 unchanged, the codes defined for use in a frame become 1000 and all others 1002 |
| `Messages.CloseOnTheWire` | socket/ws/ws_connection.c:295-303 | a final CLOSE that fits is answered by exactly one item, which the client reads as a final CLOSE whose payload is the status in network order; nothing more is received, and what is buffered behind it is processed |
| `Messages.MessageStep` | socket/ws/ws_connection.c:239-263 | a whole message is echoed, a first fragment starts a collection, also in place of an unfinished one |
| `Messages.PingAnswered` | socket/ws/ws_connection.c:276-312 | a PING is answered once with its own payload if and only if it is final and short enough |
| `Messages.PingOnTheWire` | socket/ws/ws_connection.c:303-312 | a masked PING yields one frame that decodes to a final PONG with the same data, and what follows the PING is processed as it is (section 5.5.3 of RFC 6455) |
| `Messages.FragmentationIsTransparent` | socket/ws/ws_connection.c:217-263 | however a message is cut into fragments, whatever PINGs and PONGs stand between them, and however the bytes of these frames are cut into reads: the one data frame sent is the answer to the unfragmented message read in any chunks, and besides it only the PINGs are answered; up to 2^32 - 1 bytes the client reads the bytes sent as one final PONG for each PING and then one final frame with the opcode and the whole payload |
| `WsConnection.Websockets.HandshakeSendFinished` | socket/ws/ws_connection.c:50-63 | the input buffer is cleared and keeps capacity and status, the connection is established and receives |
| `WsConnection.Websockets.SendFrame` | socket/ws/ws_connection.c:91-106 | the contents of the buffer created for the frame are queued, all of them and unchanged |
| `WsConnection.Websockets.SendError` | socket/ws/ws_connection.c:108-115 | the error state is entered, receiving stops and one error frame with the given status is queued |
| `WsConnection.Websockets.ParseLength` | socket/ws/ws_connection.c:160-189 | false exactly while length bytes are missing; otherwise the frame length is header and declared length modulo 2^64, the buffer has grown to exactly that if it was smaller, and its contents are unchanged |
| `WsConnection.Websockets.FrameArrived` | socket/ws/ws_connection.c:191-195 | true exactly if as many bytes are used as the frame length says; if that length does not wrap, exactly if the reference reads a complete frame at the front of the buffer; otherwise the buffer is not full |
| `WsConnection.ArrivedLiesInBuffer` | socket/ws/ws_connection.c:191-195 | of the frames taken to have arrived, those that lie in the buffer are exactly those whose length does not wrap |
| `WsConnection.WrappedLength` | socket/ws/frame.c:100-100 | a frame of 14 bytes is taken to have arrived although its length has wrapped |
| `WsConnection.Websockets.ContinueMessage` | socket/ws/ws_connection.c:217-238 | the fragment is appended; a final one sends the collected message under its first opcode and drops the collection |
| `WsConnection.Websockets.ReceiveMessage` | socket/ws/ws_connection.c:239-263 | a whole message is handed to the request handler, which echoes it (socket/ws/echo-server.c), a first fragment starts a collection, an unfinished one is refused |
| `WsConnection.Websockets.ResponseStatus` | socket/ws/frame.c:104-158 | the status in network order, from the length field and the payload |
| `WsConnection.Websockets.AnswerClose` | socket/ws/ws_connection.c:300-301 | a CLOSE frame with that status is queued |
| `WsConnection.Websockets.ProcessControlFrame` | socket/ws/ws_connection.c:276-330 | length and fin limits, CLOSE, PING and PONG act as the dispatcher function says |
| `WsConnection.Websockets.ProcessCompleteFrame` | socket/ws/ws_connection.c:206-274 | the frame is unmasked once and dispatched; the bytes behind it are unchanged |
| `WsConnection.Websockets.ProcessFrame` | socket/ws/ws_connection.c:332-358 | one frame is dispatched if one is complete, reserved bits are refused, and an incomplete frame leaves a buffer that is not full |
| `WsConnection.Websockets.ProcessFrames` | socket/ws/ws_connection.c:360-372 | the loop terminates and computes the dispatcher's pass over the buffer; the buffer grows to no more than the longest frame announced; when it returns established the buffer is not full |
| `WsConnection.Websockets.ProcessInput` | socket/ws/ws_connection.c:408-443 | what each buffer status leads to: frames processed, connection closed, or an error frame of status 1011 |
| `WsConnection.Websockets.ConnectionRead` | socket/ws/ws_connection.c:394-445 | one callback takes the next bytes and makes the pass over buffer and bytes; in a closed or failed state it only closes; if there is room it takes bytes or gets past a point where the descriptor blocks, and what it leaves is still to arrive |
| `WsConnection.LongestInPart` | socket/ws/ws_connection.c:177-186 | a part of a stream announces no longer frame than the stream |
| `WsConnection.OneFrame` | socket/ws/ws_connection.c:360-372 | one round of the loop as a step of the dispatcher's pass |
| `ReceiveRuns.AfterCallback` | socket/ws/ws_connection.c:404-445 | a pass over what has arrived leaves a connection that can take what is still to arrive |
| `ReceiveRuns.RunIsBounded` | socket/ws/ws_connection.c:217-263 | buffered input and collected fragments together never exceed what has arrived |
| `ReceiveRuns.LongestInStream` | socket/ws/ws_connection.c:177-186 | a stream of whole frames announces no frame that is longer than the stream, so the buffer does not outgrow it |
| `ReceiveRuns.Callback` | socket/ws/ws_connection.c:394-445 | one callback makes the pass over the buffer and the bytes it takes, for any stream; what it leaves is still to arrive, and the buffer grows to no more than the longest frame announced |
| `ReceiveRuns.Callbacks` | socket/ws/ws_connection.c:404-445 | any number of callbacks, on a descriptor that delivers short reads and blocks at any points, while the receiving side is open: the connection is where reading some chunks leads, these are what the descriptor has delivered, and every callback takes bytes or gets past a point where it blocks |
| `ReceiveRuns.ReceiveSettledStream` | socket/ws/ws_connection.c:360-445 | after as many callbacks as there are bytes and points where the descriptor blocks, a connection given a settled stream is in the session of one pass over it; `Closing.ChunkIndependenceExactly` says that every other stream has a chunking that ends elsewhere |
| `ReceiveRuns.ReceiveLegalStream` | socket/ws/ws_connection.c:360-445 | for every legal stream, in whatever short reads it arrives and wherever the descriptor blocks, after as many callbacks as there are bytes and points where it blocks exactly its frames have been dispatched, in order, and the buffer is empty |
| `ReceiveRuns.ReceiveAfterHandshake` | socket/ws/ws_connection.c:50-63 | the same for a new connection whose handshake is over |
| `WireExamples.UnmaskedText` | socket/ws/frame.c:178-214 | the first example of section 5.7 of RFC 6455 is read as the text Hello |
| `WireExamples.MaskedText` | socket/ws/frame.c:62-83 | the masked example is read as the same text |
| `WireExamples.FragmentedText` | socket/ws/frame.c:178-214 | the two fragments of the example are read as they should |
| `WireExamples.PingAndPong` | socket/ws/frame.c:178-214 | the PING and the masked PONG of the example |
| `WireExamples.BinaryMessages` | socket/ws/frame.c:85-102 | 256 bytes with a 16-bit length and 64KiB with a 64-bit length |
| `WireExamples.FragmentsAnswered` | socket/ws/ws_connection.c:206-330 | the fragmented text of the examples with their PING between its fragments, in any reads, is answered with one PONG and one text frame, byte by byte; the masked whole text is answered with the same text frame |
| `WordArithmetic.PlusIsModular` | socket/ws/sha1.c:149-175 | the sum of two words is the sum of their values modulo 2^32 |
| `WordArithmetic.Rotl1Value` | socket/ws/sha1.c:51-55 | a rotation by one is a doubling modulo 2^32 and the bit that left |
| `WordArithmetic.Rotl5Value` | socket/ws/sha1.c:51-55 | the same for five |
| `WordArithmetic.Rotl30Value` | socket/ws/sha1.c:51-55 | the same for thirty |
| `WordArithmetic.ChChooses` | socket/ws/sha1.c:64-68 | in every bit, ch takes y or z as x says |
| `WordArithmetic.ParityIsOdd` | socket/ws/sha1.c:76-80 | in every bit, parity is set if an odd number of the three is |
| `WordArithmetic.MajIsMajority` | socket/ws/sha1.c:70-74 | in every bit, maj is set if at least two of the three are |
| `WordArithmetic.ConstantsAreRoots` | socket/ws/sha1.c:102-105 | the four constants are the square roots of 2, 3, 5 and 10 times 2^30, rounded down |
| `WordArithmetic.InitialValue` | socket/ws/sha1.c:41-45 | the five words of the initial value, byte by byte |
| `WordArithmetic.MarkerValues` | socket/ws/sha1.c:197-197 | the bit that is set behind the message, for each number of bits in its last byte |
| `SampleDigest.SampleDigest` | socket/ws/sha1.c:236-256 | the digest of the sample key and GUID is the one that section 1.3 of RFC 6455 prints |
| `Sha1.SwapLoaded` | socket/ws/sha1.c:57-61 | a word loaded from memory and byte-swapped is the big-endian word |
| `Sha1.Selected` | socket/ws/sha1.c:101-105 | the rotating function index selects the function and constant that FIPS 180-4 gives for the step |
| `Sha1.NextWord` | socket/ws/sha1.c:134-147 | the word computed in the 16-word circular array is the next word of the 80-word schedule |
| `Sha1.WindowMoves` | socket/ws/sha1.c:141-142 | overwriting one word keeps the array equal to the last 16 words of the schedule |
| `Sha1.OneStep` | socket/ws/sha1.c:149-153 | shifting the register array is one step on the five working variables |
| `Sha1.RunSteps` | socket/ws/sha1.c:131-171 | the 80 steps give the working variables of section 6.1.2 of FIPS 180-4: section 6.1.3 equals section 6.1.2 for every block and state |
| `Sha1.Context.NextBlock` | socket/ws/sha1.c:94-177 | the new chaining value is the standard's for the block, the counter grows by 512 modulo 2^64 |
| `Sha1.Context.LastBlock` | socket/ws/sha1.c:181-216 | the rest of the message, marker, zeros and length counter are hashed in one or two blocks, also when the rest is longer than a block |
| `Sha1.Context.StoreLength` | socket/ws/sha1.c:205-210 | the last eight bytes of the block become the big-endian length |
| `Sha1.CodedTailIsPadding` | socket/ws/sha1.c:193-197 | the tail is the padding of section 5.1.1 if and only if the spare bits of the last byte are clear, always so for whole bytes |
| `Sha1Spec.PadIsWholeBlocks` | socket/ws/sha1.c:193-215 | padding completes the last block |
| `Sha1.OneBlock` | socket/ws/sha1.c:199-215 | up to 447 bits the padded tail is one block |
| `Sha1.TwoBlocks` | socket/ws/sha1.c:199-215 | from 448 bits on it is two |
| `Sha1.Sha1` | socket/ws/sha1.c:236-256 | for every message of fewer than 2^32 bits, whole bytes or clear spare bits, the digest of FIPS 180-4 |
| `Sha1.ContextToHash` | socket/ws/sha1.c:220-234 | the digest is the chaining value in big-endian bytes |
| `Base64Enc.AlphabetLetter` | socket/ws/base64_enc.c:57-82 | the letter computed is the alphabet's for the low six bits |
| `Base64Enc.GroupLetters` | socket/ws/base64_enc.c:94-97 | shifts and masks give the letters of the 24-bit group, and of its padded forms |
| `Base64Enc.EncodeSplits` | socket/ws/base64_enc.c:92-100 | whole groups are encoded independently of what follows |
| `Base64Spec.TextLength` | socket/ws/base64_enc.c:86-128 | the text has 4 * ceil(n / 3) characters |
| `Base64Enc.Encode` | socket/ws/base64_enc.c:86-128 | text and terminator are written through the moving pointer, nothing behind them |
| `Base64Spec.DecodeUndoesEncode` | socket/ws/base64_enc.c:86-128 | decoding the encoding yields the input, for every length |
| `Handshake.AcceptFits` | socket/ws/handshake.c:11-23 | the accept value has 28 characters and fits, with its terminator, the key buffer it overwrites |
| `Handshake.CreateReply` | socket/ws/handshake.c:6-34 | the reply carries the encoding of the SHA-1 digest of key and GUID, their length in bits taken modulo 2^32; below that bound it is the value of section 4.2.2 of RFC 6455: whatever bytes spell key and GUID one by one, the reply's bytes spell the status lines, the encoded digest of those bytes and a blank line |
| `SampleReply.SpellsSample` | socket/ws/handshake.c:17-22 | the bytes of the sample message spell the sample key and the GUID |
| `SampleReply.SampleAccept` | socket/ws/base64_enc.c:86-128 | the encoding of the sample digest is the accept value that RFC 6455 prints |
| `SampleReply.SampleReply` | socket/ws/handshake.c:3-29 | for the sample key of section 1.3 of RFC 6455 the reply is, character by character, the one given there |
| `ConnectionWorker.Response.DataAvailable` | socket/response.c:41-47 | true exactly while bytes remain |
| `ConnectionWorker.Response.DataGet` | socket/response.c:22-39 | the bytes not yet transmitted |
| `ConnectionWorker.Response.DataTransmitted` | socket/response.c:49-53 | the transmitted count grows by what was written |
| `ConnectionWorker.ConnectionState.ConnectionSend` | socket/connection_worker.c:343-354 | the callback is set, the response is queued last and the loop is notified |
| `ConnectionWorker.ConnectionState.EnableSendDataWatcher` | socket/connection_worker.c:153-161 | the notification is consumed and the watcher is on |
| `ConnectionWorker.ConnectionState.WriteResponse` | socket/connection_worker.c:356-381 | what write(2) took goes to the socket and is counted; a failed write is reported and changes nothing else |
| `ConnectionWorker.ConnectionState.FinishResponse` | socket/connection_worker.c:403-410 | a response without remaining data is reported if it has a callback, and freed |
| `ConnectionWorker.ConnectionState.ConnectionSendCb` | socket/connection_worker.c:383-417 | the callback is fetch, one write and finish, or turning the watcher off, on the connection as a value, and makes exactly the calls for an error and for a finished response |
| `SendRuns.StepKeepsWakeInv` | socket/connection_worker.c:343-417 | every step of every producer and of the loop keeps the wake-up invariant |
| `SendRuns.StepKeepsBytesInv` | socket/connection_worker.c:356-417 | every step keeps finished, current and queued responses and the bytes on the socket in agreement |
| `SendRuns.NoStrandedResponse` | socket/connection_worker.c:383-417 | in every interleaving a response that is queued or in progress will be looked at again, even if the loop is about to turn its watcher off having seen an empty queue |
| `SendRuns.BytesConserved` | socket/connection_worker.c:356-417 | at every point the bytes on the socket followed by those left are the responses' bytes in queue order |
| `SendRuns.FinishesOnceInOrder` | socket/connection_worker.c:399-410 | responses finish once each, in queue order, and only when all their bytes are on the socket |
| `SendRuns.LoopStepWorks` | socket/connection_worker.c:383-417 | each step of the loop whose writes take bytes reduces the work left |
| `SendRuns.StopsOnlyWhenIdle` | socket/connection_worker.c:383-417 | the loop has stopped exactly if it waits without watcher and notification; otherwise it has a step that makes progress |
| `SendRuns.LoopDeliversEverything` | socket/connection_worker.c:383-417 | left alone, the loop stops after a bounded number of steps, and then every response has finished and every byte is on the socket |
| `SendRuns.EverythingCanBeDelivered` | socket/connection_worker.c:383-417 | from every reachable state without a producer midway there is such a run |
| `LinkedList.List.Push` | list/list.c:70-103 | the element is appended, its index returned, links, ends and length stay consistent |
| `LinkedList.List.Prepend` | list/list.c:208-240 | the element is put in front |
| `LinkedList.List.Shift` | list/list.c:160-182 | the first element is taken off; an empty list gives NULL |
| `LinkedList.List.Pop` | list/list.c:184-206 | the last element is taken off; an empty list gives NULL |
| `LinkedList.List.At` | list/list.c:254-266 | the node at the index, NULL behind the end |
| `LinkedList.List.Get` | list/list.c:290-299 | its data, NULL behind the end |
| `LinkedList.List.Unlink` | list/list.c:310-320 | the pointer surgery takes exactly one node out of the sequence |
| `LinkedList.List.Detach` | list/list.c:301-324 | the node is returned and the rest keeps its order; an index behind the end changes nothing |
| `LinkedList.List.Delete` | list/list.c:326-334 | the element at the index goes |
| `LinkedList.List.Remove` | list/list.c:336-353 | the element deleted is the one at the index of the first occurrence modulo 2^32, and no other; a missing element changes nothing |
| `LinkedList.RemovesTheFirst` | list/list.c:341-348 | that is the first occurrence if and only if its index is an unsigned int |
| `LinkedList.List.MatchNode` | list/list.c:105-131 | index and node of the first element that compares equal, or -1 if none does |
| `LinkedList.RemovedOnce` | list/list.c:336-353 | removing the first occurrence removes one occurrence and keeps all others |
| `LinkedList.MatchByAddress` | list/list.c:25-29 | with the default comparison the first occurrence of the key is found if and only if no address a multiple of 2^32 away stands before it |
| `Queue.LockedQueue.Push` | list/queue.c:193-209 | the section under the write lock appends; an inactive queue refuses |
| `Queue.LockedQueue.Shift` | list/queue.c:70-101 | the section under the write lock takes the first item; 1 exactly for an item that is not NULL; an inactive queue or a failed lock gives -1 and changes nothing |
| `QueueRuns.StepKeepsThreadInv` | list/queue.c:126-185 | every step keeps what each thread was handed equal to what its gets returned |
| `QueueRuns.StepKeepsQueueInv` | list/queue.c:70-101 | every step keeps taken plus queued equal to pushed |
| `QueueRuns.FirstInFirstOut` | list/queue.c:70-209 | in every interleaving, items delivered followed by items queued are the items pushed, in lock order, if and only if no NULL was taken |
| `QueueRuns.ItemsPushedAreDelivered` | list/queue.c:193-209 | pushing no NULL is enough for that |
| `QueueRuns.GetsReturnWhatTheyTook` | list/queue.c:103-185 | in every run of gets that wait and gets that do not, with timeouts and spurious wake-ups, a get returns 1 exactly when it took an item, and each item is returned once |
| `MessageFsm.EdgeKinds` | umtp/message_fsm.rl:22-38 | the transitions of the grammar's machine: continue, mark, emit, or start the body, the last only behind a complete envelope |
| `MessageFsm.StepIs` | umtp/parser.h:95-112 | what the actions of one transition do to offset, marker and events: each action once, CountToken last but first on body start |
| `MessageFsm.NothingAfterBodyStart` | umtp/message_fsm.rl:17-19 | once the body has started the machine emits nothing more, so the replaced handler is never called by it |
| `MessageFsm.FirstEvent` | umtp/message_fsm.rl:25-27 | a text has events if and only if its first character that is not graphic is a blank or ends a line |
| `MessageFsm.StreamingParse` | umtp/message_fsm.rl:43-54 | the machine, fed chunks, emits the events of one pass, with marker starts and lengths, if and only if the first chunk is not empty or the text has no event; it then is also in the same state unless the body has started |
| `MessageBody.BodyBehindLineFeed` | umtp/message_parser.c:54-71 | behind a line feed the body recorded is all that follows, in every chunking |
| `MessageBody.FedToCr` | umtp/parser.c:108-128 | if a chunk ends behind the carriage return, the machine is replaced there |
| `MessageBody.BodyBehindCrLf` | umtp/message_parser.c:54-71 | behind a carriage return and a line feed the body recorded starts with the line feed, in every chunking, and lacks its own last character unless a chunk ends between the two |
| `MessageBody.CrLfKeepsBody` | umtp/message_parser.c:54-71 | it is the body that was sent if and only if no chunk ends between the two and the body consists of line feeds |
| `MessageBody.SeparatorKeepsBody` | umtp/message_fsm.rl:22-38 | a separator keeps the body in every chunking if and only if it is a line feed alone |
| `MessageFsm.RunKeepsMarkers` | umtp/parser.h:95-109 | the marker always ends at the offset and every token emitted lies in text that was seen |
| `Message.BuildStays` | umtp/parser.h:98-99 | characters that arrive later, wherever the buffer is moved to, change no token that was emitted |
| `Message.StreamedMessage` | umtp/message_parser.c:75-114 | the events of the chunks build the message that reading the text in one pass builds if and only if the first chunk is not empty or the text has no value |
| `MessageParser.MessageParser.constructor` | umtp/message_parser.c:9-32 | a new parser is at the start with an empty message |
| `MessageParser.MessageParser.FirstRun` | umtp/parser.c:53-64 | true once, until it is reset |
| `MessageParser.MessageParser.Update` | umtp/parser.h:60-63 | position and end are recomputed from the offset, an empty buffer has its terminator included, and the end of input is set once parsing is finished |
| `MessageParser.MessageParser.MarkerToS` | umtp/parser.h:98-99 | a copy of the text at the marker |
| `MessageParser.MessageParser.EventHandler` | umtp/message_parser.c:75-114 | values and headers are added in order, a header value goes to the last header, which exists |
| `MessageParser.HeaderNameFirst` | umtp/message_fsm.rl:31-33 | a header's value is only emitted behind its name, so the list of headers is not empty then |
| `MessageParser.MessageParser.Exec` | umtp/message_fsm.rl:51-51 | the character loop computes the run of the machine and stops at the end or at a character it rejects |
| `MessageParser.MessageParser.MessageFsmParse` | umtp/message_fsm.rl:43-54 | a run continues the machine over the characters not yet seen |
| `MessageParser.MessageParser.SimpleBodyParse` | umtp/message_parser.c:54-71 | when the input has ended, as many characters from the marker on as are unparsed are the body |
| `MessageParser.MessageParser.Parse` | umtp/parser.c:108-128 | the envelope machine runs unless the body has started; when its handler is replaced and characters are unparsed the body's parser runs |
| `MessageParser.MessageParser.Finish` | umtp/parser.h:65-66 | the end of input is parsed and the body, if it has started, is recorded |
| `MessageParser.MessageParser.Receive` | umtp/test_message.c:61-76 | appending a chunk, growing and possibly moving the buffer, and parsing feeds exactly the chunk to the machine, or the terminator of a buffer that is still empty |
| `MessageParser.MessageParser.ReceiveAll` | umtp/test_message.c:61-76 | for all chunks that arrive at a new parser: events and message are those of one pass over the whole text if and only if the first chunk is not empty or the text has no value |
| `MessageParser.MessageParser.FdParse` | umtp/parser.c:79-106 | for every sequence of short reads and every chunk size, zero included, the events and the message are those of one pass over all bytes read, the body is recorded at the end of input, and the byte count or -1 is returned |
| `EnvelopeGrammar.Chars` | umtp/message_fsm.rl:22-33 | the classes of characters, byte by byte: blanks, graphic and printable characters, the characters of names, line ends, the colon |
| `EnvelopeGrammar.EnvelopesExactly` | umtp/message_fsm.rl:22-38 | every text is read to the end of an envelope if and only if it is a protocol line and header lines, each ended by LF or CR LF, names followed by blanks, a colon, blanks and printable characters; the message is then the one described line by line |
| `EnvelopeGrammar.ReadProtocolLine` | umtp/message_fsm.rl:25-27 | a protocol line is accepted if and only if it consists of graphic characters and blanks; every blank and the end of the line end a value, which starts with the last word |
| `EnvelopeGrammar.ReadHeader` | umtp/message_fsm.rl:28-33 | which lines are headers, and of which name and value |
| `EnvelopeGrammar.BodyStartsExactly` | umtp/message_fsm.rl:37-38 | the body starts exactly behind an envelope and LF or an envelope and CR LF |
| `EnvelopeGrammar.EnvelopesInChunks` | umtp/message_fsm.rl:43-54 | the texts accepted in chunks, the first of which is not empty, are the same, and so are their messages |
| `EnvelopeGrammar.PrintedEnvelope` | umtp/message.c:61-85 | a printed envelope describes the message that was printed if and only if the message is Printable |
| `EnvelopeGrammar.RepositoryMessage` | umtp/test_message.c:20-48 | the message of the repository's own test has the values and headers that the test expects |
| `MessagePrinter.PrintedText` | umtp/message.c:41-85 | the text of a message with two values, two headers and a body, character by character |
| `MessagePrinter.PrintEnvelope` | umtp/message.c:61-85 | the envelope is appended to the buffer: values separated by spaces, a line per header |
| `MessagePrinter.PrintMessage` | umtp/message.c:41-49 | envelope, blank line and body are appended |
| `EnvelopeRoundTrip.EveryParsedMessage` | umtp/message_fsm.rl:22-36 | whatever is parsed, header names are legal and not empty and no string contains a line end |
| `EnvelopeRoundTrip.ReadValueLine` | umtp/message_fsm.rl:25-27 | a printed protocol line yields its values |
| `EnvelopeRoundTrip.ReadLineCounts` | umtp/message_fsm.rl:25-27 | every blank on a protocol line emits a value |
| `EnvelopeRoundTrip.KeptIsValue` | umtp/message_fsm.rl:31-33 | the token kept behind the colon and space is the printed value exactly for good header values |
| `EnvelopeRoundTrip.ReadHeaderLines` | umtp/message_fsm.rl:31-35 | printed header lines yield their headers in order |
| `EnvelopeRoundTrip.OnlyGoodHeaders` | umtp/message_fsm.rl:31-35 | headers that come back are good |
| `EnvelopeRoundTrip.RoundTrip` | umtp/message.c:61-85 | parsing a printed envelope yields the message if and only if all values are graphic and only the first may be empty, names are legal, and header values are printable, not empty and do not start with a space, or are one space followed by tabs |
| `EnvelopeRoundTrip.EmptyHeaderValue` | umtp/message_fsm.rl:31-33 | an empty header value comes back as a space |
| `EnvelopeRoundTrip.EnvelopeThenBody` | umtp/message.c:41-49 | a blank line and any body behind the envelope do not change the message |
| `EnvelopeRoundTrip.PrintedThenStreamed` | umtp/message_parser.c:75-114 | a printed message that arrives in chunks, with or without a body, builds the message that was printed if and only if the first chunk is not empty |
| `EnvelopeRoundTrip.PrintedBody` | umtp/message_parser.c:54-71 | the body of a printed message is recorded as it was printed, for all chunks of which the first is not empty |
| `MessageRuns.ParsePrinted` | umtp/message.c:41-49 | a printed message, cut into chunks of which the first is not empty, comes back from a finished parser with its values, headers and body |

## Left out

- libev, sockets, pthread internals, signals and timers; their effects are the environment's choices described above.
- WsConnection.Websockets.SendError: the bytes of the error frame are not modelled; a session records its code.
- WsConnection.Websockets.ProcessControlFrame: when a CLOSE writes a length below two in a longer form than it needs, the
  status of the answer comes from the bytes behind the frame; the session records that answer without its status.
- WsConnection.Websockets.AnswerClose: the same; every other answer is modelled byte by byte.
- WsConnection.Websockets.ProcessFrame: requires a length whose sum with the header fits 64 bits, which holds when the top
  bit of a 64-bit length is zero as section 5.2 of RFC 6455 demands. A frame whose sum wraps does not lie in the buffer
  (`WsConnection.ArrivedLiesInBuffer`), so C does not define what processing it does.
- WsConnection.Websockets.ProcessFrames: requires the same of every frame in the buffer.
- WsConnection.Websockets.ProcessInput: closing after the end of input ignores responses still to be sent, and freeing
  the connection is not modelled; the connection is marked as closed.
- WsConnection.Websockets.ConnectionRead: requires lengths that fit; the handshake branch is modelled only by its end.
- ReceiveRuns.Callbacks: the stream given to one call, and the frames it announces, are smaller than SSIZE_MAX, as
  everything in memory is; calls can follow each other.
- StringBuffer.Buffer.MakeRoom: allocation failure and the wrap-around of offset + size in `size_t` are not modelled.
- StringBuffer.Buffer.Print: formatting itself is not modelled, the formatted text is the argument; texts longer than
  INT_MAX are not cut.
- StringBuffer.Buffer.ReadAppend: the offset is the end of what is used, as every caller passes it.
- FrameCodec.Create: frames are created unmasked, as every caller does; the 32-bit header field branch of
  `HeaderField_value`, which no field uses, is absent.
- ConnectionWorker.ConnectionState.ConnectionSendCb: what the callbacks do is not modelled, only that they are called. A
  response's buffer is represented by its contents, because nothing writes to it any more.
- SendRuns.LoopDeliversEverything: is about a loop whose writes take at least one byte; closing a connection while
  responses are queued is not modelled.
- LinkedList.List.Delete: freeing of node data and iteration with callbacks are not modelled.
- Queue.LockedQueue.Push: destroying a queue and liveness are not modelled, the signal is sent without the condition's
  mutex; the transition system is about an active queue.
- QueueRuns.FirstInFirstOut: locking does not fail in the transition system.
- MessageParser.MessageParser.SimpleBodyParse: the body is recorded as text, while the code keeps a pointer into the
  buffer, which a later growth of the buffer would leave dangling. Other body parsers are not modelled.
- MessageParser.MessageParser.FdParse: is about a parser that has not parsed anything yet; another one's offset would be
  taken into the new buffer. The buffer, which the original frees at the end, stays.
- EnvelopeRoundTrip.RoundTrip: for fewer than 2^32 values, as many as the printer can count.
- `StringBuffer_from_string`, whose capacity 0 is outside the class invariant; the handshake's header checks; JSON-RPC;
  the string utilities; the test framework, tracing and logging; the example servers but for the echo handler.
