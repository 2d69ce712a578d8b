# Verified models of the TETRA robot's web server, camera and drive software

A Dafny project about the parts of the repository that are state machines over a
stream: the HTTP/WebSocket byte stack and the write queue of `async_web_server_cpp`, the
multipart stream of `web_video_server`, the IMU interpolation of `realsense2_camera`, and
the docking machine, velocity ramp and serial codec of the TETRA nodes.

Every component comes twice: as functions on values, about which the theorems speak, and
as classes and loops that update fields and buffers in place, as the sources do, each
method proved equal to its function. `dafny verify dfyconfig.toml` checks everything.

## What is proved

**From bytes to messages** (`HttpSession`, on top of the modules below). One connection
reads an HTTP request, decides on the upgrade and hands the rest of the chunk to the
WebSocket parser. The read callbacks, with their parse loops over whole chunks and the
hand-off in the middle of one, do what the bytes would do one at a time, so any two ways of
cutting the same stream into reads end in the same state with the same events; an upgrade
request in any spelling, followed by frames in any readable encoding, yields exactly the
request and then the messages the frames carry. Any bytes at all behind the request are a
row of stretches that spell frames and an unfinished tail, and yield what those frames carry.

- `HttpParser`, `HttpGrammar`, `HttpSoundness`, `HttpCompleteness`, `HttpLanguage`,
  `HttpText`: the 20-state parser accepts exactly the sentences of a grammar, which is also
  given in character literals, stores exactly what they denote, and rejects exactly when no
  continuation is a sentence. Printing a request in
  canonical form is a right inverse of parsing; parse, print, parse is parse.
- `WebsocketFrames`, `WebsocketWire`: the 15-state frame parser answers after exactly the
  bytes that spell a frame of section 5.2 of RFC 6455 (any length form, masked or not,
  minimal or not), never rejects, and decodes the payload. One family of frames is an
  exception, an unmasked empty frame under an extended length form: it takes one more byte
  as payload. Masking is stated byte for byte, and the examples of section 5.7 are read as
  that section says (`WebsocketExamples`). A frame is read back from its own bytes if and only if it is outside that
  family; frames in the minimal form always are.
- `WebsocketMessages`: a byte stream is delivered as its frames would be; messages that are
  sent come back as they were.
- `Fragmentation`: against a reference receiver for section 5.4 of RFC 6455. For every legal
  frame sequence the single message buffer delivers what the reference delivers if and only
  if no completed message had a control frame between its fragments. A stray continuation
  behind such a sequence is delivered unless no message has come at all.
- `HttpUri`, `HttpRequests`: URI and query parameters, with round trips.
- `BodyCollector`: the body handler is called once, with the announced number of bytes.

**Write queue and back-pressure** (`WriteQueue`, `MessageDelivery`, `Multipart`). Lock
sections, socket progress, completions and errors are steps that interleave freely. Nothing
is lost, repeated or reordered; at most one asynchronous write is outstanding; an error is
final. An idle healthy connection has released all memory if and only if no resource was
left waiting without a buffer. Whatever was written or failed before, what `sendMessage`
calls put on the socket comes behind it, and a peer that reads it has at any moment been
delivered the first so many of the messages, in lock order, and all of them once the
connection is idle and healthy. The parts of a multipart stream on that queue reach the socket
in order, also when a write call throws in the middle of one. The stream never has more than
its limit of footers that are both held by the connection and at most half a second old,
including when a write call throws between a part's header and its footer. Until such a throw
it refuses a part exactly when, at the time its busy test has sampled, a footer other than the
newest `limit - 1` is held and young, which with time stamps in order is exactly when the limit
is reached.

**IMU interpolation** (`ImuInterpolation`). The streaming algorithm with its history of
samples emits, over any sequence of calls, exactly the piecewise-linear interpolation of the
whole input: one message for every gyro sample that has an accelerometer arrival before it
and one behind it, blended from the two accelerometer samples around it.

**Docking, ramp and serial link** (`Docking`, `VelocityRamp`, `SerialLink`,
`SerialFields`). Without a tag the docking machine is back in mode 0 after an exactly known
number of ticks, with a stop as the last command; in each of its six modes this fails if and
only if the mode waits for the id -1, which is the id of no tag. The search for a lost tag
keeps the forward speed of the approach; it turns on the spot if and only if there was none.
With its tag in view every command stops or drives towards it, or on arrival keeps the turn
there was (`DockingSteering`). The robot reverses with an obstacle behind it if and only if it
is in a search that has lost its tag while a reverse speed was held. The serial reader
resynchronises on every well-formed frame and detects any change of one body byte, to anything
but ETX, or of the checksum; the packets written in place carry their signed numbers, of which
the scan for answers keeps the magnitudes.

`Bytes`, `Decimals` and `Incremental` hold what the others share: bit operations, decimal
numerals, and the parse loops and runs of byte-driven machines.

## Model

| member | source | states |
|---|---|---|
| WebsocketConnection.WebsocketFrameParser.ConsumeByte | async_web_server_cpp/src/websocket_message.cpp:96-204 | one byte through the 15 states updates parser and frame, key array included, exactly as the value-level step |
| WebsocketConnection.WebsocketFrameParser.UnmaskInPlace | async_web_server_cpp/src/websocket_message.cpp:193-199 | the in-place loop combines the first `length` bytes with the key indexed modulo 4 and leaves the rest |
| WebsocketConnection.WebsocketFrameParser.Parse | async_web_server_cpp/include/async_web_server_cpp/websocket_message.hpp:70-82 | the parse loop stops at the first answer or the end, and returns the position reached |
| WebsocketConnection.WebsocketFrame.FromMessage | async_web_server_cpp/src/websocket_message.cpp:6-35 | known types give a final unfragmented frame with the content and its length; an unknown type gives false and no change |
| WebsocketConnection.WebsocketFrame.Serialize | async_web_server_cpp/src/websocket_message.cpp:37-84 | header, big-endian length in the right form and content fill the buffer; false exactly when the length does not fit 64 bits |
| WebsocketConnection.SerializedMessage | async_web_server_cpp/src/websocket_message.cpp:6-84 | what is serialized for a message is the minimal unmasked wire frame of section 5.2 of RFC 6455, or nothing |
| WebsocketConnection.WebsocketFrameBuffer.ConsumeFrame | async_web_server_cpp/src/websocket_message.cpp:208-247 | one frame into the message buffer and its three-valued answer |
| WebsocketConnection.WebsocketConnection.HandleRead | async_web_server_cpp/src/websocket_connection.cpp:64-93 | the loop of a read callback leaves the objects where the value-level loop over `parse` ends and calls the handler with the messages it delivers |
| WebsocketConnection.WebsocketConnection.HandleFrame | async_web_server_cpp/src/websocket_connection.cpp:72-88 | parser reset, reassembly and delivery after each answer of the frame parser |
| WebsocketConnection.WebsocketConnection.SendMessage | async_web_server_cpp/src/websocket_connection.cpp:36-44 | true exactly for sendable messages, whose wire bytes go to the connection |
| WebsocketConnection.WebsocketConnection.SendFrame | async_web_server_cpp/src/websocket_connection.cpp:46-55 | a serializable frame's bytes, and nothing else, go to the connection |
| WebsocketFrames.UnmaskInvolution | async_web_server_cpp/src/websocket_message.cpp:193-199 | masking twice with one key restores every payload |
| WebsocketFrames.LengthBytesPass | async_web_server_cpp/src/websocket_message.cpp:130-166 | the extended-length states assemble, by shifts and bitwise or, the big-endian number the bytes spell behind what is already there |
| WebsocketFrames.BigEndianRoundTrip | async_web_server_cpp/src/websocket_message.cpp:66-81 | the length bytes of a number that fits are worth that number |
| WebsocketFrames.BodyAccepts | async_web_server_cpp/src/websocket_message.cpp:188-200 | the body state answers after exactly the announced number of bytes, unmasked as a whole |
| WebsocketWire.FrameAccepted | async_web_server_cpp/src/websocket_message.cpp:96-204 | every other frame, masked or not, in every length form, is accepted after exactly its own bytes and decodes to its payload |
| WebsocketWire.PayloadOnArrival | async_web_server_cpp/src/websocket_message.cpp:188-200 | behind any header and key, payload byte i is combined with key byte i modulo 4, for any bytes and lengths; without a key the bytes are taken as they are |
| WebsocketWire.MaskedOnWire | async_web_server_cpp/src/websocket_message.cpp:193-199 | the masked frame that the parser reads back carries the same combination, byte for byte |
| WebsocketWire.FrameSwallows | async_web_server_cpp/src/websocket_message.cpp:158-166 | an unmasked empty frame under an extended length waits for one more byte and takes it as payload |
| WebsocketWire.FrameRoundTripExactly | async_web_server_cpp/src/websocket_message.cpp:96-204 | a frame is read back from its own bytes if and only if it is not unmasked, empty and in an extended form; minimal forms always are |
| WebsocketWire.EveryStreamIsFramed | async_web_server_cpp/src/websocket_message.cpp:96-204 | every byte string is a prefix of, or starts with, the spelling of some frame |
| WebsocketWire.FrameLanguage | async_web_server_cpp/src/websocket_message.cpp:96-204 | yes after exactly a byte string if and only if it spells a frame, the frame then held is the one it spells (with its one extra payload byte when it swallows one), and the answer is never no |
| WebsocketMessages.ReceiveParsed | async_web_server_cpp/src/websocket_connection.cpp:68-89 | each `parse` call of the read loop and its handling is a stretch of the byte-by-byte run |
| WebsocketMessages.LoopIsRun | async_web_server_cpp/src/websocket_connection.cpp:64-93 | the whole loop over a chunk does what its bytes would do one at a time |
| WebsocketMessages.BytesRefineFrames | async_web_server_cpp/src/websocket_connection.cpp:64-93 | bytes that spell any list of frames are delivered as the frames would be, and end at a frame boundary |
| WebsocketMessages.EveryStreamIsDelivered | async_web_server_cpp/src/websocket_connection.cpp:64-93 | any byte stream at all is a row of stretches that spell frames, swallowing ones included, and a tail on which the parser is undecided; delivered is what these frames deliver |
| WebsocketMessages.MessagesRoundTrip | async_web_server_cpp/src/websocket_connection.cpp:36-93 | sending any list of messages and reading the bytes delivers exactly the sendable ones in order, whatever the receiver held before |
| WebsocketExamples.SentLiterally | async_web_server_cpp/src/websocket_message.cpp:6-84 | for every type and length, the literal first byte, length form and content that are sent |
| WebsocketExamples.ClientFrame | async_web_server_cpp/src/websocket_message.cpp:208-247 | a masked final frame with first byte 0x81, 0x82, 0x88, 0x89 or 0x8A delivers a text, binary, close, ping or pong message; any other nonzero opcode nothing |
| WebsocketExamples.TextExample | async_web_server_cpp/src/websocket_message.cpp:96-204 | the unmasked text example of section 5.7 of RFC 6455, byte by byte |
| WebsocketExamples.MaskedTextExample | async_web_server_cpp/src/websocket_message.cpp:96-204 | the masked text example of that section delivers "Hello" |
| WebsocketExamples.PingExample | async_web_server_cpp/src/websocket_message.cpp:96-204 | its ping example |
| WebsocketExamples.MaskedPongExample | async_web_server_cpp/src/websocket_message.cpp:96-204 | its masked pong example |
| WebsocketExamples.FragmentedExample | async_web_server_cpp/src/websocket_message.cpp:208-247 | its fragmented text example delivers one whole text |
| Bytes.XorBits | async_web_server_cpp/src/websocket_message.cpp:193-199 | exclusive or, bit by bit, is addition without carry |
| Bytes.OrBits | async_web_server_cpp/src/websocket_message.cpp:130-160 | inclusive or, bit by bit, is the greater of the two |
| Fragmentation.BufferMeetsReference | async_web_server_cpp/src/websocket_message.cpp:208-247 | from any point of a legal sequence, the buffer and the reference receiver agree if and only if no completed message was interrupted by a control frame |
| Fragmentation.DeliversLegalStreams | async_web_server_cpp/src/websocket_message.cpp:208-247 | the same from a message boundary, with anything left in the buffer |
| Fragmentation.PingOverwritesText | async_web_server_cpp/src/websocket_message.cpp:218-242 | the concrete family that fails: a ping between two halves of a text takes over the second half |
| Fragmentation.StrayContinuation | async_web_server_cpp/src/websocket_message.cpp:211-217 | behind any legal sequence that leaves nothing under way, a final continuation is delivered as the last message with the stray content behind it; it delivers nothing if and only if no frame has come and the buffer held no message |
| Fragmentation.FragmentsReassemble | async_web_server_cpp/src/websocket_message.cpp:208-247 | however each message of a list is fragmented, it is delivered once, with its type and whole content |
| Fragmentation.ReservedNeverDelivered | async_web_server_cpp/src/websocket_message.cpp:237-239 | a reserved opcode and any continuations behind it deliver nothing |
| HttpRequests.HttpRequestParser.ConsumeByte | async_web_server_cpp/src/http_request_parser.cpp:22-282 | one byte through the 20 states updates state and request as the value-level step, and a header under way exists |
| HttpRequests.HttpRequestParser.ParseChunk | async_web_server_cpp/include/async_web_server_cpp/http_request_parser.hpp:35-47 | the parse loop stops at the first answer or the end of the chunk, and returns the position reached |
| HttpParser.HeaderStaysUnderWay | async_web_server_cpp/src/http_request_parser.cpp:185-266 | on no input does the parser reach for the last header of an empty list |
| HttpSoundness.GrowStep | async_web_server_cpp/src/http_request_parser.cpp:22-282 | in every state, a byte that is not rejected extends the syntax tree read so far by exactly that byte, and the request still is what the tree denotes |
| HttpSoundness.AcceptsOnlySentences | async_web_server_cpp/src/http_request_parser.cpp:22-282 | accepted input is a well-formed sentence of the grammar and the stored request is its meaning |
| HttpCompleteness.HeaderLinePasses | async_web_server_cpp/src/http_request_parser.cpp:185-266 | a header line adds its header, colon and one space removed |
| HttpCompleteness.FoldedLinePasses | async_web_server_cpp/src/http_request_parser.cpp:185-226 | a folded line adds its text, leading blanks removed and no space inserted, to the header before it |
| HttpCompleteness.AcceptsEverySentence | async_web_server_cpp/src/http_request_parser.cpp:22-282 | every sentence is accepted after exactly its last byte with the request it denotes |
| HttpCompleteness.Completion | async_web_server_cpp/src/http_request_parser.cpp:22-282 | every state has a continuation that is accepted |
| HttpLanguage.AcceptsExactlySentences | async_web_server_cpp/include/async_web_server_cpp/http_request_parser.hpp:35-47 | yes after exactly a byte string if and only if it is a sentence, with method, URI, versions and headers as denoted |
| HttpLanguage.RejectsExactlyDeadEnds | async_web_server_cpp/src/http_request_parser.cpp:22-282 | no if and only if no continuation of the consumed bytes is a sentence |
| HttpText.TokenCharacters | async_web_server_cpp/src/http_request_parser.cpp:284-325 | a token character is a letter, a digit or one of fifteen listed marks |
| HttpText.ControlCharacters | async_web_server_cpp/src/http_request_parser.cpp:289-292 | a control is what lies below the space, and DEL |
| HttpText.RenderIsText | async_web_server_cpp/src/http_request_parser.cpp:22-282 | every sentence is, in character literals, method, space, URI, " HTTP/", version, CR LF, then each line with its ": " and CR LF, then CR LF |
| HttpText.WellFormedIsText | async_web_server_cpp/src/http_request_parser.cpp:22-325 | what the parts of a sentence may hold, in character literals |
| HttpText.AcceptsExactlyText | async_web_server_cpp/src/http_request_parser.cpp:22-325 | yes after exactly a byte string if and only if it is such a text, with method, URI, version and headers as written |
| HttpText.RootRequest | async_web_server_cpp/src/http_request_parser.cpp:22-282 | "GET / HTTP/1.1", CR LF, CR LF is accepted as that request |
| HttpLanguage.AcceptedIsPrintable | async_web_server_cpp/src/http_request_parser.cpp:107-282 | every accepted request has token names, printable values and non-negative versions |
| HttpLanguage.ParsePrint | async_web_server_cpp/src/http_request_parser.cpp:107-282 | parsing the canonical text of a request gives that request back |
| HttpLanguage.ParsePrintParse | async_web_server_cpp/src/http_request_parser.cpp:107-282 | parse, print, parse is parse, also for folded headers and leading zeros |
| HttpUri.SplitJoin | async_web_server_cpp/src/http_request.cpp:22-23 | splitting undoes joining with the separator |
| HttpUri.JoinSplit | async_web_server_cpp/src/http_request.cpp:22-23 | joining undoes splitting, and no piece holds the separator |
| HttpUri.UriRebuilds | async_web_server_cpp/src/http_request.cpp:10-20 | path and query are cut at the first question mark and rebuild the URI |
| HttpUri.UriRoundTrip | async_web_server_cpp/src/http_request.cpp:12-48 | a path and any parameter list, flags and repeats included, parse back to the path, the query and the list's meaning, the last entry of a key winning |
| HttpUri.UriTextRoundTrip | async_web_server_cpp/src/http_request.cpp:12-48 | the same in character literals: path, "?", "key=value" or bare keys with "&" between them |
| HttpUri.MapRoundTrip | async_web_server_cpp/src/http_request.cpp:22-40 | a parameter map written in any order parses back to the same map |
| HttpRequests.HttpRequest.ParseUri | async_web_server_cpp/src/http_request.cpp:12-48 | path, query and the parameter map are updated as the value-level split says |
| HttpSession.HeaderValue | async_web_server_cpp/src/http_request.cpp:61-73 | the value of the first header of exactly that name, nothing when there is none |
| HttpSession.HandshakeIsUpgrade | async_web_server_cpp/src/websocket_request_handler.cpp:30-39 | a request is an upgrade if and only if the first headers named "Connection", "Upgrade" and "Sec-WebSocket-Key", at whatever positions, hold "Upgrade" with anything around it, "websocket" in any mix of cases, and a nonempty key |
| HttpSession.HandshakeSentence | async_web_server_cpp/src/websocket_request_handler.cpp:30-39 | three such header lines, with any surroundings, mix of cases and key, make an upgrade request of any sentence that names none of the three headers |
| HttpSession.HandOff | async_web_server_cpp/src/http_connection.cpp:27-57 | the callback before the upgrade parses the whole chunk and refuses, reads on, or gives the bytes behind the blank line to a new WebSocket: just what the bytes one at a time would do |
| HttpSession.CallbackIsRun | async_web_server_cpp/src/websocket_connection.cpp:64-93 | the same for any one callback, before or after the upgrade |
| HttpSession.CallbacksAreRun | async_web_server_cpp/src/http_connection.cpp:27-57 | a series of read callbacks, each on its whole chunk, with none after a refusal, ends where the byte-by-byte run ends, with the same events |
| HttpSession.CutsDoNotMatter | async_web_server_cpp/src/http_connection.cpp:27-57 | two series of read callbacks on any two cuts of one stream, empty reads included, end in the same state with the same events |
| HttpSession.EndToEnd | async_web_server_cpp/src/websocket_request_handler.cpp:26-73 | the callbacks on an upgrade request in any spelling followed by readable frames, in any reads, show the denoted request and then what the frames deliver |
| HttpSession.EndToEndBytes | async_web_server_cpp/src/websocket_request_handler.cpp:26-73 | the same for any bytes at all behind the request: the handler sees what the frames they spell deliver |
| HttpSession.EndToEndMessages | async_web_server_cpp/src/websocket_request_handler.cpp:67-72 | when the frames carry fragmented messages, each is delivered once and whole behind the request |
| HttpSession.ConnectionReader.HandleRead | async_web_server_cpp/src/http_connection.cpp:27-57 | the read callback before the upgrade is the value-level callback: parse, refusal, or hand-off of the leftover bytes |
| HttpSession.ConnectionReader.HandleRequest | async_web_server_cpp/src/websocket_request_handler.cpp:26-80 | an upgrade opens a WebSocket connection that first reads the leftover bytes; anything else ends reading |
| HttpSession.ConnectionReader.ForwardRead | async_web_server_cpp/src/websocket_connection.cpp:57-63 | the read callback after the upgrade is the value-level callback |
| HttpSession.ConnectionReader.ReadAll | async_web_server_cpp/src/http_connection.cpp:21-57 | a series of callbacks, none after a refusal, ends where the value-level series ends, with the same events |
| BodyCollector.BodyCollectedOnce | async_web_server_cpp/src/http_request_handler.cpp:79-124 | for any chunking the handler is called exactly once, at the first read by which enough bytes have arrived, with exactly the announced number of bytes, and no further read is requested |
| BodyCollector.NoLengthIsRefused | async_web_server_cpp/src/http_request_handler.cpp:102-109 | without a usable length the first read is answered with one bad request, the handler is never called and no further read is requested |
| BodyCollector.BodyCollectingConnection.HandleReadChunk | async_web_server_cpp/src/http_request_handler.cpp:102-124 | one read callback of the collecting connection |
| WriteQueue.ConnectionWriter.WriteBuffers | async_web_server_cpp/src/http_connection.cpp:100-121 | buffers and resource are queued, even when the call throws, and a write is started when none is in progress |
| WriteQueue.ConnectionWriter.WritePending | async_web_server_cpp/src/http_connection.cpp:124-138 | throws after an error, otherwise hands all pending buffers and resources to one asynchronous write |
| WriteQueue.ConnectionWriter.HandleWriteDone | async_web_server_cpp/src/http_connection.cpp:140-156 | a completion clears the flag and starts the next write, or records the error |
| WriteQueue.ConnectionWriter.HandleReadRaw | async_web_server_cpp/src/http_connection.cpp:59-71 | a read error is recorded |
| WriteQueue.InvariantStep | async_web_server_cpp/src/http_connection.cpp:100-156 | every lock section, socket step and completion keeps the queue invariant |
| WriteQueue.WriteSafety | async_web_server_cpp/src/http_connection.cpp:100-156 | in every reachable state at most one write is outstanding, exactly when the flag is set; nothing waits behind an idle healthy socket; all needed memory is held |
| WriteQueue.WriteConservation | async_web_server_cpp/src/http_connection.cpp:100-156 | until a write fails, sent, in flight and pending make up what was submitted in lock order; what reached the socket is always a prefix of it |
| WriteQueue.ErrorIsFinal | async_web_server_cpp/src/http_connection.cpp:124-156 | after a read or write error no write is started in any continuation, and with none outstanding nothing more is sent |
| WriteQueue.ThrowsExactly | async_web_server_cpp/src/http_connection.cpp:100-151 | in every reachable state a write call throws if and only if a read or write has failed and no write is outstanding; a completion throws if and only if a read has failed meanwhile and something is pending |
| WriteQueue.HeldStep | async_web_server_cpp/src/http_connection.cpp:131-137 | only a write call makes a resource held |
| WriteQueue.IdleHoldsNothing | async_web_server_cpp/src/http_connection.cpp:123-151 | an idle healthy connection has released every resource if and only if none was left waiting by a call that hands over only a resource, behind a write and with nothing pending |
| WriteQueue.BuffersLeaveNoStray | async_web_server_cpp/src/http_connection.cpp:84-121 | no resource is left waiting when every call hands over a buffer |
| WriteQueue.ResourceOnlyLingers | async_web_server_cpp/src/http_connection.cpp:111-151 | the run that shows the condition can fail: a resource queued alone behind a write is still held when all is sent |
| MessageDelivery.PeerIsDelivered | async_web_server_cpp/src/websocket_connection.cpp:36-55 | from any reachable state of the write queue, the reply to the upgrade request among what was written before, and errors included: what reached the socket is the earlier bytes and then the messages of the `sendMessage` calls in lock order, as far as it goes; reading those delivers a prefix of the sendable messages; when idle and healthy nothing earlier is missing and all are delivered |
| Multipart.StreamStep | web_video_server/src/multipart_stream.cpp:89-140 | every step of the sender, the socket, other writers and the clock keeps the stream invariant |
| Multipart.BackPressure | web_video_server/src/multipart_stream.cpp:89-140 | at every moment of every run at most `max_queue_size_` footers are both still held by the connection and no older than 0.5 s |
| Multipart.BusyExactly | web_video_server/src/multipart_stream.cpp:122-140 | in every run that has not been aborted by a throwing write call, and for any time stamps: a part is refused if and only if a footer other than the last `max_queue_size_ - 1` is held and young at the time the busy test has sampled; in an aborted one none is refused |
| Multipart.BusyAtLimit | web_video_server/src/multipart_stream.cpp:122-140 | with time stamps that do not go back: a part is refused if and only if the stream is not aborted and as many footers as the limit are held and young at that time |
| Multipart.PartsInOrder | web_video_server/src/multipart_stream.cpp:71-120 | in every run, aborted or not and with any limit or none: the socket has only taken from write calls among which the stream's own are its accepted parts, each as header, payload, footer, in order, the last one possibly cut; until one of these calls throws they are all its calls, and from then on the socket takes nothing more |
| Multipart.FooterIsDelimiter | web_video_server/src/multipart_stream.cpp:89-92 | the footer is CR LF, two dashes, the boundary, CR LF, in character literals |
| Multipart.FinishIsARun | web_video_server/src/multipart_stream.cpp:110-120 | an uninterrupted `send_part` is one of the interleaved runs |
| Multipart.MultipartStream.IsBusy | web_video_server/src/multipart_stream.cpp:122-140 | the loop drops from the front the footers that are expired or stale, up to the first that is neither, and answers the comparison of what is left with the limit |
| Multipart.MultipartStream.SendPart | web_video_server/src/multipart_stream.cpp:99-120 | the object's effect is that of the sender's steps carried to their end |
| Multipart.MultipartStream.SendPartFooter | web_video_server/src/multipart_stream.cpp:89-97 | the footer is written and, only if the call did not throw, remembered |
| ImuInterpolation.BaseRealSenseNode.FillImuDataLinearInterpolation | realsense-ros/realsense2_camera/src/base_realsense_node.cpp:348-391 | one call: the history deque afterwards and the messages emitted, with no acceleration where two accelerometer samples have the same time and the source divides by zero |
| ImuInterpolation.BaseRealSenseNode.UniteGyros | realsense-ros/realsense2_camera/src/base_realsense_node.cpp:374-381 | the inner loop unites every queued gyro sample with the two accelerometer samples, in order |
| ImuInterpolation.FeedIsScan | realsense-ros/realsense2_camera/src/base_realsense_node.cpp:350-391 | all calls together emit what one scan of the whole input emits, in spite of the early returns and the cut history |
| ImuInterpolation.WaitingExactly | realsense-ros/realsense2_camera/src/base_realsense_node.cpp:384-388 | for any times, also such as go back: what waits to be united is the gyro samples behind the last accelerometer sample that are not earlier than it; the others are dropped |
| ImuInterpolation.InterpolateLast | realsense-ros/realsense2_camera/src/base_realsense_node.cpp:344-346 | on the newest piece the curve through all accelerations is the blend the code computes |
| ImuInterpolation.StreamingIsBatch | realsense-ros/realsense2_camera/src/base_realsense_node.cpp:348-391 | the concatenated outputs equal the batch interpolation: every gyro sample between the first and the latest accelerometer arrival once, in order, none later owed |
| ImuInterpolation.EmittedSample | realsense-ros/realsense2_camera/src/base_realsense_node.cpp:328-346 | each emitted message has the gyro's time and rates, and an acceleration that in each coordinate lies, at that time, on the straight line through two successive accelerometer samples, one on each side of it |
| ImuInterpolation.WindowIsEnclosed | realsense-ros/realsense2_camera/src/base_realsense_node.cpp:350-383 | the samples united are those with an accelerometer arrival before them and one behind them, and no others |
| ImuInterpolation.EnclosedIsEmitted | realsense-ros/realsense2_camera/src/base_realsense_node.cpp:348-391 | every gyro sample with an accelerometer arrival before it and one behind it is emitted, at the place given by the gyro samples before it |
| Docking.DockingNode.DockingThread | tetra_service/src/tetra_service.cpp:1588-1702 | one tick of the mode machine |
| Docking.DockingNode.ChargingStationTracking | tetra_service/src/tetra_service.cpp:1310-1401 | approach, arrival, search and time-out |
| Docking.DockingNode.ChargingStationYawTracking | tetra_service/src/tetra_service.cpp:1403-1480 | alignment with its bounded number of rotation ticks |
| Docking.DockingNode.ChargingStationBackStep | tetra_service/src/tetra_service.cpp:1482-1519 | the bounded reverse move |
| Docking.DockingNode.ChargingStationTracking2 | tetra_service/src/tetra_service.cpp:1521-1584 | final approach until charging or the tag is lost |
| Docking.DockingNode.DepartStation2Move | tetra_service/src/tetra_service.cpp:894-931 | leaving the station, then the navigation goal and mode 0 |
| Docking.DockingNode.RotationMovement | tetra_service/src/tetra_service.cpp:934-963 | turn direction away from the side obstacle |
| Docking.CountersStayInRange | tetra_service/src/tetra_service.cpp:1373-1514 | on every run of ticks and service calls the counters stay within 8001, 101 and 200 |
| Docking.ForwardSpeedLimited | tetra_service/src/tetra_service.cpp:1323-1331 | no run publishes a forward speed above 1.0 |
| Docking.FinalApproachAligned | tetra_service/src/tetra_service.cpp:1347-1414 | unless a service call commands it, no run enters the final approach with a yaw beyond one degree |
| Docking.QuietTick | tetra_service/src/tetra_service.cpp:1588-1702 | without a tag and with nothing behind, each tick lowers the remaining count by exactly one, or more when an exit is asked for |
| Docking.DockingEnds | tetra_service/src/tetra_service.cpp:1310-1702 | from modes 1, 2, 3, 4, 10 and 31, unless the mode waits for the id -1, mode 0 is reached after exactly the remaining count, at most 8306 ticks, and the last published command is a stop |
| Docking.DockingEndsExactly | tetra_service/src/tetra_service.cpp:1310-1702 | in each of those six modes, every input without a tag and with nothing behind leads back to mode 0 within that count if and only if the mode does not wait for the id -1: the home id in mode 4 and in mode 3 when aligned, none in mode 10, the docking id otherwise |
| Docking.SearchCoasts | tetra_service/src/tetra_service.cpp:1367-1387 | until its time-out the search publishes one command a tick, each with the forward speed held when the tag was lost and a turn rate of 0.1 either way |
| Docking.SearchStandsStillExactly | tetra_service/src/tetra_service.cpp:1367-1387 | the robot turns on the spot during the search if and only if it had no forward speed when the tag was lost |
| DockingSteering.RecordsAreComplete | tetra_service/src/tetra_service.cpp:1588-1702 | the records of a run account for every command it has published, in order |
| DockingSteering.HomesIn | tetra_service/src/tetra_service.cpp:1317-1543 | in every run, each command published in mode 2 or 4 with the station's tag in view is a stop, or drives forward and turns against the heading at 0.8 of it, or on arrival only keeps the turn there was; none goes backwards |
| DockingSteering.TurnsAgainstHeading | tetra_service/src/tetra_service.cpp:1333 | such a turn has the sign opposite to the heading and 0.8 of its size |
| DockingSteering.ApproachTick | tetra_service/src/tetra_service.cpp:1317-1365 | what the search publishes with its tag in view, when it publishes nothing, and which mode arrival leads to |
| DockingSteering.FinalTick | tetra_service/src/tetra_service.cpp:1521-1563 | what the final approach publishes with its tag in view, when it publishes nothing, and that it ends with a stop as soon as the robot is charging |
| DockingSteering.SearchTurnsAway | tetra_service/src/tetra_service.cpp:934-963 | the side the search turns to, by the side obstacles and the side turned to before |
| DockingSteering.AlignmentTick | tetra_service/src/tetra_service.cpp:1403-1480 | alignment backs away turning against the yaw and halts, uncounted, before a rear obstacle |
| DockingSteering.BackStepTick | tetra_service/src/tetra_service.cpp:1482-1519 | the reverse move goes straight back and halts, uncounted, before a rear obstacle |
| DockingSteering.DepartureTick | tetra_service/src/tetra_service.cpp:894-931 | departure goes straight back at 0.05, halts before a rear obstacle or for an initial pose, and ends with a stop and one goal |
| DockingSteering.SilentTick | tetra_service/src/tetra_service.cpp:1588-1702 | the modes without a movement of their own publish nothing |
| DockingSteering.ReversesBlindlyExactly | tetra_service/src/tetra_service.cpp:894-1584 | in every run, a command reverses with an obstacle behind the robot if and only if it is the first one of a search tick that has lost its tag while a reverse speed is held |
| DockingSteering.BlindReverse | tetra_service/src/tetra_service.cpp:1367-1371 | such a run: the search commanded in the middle of a reverse move |
| SerialLink.MakeLrc | tetra/include/rs232_common.c:86-95 | the exclusive or of the given stretch of the buffer |
| SerialLink.LrcDetects | tetra/include/rs232_common.c:86-95 | changing exactly one byte changes the checksum |
| SerialLink.LrcIsParity | tetra/include/rs232_common.c:86-95 | each bit of the checksum is the parity of that bit over the bytes |
| SerialLink.LrcCloses | tetra/include/rs232_common.c:86-95 | a stretch followed by its own checksum has checksum zero |
| SerialLink.GetResponse | tetra/include/rs232_common.c:125-152 | return value, bytes taken from the line and buffer contents for every line, in a buffer with room for the one frame that is read |
| SerialLink.RespondFrame | tetra/include/rs232_common.c:125-152 | after STX-free noise a frame is taken exactly through its checksum byte and accepted if and only if flag and checksum are right |
| SerialLink.Resynchronises | tetra/include/rs232_common.c:125-152 | a series of good frames with noise before each is accepted call by call |
| SerialLink.CorruptBodyDetected | tetra/include/rs232_common.c:144-148 | one body byte changed to another non-ETX value makes that call fail, and the line is still read exactly to the end of that frame |
| SerialLink.CorruptChecksumDetected | tetra/include/rs232_common.c:146-148 | a changed checksum byte makes that call fail |
| SerialFields.MyPow | tetra/include/rs232_common.c:7-16 | the power of any base, wrapping at 64 bits |
| SerialFields.Int2Str | tetra/include/rs232_common.c:48-72 | sign and canonical decimal digits in place, nothing before them touched; the first byte is '-' if and only if the number is negative; zero leaves a digit it does not count |
| SerialFields.Str2Int | tetra/include/rs232_common.c:18-46 | the value of every field up to ETX is added to the caller's array, wrapping at 32 bits; the rest of the array is untouched |
| SerialFields.AddField | tetra/include/rs232_common.c:32-35 | the positional sum over the digit buffer adds the numeral's value to the field, wrapping at 32 bits, and changes nothing else |
| SerialFields.BuildOdometry | tetra/src/drive_module.c:131-162 | the bytes of the odometry packet: STX, "CX", numbers that a reader of signed decimals gets back exactly, ETX and checksum |
| SerialFields.BuildVelocity | tetra/src/drive_module.c:181-204 | the bytes of the velocity packet: STX, "BE", numbers that a reader of signed decimals gets back exactly, ETX and checksum |
| SerialFields.PacketRoundTrip | tetra/include/rs232_common.c:18-72 | scanning a buffer that holds a packet finds one canonical numeral of at most ten digits per field, worth the field's magnitude |
| SerialFields.PacketCarries | tetra/src/drive_module.c:131-204 | STX, the two letters, and then numbers that a reader of signed decimals gets back exactly, whatever stands behind the packet |
| SerialFields.PacketDetermines | tetra/src/drive_module.c:131-204 | two packets are equal only if they carry the same numbers |
| SerialFields.SignedExactly | tetra/include/rs232_common.c:53-57 | a field starts with '-' if and only if its number is negative |
| SerialFields.PacketCloses | tetra/src/drive_module.c:156-159 | a packet ends with ETX and the checksum of everything between STX and it |
| SerialFields.OdometryReadBack | tetra/src/drive_module.c:131-162 | building the odometry packet and scanning the same buffer into a zeroed array gives the three magnitudes |
| SerialFields.VelocityReadBack | tetra/src/drive_module.c:181-204 | the same for the velocity packet |
| VelocityRamp.DriveNode.RampTick | tetra/src/tetra.cpp:537-581 | one tick of the ramp |
| VelocityRamp.TickMoves | tetra/src/tetra.cpp:544-581 | no overshoot, at most 0.06 per tick, and at least 0.01 closer or arrived |
| VelocityRamp.TickIsExact | tetra/src/tetra.cpp:544-581 | a tick moves the speed towards the request by exactly the rate or the distance left: 0.01 away from rest, 0.05 towards it, 0.06 when a reverse is asked for at forward speed |
| VelocityRamp.Accelerates | tetra/src/tetra.cpp:544-550 | under a constant forward request the speed after n ticks is the request or 0.01 n more than it was |
| VelocityRamp.Brakes | tetra/src/tetra.cpp:551-556 | and down to a forward request the request or 0.05 n less |
| VelocityRamp.StaysInHull | tetra/src/tetra.cpp:532-581 | the speed stays within the hull of its start and all requests |
| VelocityRamp.Arrives | tetra/src/tetra.cpp:532-581 | under a constant request it arrives within distance / 0.01 ticks and stays |

## Left out

- Sockets, strands, thread pools and pointer lifetimes: only lock sections, completions, errors and the set of held resources are modelled; a reader that must not be called back is one whose `reading` flag is off.
- The Sec-WebSocket-Accept hash, regular-expression dispatch, stock replies, files and HTML: a refused connection is modelled by the fact that it asks for no more reads.
- `has_header` and `static_reply`: their code does not do what their names say, and nothing here needs them.
- Memory limits: `reserve` is not modelled, frame lengths and HTTP version numbers are mathematical integers.
- Uninitialised memory: a new frame starts with zero bytes; the version fields of a new request are arbitrary in the theorems.
- A WebSocket connection without a message handler: the handler is always set.
- HttpSession.IsUpgrade: compares header values in ASCII; locale-dependent case folding is not modelled.
- BodyCollector.BodyCollectedOnce: the conversion of the Content-Length text is a parameter, negative when it fails.
- Multipart.MultipartStream.SendPart: the text of a part header is a parameter; its several buffers are one write of their concatenation, as in the source one call.
- ImuInterpolation.StreamingIsBatch: times and vectors are reals, so rounding is not modelled; two accelerometer samples at the same time, for which the source divides by zero, are outside the valid inputs, as are times that go backwards or are not positive.
- Docking: square root and arc tangent of the tag pose are sensor inputs, as is the charging status; the LED calls and the navigation client are not modelled, a goal is only counted.
- SerialLink.GetResponse: the buffer must have room for the frame, or for the part of one that is on the line, which the source leaves to its caller.
- SerialFields.Str2Int: fields of more than ten digits overflow the source's digit buffer and are excluded by its precondition.
- SerialFields.MyPow: `unsigned long` has 64 bits; what `str2int` stores would be the same with 32.
- SerialFields.Int2Str: the smallest 32-bit integer, which cannot be negated, is excluded.
- `get_response2`, the parameter and position commands of the drive board, and the duplicate codec of `tetra_interface`: they would repeat what is here.
- `SyncedImuPublisher`, handler groups, profile and sensor management, `virtual_wall` and lidar parsing: one-branch code or foreign interfaces.
