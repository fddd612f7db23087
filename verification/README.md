# Verified models of the deskaone-sdk protocol engines

The SDK writes its own wire codecs and state machines: a WebSocket client, an HTTP/1.1
client, a PostgreSQL migrator, a byte stream, an encrypted store and two proxy handshakes.
This project models them in Dafny and proves what they promise, for every input, every
schedule of short reads and writes, and every interleaving.

Code that works on bytes in loops is modelled by classes and methods with loops; each
method is proved to do what a function says, and the theorems are about those functions.
Code whose point is concurrency (frame writers, migrators, the reconnect loop) is modelled
as a state machine over the points where goroutines can interleave, and the theorems are
about all runs. `dafny verify dfyconfig.toml` checks everything.

| file | what it models |
|---|---|
| `WebSocketFrame.dfy` | frame encoder and decoder, masking, limits |
| `WebSocketMessage.dfy` | `ReadMessage`: fragments, pings, pongs, close frames |
| `FrameWriters.dfy`, `TcpClient.dfy` | writers that share one mutex and one connection |
| `Reconnect.dfy` | `Run` with its listeners and callbacks |
| `ChunkedBody.dfy` | the chunked body reader against a one-shot decoder |
| `RequestText.dfy` | the request printer against the header parser |
| `Exchange.dfy` | retries, redirects, ownership of connections |
| `Migration.dfy`, `Migrator.dfy` | loading, sorting and applying migrations, alone and concurrently |
| `NetworkStream.dfy` | the cursor buffer, its typed values and its growth |
| `Pkcs7.dfy`, `Storage.dfy` | block padding; the main and backup file of the store |
| `ConnectHeaders.dfy`, `Socks5.dfy` | the two proxy handshakes |
| `Bytes.dfy`, `Text.dfy`, `ByteReader.dfy`, `Wrappers.dfy` | bytes, integers, text and readers that the others share |

Where the code does not meet a natural expectation, the model follows the code, a lemma
shows the failure, and another says exactly when the expectation holds:

- A pong between two fragments loses the message: one call returns it exactly when there is no pong among the fragments and the limit holds (`Reassembled`); `PongLosesFragment` says what the calls return instead.
- A write that takes no byte and reports no error, in the middle of a frame, lets the next frame start inside it (`TornFrameSwallowsNext`). Framing survives such a write exactly when no byte of the frame was out or the TCP client was closed (`FramingSurvivesGiveUp`).
- The close frame of `Close` need not be the last one. A frame that is not a close frame can follow it (`DataAfterClose`), exactly when such a frame of another writer was past its check at the swap of `isClosed` and the TCP client was open (`DataAfterCloseExactly`). The answer to a peer's close frame can follow it at any time (`ReplyAfterClose`), exactly when the TCP client was open (`FrameAfterCloseExactly`).
- `Close` of the WebSocket need not close the socket. After a read error it never does (`ReadErrorLeavesSocketOpen`), and neither does it after a failed write, which marks the TCP client closed but leaves the connection open (`FailedWriteKeepsSocketOpen`). It does exactly when it is the call that sets `isClosed` and no write has failed before (`SocketClosedIff`, `CloseReachesSocketExactly`).
- For the same reason a call of the HTTP client leaves the connections open on which writing the request failed, one per attempt at most (`EveryAttemptFails`, `FailedWritesBounded`), and exactly those (`Engine.Perform`).
- A chunked body that is cut short mostly ends in the same EOF as a complete one; the error tells exactly when the cut is between CR and LF behind a chunk's data (`CutEncoding`).
- A data frame inside a fragmented message does not end in an error: a final one takes the place of the message, another first fragment is joined to it (`DataInsideMessage`).
- A migrator that finds a version missing and loses it to another one stops with an error instead of going on (`LoserStops`); otherwise it can always finish, unless a checksum differs (`FinishesIff`).
- A backup rescues a main file that does not decode, but not one that is missing or has at most 16 bytes: the store is then empty (`ReopenMeans`).
- An empty buffer cannot grow (`GrowthEndsIff`), so the writing methods of the stream ask for a buffer that is not empty.
- A string of more than 256 KiB is not read back (`StringReadBackIff`).
- `Close` of the reconnecting client does not keep `Run` from connecting again, although the SDK documents that a manual close must not reconnect (`CloseThenReconnect`). At any time another attempt is possible after it unless `Run` has stopped, the context has ended or the limit is used up, with no attempt under way (`CloseDoesNotStopRun`).
- A call returns neither a response nor an error exactly when `MaxRetries` is negative (`NothingIffNegative`).

Of the WebSocket and the TCP client, "closed" means that `isClosed` is set; that the connection
itself is closed is said of the socket or the connection.

Library code is a parameter: the cipher and JSON of the store are functions of which only
that one undoes the other is assumed, the checksum is any function, and what the network,
the file system and the database do comes from schedules and scripts that are universally
quantified. Transactions are atomic and the primary key is unique; migrations neither
control transactions nor touch schema_migrations.

## Model

| member | source | states |
|---|---|---|
| WebSocketFrame.DecodeEncode | network/websocket_client.go:637-699 | any encoded frame followed by anything decodes to itself and leaves what follows; it is refused exactly when there is a limit and the payload is over it |
| WebSocketFrame.DecodeOnlyEncoded | network/websocket_client.go:637-699 | whatever decodes is the encoding of a valid frame, for all length forms, masked or not, followed by the rest |
| WebSocketFrame.FrameMeans | network/websocket_client.go:637-699 | what the bytes of a frame mean, bit by bit: final, opcode, masked, length in its three forms with the first byte the most significant, payload bits that differ from the wire exactly where the key bit of the place is set; it is read exactly when all is there and within the limit |
| WebSocketFrame.DecodeCut | network/websocket_client.go:637-699 | a frame that is cut anywhere is never delivered |
| WebSocketFrame.DecodeShrinks | network/websocket_client.go:637-699 | each frame that is read uses at least two bytes |
| WebSocketFrame.DecodeAllEncodeAll | network/websocket_client.go:591-699 | a concatenation of frames decodes to the same frames in order and then to whatever follows |
| WebSocketFrame.MaskedTwice | network/websocket_client.go:627-630 | masking twice with one key gives the payload back |
| Bytes.XorBit | network/websocket_client.go:627-630 | a bit of the exclusive or is set exactly where the two bytes differ |
| WebSocketFrame.HeaderRoundTrip | network/websocket_client.go:644-663 | fin, reserved bits, opcode, mask bit and all three length forms survive encoding and decoding |
| WebSocketFrame.BuildClientFrame | network/websocket_client.go:591-635 | the bytes: 128 and the low four opcode bits, the length in its shortest form with the mask bit, the key, and every payload bit flipped exactly where the bit of key byte i mod 4 is set; an error exactly when the random source fails |
| WebSocketFrame.ClientFrameBytes | network/websocket_client.go:591-635 | the same of the frame that the writers put on the wire |
| WebSocketFrame.MaskLoop | network/websocket_client.go:687-691 | bit by bit, the masking loop changes exactly the bits that are set in the key byte of the place |
| WebSocketFrame.ReadHeader | network/websocket_client.go:638-663 | reads exactly the header that the decoder sees |
| WebSocketFrame.ReadFrame | network/websocket_client.go:637-699 | returns the decoded frame and leaves the reader right behind it, or fails exactly when decoding fails |
| WebSocketMessage.Reassembled | network/websocket_client.go:360-453 | however a message is cut into fragments and whatever pings and pongs come between, one call returns the first opcode and the joined payload exactly when there is no pong among them and the joined payload is within the limit; it then leaves what follows and, if automatic pongs are on, has answered every ping of at most 125 bytes, in order, with opcode 10 and the payload of the ping |
| WebSocketMessage.MessageComesBack | network/websocket_client.go:360-453 | a text cut anywhere into fragments comes back whole |
| WebSocketMessage.PongsAnswer | network/websocket_client.go:310-316 | one answer per ping of at most 125 bytes, with its payload, in order; none when automatic pongs are off |
| WebSocketMessage.DataInsideMessage | network/websocket_client.go:416-427 | a final data frame inside a fragmented message is returned in its place; another first fragment goes on with what was collected, under its own opcode |
| WebSocketMessage.UnsupportedRead | network/websocket_client.go:429-450 | other opcodes, a continuation of nothing and bytes that are no frame end the call with their errors, and nothing is sent |
| WebSocketMessage.CompletionRead | network/websocket_client.go:389-447 | the same from inside a fragmented message, with what is returned when a pong comes first |
| WebSocketMessage.EncodedCarries | network/websocket_client.go:637-699 | frames written back to back, in any valid encoding, are the frames that `ReadMessage` sees |
| WebSocketMessage.WholeMessageRead | network/websocket_client.go:396-422 | a message in one frame, and a pong, are returned unchanged and nothing is sent |
| WebSocketMessage.CloseFrameRead | network/websocket_client.go:402-414 | a close frame is reported with the number in its first two bytes and the rest as reason (1000 and none if they are missing) and is answered once, with its own payload |
| WebSocketMessage.CloseEchoed | network/websocket_client.go:92-105 | parsing a close payload and building one again gives it back, or code 1000 if it was too short |
| WebSocketMessage.PongLosesFragment | network/websocket_client.go:396-400 | the first pong among the fragments is returned in place of the message, unless the limit is exceeded before it; the calls up to the end of the message return the other pongs and fail on every continuation |
| WebSocketMessage.StraysRead | network/websocket_client.go:396-431 | fragments without a first one, with pings and pongs between: each pong is returned, each continuation is an error, and the calls end right behind them |
| WebSocketMessage.SendFrameOutcome | network/websocket_client.go:346-358 | without an error the wire has grown by the bytes of one frame under the next random key, from which a peer reads the opcode and payload asked for; with an error by a part of that frame at most, and the TCP client is closed unless the key was missing or a write took nothing; every key is used once |
| WebSocketMessage.SendAllJoins | network/websocket_client.go:346-358 | writing two lists of frames one after the other is writing the joined list |
| WebSocketMessage.WebSocketClient.ReadMessage | network/websocket_client.go:360-453 | does what the function Read says and hands its answers to the frame writer in their order; closes the client on an unreadable frame and on a close frame only; does nothing on a closed client |
| WebSocketMessage.WebSocketClient.HandleFrame | network/websocket_client.go:389-451 | the switch on one frame: what is collected, returned and written; errors of the answers are ignored |
| WebSocketMessage.WebSocketClient.WriteFrame | network/websocket_client.go:335-344 | a closed client refuses and leaves everything alone; otherwise keys, TCP client and error are those of SendFrame |
| WebSocketMessage.WebSocketClient.WriteFrameLocked | network/websocket_client.go:346-358 | a frame that a peer reads back is on the wire, or the error of the random source or of `WriteFull` is returned |
| WebSocketMessage.WebSocketClient.Pong | network/websocket_client.go:310-316 | refuses payloads over 125 bytes and then a closed client, otherwise writes the frame or returns the error |
| WebSocketMessage.WebSocketClient.WriteCloseFrame | network/websocket_client.go:573-582 | writes code and reason, or returns the error, whether the client is closed or not |
| FrameWriters.WireHoldsWholeFrames | network/websocket_client.go:318-358 | in every interleaving and every pattern of short writes that make progress the wire is whole frames back to back and at most one incomplete frame; a peer decodes exactly the opcodes and payloads that were asked for in the frames written whole, in the order of the mutex |
| FrameWriters.StepKeepsInv | network/websocket_client.go:318-358 | every step keeps the framing of the wire, except a write of no bytes in the middle of a frame |
| FrameWriters.NothingAfterTornFrame | network/tcp_client.go:104-132 | after a run whose writes make progress, nothing is ever written behind a frame that was given up half way |
| FrameWriters.DeadStaysDead | network/tcp_client.go:104-115 | once the TCP client is closed and no writer is past its check, no run writes another byte |
| FrameWriters.FramingSurvivesGiveUp | network/tcp_client.go:117-132 | after a writer gives up with the TCP client left as it is, a peer sees exactly what was asked for in every further run whose writes make progress, if and only if no byte of the frame was out or the TCP client was closed |
| FrameWriters.TornFrameSwallowsNext | network/tcp_client.go:124-126 | a run from the start in which one byte of an empty text frame and then a whole one are read as a single frame with one byte |
| FrameWriters.TornHeader | network/websocket_client.go:637-663 | what is decoded from a torn frame and a close frame behind it has the length of the torn frame, or one of at least eight bytes that the close frame's first byte is read into |
| FrameWriters.DataAfterClose | network/websocket_client.go:335-343 | there is a run in which a data frame follows the close frame |
| FrameWriters.ReplyAfterClose | network/websocket_client.go:573-582 | there is a run from the start in which the answer to a peer's close frame follows the close frame of `Close`, with nobody else past the closed check |
| FrameWriters.NoWriteAfterReply | network/websocket_client.go:402-408 | once the answer to a peer's close frame is over, whether it got out or not, `WriteFrame` refuses every frame |
| FrameWriters.ByeIs | network/websocket_client.go:331 | the close frame of `Close` has code 1000 and the reason "normal closure" |
| FrameWriters.DataAfterCloseExactly | network/websocket_client.go:318-358 | in some run a frame that is not a close frame follows the close frame of `Close` exactly when, at the swap of `isClosed`, such a frame of another writer was past the check and the TCP client was open |
| FrameWriters.FrameAfterCloseExactly | network/websocket_client.go:318-333 | in some run any frame at all follows it exactly when the TCP client was open at the swap |
| FrameWriters.OnlyCloseFramesFollow | network/websocket_client.go:318-358 | if at the swap no other frame than a close frame was past the check, waiting or under way, every run writes only close frames |
| FrameWriters.CloseFrameIsLast | network/websocket_client.go:318-333 | if nobody else was waiting or writing at the swap, every run writes only close frames; one in which no answer to a peer's close frame begins writes the call's own at most |
| FrameWriters.CloseMarksTcpExactly | network/websocket_client.go:318-333 | `Close` goes on to mark the TCP client closed, in every run in which the call is over, exactly when it found `isClosed` false |
| FrameWriters.CloseReachesSocketExactly | network/tcp_client.go:88-102 | if no write fails from then on, the socket is closed in every run in which the call of `Close` is over exactly when the call found `isClosed` of the WebSocket false and no write had failed before |
| FrameWriters.SocketClosedIff | network/tcp_client.go:88-115 | when the `Close` that found `isClosed` false is over, the socket is closed if and only if no write has failed before, in every run |
| FrameWriters.FailedWriteKeepsSocketOpen | network/tcp_client.go:93-112 | a run from the start in which the write of the close frame fails, `Close` returns and the socket is open; it stays open in every run from there |
| FrameWriters.MarkedRun | network/tcp_client.go:88-115 | in every run the TCP client is marked closed exactly when the socket was closed or a write failed first, never both |
| FrameWriters.HolderKeepsWriting | network/websocket_client.go:340-343 | whoever has the mutex is in the middle of its write and has yet to complete its frame, in every run |
| FrameWriters.PeerSeesReported | network/websocket_client.go:335-358 | in every run whose writes make progress a peer sees exactly the frames of the calls that reported no error, in order, and at most one more at the very end: that of a call whose failing write took the last byte, with the TCP client closed |
| FrameWriters.RunReports | network/tcp_client.go:104-132 | the same for the frames written whole, in every run |
| FrameWriters.ReadErrorLeavesSocketOpen | network/websocket_client.go:318-333 | once the WebSocket counts as closed and no `Close` is under way, no run closes the socket, and none without a failing write marks the TCP client closed |
| FrameWriters.ReadErrorOnIdleClient | network/websocket_client.go:384-387 | the same for every run that begins with a read error |
| TcpClient.TcpClient.Write | network/tcp_client.go:104-115 | a closed client refuses; otherwise a prefix of the bytes is on the wire and the client is closed exactly on an error |
| TcpClient.TcpClient.WriteFull | network/tcp_client.go:117-132 | the loop does what WriteAll says: either all bytes are on the wire, or a prefix and an error |
| TcpClient.WriteAllOutcome | network/tcp_client.go:104-132 | for every behaviour of the connection either all bytes are on the wire, or a prefix and an error; the client is then marked closed, except after a write of no bytes, and the connection is left as it was |
| TcpClient.WriteAllSucceeds | network/tcp_client.go:117-132 | on a connection that takes something of every write, everything gets out |
| TcpClient.CloseAfterWrite | network/tcp_client.go:88-132 | `Close` after `WriteFull` closes the connection exactly when no write reported an error |
| Reconnect.RunFollowsProtocol | network/websocket_reconnect.go:71-165 | in every execution the callbacks follow the protocol, attempts stay within MaxReconnects + 1, and no client is current at a dial |
| Reconnect.TracesExactly | network/websocket_reconnect.go:71-165 | the traces of `Run` are exactly those that follow the protocol with at most MaxReconnects + 1 attempts: each of them happens in some run |
| Reconnect.StepKeepsInv | network/websocket_reconnect.go:71-165 | every step of `Run`, of a listener and of the context keeps the invariant |
| Reconnect.DisconnectBeforeNextDial | network/websocket_reconnect.go:109-163 | in a trace that follows the protocol, OnConnect is followed by OnDisconnect of the same session before the next attempt |
| Reconnect.NothingAfterDisconnect | network/websocket_client.go:485-502 | in such a trace a session has no message and no second disconnect after its OnDisconnect |
| Reconnect.DialsCounted | network/websocket_reconnect.go:86-96 | the counter of attempts is the number of attempts in the trace |
| Reconnect.CloseDoesNotStopRun | network/websocket_reconnect.go:62-165 | whatever `Run` is doing when the user calls `Close`, some run makes another attempt exactly unless `Run` has stopped, the context has ended or the limit is used up, with no attempt under way |
| Reconnect.CloseDuringSession | network/websocket_reconnect.go:62-165 | during a session: exactly when the context has not ended and the reconnects are below the limit |
| Reconnect.CloseDuringDelay | network/websocket_reconnect.go:62-69 | during the reconnect delay `Close` does nothing, and another attempt follows exactly when the context has not ended and the limit allows it |
| Reconnect.ComesToDial | network/websocket_reconnect.go:78-163 | from every state in which another attempt is possible there is a run to it |
| Reconnect.CloseThenReconnect | network/websocket_reconnect.go:62-165 | a run from the start: the user closes the first session while its listener is inside `ReadMessage`, and `Run` connects again |
| Reconnect.NoMoreDialsRun | network/websocket_reconnect.go:78-100 | once `Run` has stopped, the context has ended or the limit is used up, and no attempt is under way, there is no further attempt in any run |
| Reconnect.NoSessionLeftOpen | network/websocket_reconnect.go:139-157 | in every run the clients of all sessions so far are closed when `Run` has returned and whenever it dials |
| Reconnect.CancelStops | network/websocket_reconnect.go:78-83 | once the context has ended `Run` can come to its end from wherever it is |
| Reconnect.StoppedIsFinal | network/websocket_reconnect.go:78-88 | the end of `Run` is final |
| Reconnect.CloseSilencesSession | network/websocket_client.go:360-363 | once its client is closed, a session delivers at most the message of a call of `ReadMessage` that was under way |
| ChunkedBody.ReaderAgrees | network/http_client.go:647-723 | for every input and every schedule of buffers and short reads: delivered and pending bytes together are what the one-shot decoder gives; the end is reported exactly when it accepts, and any other error means that it rejects |
| ChunkedBody.ReadKeepsPending | network/http_client.go:654-723 | one call delivers the front of what is pending, never more than the buffer holds, and keeps the rest pending |
| ChunkedBody.ReaderFinishes | network/http_client.go:654-691 | with non-empty buffers the end comes within one call per body byte and one more |
| ChunkedBody.EndIsForever | network/http_client.go:655-657 | once the end was reported, all later calls of any schedule report it again, deliver nothing and leave the input alone |
| ChunkedBody.CutDeliversPrefix | network/http_client.go:654-723 | however an encoding is cut and read, the delivered bytes are a prefix of the true body |
| ChunkedBody.DecodeEncode | network/http_client.go:659-698 | the one-shot decoder accepts every valid encoding (any sizes in any spelling, extensions, trailers, line ends), gives its body and leaves what follows |
| ChunkedBody.DecodeOnlyEncoded | network/http_client.go:659-720 | whatever the decoder accepts is a valid encoding of the body that it gives, followed by the rest |
| ChunkedBody.EncodingIsRead | network/http_client.go:647-723 | a valid encoding read by any schedule of non-empty buffers gives its body, then the end on this and every later call, and leaves what follows |
| ChunkedBody.HexLineStates | network/http_client.go:665-675 | hexadecimal digits with extensions state the size |
| ChunkedBody.ChunkOnWire | network/http_client.go:659-720 | a chunk on the wire: hexadecimal size in either case, extensions, CR LF, that many bytes, CR LF |
| ChunkedBody.EndOnWire | network/http_client.go:677-691 | the bytes "0", CR LF, CR LF end a body |
| ChunkedBody.ErrorMeans | network/http_client.go:670-695 | a size line that is no number and a negative number have their own errors |
| ChunkedBody.BadDelimiterMeans | network/http_client.go:711-720 | data that is not followed by CR LF is delivered with an error |
| Text.DigitValues | network/http_client.go:672 | the sixteen digits in both cases |
| Text.DigitsAppend | network/http_client.go:672 | a further digit multiplies by the base and adds; a byte that is no digit spoils the number |
| Text.ParseIntMeans | network/http_client.go:672 | signs, empty texts and the limits of 64 bits |
| ChunkedBody.TrailersDecode | network/http_client.go:677-687 | trailers are skipped up to and including the empty line |
| ChunkedBody.CutEncoding | network/http_client.go:659-720 | for every proper prefix of a valid encoding and every schedule of non-empty buffers the reading ends in `UnexpectedEOF` exactly when the cut is between CR and LF behind a chunk's data, and in plain EOF at every other cut; the reader is never done and what it delivered is a prefix of the body |
| ChunkedBody.CutEndsReading | network/http_client.go:659-720 | the same from any state of the reader |
| ChunkedBody.ChunkedBodyReader.Read | network/http_client.go:654-723 | the reader does what the function ReadCall says, and `currentRemaining` never becomes negative |
| ChunkedBody.ChunkedBodyReader.SkipTrailers | network/http_client.go:677-687 | the trailer loop ends at the empty line or fails |
| ChunkedBody.ChunkedBodyReader.ReadLine | network/http_client.go:545-552 | scanning for the LF and cutting the line end off gives the line of the specification, or nothing and an empty input when the input ends first |
| RequestText.RequestParses | network/http_client.go:453-597 | parsing a built request gives the request line, exactly the trimmed headers and the missing defaults, and leaves exactly the body |
| RequestText.RequestLineSplits | network/http_client.go:473-476 | the first line splits at its two spaces into method, path and "HTTP/1.1" |
| RequestText.ServerReads | network/http_client.go:453-543 | what a server reads: the caller's headers trimmed; Host, User-Agent, Accept "*/*", Connection "close", Accept-Encoding if decompression is on and Content-Length if there is a body, each unless the caller has one of the name; and nothing else |
| RequestText.HeaderOnWire | network/http_client.go:528-532 | a header on the wire: name, colon, space, value, CR LF |
| RequestText.HeaderLineMeans | network/http_client.go:568-597 | a header line adds its trimmed value under its trimmed name, behind a comma if the name repeats; a line without a name adds nothing |
| RequestText.OrderDoesNotMatter | network/http_client.go:496-508 | the parsed headers do not depend on the order in which the header map is walked |
| RequestText.PrintParses | network/http_client.go:568-597 | any printed headers parse to exactly those headers, joined where names repeat, and leave what follows the empty line |
| RequestText.ContentLengthStates | network/http_client.go:492-494 | the supplied Content-Length is the length of the body |
| RequestText.BuildRawRequest | network/http_client.go:453-517 | the writing loops give the bytes that RequestLineSplits and ServerReads are about |
| RequestText.WriteMissing | network/http_client.go:519-533 | a default is written exactly when the caller has no header of its name |
| RequestText.WriteOwn | network/http_client.go:496-508 | own headers are written trimmed, those without a name not at all |
| RequestText.ReadHTTPHeaders | network/http_client.go:568-597 | reads lines up to the empty one and leaves what follows |
| Text.LineOf | network/http_client.go:545-552 | a line ends at the first LF and loses its line end |
| Text.TrimSpaceOf | network/http_client.go:670 | trimming cuts off the white space around a text and nothing of the text |
| Text.TrimLineEndAll | network/http_client.go:551 | a line loses all CR and LF at its end and nothing else |
| Text.LineSplits | network/http_client.go:545-552 | every line that is read is text without LF, up to its line end, in front of what is left |
| Exchange.DoIsBounded | network/http_client.go:133-281 | at most (MaxRetries + 1) * (max(MaxRedirects, 0) + 1) exchanges; every retry restarts from the original request after a failure that may be retried, every other exchange follows the redirect before it |
| Exchange.FollowEndsLast | network/http_client.go:249-317 | the result of an attempt is what its last exchange comes to, and no earlier one had ended it |
| Exchange.FollowChains | network/http_client.go:249-281 | hops are numbered in order and each follows the redirect before it |
| Exchange.TryIsChained | network/http_client.go:133-189 | the same for any number of attempts |
| Exchange.TryEndsLast | network/http_client.go:133-189 | the result of a call is that of its last exchange, or the context error when the context ends in a pause |
| Exchange.NothingIffNegative | network/http_client.go:146-188 | a call returns neither a response nor an error exactly when `MaxRetries` is negative, and then nothing is exchanged |
| Exchange.NextRequestPlain | network/http_client.go:816-841 | a rewriting redirect gives a GET without body, Content-Length and Content-Type, and every redirect keeps one so |
| Exchange.PlainAfterRewrite | network/http_client.go:816-833 | after a 303, or a 301 or 302 on a POST, all later hops of the attempt are such GETs |
| Exchange.RedirectKeepsRequest | network/http_client.go:267-281 | every later hop follows a 301, 302, 303, 307 or 308 with a location and asks at that location, without Host; unless the redirect turns the request into a GET, it has the method, body and all other headers of the hop before |
| Exchange.NextRequestMeans | network/http_client.go:816-833 | one redirect: the new address, what is dropped and what stays, for both kinds |
| Exchange.RewritesIff | network/http_client.go:820-826 | which redirects turn the request into a GET: 303, and 301 or 302 on a POST in any case |
| Exchange.StandingMeans | network/http_client.go:255-281 | what an exchange comes to: which replies fail, which are the response and which redirects are followed |
| Exchange.RetriedAfter | network/http_client.go:146-188 | a retry restarts from the original request, only after a failure of the network that may be retried |
| Exchange.TryUnfolds | network/http_client.go:146-188 | when a call ends, when the context ends it in a pause, and when another attempt follows |
| Exchange.CallEnds | network/http_client.go:146-188 | no attempt comes after a pause in which the context has ended; after a failure that may be retried the call fails with it exactly when the attempts are used up, and otherwise with the error of the context that has ended |
| Exchange.RemoveHeader | network/http_client.go:835-841 | no header of the name is left in any case or spacing, all others stay |
| Exchange.FailedWriteAt | network/http_client.go:393-396 | which connections of a call count: those on which the connection reported an error while the request was written |
| Exchange.FailedWritesBounded | network/http_client.go:133-189 | a call leaves at most one such connection per attempt |
| Exchange.EveryAttemptFails | network/http_client.go:133-189 | on a network where every request write fails with an error that may be retried, every attempt leaves one |
| Exchange.Engine.CloseClient | network/tcp_client.go:88-102 | a client that is marked closed already is left alone, with its connection |
| Exchange.Engine.StreamOnce | network/http_client.go:344-451 | the connection stays open on success; of the failing exits behind the dial, each with its `Close`, it stays open exactly on the one behind a write that reported an error |
| Exchange.Engine.Once | network/http_client.go:319-342 | for `Do` the body is read and the connection is closed, whatever happens, unless writing the request failed |
| Exchange.Engine.WithRedirects | network/http_client.go:249-317 | the redirect loop does what Follow says; the connection of a returned stream stays open, and the one on which writing the request failed |
| Exchange.Engine.Perform | network/http_client.go:133-247 | the retry loop does what Do says; of the connections it opened exactly those stay open on which writing the request failed, and the one inside a returned stream |
| Migration.SortMigrations | database/postgres/postgres.go:301-311 | the array is sorted in place as Sort says |
| Migration.InsertCurrent | database/postgres/postgres.go:302-310 | one round puts the element behind the last one that is not greater |
| Migration.ShiftUp | database/postgres/postgres.go:305-308 | the inner loop moves the greater elements up by one and nothing else |
| Migration.SortSorts | database/postgres/postgres.go:301-311 | the sorted list is in version order and is a permutation |
| Migration.SortAscends | database/postgres/postgres.go:285-286 | with distinct versions it is strictly ascending |
| Migration.ReadMigrations | database/postgres/postgres.go:245-287 | succeeds exactly when every accepted file has a valid version and can be read and no version repeats; the result is strictly ascending and a permutation of the accepted files; an error names a file and what is wrong with it |
| Migration.NumberedName | database/postgres/postgres.go:289-299 | a name that begins with a positive number and an underscore has that version |
| Migration.VersionIff | database/postgres/postgres.go:289-299 | which names have a version: a number greater than 0 that fits 64 bits before the first underscore |
| Migration.LoadedMembers | database/postgres/postgres.go:256-283 | which files are loaded, and with what version, name, content and checksum |
| Migrator.ConcurrentRunsAreOrdered | database/postgres/postgres.go:156-194 | in every interleaving of any number of migrators each version is committed at most once and never if it was recorded, commits are in ascending order, and a migrator that is through has everything recorded with its checksum |
| Migrator.FinishesIff | database/postgres/postgres.go:156-174 | from every state a migrator at work, whose version nobody has taken, can run alone through the whole list exactly when no recorded checksum from its place on differs |
| Migrator.AloneIsMigrate | database/postgres/postgres.go:156-194 | a migrator that runs alone ends with the table, the history and the outcome of the loop without faults |
| Migrator.LoserStops | database/postgres/postgres.go:184-189 | a migrator whose version another one has recorded meanwhile fails on the primary key and stops |
| Migrator.ConcurrentRunsKeepPrefix | database/postgres/postgres.go:156-194 | recorded versions that are a prefix of the list stay one |
| Migrator.StepKeepsInv | database/postgres/postgres.go:156-194 | every step of every migrator keeps the order and removes or changes no row |
| Migrator.MigrateRecords | database/postgres/postgres.go:156-174 | a successful run leaves every migration recorded with its checksum; a failing one has recorded all before |
| Migrator.MigrateSucceedsIff | database/postgres/postgres.go:156-201 | without faults a run succeeds exactly when no recorded checksum differs |
| Migrator.MigrateApplies | database/postgres/postgres.go:156-194 | a successful run keeps all rows, adds name and checksum of every other migration and nothing else, and has executed the SQL of exactly those in the order of the list |
| Migrator.MigrateFailsAt | database/postgres/postgres.go:160-163 | without faults it stops at the first migration whose recorded checksum differs |
| Migrator.FaultStops | database/postgres/postgres.go:158-194 | what each fault does to the migration that it hits |
| Migrator.RetryResumes | database/postgres/postgres.go:156-194 | a run with any faults and then one without leave the table and the history of a single run without faults |
| Migrator.MigrateTwice | database/postgres/postgres.go:156-164 | after a successful run another one applies nothing |
| Migrator.MigrateKeepsPrefix | database/postgres/postgres.go:156-194 | from a recorded prefix a failure at an index commits nothing from there on, except that migration itself when only the answer to its commit was lost |
| Migrator.Session.Migrate | database/postgres/postgres.go:156-175 | the loop does what MigrateFrom says |
| Migrator.Session.ApplyMigration | database/postgres/postgres.go:177-194 | SQL and row are committed together or not at all |
| NetworkStream.WrittenIsReadBack | network/network_stream.go:225-411 | any list of values written at any position and read back by the same types gives the same values and position, and leaves all other bytes alone |
| NetworkStream.ReadAhead | network/network_stream.go:225-314 | one value is read back from its bytes |
| NetworkStream.IntRoundTrip | network/network_stream.go:239-264 | signed integers of any width survive two's complement and little-endian bytes |
| NetworkStream.IntMeans | network/network_stream.go:239-264 | integers of 2, 4 and 8 bytes are little-endian two's complement |
| NetworkStream.ValueBytes | network/network_stream.go:320-411 | the bytes of every kind of value |
| NetworkStream.ReadMeans | network/network_stream.go:211-314 | what every typed read takes and when it fails, with which error |
| NetworkStream.StringReadBackIff | network/network_stream.go:301-314 | a string is read back exactly when it has at most 256 KiB |
| NetworkStream.FailedReadMoves | network/network_stream.go:301-314 | a failing read leaves the stream as it was, except a string read whose length could be read: it stays behind the length |
| NetworkStream.WriteAllAtOnce | network/network_stream.go:320-411 | writing values in turn is writing their joined bytes once |
| NetworkStream.GrowthIsAmortised | network/network_stream.go:76-87 | over any run all regrowth copies fewer bytes than twice the greatest length needed |
| NetworkStream.GrowthEndsIff | network/network_stream.go:80-83 | the doubling loop ends exactly when the buffer is not empty |
| NetworkStream.CapacityFor | network/network_stream.go:76-87 | growth at least doubles the capacity and stays below twice the required size |
| NetworkStream.NetworkStream.WithCapacity | network/network_stream.go:41-48 | an empty stream with the capacity or the default |
| NetworkStream.NetworkStream.FromBytes | network/network_stream.go:50-57 | a stream over a copy of the data |
| NetworkStream.NetworkStream.Reset | network/network_stream.go:71-74 | the stream is empty and at its start |
| NetworkStream.NetworkStream.EnsureCapacity | network/network_stream.go:76-87 | the capacity is what CapacityFor says and the contents stay; what was copied is accounted for |
| NetworkStream.NetworkStream.Append | network/network_stream.go:93-97 | the data is added at the end, the position stays |
| NetworkStream.NetworkStream.Put | network/network_stream.go:392-403 | the data overwrites and extends the stream at its position |
| NetworkStream.NetworkStream.WriteByte | network/network_stream.go:320-328 | writes the encoding of a byte |
| NetworkStream.NetworkStream.WriteBool | network/network_stream.go:330-336 | writes the encoding of a boolean |
| NetworkStream.NetworkStream.WriteInt | network/network_stream.go:338-366 | writes the encoding of a signed 16, 32 or 64-bit integer |
| NetworkStream.NetworkStream.WriteBytes | network/network_stream.go:392-403 | writes the bytes |
| NetworkStream.NetworkStream.WriteString | network/network_stream.go:405-411 | writes the length, cut to 32 bits, and the text |
| NetworkStream.NetworkStream.SetPosition | network/network_stream.go:184-190 | moves within the contents or refuses and stays |
| NetworkStream.NetworkStream.Seek | network/network_stream.go:192-205 | the same from an origin |
| NetworkStream.NetworkStream.ReadBytes | network/network_stream.go:211-219 | takes the next bytes, or refuses a bad size or missing data and stays |
| NetworkStream.NetworkStream.ReadValue | network/network_stream.go:225-314 | the typed reads do what the function Read says, also where a string's text is missing |
| Pkcs7.UnpadPad | storage/storage.go:434-458 | unpadding undoes padding for every block size from 1 to 255 |
| Pkcs7.PadMeans | storage/storage.go:434-442 | padding fills the last block with 1 to a whole block of bytes that state how many they are |
| Pkcs7.PadUnpad | storage/storage.go:434-458 | padding undoes every successful unpadding |
| Pkcs7.UnpadAcceptsIff | storage/storage.go:444-458 | unpadding accepts exactly what padding produces |
| Pkcs7.PadBlock | storage/storage.go:434-442 | the filling loop pads |
| Pkcs7.UnpadBlock | storage/storage.go:444-458 | the checking loop unpads |
| Storage.LifeMirrors | storage/storage.go:59-81 | in every life of a store the main file decodes to the map in memory and the backup to the map at the save before |
| Storage.RunMirrors | storage/storage.go:207-314 | every run of mutators, restores and reopenings keeps that |
| Storage.RestoreSwaps | storage/storage.go:302-314 | restoring swaps the contents of the two files, and restoring twice brings everything back |
| Storage.StoreAfter | storage/storage.go:207-300 | what setting, deleting, clearing and merging do to every key, and when they save |
| Storage.SaveMeans | storage/storage.go:317-340 | the main file becomes the backup; the new one begins with the initial vector and decodes to the map |
| Storage.ReopenMeans | storage/storage.go:59-81 | which file a store is opened from, and when it is empty and saved |
| Storage.RestoreMeans | storage/storage.go:302-314 | restoring takes the map of a backup that decodes, or fails and changes nothing |
| Storage.Codec.OpenSealed | storage/storage.go:317-365 | what `save` writes is what `decryptToStore` reads |
| Storage.Storage.SaveFiles | storage/storage.go:317-340 | the main file becomes the backup, then the map becomes the main file |
| Storage.Storage.DecryptToStore | storage/storage.go:342-365 | the map is replaced by the decoded one, or kept when decoding fails |
| Storage.Storage.InitializeStore | storage/storage.go:59-81 | main file, else backup, else an empty map that is saved |
| Storage.Storage.Mutate | storage/storage.go:207-314 | the mutators do what Step says; deleting a missing key saves nothing |
| ConnectHeaders.TunnelIsUntouched | network/handler/http_handler.go:102-131 | for every segmentation and every later reading, the header up to the first CRLFCRLF, what was read from the tunnel and what it still holds are the proxy's stream in order |
| ConnectHeaders.HeadersRejoin | network/handler/http_handler.go:143-171 | header, leftover and unread bytes rejoin to the stream, and the header ends at its first delimiter |
| ConnectHeaders.AcceptedIff | network/handler/http_handler.go:143-171 | a reply is accepted exactly when it has a delimiter, no error comes before the read that completes the header, and all that was read by then is within the limit |
| ConnectHeaders.HeaderSizeLimits | network/handler/http_handler.go:152-160 | headers of at most 31745 bytes are always accepted and those over 32768 never, when no read error comes first |
| ConnectHeaders.FindDelimiterIsFirst | network/handler/http_handler.go:156 | the index is that of the first delimiter |
| ConnectHeaders.StatusLineStates | network/handler/http_handler.go:173-191 | the status code is the second field of the first line |
| ConnectHeaders.ConnectIff | network/handler/http_handler.go:102-131 | a tunnel is given exactly when the reply is read and its status code is 200 |
| ConnectHeaders.ConnectByStatus | network/handler/http_handler.go:111-131 | of the replies with version, code and reason exactly those with code 200 give one |
| ConnectHeaders.NoStatusRefused | network/handler/http_handler.go:180-183 | a reply without a second field in its first line is refused |
| ConnectHeaders.ReadReply | network/handler/http_handler.go:133-171 | the reading loop does what ReadHeaders says |
| ConnectHeaders.PreReadConn.Read | network/handler/http_handler.go:25-35 | what is delivered and what is left is what there was; leftover bytes come first and the connection is not touched before they are used up; something comes whenever there is something |
| ConnectHeaders.TunnelDelivers | network/handler/http_handler.go:25-35 | over any reads, what was delivered and what is left is what there was |
| Socks5.GrantAccepted | network/handler/socks5_handler.go:55-165 | every granted handshake succeeds under all three address forms, consumes exactly its bytes and draws greeting, credentials if asked for, and request; if the connection takes fewer writes, it fails after the first of these messages |
| Socks5.OnlyGrantAccepted | network/handler/socks5_handler.go:61-165 | nothing else succeeds, every message was written, and credentials are asked for only if they were offered |
| Socks5.CredentialsOnlyWhenSelected | network/handler/socks5_handler.go:74-104 | for every byte stream the credentials go out if and only if they were offered and selected and the write goes through |
| Socks5.OutputDecodes | network/handler/socks5_handler.go:55-118 | the output of a successful handshake decodes uniquely to methods, credentials, host and port |
| Socks5.AcceptIff | network/handler/socks5_handler.go:27-53 | exactly which parameters are accepted, and what host, port, name and password they become |
| Socks5.MessageBytes | network/handler/socks5_handler.go:55-118 | greeting, credentials and request byte by byte |
| Socks5.GrantBytes | network/handler/socks5_handler.go:61-164 | the replies that grant a connection byte by byte |
| Socks5.Connect | network/handler/socks5_handler.go:13-165 | the messages written, success, and the bytes consumed are those of Handshake, for any number of writes that go through before one fails |
| Socks5.SkipReply | network/handler/socks5_handler.go:120-164 | the reply is consumed exactly, or refused |

## Left out

- The WebSocket upgrade request and its accept key: text and hashes of library code.
- The text of the CONNECT request, TLS, dialling, deadlines, DNS and local addresses: foreign calls; a connection is a byte sequence with arbitrary short reads and writes.
- The contents of the messages that errors carry: errors are told apart only where the code does so.
- White space and letter case beyond ASCII in `strings.TrimSpace`, `strings.Fields` and `strings.EqualFold`.
- gzip, flate, AES, SHA, base64, JSON and URL parsing: parameters of the models or not needed by them.
- `MaxBodySize`, Content-Length bodies and decompression: library readers around the body.
- Values that JSON cannot represent, failing file reads and writes, and files with a partial cipher block, on which the cipher panics.
- The part of a SOCKS5 message that a failing write still gets out: a message counts as written or not.
- The typed getters, import and export of the store: they only read, or set the whole map.
- Floating-point values and the channels (`Add`, `Listen`) of the network stream.
- The advisory lock of the migrator: it may be taken and released on different sessions, so no theorem rests on it.
- A read error other than the end of the input in the chunked reader and the frame reader: both treat every read error alike.
- A read of the chunked body into an empty buffer while the buffered reader has an error pending: the model delivers nothing and reports no error there.
- `base_engine.go`, the SQL dialects, scheduler, debouncer, emitter, logger, proxy lists and SOCKS4: formatting, timers and short straight-line code.
