# Koheron server core: a verified model

This project models the core of the Koheron instrument server (`server/core`), the parser generator
that feeds it (`server/__init__.py`) and the Python client that talks to it (`python/koheron`), and
proves what each part is for.

- **SHA-1** (`Sha1Spec`, `Sha1`, `Sha1Vectors`): the buffered, in-place hash is the digest of FIPS PUB 180-1. Loop, padding
  and counter are all shown to be "push one octet"; the sixteen-word circular schedule is shown to be the
  80-word expansion.
- **Published examples** (`Sha1Vectors`, `Examples`): digests, encodings, frames and ranges that their standards
  publish, proved of the model's functions. A table or constant that a coder and its decoder share is fixed by them.
- **Base64 and handshake** (`Base64`, `Handshake`): section 4 of RFC 4648, the decoder as its inverse, and the
  accept value of section 4.2.2 of RFC 6455.
- **WebSocket framing** (`Frames`, `WebSocket`, `WebSocketSession`, `ShortCommands`): sections 5.2 and 5.3 of RFC 6455. `Frames`
  holds the layout and a function that says what one read of a stream yields; the class is proved to do exactly
  that under every chunking of `read` and `write`.
- **Commands** (`Wire`, `Utf8`, `Client`, `Generator`, `Parsing`, `Commands`, `Calls`, `TcpSession`, `Serializer`,
  `EndToEnd`): argument types are data, so every claim ranges over every signature, from the Python payload
  through the generated packs to both session readers, and back through the reply serializer to the Python caller.
  A Python argument is what it answers when the client asks it for a number, a float, its truth, memory or text.
- **Driver start-up** (`DriverGraph`, `DriverManager`, `DriverThreads`, `DriverProgress`): a constructor is its list of `get` calls
  over an arbitrary finite graph; first one request at a time, then every interleaving of threads, with a bound on
  the steps of each request and of each run.
- **Sessions** (`SessionPool`, `SessionThreads`): the id allocator over every history, and every interleaving of
  session threads.

Octets are integers from 0 to 255, so masks and shifts by constants are `%` and `/` by powers of two; SHA-1 words
are 32-bit vectors. Reads and writes choose their sizes nondeterministically (`Sockets`). A read returns some
octets, or none once the peer has closed. What ends a session from outside (replies that cannot be written any more, the
exit signal) is a parameter, `Ending`. Octets the source leaves uninitialised are arbitrary.

Where the code and what one would expect of it differ, the model follows the code and the difference is stated:

- a text or binary frame of exactly 16384 octets is refused although larger ones are accepted
  (`FullReadBufferIsRefused`; `FrameIsReceived` gives the exact condition);
- the client counts the characters of a string but sends its UTF-8 octets, so a string survives if and only if it
  is ASCII (`StringSurvivesIffAscii`), and an argument list survives if and only if all its strings are ASCII, its
  arrays have one dimension and its counts fit 32 bits (`PayloadSurvivesIffSuitable`);
- `make_command` without an argument list adds eight zero octets. They are the command's arguments if and only if
  the least sizes of its parameters add up to eight (`BareCommandIsWholeIff`). With less, a stream session takes the
  zeros that are left for the start of another command (`BareCommandIsTwoCommands`); with more, the command takes
  octets of whatever follows. `send_command` always passes a list;
- `send_command` does not look whether `send` took the whole command: the server finds the call if and only if it
  did (`SendCall`);
- the end of a TCP stream inside a command is reported as zero, which the generated parser does not treat as an
  error. The loop hands over the complete commands and nothing else if and only if fewer than eight octets are left
  behind them; otherwise it hands over one more call, for the driver and operation of the cut-off header
  (`TcpSession.Run`, `CutOffCommand`);
- the cursor of a WebSocket session does not look at the payload size, so a message shorter than its arguments is
  completed from what the payload buffer held: an eight-octet message can hand a driver any value
  (`ShortCommandTakesAnyValue`). A call comes only of complete commands if and only if the command is complete or
  zeros behind it would not complete it (`CallsOnlyFromCompleteIff`), and success is only for complete commands if
  and only if the command is complete or a byte count is refused even with zeros behind it
  (`SuccessOnlyWhenCompleteIff`);
- a command for an unknown operation is answered with -1 before its arguments are read
  (server/templates/interface_driver.cpp:39-41, both `Run` methods), so a stream session takes them for further
  commands;
- a driver id of `device_num` or more is checked only by an `assert`; otherwise `execute` goes past its tables
  (server/core/drivers_manager.cpp:146-158), and the model leaves the answer open (`Unhandled`);
- `recv_tuple` raises for a tuple of one value (`RecvTuple`);
- a `write` of zero octets ends `send_request` without closing the connection (`SendRequest`); the branch meant for it
  cannot run.

## Model

| member | source | states |
|---|---|---|
| `Sha1.Sha1Context.constructor` | server/core/sha1.cpp:218-227 | a fresh context has the standard's initial chaining words, a cleared block, cursor and counter zero |
| `Sha1.Sha1Context.LoadWords` | server/core/sha1.cpp:136-172 | swapping octets and reading host words gives the sixteen big-endian words of the block |
| `Sha1.NextWord` | server/core/sha1.cpp:176-205 | the slots at +13, +8, +2 and +0 still hold the four words the section 7 recurrence needs |
| `Sha1.AdvanceWindow` | server/core/sha1.cpp:176-205 | overwriting one slot keeps the sixteen most recent schedule words in the circular buffer |
| `Sha1.ScheduleStep` | server/core/sha1.cpp:178-180 | the in-place schedule update produces the next word of the 80-word expansion |
| `Sha1.Sha1Context.Step` | server/core/sha1.cpp:129-214 | eighty rounds over the circular schedule give the chaining value of section 7 for every block, and the block is cleared |
| `Sha1.Sha1Context.PutPad` | server/core/sha1.cpp:119-125 | PUTPAD stores one octet and compresses a block it completes |
| `Sha1.PushWithinBlock` | server/core/sha1.cpp:274-281 | a copy that stays inside the block equals pushing its octets one by one |
| `Sha1.PushToBlockEnd` | server/core/sha1.cpp:274-283 | a copy that fills the block compresses exactly that block once |
| `Sha1.Sha1Context.Loop` | server/core/sha1.cpp:263-286 | the chunked copy loop absorbs the input octet by octet and adds eight times its length to the counter modulo 2^64 |
| `Sha1.AbsorbIsIndependentOfSplitting` | server/core/sha1.cpp:263-286 | absorbing a then b leaves the same context as absorbing a followed by b, in every context |
| `Sha1.Sha1Context.PadZeros` | server/core/sha1.cpp:237-249 | zeros are pushed up to offset 56, through a second block when fewer than eight octets remain |
| `Sha1.Sha1Context.PutCounter` | server/core/sha1.cpp:250-260 | the counter's memory octets, last to first, are its big-endian form |
| `Sha1.Sha1Context.Pad` | server/core/sha1.cpp:229-261 | in all three cases padding pushes 0x80, the least number of zeros and the 64-bit length |
| `Sha1.PushBlocks` | server/core/sha1.cpp:263-286 | pushing whole blocks is the block-by-block hash, in order |
| `Sha1.PaddedPushIsDigest` | server/core/sha1.cpp:229-325 | absorbing and padding feeds exactly the padded message of section 4, for every message below 2^61 octets |
| `Sha1.Sha1Context.Result` | server/core/sha1.cpp:288-309 | the digest is the padded context's chaining words, big endian |
| `Sha1.SHA1` | server/core/sha1.cpp:315-325 | the result is the FIPS 180-1 digest |
| `Sha1Vectors.AbcDigest` | server/core/sha1.cpp:129-325 | the digest of "abc" is the one appendix A of FIPS PUB 180-1 publishes |
| `Sha1Vectors.SampleDigest` | server/core/sha1.cpp:129-325 | the two-block digest of the sample key and GUID of section 1.3 of RFC 6455 |
| `Examples.InitialWords` | server/core/sha1.cpp:218-227 | the chaining words are the digits 0 to f counted up, down and interleaved; two are complements of two others |
| `Examples.RoundConstants` | server/core/sha1.cpp:105 | the round constants are the scaled square roots of 2, 3, 5 and 10 |
| `Base64.SextetsAreGroupBits` | server/core/base64.cpp:51-54 | masks and shifts give the four six-bit digits of the 24-bit group |
| `Base64.Encode` | server/core/base64.cpp:41-82 | the encoder equals section 4 of RFC 4648 for every octet string |
| `Base64.EncodeTail` | server/core/base64.cpp:62-78 | a short last group is completed with zero bits and padded |
| `Base64.EncodedLength` | server/core/base64.cpp:41-82 | the length is four times the number of groups, rounded up |
| `Base64.Decode` | server/core/base64.cpp:84-123 | decoding covers the longest alphabet prefix, group by group |
| `Base64.DecodeTail` | server/core/base64.cpp:108-120 | a last group of i characters gives i - 1 octets |
| `Base64.FillerNeverShows` | server/core/base64.cpp:108-119 | the 0xFF stored for missing characters never reaches the output: any filler gives the same octets |
| `Base64.DecodeUndoesEncode` | server/core/base64.cpp:41-123 | decoding an encoding returns the original octets |
| `Examples.AlphabetTable` | server/core/base64.cpp:31-34 | three runs of consecutive characters and the symbols plus and slash |
| `Examples.Foobar` | server/core/base64.cpp:41-82 | the example of section 10 of RFC 4648 |
| `Examples.ShortGroups` | server/core/base64.cpp:62-78 | the padded examples of section 10 of RFC 4648 |
| `Handshake.AcceptValue` | server/core/websocket.cpp:47-66 | the accept value is the base64 form of SHA-1 of the key and the GUID, 28 characters, and decodes to that digest |
| `Examples.SampleHandshake` | server/core/websocket.cpp:47-66 | the sample request of section 1.3 of RFC 6455 gets the published accept value |
| `Sockets.Socket.Read` | server/core/websocket.cpp:342 | a read returns any non-empty piece of the stream, in order, and nothing only at its end |
| `Frames.LengthRoundTrip` | server/core/websocket.cpp:293-326 | reading a length field of any of the three forms returns the length and the form |
| `Frames.UnmaskingUndoesMasking` | server/core/websocket.cpp:187-196 | combining with the key twice restores the data |
| `Bytes.XorIsVectorXor` | server/core/websocket.cpp:190-196 | the exclusive or of two octets is that of their eight-bit vectors |
| `Frames.MaskedBit` | server/core/websocket.cpp:187-196 | every bit of a masked octet is the sum, without carry, of the data's and the key's |
| `Examples.MaskedHello` | server/core/websocket.cpp:187-196 | the masked frame of section 5.7 of RFC 6455 |
| `Examples.MaskedCommand` | server/core/websocket.cpp:161-199 | a masked message, octet by octet, is delivered as the command it calls |
| `Examples.CloseFrame` | server/core/websocket.cpp:161-374 | a masked close frame ends the connection |
| `Examples.LengthFields` | server/core/websocket.cpp:122-154 | the length fields section 5.7 of RFC 6455 shows, and where the forms change |
| `Examples.AcceptedFrames` | server/core/websocket.cpp:293-374 | text and binary messages of 8 to 262088 octets, except frames of 16384 |
| `Frames.ServerFrameIsReadable` | server/core/websocket.cpp:122-154 | a reader of the standard finds the payload at the announced offset and length, in the shortest form |
| `Frames.FrameIsReceived` | server/core/websocket.cpp:161-374 | a complete frame is delivered if and only if opcode, size and total length are acceptable; then the command is the unmasked payload and reading stops at the next frame |
| `Frames.DeliveredWasAFrame` | server/core/websocket.cpp:161-374 | whatever is delivered was a complete acceptable frame at the front of the stream |
| `Frames.TruncatedFrameEnds` | server/core/websocket.cpp:216-241 | a stream that ends anywhere inside a frame yields no command, and is reported as ended if the frame was acceptable |
| `Frames.CommandsAreReceivedInOrder` | server/core/session.cpp:93-121 | every sequence of acceptable frames, with any masks, yields exactly its commands in order |
| `Frames.CutStreamDeliversOnlyWholeFrames` | server/core/session.cpp:93-121 | a stream of acceptable frames cut inside any last frame yields the commands before it and nothing else |
| `Frames.FullReadBufferIsRefused` | server/core/websocket.cpp:367-370 | every text or binary frame of exactly 16384 octets, in any length form, is refused |
| `WebSockets.WebSocket.ReadAvailable` | server/core/websocket.cpp:342-359 | for every chunking the octets arrive in order behind those already read, or the stream ended |
| `WebSockets.WebSocket.ReadNBytes` | server/core/websocket.cpp:336-374 | 0, 1 or -1 exactly when all arrived, the stream ended, or the buffer reached 16384 octets |
| `WebSockets.WebSocket.ReadHeader` | server/core/websocket.cpp:270-334 | the header fields and the stream position agree with the layout in every case |
| `WebSockets.WebSocket.ReadLength` | server/core/websocket.cpp:293-333 | each length form is read to its end, 64-bit lengths as signed numbers, and oversized payloads refused |
| `WebSockets.WebSocket.ReadStream` | server/core/websocket.cpp:216-241 | header and payload are in the read buffer, or the frame was refused, or the connection closed |
| `WebSockets.WebSocket.Unmask` | server/core/websocket.cpp:187-196 | the copied octets are the unmasked payload |
| `WebSockets.WebSocket.DecodeRawStreamCmd` | server/core/websocket.cpp:182-199 | the first eight unmasked octets become the command header, the rest its payload |
| `WebSockets.WebSocket.ReceiveCmd` | server/core/websocket.cpp:161-180 | one call does to the stream what `Receive` says, in each of its four outcomes |
| `WebSockets.WebSocket.SetSendHeader` | server/core/websocket.cpp:122-154 | the header is the format octet and the minimal length form; the offset is where it ends |
| `WebSockets.WebSocket.SendRequest` | server/core/websocket.cpp:381-412 | however `write` splits it, octets go out once and in order, the result is positive exactly when all did, and the connection closes exactly when the last `write` failed, not when it took nothing |
| `WebSockets.WebSocket.Send` | server/core/websocket.hpp:107-121 | a positive result means exactly the section 5.2 frame was written; a closed connection writes nothing |
| `WebSockets.WebSocket.Exit` | server/core/websocket.cpp:156-159 | some first part of the two-octet close frame goes out, all of it exactly when the result is positive |
| `WebSocketSessions.WebSocketSession.ReadCommand` | server/core/session.cpp:93-121 | a positive result exactly for a delivered command, with its driver, operation and payload |
| `WebSocketSessions.WebSocketSession.UseAfterClose` | server/core/websocket.cpp:161-164 | after closing, no sequence of reads and sends yields a command or writes an octet |
| `WebSocketSessions.WebSocketSession.RecvArray` | server/core/session.hpp:290-296 | an array that lies inside the buffer is decoded and passed |
| `WebSocketSessions.WebSocketSession.RecvVector` | server/core/session.hpp:298-311 | a vector inside the buffer is decoded and passed; a byte count above the buffer size is refused with -1 |
| `WebSocketSessions.WebSocketSession.RecvString` | server/core/session.hpp:313-326 | a string inside the buffer is decoded and passed; a byte count above the buffer size is refused with -1 |
| `WebSocketSessions.WebSocketSession.Deserialize` | server/core/session.hpp:335-340 | a scalar pack inside the buffer is decoded and passed |
| `WebSocketSessions.WebSocketSession.ReceivePack` | server/core/session.hpp:290-340 | each emitted receive call decodes its pack at the cursor and passes it, or refuses its byte count |
| `WebSocketSessions.WebSocketSession.ParseArgs` | server/__init__.py:248-265 | over the cursor the generated parser decodes the whole signature, or fails with -1 exactly as the decoder refuses it |
| `WebSocketSessions.CursorSeesCommand` | server/core/session.hpp:290-340 | stale octets behind the command change neither the arguments of a complete command nor the refusal of an oversized count |
| `WebSocketSessions.WebSocketSession.Run` | server/core/session.hpp:143-174 | for every chunking and every stream: one log entry per command, in order, for its driver and operation; a complete command of a known operation succeeds with exactly its call, an oversized count or an unknown operation fails with -1 and the loop goes on, a short command is read on from the payload buffer; the loop stops early exactly when a reply closed the session or the exit signal is seen |
| `ShortCommands.ZerosSuffice` | server/core/session.hpp:290-340 | whatever decodes with some octets behind it decodes with zeros, and what is refused with zeros is refused with any octets |
| `ShortCommands.CallsOnlyFromCompleteIff` | server/core/session.hpp:290-340 | a call comes only of a complete command, whatever the buffer held, if and only if the command is complete or zeros would not complete it |
| `ShortCommands.SuccessOnlyWhenCompleteIff` | server/core/session.hpp:290-340 | a loop turn succeeds only for a complete command if and only if the command is complete or a byte count is refused even with zeros behind it |
| `ShortCommands.ShortCommandTakesAnyValue` | server/core/session.hpp:335-340 | an eight-octet message for an operation with one argument is not complete, and the driver may be handed any value |
| `Wire.ScalarRoundTrip` | server/core/serializer_deserializer.hpp:37-189 | extracting an appended scalar returns it, for every width and sign |
| `Examples.ScalarRanges` | server/core/serializer_deserializer.hpp:37-189 | each integer type holds exactly its C++ range |
| `Examples.WordsAsValues` | server/core/serializer_deserializer.hpp:37-189 | a word is read as the value of its type that agrees with it modulo the width; a truth octet is true exactly for one |
| `Wire.ItemsRoundTrip` | server/core/session.hpp:183-208 | raw little-endian elements are read back as they were |
| `Wire.ItemOctet` | server/core/session.hpp:183-208 | octet k of element i, lowest first: raw little-endian memory |
| `Wire.ArgsRoundTrip` | server/core/session.hpp:183-245 | decoding an encoded argument list recovers every value and stops at its last octet |
| `Wire.DecodeExtends` | server/core/session.hpp:183-245 | a successful decoding depends neither on what follows nor on a larger byte-count limit |
| `Wire.RefusalExtends` | server/core/session.hpp:304-322 | an oversized byte count is refused whatever follows it |
| `Client.Append` | python/koheron/koheron.py:96-102 | the loop appends the low octets of the value, most significant first, negative values included |
| `Client.StringSurvivesIffAscii` | python/koheron/koheron.py:163-165 | the server recovers a string and its end if and only if it is ASCII and its length fits 32 bits |
| `Utf8.AsciiText` | python/koheron/koheron.py:165 | the octets of an ASCII string are its characters |
| `Utf8.DecodesExactlyEncodings` | python/koheron/koheron.py:407 | strict decoding gives a text if and only if the octets are that text's encoding |
| `Examples.Utf8Examples` | python/koheron/koheron.py:165 | examples of section 7 of RFC 3629 |
| `Client.BuildPayload` | python/koheron/koheron.py:131-169 | the octets of each argument in order, or an exception, exactly when the count is wrong or some argument does not fit its parameter |
| `Client.AppendArg` | python/koheron/koheron.py:141-167 | an exception exactly for an argument that does not fit; a suitable argument gives the wire encoding of the value it stands for, integers wrapped to the width, any object for a bool tested for truth |
| `Client.PayloadIsWire` | python/koheron/koheron.py:131-169 | for every signature and suitable arguments the payload is the wire encoding of their values |
| `Client.PayloadItemOctet` | python/koheron/koheron.py:104-123 | the elements of an array or vector anywhere in the payload, octet by octet, lowest first |
| `Examples.SampleCommand` | python/koheron/koheron.py:84-169 | a whole command with a negative short, a vector and a string, octet by octet |
| `Client.PayloadSurvivesIffSuitable` | python/koheron/koheron.py:131-169 | for every signature and every encodable argument list the decoder recovers the values and the end if and only if the list is suitable |
| `Client.MakeCommand` | python/koheron/koheron.py:84-94 | reserved word, driver, operation and payload, or the payload's exception, or eight zero octets without an argument list |
| `Client.SendCommand` | python/koheron/koheron.py:346-349 | some first part of the command goes out, and the call returns normally exactly when that part is not empty |
| `Generator.BuildArgsPacks` | server/__init__.py:301-328 | the packs cover the signature in order, scalar packs are maximal, and the vector flag is exact |
| `Generator.PackingIsUnique` | server/__init__.py:301-328 | a signature has only one maximal packing |
| `Generator.RequiredBuffSize` | server/__init__.py:268-292 | without vectors and strings the emitted size is the byte count of every matching argument list |
| `Generator.ExtractWord` | server/core/serializer_deserializer.hpp:37-139 | the shifted sum of octets is the big-endian value, 64 bits from two halves |
| `Parsing.DeserializeSlides` | server/core/serializer_deserializer.hpp:258-276 | compile-time offsets may be counted from any start of the buffer |
| `Parsing.ScalarPackIsItsScalars` | server/core/serializer_deserializer.hpp:258-276 | a scalar pack decodes like its scalars one by one |
| `Parsing.PacksDecodeLikeArgs` | server/__init__.py:236-266 | however scalars are grouped, the emitted parser decodes the signature argument by argument |
| `Parsing.EmittedParserRoundTrip` | server/__init__.py:236-266 | the emitted parser recovers the values and consumes exactly their octets |
| `Commands.Buffer.Deserialize` | server/core/commands.hpp:36-43 | scalars are extracted at the cursor, which then passes them |
| `Commands.Buffer.ExtractArray` | server/core/commands.hpp:45-55 | array elements at the cursor, which then passes them |
| `Commands.Buffer.ToVector` | server/core/commands.hpp:57-66 | vector elements at the cursor, which then passes them |
| `Commands.Buffer.ToString` | server/core/commands.hpp:68-72 | characters at the cursor, which then passes them |
| `Commands.Command.DecodeHeader` | server/core/session.cpp:31-35 | driver and operation are the two words behind the reserved four octets |
| `Calls.CallRoundTrip` | server/core/session.cpp:14-41 | a command delimits itself: decoding returns it and what follows |
| `Calls.CallsRoundTrip` | server/core/session.hpp:143-245 | back-to-back commands are decoded in order and framing is never lost |
| `TcpSessions.TcpSession.RcvNBytes` | server/core/session.cpp:43-69 | for every chunking exactly the next n octets, or zero when the stream ends first |
| `TcpSessions.TcpSession.GetPackLength` | server/core/session.hpp:114-124 | the next 32-bit byte count, or an arbitrary one and a drained stream |
| `TcpSessions.TcpSession.RecvArray` | server/core/session.hpp:183-188 | a complete array is received as decoded; a cut-off one gives zero and drains the stream |
| `TcpSessions.TcpSession.RecvVector` | server/core/session.hpp:190-208 | a complete vector is received as decoded; a cut-off one gives zero and drains the stream |
| `TcpSessions.TcpSession.RecvString` | server/core/session.hpp:210-228 | a complete string is received as decoded; a cut-off one gives zero and drains the stream |
| `TcpSessions.TcpSession.Deserialize` | server/core/session.hpp:237-245 | a complete scalar pack is received as decoded; a cut-off one gives zero and drains the stream |
| `TcpSessions.TcpSession.ParseArgs` | server/__init__.py:248-265 | always succeeds: with the decoded signature and exactly its octets consumed, or with a drained stream when the arguments were cut off |
| `TcpSessions.TcpSession.ReadCommand` | server/core/session.cpp:14-41 | a header is eight octets; the end of the stream is zero |
| `TcpSessions.TcpSession.Run` | server/core/session.hpp:143-174 | for every chunking and every stream: the complete commands in order, and nothing else if and only if fewer than eight octets are left over; otherwise exactly one more, for the driver and operation of the cut-off header; known operations succeed, unknown ones are refused with -1; the loop stops early exactly when a reply closed the session or the exit signal is seen |
| `TcpSessions.CutOffCommand` | server/core/session.hpp:237-245 | a header alone, for an operation with an argument, is no complete command although it is handed over |
| `Serializer.DynamicSerializer.Append` | server/core/serializer_deserializer.hpp:451-455 | a scalar is added behind the pending ones, big endian |
| `Serializer.DynamicSerializer.DumpScalarPack` | server/core/serializer_deserializer.hpp:457-463 | pending scalars move to the buffer and none stay |
| `Serializer.DynamicSerializer.DumpArg` | server/core/serializer_deserializer.hpp:478-523 | containers and arrays are appended as the wire format has them |
| `Serializer.DynamicSerializer.CommandSerializer` | server/core/serializer_deserializer.hpp:465-555 | buffer plus pending scalars grow by exactly the arguments' encodings, in order |
| `Serializer.DynamicSerializer.BuildCommand` | server/core/serializer_deserializer.hpp:567-596 | whatever the buffers held, the result is the header and each argument's encoding; lazy flushing refines concatenation |
| `Serializer.ReplyItemOctet` | server/core/serializer_deserializer.hpp:478-523 | the elements of an array or vector anywhere in a reply, octet by octet, lowest first |
| `Serializer.Receiver.RecvAll` | python/koheron/koheron.py:351-365 | for every chunking exactly the next n octets |
| `Serializer.Receiver.Recv` | python/koheron/koheron.py:372-378 | the scalars behind the reply header, any non-zero truth octet as true |
| `Serializer.Receiver.RecvTuple` | python/koheron/koheron.py:432-435 | those scalars as a tuple, or an exception exactly for a single one |
| `Serializer.UnpackRoundTrip` | python/koheron/koheron.py:372-378 | unpacking recovers every list of scalars the server serializes |
| `Serializer.Receiver.RecvDynamicPayload` | python/koheron/koheron.py:367-370 | the counted body, or an exception behind the twelve header octets when the reserved word is not zero |
| `Serializer.Receiver.RecvString` | python/koheron/koheron.py:404-407 | the text the reply's octets encode; an exception exactly for a non-zero reserved word or octets that are not UTF-8 |
| `Serializer.Receiver.RecvVector` | python/koheron/koheron.py:414-420 | the vector of the reply, or an exception for a partial element |
| `Serializer.Receiver.RecvArray` | python/koheron/koheron.py:422-430 | the array of the reply |
| `Serializer.StringReplyIsReceived` | python/koheron/koheron.py:404-407 | a reply built for a string arrives as the text its octets encode, and as an exception if they encode none; the next reply follows |
| `Serializer.VectorReplyIsReceived` | python/koheron/koheron.py:414-420 | a reply built for a vector arrives as that vector, and the next reply follows |
| `Serializer.ArrayReplyIsReceived` | python/koheron/koheron.py:422-430 | a reply built for an array arrives as that array, and the next reply follows |
| `Serializer.TupleReplyIsReceived` | python/koheron/koheron.py:372-435 | a reply built for scalars arrives as those scalars, as a tuple unless there is only one, and the next reply follows |
| `EndToEnd.GeneratedParserReadsClientPayload` | server/__init__.py:236-328 | the maximal packing generated for a signature reads the client's payload for it: same values, same octets |
| `EndToEnd.ClientSendsTheCall` | python/koheron/koheron.py:346-349 | the command the client builds is the encoding of the call it means |
| `EndToEnd.PartlySentCommand` | python/koheron/koheron.py:348 | behind whole commands, a command of which only a part was sent is found by the server if and only if the part is all of it |
| `EndToEnd.SendCall` | python/koheron/koheron.py:346-349 | after `send_command` the server decodes the earlier calls and this one, or the earlier calls alone and the part that was sent |
| `EndToEnd.CallIsComplete` | server/core/session.hpp:290-340 | a call that fits one message is decoded completely by the cursor reader |
| `EndToEnd.SameCallsOverBothTransports` | server/core/session.hpp:183-340 | the same calls, streamed or framed with any masks, reach the drivers as the same sequence |
| `EndToEnd.BothSessionsServe` | server/core/session.hpp:143-174 | run on those two streams, both session loops hand over the calls in order and successfully: all of them, or those before the first command whose reply closes the session or at which the exit signal is seen |
| `EndToEnd.ReadersAgree` | server/core/session.hpp:183-340 | any message the cursor reader decodes gives the stream reader the same call and remainder |
| `EndToEnd.BareCommandIsWholeIff` | python/koheron/koheron.py:90-93 | a command without an argument list is decoded alone and to its end if and only if the least sizes of its parameters add up to eight; then its arguments are zero |
| `EndToEnd.BareCommandIsTwoCommands` | python/koheron/koheron.py:90-93 | for an operation without arguments the eight octets are a second command, to no driver |
| `DriverGraph.HistoryExcludesCycles` | server/core/drivers_manager.cpp:17-37 | a driver that was constructed reaches no dependency cycle |
| `DriverGraph.HistoryIsClosed` | server/core/drivers_manager.cpp:17-37 | a construction history holds everything its drivers can reach |
| `Drivers.DriverManager.constructor` | server/core/drivers_manager.hpp:24-31 | nothing is started or starting |
| `Drivers.DriverManager.Get` | server/core/drivers_manager.hpp:61-67 | success constructs the driver and only what it reaches; failure raises the exit flag and exhibits a cycle; the drivers neither started nor starting decrease |
| `Drivers.DriverManager.AllocDriver` | server/core/drivers_manager.cpp:52-77 | as `Get`, with both started flags, driver object and interface object in agreement |
| `Drivers.DriverManager.Alloc` | server/core/drivers_manager.cpp:17-37 | a started driver is left alone, a starting one is a cycle, any other is constructed after its dependencies |
| `Drivers.DriverManager.Construct` | server/core/drivers_manager.cpp:31-33 | all dependencies are constructed before the constructor ends |
| `Drivers.DriverManager.Request` | server/core/drivers_manager.cpp:17-77 | a request fails if and only if a cycle is reachable; otherwise the history grows by exactly what was missing, without duplicates and in dependency order |
| `Drivers.DriverManager.Execute` | server/core/drivers_manager.cpp:144-162 | a command reaches its driver unless its dependencies are cyclic; the history grows by exactly what was missing and the exit flag rises only for a cycle; commands to drivers 0 and 1 change nothing |
| `DriverThreads.NextKeeps` | server/core/drivers_manager.cpp:52-77 | every step of every thread keeps the invariant on mutex, flags, stacks and history |
| `DriverThreads.ConstructedOnceAndInOrder` | server/core/drivers_manager.cpp:52-77 | in every interleaving each driver is constructed at most once and after its dependencies |
| `DriverThreads.StartingOnlyUnderTheMutex` | server/core/drivers_manager.cpp:23-34 | a starting flag is set only while the mutex is held by the thread running that constructor |
| `DriverThreads.StartedMeansUsable` | server/core/drivers_manager.hpp:61-67 | whoever sees the started flag, even unlocked, finds driver, interface object and everything the driver depends on |
| `DriverThreads.SomeThreadCanMove` | server/core/drivers_manager.cpp:52-59 | while a request is unfinished some thread can step: the recursive mutex never deadlocks |
| `DriverThreads.ReportIsARealCycle` | server/core/drivers_manager.cpp:23-29 | a reported circular dependency is a cycle reachable from the reporting thread's own request |
| `DriverThreads.AcyclicNeverReports` | server/core/drivers_manager.cpp:23-29 | with acyclic dependencies no interleaving reports a circular dependency |
| `DriverProgress.FinishedRequest` | server/core/drivers_manager.hpp:61-67 | when a request is done its driver is constructed, published and started, everything it depends on is constructed, and no cycle is reachable from it |
| `DriverProgress.RequestIsBounded` | server/core/drivers_manager.cpp:52-77 | whatever other threads do, the steps a thread takes during a request are paid for by its cost at the beginning |
| `DriverProgress.RequestTakesFewSteps` | server/core/drivers_manager.cpp:52-77 | a request takes at most nine steps and the steps of one construction of every driver |
| `DriverProgress.RunsEnd` | server/core/drivers_manager.cpp:17-77 | every run of any number of threads is bounded by ten steps per request and one construction of every driver |
| `DriverProgress.CyclicRequestForcesReport` | server/core/drivers_manager.cpp:17-77 | until something is reported, a request from which a cycle is reachable stays unfinished, some thread can step, and the steps so far are bounded by the requests: the report is forced |
| `SessionPool.CreateKeeps` | server/core/session_manager.hpp:62-84 | a new id is not in use, and live and reusable ids stay a partition of the ids below the peak |
| `SessionPool.DeleteKeeps` | server/core/session_manager.cpp:59-93 | deleting any id, known or not, keeps the partition |
| `SessionPool.EveryHistory` | server/core/session_manager.hpp:62-84 | after every history of creations and deletions the ids partition 0 to peak - 1, the next id is free and the counter is the pool size |
| `SessionPool.SessionManager.CreateSession` | server/core/session_manager.hpp:62-84 | the id was not live and now maps to the new session |
| `SessionPool.SessionManager.IsReusableId` | server/core/session_manager.cpp:27-34 | membership in the reusable ids |
| `SessionPool.SessionManager.GetSessionIds` | server/core/session_manager.cpp:47-57 | exactly the live ids, increasing, none of them reusable |
| `SessionPool.SessionManager.IsIdInSessionIds` | server/core/session_manager.cpp:36-45 | membership in the pool |
| `SessionPool.SessionManager.DeleteSession` | server/core/session_manager.cpp:59-93 | a known session is removed and its id made reusable; an unknown id changes nothing |
| `SessionPool.SessionManager.DeleteAll` | server/core/session_manager.cpp:95-110 | the pool is empty, the counter zero, and every id ever used reusable |
| `SessionThreads.NextKeeps` | server/core/server.hpp:142-160 | every step of every session thread keeps ids, ownership and counters consistent |
| `SessionThreads.IdsAreExclusive` | server/core/server.hpp:142-160 | in every interleaving two threads never hold the same session id |
| `SessionThreads.EachThreadDeletesItsOwn` | server/core/server.hpp:149-157 | the lookup after creation succeeds and the deletion removes the thread's own session only |
| `SessionThreads.CountersAreExact` | server/core/server.hpp:145-159 | number_of_threads is the number of a listener's threads between increment and decrement |

## Left out

- Sockets, listeners, signals, systemd notification and syslog: replaced by a stream of octets read and written in arbitrary pieces.
- Negative results of `read`: `read_n_bytes` then loops forever, so a read here returns octets or the end of the stream.
- The HTTP text of the handshake: only the accept value is modelled.
- `SHA1` beyond 2^61 octets: the length counter wraps and the standard defines no digest.
- TcpSessions.TcpSession.RecvVector: keeps the 64-bit byte count that the source narrows to `int`; vectors and strings of 2^31 octets do not fit the boards' memory.
- Serializer.DynamicSerializer.BuildCommand: requires each run of scalars to fit the 1024-octet pack, because `append` does not check it.
- Serializer.TupleReplyIsReceived: requires the same of the tuple.
- Serializer.Receiver.RecvAll: requires the octets to arrive, because the loop never ends once the server has closed.
- Drivers.DriverManager.Execute: requires a driver id below `device_num`, as the `assert` of the source does.
- Driver requests after a failed one: the code then uses an object that does not exist, so the model stops at the first failure.
- The value of `exit_all` after construction: the server clears the flag after starting the first driver, so claims are about requests.
- Weak memory effects of the unlocked `is_started` tests: steps are sequentially consistent. The two container flags, written together under the mutex and read only under it, change in one step.
- `delete_all` running beside session threads, and the statistics counters that are updated without a lock.
- `std::complex` arguments and replies: two adjacent scalars of the same size.
- The meaning of floats and doubles: they are opaque 32- and 64-bit words, and what `struct.pack` makes of a Python number is part of the argument.
- The text of C++ types and of the generated source: signatures and packs are data.
- The partial-write check of the TCP session, and `Session<UNIX>`, which inherits from it.
- `server/client/koheron-client.hpp`: a second copy of the same serializer.
- Instrument drivers, memory maps, FPGA projects, HTTP API, build scripts: device access and glue.
