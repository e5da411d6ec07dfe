# Verification of mongoose, JsonCpp and tinyxml2

The repository carries three libraries in source form: the network library
mongoose, the JSON library JsonCpp and the XML library tinyxml2. This project models
their protocol decoders, codecs, parsers, printers and linked structures, and
proves what they compute. `dafny verify dfyconfig.toml` checks everything.

Code that works in place is modelled in place. The growing receive buffer
(`Bytes.Mbuf`), the WebSocket, chunked and multipart connections, the CoAP message
with its option list, the hash contexts, the signal ring, the JSON reader and
writers, the XML parser, printer and string, and the XML sibling list are classes
whose methods run the loops of the source on arrays, cursors and pointers. Each
method is tied to a function that says what it computes, and the properties are
proved about these functions for all inputs, all runs and all ways in which input is
cut into arrivals.

| Modules | What they model |
|---|---|
| Wrappers, Bytes | result type; bytes, words, exclusive or, searching, `struct mbuf` |
| WebSocket, WebSocketSession, WebSocketConnection | frames and fragments: one step, whole conversations, the connection object |
| Coap, CoapMessage | CoAP packets; the message object with its sorted option list |
| Multipart, MultipartStory, MultipartLimits, MultipartConnection | streaming multipart bodies: the state machine, what its events tell, where it goes wrong, the connection object |
| Chunked, ChunkedConnection | chunked transfer coding decoded in place |
| Hash, HashContext | streaming SHA-1 and MD5 over any block compression |
| Glob | the glob matcher |
| UriSyntax, UriPath | the URI automaton; dot-segment removal |
| Signals | the signal ring of the lwIP interface, under all interleavings |
| JsonValue, JsonText, JsonReader, JsonParser, JsonRoundTrip | values, lexemes, the reader as functions and as an object, reading back |
| JsonTokens, JsonStrings, JsonGrammar | comments, numbers and strings as any author may write them; the grammar the reader accepts |
| JsonWriter, JsonLayout, JsonStyledWriter, JsonEndToEnd, JsonOrder | both writers and the layout of styled text, writing then reading, the order of values |
| Unicode | the two UTF-8 encoders and `\u` escapes |
| XmlText, XmlReference, XmlStrPair, XmlTree, XmlReader, XmlParser, XmlRoundTrip | entities and references, decoding in place, trees, the parser as functions and as an object, reading back |
| XmlGrammar | the grammar the parser accepts |
| XmlLayout, XmlPrinter, XmlDocument | the white space the printer adds, the printer; printing then parsing whole documents |
| SiblingList | the intrusive list of sibling nodes |

Where the code does less than its documentation or the standard promises, the code is
kept as it is, and a theorem gives the exact condition under which it does what is
promised: `WebSocketSession.FirstFragmentKeptIff`, `WebSocketSession.LastFragmentKeptIff`,
`WebSocketSession.ControlFramesIff`, `Coap.ParseEncodeIff`, `Coap.EncodeParseIff`,
`MultipartLimits.ToldRightIff`, `UriSyntax.ParseRenderIff`, `Signals.ArrivalSignalled`,
`JsonRoundTrip.RoundTripIff`, `JsonStrings.EscapeLegalIff`, `Unicode.EscapesIff`,
`XmlText.DecodeIdealIff`, `XmlReference.ReferenceIff`, `XmlDocument.PrintParseIff` and `SiblingList.Node.InsertAfterChild`.

Standards: RFC 6455 (WebSocket), RFC 7252 (CoAP), RFC 2046 (multipart), RFC 7230
(chunked coding), RFC 3986 (URIs), RFC 8259 (JSON), RFC 3629 (UTF-8), FIPS 180-4
(SHA-1), RFC 1321 (MD5).

## Model

| member | source | states |
|---|---|---|
| `Bytes.Mbuf.Resize` | CPPCodeRespository/mongoose.c:1044-1056 | resizing keeps the contents; a size below the contents is ignored |
| `Bytes.Mbuf.Insert` | CPPCodeRespository/mongoose.c:1064-1094 | the data stands at the offset, what was before and behind it is kept; grows by half when there is no room |
| `Bytes.Mbuf.OpenGap` | CPPCodeRespository/mongoose.c:1064-1094 | insertion without data: both sides of the gap are kept, the gap is unset |
| `Bytes.Mbuf.Append` | CPPCodeRespository/mongoose.c:1097-1099 | the contents followed by the data |
| `Bytes.Mbuf.Remove` | CPPCodeRespository/mongoose.c:1102-1107 | the contents without the first `n` bytes; a request beyond the contents changes nothing |
| `Bytes.MemMove` | CPPCodeRespository/mongoose.c:1074-1083 | an overlapping move inside one array gives the old bytes in their new place |
| `Bytes.XorIff` | CPPCodeRespository/mongoose.c:8873-8874 | exclusive or, named by its bits: the one byte that has a one exactly where the operands differ |
| `Bytes.BigEndian` | CPPCodeRespository/mongoose.c:8850-8857 | network byte order of 16, 32 and 64 bits: numbers are ordered as their byte strings are, the first differing byte deciding, and every number has a string |
| `Bytes.LittleEndian` | CPPCodeRespository/mongoose.c:8878-8890 | the size word in host order is the big-endian one read backwards |
| `Bytes.HexValueIff` | CPPCodeRespository/mongoose.c:5436-5440 | hexadecimal digits of either case, against a table of the sixteen digits |
| `Bytes.LowerIff` | CPPCodeRespository/mongoose.c:9222-9224 | lower-casing makes exactly the same character and the two cases of a letter equal |
| `Bytes.FindMarkIff` | CPPCodeRespository/mongoose.c:1721-1736 | searching gives the first of all places where the mark occurs, and none exactly when there is none |
| `WebSocketSession.AllMessagesDelivered` | CPPCodeRespository/mongoose.c:8828-9053 | sections 5.2 to 5.4 of RFC 6455, end to end: for every sequence of whole and fragmented messages and every way of cutting the sent bytes into arrivals, exactly the payloads are delivered, once each and in order, and nothing stays buffered |
| `WebSocketSession.RunReceives` | CPPCodeRespository/mongoose.c:9045-9053 | after any prefix of the stream, cut in any way, events and buffer depend only on the bytes that arrived |
| `WebSocketSession.ReceivedMeaning` | CPPCodeRespository/mongoose.c:8828-9053 | that state means: some number of frames is complete and delivered, the buffer holds the reassembled part of the current message and less than one further frame |
| `WebSocketSession.DrainMore` | CPPCodeRespository/mongoose.c:9050-9052 | draining early, then adding bytes and draining again, ends where draining everything at once ends |
| `WebSocketSession.FirstFragmentKeptIff` | CPPCodeRespository/mongoose.c:8878-8890 | for a given length and mask every first fragment survives the stored size word exactly when it is masked or at least 65535 bytes long, that is when its header has five bytes or more |
| `WebSocketSession.FirstFragmentLost` | CPPCodeRespository/mongoose.c:8878-8890 | the failing input: an unmasked first fragment of ones comes out changed |
| `WebSocketSession.LastFragmentKeptIff` | CPPCodeRespository/mongoose.c:8887-8898 | the last fragment delivers the whole message exactly when its length fits the 32-bit size word |
| `WebSocketSession.InterleavedControlEndsMessage` | CPPCodeRespository/mongoose.c:8899-8903 | a control frame inside a fragmented message is taken for its last fragment and ends it |
| `WebSocketSession.ControlDeliveredIff` | CPPCodeRespository/mongoose.c:8878-8903 | a control frame is delivered on its own, and leaves the rest alone, exactly when no message is under way |
| `WebSocketSession.ControlFramesIff` | CPPCodeRespository/mongoose.c:8828-9053 | for every legal stream with control frames: after each frame, and for every cut, the connection has delivered what section 5.4 of RFC 6455 says exactly when no control frame comes between the fragments of a message |
| `WebSocket.StepWhole` | CPPCodeRespository/mongoose.c:8899-8903 | a complete unfragmented frame is taken off the buffer and delivered with its flags and payload |
| `WebSocket.StepFirst` | CPPCodeRespository/mongoose.c:8878-8890 | a first fragment with a header of five bytes or more is stored behind flag byte and size word, and nothing is delivered |
| `WebSocket.StepPartial` | CPPCodeRespository/mongoose.c:8887-8898 | a further fragment closes up with the stored part; with FIN the whole message is delivered and removed |
| `WebSocket.StepComplete` | CPPCodeRespository/mongoose.c:8828-8912 | any complete, properly continued frame is handled as the receiver of RFC 6455 handles it, whatever follows it |
| `WebSocket.StepIncomplete` | CPPCodeRespository/mongoose.c:8844-8862 | a frame that still misses bytes is left alone, also behind a partly reassembled message |
| `WebSocket.StepDecreases` | CPPCodeRespository/mongoose.c:9050-9052 | the receive loop ends on every buffer: a measure falls with each frame although a first fragment may lengthen the buffer |
| `WebSocket.UnmaskedFrame` | CPPCodeRespository/mongoose.c:8871-8876 | unmasking in place turns a sent frame back into header and payload and leaves its surroundings alone |
| `WebSocket.MaskTwice` | CPPCodeRespository/mongoose.c:8984-8990 | masking with the same key twice is the identity |
| `WebSocket.MaskBit` | CPPCodeRespository/mongoose.c:8873-8874 | section 5.3 of RFC 6455: masking flips a bit of the payload exactly where the byte of the key in turn has a one |
| `WebSocket.ParseEncoded` | CPPCodeRespository/mongoose.c:8844-8858 | the header that was sent is read back: header length, payload length, presence of a mask |
| `WebSocket.ParsePrefix` | CPPCodeRespository/mongoose.c:8844-8858 | a header cut short reads as absent, or as what it will be once complete |
| `WebSocketConnection.UnmaskInPlace` | CPPCodeRespository/mongoose.c:8871-8876 | the xor loop over the buffer computes the mask of RFC 6455, section 5.3, with the key in front of the data |
| `WebSocketConnection.ReadHeader` | CPPCodeRespository/mongoose.c:8844-8858 | the header fields, from the bytes in the buffer |
| `WebSocketConnection.Connection.Deliver` | CPPCodeRespository/mongoose.c:8828-8912 | one call, rewriting recv_mbuf in place, does one step of the receiver: not ready and nothing changed, or one frame taken and at most one event |
| `WebSocketConnection.Connection.StoreFirstInPlace` | CPPCodeRespository/mongoose.c:8878-8890 | clearing the opcode, writing the size word and moving the rest gives the stored form of a first fragment, also where the word overwrites payload |
| `WebSocketConnection.Connection.StoreNextInPlace` | CPPCodeRespository/mongoose.c:8887-8890 | moving the payload down over its header and adding to the size word appends the fragment |
| `WebSocketConnection.Connection.DeliverMessage` | CPPCodeRespository/mongoose.c:8892-8898 | the handler gets exactly the stored payload, and flag byte, size word and payload are removed |
| `WebSocketConnection.Connection.DrainLoop` | CPPCodeRespository/mongoose.c:9050-9052 | the loop empties the buffer of all complete frames and raises their events in order |
| `WebSocketConnection.Connection.MaskFrame` | CPPCodeRespository/mongoose.c:8984-8990 | what was sent behind the key is masked in place, and nothing before it |
| `WebSocketConnection.Connection.SendFrame` | CPPCodeRespository/mongoose.c:8947-9004 | send_mbuf grows by exactly the encoding of the frame: shortest length form but 65535, mask key, masked payload |
| `WebSocketConnection.SendAll` | CPPCodeRespository/mongoose.c:8992-9004 | sending frames one after the other appends their encodings |
| `WebSocketConnection.ReceiveAll` | CPPCodeRespository/mongoose.c:8828-9053 | a connection fed any part of a stream in any pieces is where the abstract receiver is |
| `Coap.ParseEncodeIff` | CPPCodeRespository/mongoose.c:10946-11380 | section 3 of RFC 7252: a composed message reads back as itself exactly when all option numbers and lengths fit 16 bits, though 65804 is accepted |
| `Coap.EncodeParseIff` | CPPCodeRespository/mongoose.c:10946-11380 | an accepted packet composes back to its own bytes exactly when no 16-bit sum of the reader wrapped and the packet does not end in a bare payload marker |
| `Coap.ParseEncode` | CPPCodeRespository/mongoose.c:10946-11380 | reading back gives the message and exactly the flags of the fields it has |
| `Coap.ReadEncoded` | CPPCodeRespository/mongoose.c:11077-11159 | the option loop reads back the options and the payload that were written, without wrapping |
| `Coap.EncodeRead` | CPPCodeRespository/mongoose.c:11077-11159 | options read without wrapping are written back byte by byte |
| `Coap.ParsedSmall` | CPPCodeRespository/mongoose.c:11077-11186 | every accepted packet gives a message that can be composed again, with sorted options that fit 16 bits |
| `Coap.LargeOptionLost` | CPPCodeRespository/mongoose.c:11045-11130 | what becomes of any message with one option number from 65536 on: it is read back with the number cut to 16 bits |
| `Coap.BareMarkerLost` | CPPCodeRespository/mongoose.c:11149-11158 | the failing packet: a payload marker with nothing behind it is dropped |
| `Coap.InsertAllKeeps` | CPPCodeRespository/mongoose.c:10893-10939 | inserting options one by one keeps them sorted and loses none of them |
| `Coap.InsertSortedAppends` | CPPCodeRespository/mongoose.c:10903-10913 | options that come in order are appended in order |
| `CoapMessage.Message.AddOption` | CPPCodeRespository/mongoose.c:10893-10939 | the linked list stays sorted, the new option goes behind its equals, and the tail pointer stays on the last node |
| `CoapMessage.Message.LinkBetween` | CPPCodeRespository/mongoose.c:10927-10929 | linking between two neighbours is insertion at that place of the sequence |
| `CoapMessage.Message.FindPlace` | CPPCodeRespository/mongoose.c:10915-10925 | the walk stops at the first option with a larger number, with its predecessor |
| `CoapMessage.Message.CalculatePacketSize` | CPPCodeRespository/mongoose.c:11262-11309 | the first field that cannot be composed, or the exact number of bytes that composing writes |
| `CoapMessage.Message.Compose` | CPPCodeRespository/mongoose.c:11311-11380 | the buffer grows by exactly the packet, or nothing is written and the failing field is reported |
| `CoapMessage.Message.ParsePacket` | CPPCodeRespository/mongoose.c:11161-11186 | the message object ends as the packet says: fields, sorted option list, payload and flags, or the error with the flags set so far |
| `CoapMessage.Message.GetOptions` | CPPCodeRespository/mongoose.c:11077-11159 | all options up to marker or end are inserted, and on an error the list is emptied |
| `CoapMessage.TakeOption` | CPPCodeRespository/mongoose.c:11087-11142 | one option is read: number added in 16 bits, value within the packet; an overrun is reported after the option has been added |
| `CoapMessage.ReadInfoAt` | CPPCodeRespository/mongoose.c:11031-11059 | nibbles 13 and 14 take one and two more bytes, and the sum is cut to 16 bits |
| `CoapMessage.Message.PutOptions` | CPPCodeRespository/mongoose.c:11347-11371 | the loop writes exactly the delta-coded options |
| `CoapMessage.SplitInfo` | CPPCodeRespository/mongoose.c:11210-11255 | nibble and extension bytes of a delta or length |
| `CoapMessage.Message.FreeOptions` | CPPCodeRespository/mongoose.c:10885-10891 | the list is empty afterwards |
| `MultipartLimits.ToldRightIff` | CPPCodeRespository/mongoose.c:5864-6048 | section 5.1.1 of RFC 2046: every way of cutting a body into arrivals is reported right, from the received bytes alone, exactly when there is a part and, in each part, the boundary first occurs behind the delimiter that ends it and all headers are Content-Disposition lines; the standard asks for less |
| `MultipartLimits.DirtyPartLost` | CPPCodeRespository/mongoose.c:5974-6002 | a part whose data holds the boundary is cut short for good, whatever stands before and behind it |
| `MultipartLimits.BoundaryInData` | CPPCodeRespository/mongoose.c:5983-5998 | data that holds the boundary does not meet this condition, with or without the delimiter |
| `MultipartLimits.AllowedByStandard` | CPPCodeRespository/mongoose.c:5983-5998 | an input that shows it: data that holds the boundary but not the delimiter |
| `MultipartLimits.OverrunLost` | CPPCodeRespository/mongoose.c:5931-5967 | headers with another line than Content-Disposition, cut before their last byte, send the scan behind the received bytes, whatever stands before them |
| `MultipartLimits.StaleLineTakenIff` | CPPCodeRespository/mongoose.c:5931-5967 | with only the empty line still to come, something behind the received bytes can pass for it exactly when at least two bytes stand in lines other than Content-Disposition lines |
| `MultipartLimits.ScanAgrees` | CPPCodeRespository/mongoose.c:5931-5967 | a scan that stays within the received bytes gives the same result whatever lies behind them |
| `MultipartStory.ToldIff` | CPPCodeRespository/mongoose.c:5864-6048 | what being told right means: each part is begun once with its headers, given its data in pieces, and ended once, in order, and then the request ends, once and last; no other events count |
| `MultipartStory.HandedOver` | CPPCodeRespository/mongoose.c:5974-6002 | data does not wait for the boundary: what has waited for one arrival is handed over with the next, unless that brings too little to tell a boundary |
| `Multipart.WholeBodyTold` | CPPCodeRespository/mongoose.c:5864-6048 | for every arrival pattern each part is begun, given exactly its data and ended, in order, then the request ends and the buffer is left empty; for parts that meet the condition of `MultipartLimits.ToldRightIff` |
| `Multipart.RunKeeps` | CPPCodeRespository/mongoose.c:6004-6048 | for such parts, at every moment what has been reported is a prefix of them and the buffer holds the rest of what has arrived |
| `Multipart.WindowHoldsDelimiter` | CPPCodeRespository/mongoose.c:5983-5991 | the lagging window never releases a byte of the delimiter |
| `Multipart.HeadersScanned` | CPPCodeRespository/mongoose.c:5931-5967 | the end of the headers is found as soon as they have arrived in full; before that, with Content-Disposition lines only, the scan stays within what has arrived |
| `Multipart.DispositionIff` | CPPCodeRespository/mongoose.c:5931-5935 | the lines taken off data_size are those that start with the name of the header, in any case, and go on behind it |
| `Multipart.StepDecreases` | CPPCodeRespository/mongoose.c:6004-6048 | every round of the loop consumes input or comes closer to the end of the part, so the loop ends |
| `Multipart.NoPartsEndUnbegun` | CPPCodeRespository/mongoose.c:5877-5890 | for every boundary, preamble, epilogue and cut, a body without parts is reported as the end of a part that never began |
| `MultipartConnection.StrnStr` | CPPCodeRespository/mongoose.c:1721-1736 | the offset of the first occurrence, if there is one |
| `MultipartConnection.GetLineLen` | CPPCodeRespository/mongoose.c:5781-5785 | the length of the line, 0 when none ends here |
| `MultipartConnection.ScanHeaderLines` | CPPCodeRespository/mongoose.c:5931-5967 | the loop over header lines, whose data_size falls behind at every line but Content-Disposition ones |
| `MultipartConnection.Connection.WaitForBoundary` | CPPCodeRespository/mongoose.c:5892-5918 | waits until four bytes stand behind the boundary, then tells the closing one from the others |
| `MultipartConnection.Connection.ProcessBoundary` | CPPCodeRespository/mongoose.c:5920-5972 | headers are scanned to the empty line and removed, the previous part is ended and the next begun; a scan that leaves the received bytes stops the model |
| `MultipartConnection.Connection.ContinueWaitForChunk` | CPPCodeRespository/mongoose.c:5974-6002 | data up to four bytes before the boundary is handed over, or the window is moved on |
| `MultipartConnection.Connection.GotChunk` | CPPCodeRespository/mongoose.c:5864-5875 | exactly the older part of the window is handed over and removed, and the loop ends |
| `MultipartConnection.Connection.Continue` | CPPCodeRespository/mongoose.c:6004-6048 | the loop over the state machine, on the buffer in place |
| `MultipartConnection.ReceiveAll` | CPPCodeRespository/mongoose.c:5864-6048 | a connection fed any cut of such a body reports its parts, each with its data |
| `Chunked.ReceiveHolds` | CPPCodeRespository/mongoose.c:5463-5518 | section 4.1 of RFC 7230: after any arrivals, and whenever the handler has data deleted, decoded bytes (deleted ones included) are the data of all complete chunks and the undecoded bytes follow untouched |
| `Chunked.SentBodyArrives` | CPPCodeRespository/mongoose.c:5463-5518 | a body sent in chunks and cut in any way arrives whole, with nothing left over |
| `Chunked.TraverseMore` | CPPCodeRespository/mongoose.c:5474-5487 | decoding what has arrived, then the remainder with what arrives next, is decoding all of it at once |
| `Chunked.TraverseEnds` | CPPCodeRespository/mongoose.c:5482-5486 | the empty chunk ends the body for good |
| `Chunked.ChunkInMore` | CPPCodeRespository/mongoose.c:5430-5461 | bytes that arrive later do not change a chunk that was complete |
| `Chunked.ChunkNotYet` | CPPCodeRespository/mongoose.c:5430-5461 | no proper prefix of a chunk that was sent is taken for a chunk |
| `Chunked.BodyRead` | CPPCodeRespository/mongoose.c:6459-6467 | chunks that were sent decode to what was sent, and nothing behind the body is touched |
| `Chunked.HexRead` | CPPCodeRespository/mongoose.c:5436-5441 | the size that the sender writes is read back |
| `Chunked.ChunkSpelled` | CPPCodeRespository/mongoose.c:5430-5461 | section 4.1 of RFC 7230: a chunk of any sender is read, its size in digits of either case and with zeros in front |
| `Chunked.LargeSizeStops` | CPPCodeRespository/mongoose.c:5436-5461 | a size that wraps around with its framing stops decoding |
| `Chunked.KeptUnlessAsked` | CPPCodeRespository/mongoose.c:5501-5508 | nothing is deleted unless the handler asks for it |
| `Chunked.AllDeleted` | CPPCodeRespository/mongoose.c:5501-5508 | a handler that always asks is never left with decoded bytes |
| `ChunkedConnection.ParseChunkAt` | CPPCodeRespository/mongoose.c:5430-5461 | size line, data and line end are recognised, or 0 is returned |
| `ChunkedConnection.Connection.Collapse` | CPPCodeRespository/mongoose.c:5474-5487 | the data of all complete chunks closes up behind the body, in place |
| `ChunkedConnection.Connection.HandleChunked` | CPPCodeRespository/mongoose.c:5463-5518 | recv_mbuf shrinks by exactly the framing consumed and any bytes deleted; what precedes the body is untouched; the handler sees the body so far, and only when a chunk was found |
| `ChunkedConnection.Connection.Shift` | CPPCodeRespository/mongoose.c:5489-5499 | undecoded bytes are moved up to the body |
| `ChunkedConnection.Connection.DeleteBody` | CPPCodeRespository/mongoose.c:5501-5508 | the decoded bytes go, the undecoded ones stay |
| `Hash.FoldMore` | CPPCodeRespository/mongoose.c:1373-1391 | compressing complete blocks can stop and go on anywhere in the message |
| `Hash.CounterKept` | CPPCodeRespository/mongoose.c:1377-1379 | the two-word counter is eight times the length modulo 2^64 after every update, carry included |
| `Hash.Position` | CPPCodeRespository/mongoose.c:1380-1381 | the fill of the buffer can be read off the counter |
| `Hash.WordCarry` | CPPCodeRespository/mongoose.c:1377-1378 | the 32-bit sum is less than a summand exactly when it has wrapped |
| `HashContext.Sha1Context.Update` | CPPCodeRespository/mongoose.c:1373-1391 | state and buffer stay the fold over complete blocks and the tail of the message so far |
| `HashContext.Sha1Context.Final` | CPPCodeRespository/mongoose.c:1393-1415 | section 5.1.1 of FIPS 180-4: byte-wise padding through the update function gives the fold of the padded message |
| `HashContext.OneResidue` | CPPCodeRespository/mongoose.c:1404-1407 | the padding loop stops at the only number of zero bytes that reaches the place of the length |
| `HashContext.Md5Context.Update` | CPPCodeRespository/mongoose.c:918-951 | MD5: state and buffer stay the fold over complete blocks and the tail of the message so far |
| `HashContext.Md5Context.Final` | CPPCodeRespository/mongoose.c:953-981 | sections 3.1 and 3.2 of RFC 1321: padding in the buffer, with one block more when the length does not fit, is the fold of the padded message |
| `HashContext.Sha1` | CPPCodeRespository/mongoose.c:1364-1415 | the digest state depends on the message, not on the pieces it came in |
| `HashContext.Md5` | CPPCodeRespository/mongoose.c:826-981 | the digest state depends on the message, not on the pieces it came in |
| `Glob.MatchIff` | CPPCodeRespository/mongoose.c:9506-9535 | without bars: there is a result exactly when the pattern matches some prefix of the text, where "*" takes anything but "/", "**" anything, "?" one character, letters either case and "$" the end; the result is the length of such a prefix |
| `Glob.MatchAnyIff` | CPPCodeRespository/mongoose.c:9497-9504 | with bars: the result is that of the first alternative with a positive one, else of the last; it is positive exactly when some alternative is |
| `Glob.BacktrackLongest` | CPPCodeRespository/mongoose.c:9525-9530 | the loop stops at the longest stretch behind which the rest matches |
| `Glob.StarLongest` | CPPCodeRespository/mongoose.c:9511-9530 | a wildcard takes the longest stretch it may take (without "/" for one star, any for two) that lets the rest match; there is no result exactly when none does |
| `Glob.AlternativesJoin` | CPPCodeRespository/mongoose.c:9497-9504 | the alternatives, put together with bars, are the pattern, and none holds a bar |
| `Glob.MatchPrefixN` | CPPCodeRespository/mongoose.c:9492-9536 | the recursive search ends and returns -1 or the length that the specification gives |
| `Glob.MatchOne` | CPPCodeRespository/mongoose.c:9506-9535 | the loop over one alternative |
| `Glob.MatchStar` | CPPCodeRespository/mongoose.c:9511-9530 | the backtracking loop, from the longest stretch down |
| `UriSyntax.ParseRenderIff` | CPPCodeRespository/mongoose.c:4827-4940 | section 3 of RFC 3986: every component of an address in the documented forms is recovered exactly when a path comes before its query and a query mark before its fragment (no NUL in path or query, ports below 65536) |
| `UriSyntax.ParseRender` | CPPCodeRespository/mongoose.c:4827-4940 | a path before its query and a query mark before its fragment suffice, for ports up to 32 bits as well |
| `UriSyntax.CrampedMisread` | CPPCodeRespository/mongoose.c:4867-4921 | without a path a query or fragment is lost, or spoils host, port, user information or scheme |
| `UriSyntax.UnmarkedMisread` | CPPCodeRespository/mongoose.c:4922-4927 | a fragment without a query is taken for more of the path |
| `UriSyntax.HostRead` | CPPCodeRespository/mongoose.c:4897-4910 | host, port and the rest are recovered, with or without the "@" in front |
| `UriSyntax.AuthorityRead` | CPPCodeRespository/mongoose.c:4879-4896 | user information is told from a host by reading ahead and going back |
| `UriSyntax.PortRead` | CPPCodeRespository/mongoose.c:4911-4921 | decimal digits below 2^32 are read back |
| `UriSyntax.PortWraps` | CPPCodeRespository/mongoose.c:4911-4921 | larger ports are read modulo 2^32 |
| `UriSyntax.RunAutomaton` | CPPCodeRespository/mongoose.c:4827-4940 | the automaton ends on every input, although it goes back once, and gives the specified components |
| `UriSyntax.ParseRendered` | CPPCodeRespository/mongoose.c:4827-4940 | the automaton run on a rendered address recovers its components |
| `UriPath.PathRefines` | CPPCodeRespository/mongoose.c:4943-4975 | for every path that starts with a slash the result is remove_dot_segments of section 5.2.4 of RFC 3986 |
| `UriPath.Refines` | CPPCodeRespository/mongoose.c:4954-4969 | from every state in the middle of the loop the rest of it computes what the standard computes from there |
| `UriPath.Normalized` | CPPCodeRespository/mongoose.c:4943-4975 | the result has no dot segments, starts with a slash, and is left alone the second time |
| `UriPath.PlainKept` | CPPCodeRespository/mongoose.c:4943-4975 | a path without dot segments is not changed |
| `UriPath.OneComponent` | CPPCodeRespository/mongoose.c:4954-4969 | one round in place: the write position never passes the read position, and unread input is untouched |
| `UriPath.BackTrack` | CPPCodeRespository/mongoose.c:4961-4963 | going back in the array stops behind the previous slash |
| `UriPath.NormalizeInPlace` | CPPCodeRespository/mongoose.c:4943-4975 | with output and input in one place the result is the specified one, never longer than the input; 0 exactly when the path does not start with a slash |
| `Signals.RunOrdered` | CPPCodeRespository/mongoose.c:14014-14483 | over every interleaving of posts, arrivals, processing and removals: length in range, signals come out in the order they were accepted, each as posted or blanked, at most one receive signal per connection and none without its flag |
| `Signals.RemovedNeverActedOn` | CPPCodeRespository/mongoose.c:14474-14483 | after a removal, whatever comes later, no signal posted for the connection before is acted on |
| `Signals.LostForGood` | CPPCodeRespository/mongoose.c:14014-14027 | a receive signal that finds the queue full is never made up for until the connection is removed |
| `Signals.ArrivalSignalled` | CPPCodeRespository/mongoose.c:14022-14025 | the flag promises a signal exactly when the queue had room |
| `Signals.SignalledAgainIff` | CPPCodeRespository/mongoose.c:14022-14025 | once its signal has been taken, further data is signalled again exactly when the connection was attached; otherwise it is lost |
| `Signals.PostedIff` | CPPCodeRespository/mongoose.c:14383-14397 | any other signal is queued behind the rest exactly when there is room |
| `Signals.RunStep` | CPPCodeRespository/mongoose.c:14399-14458 | a run is its steps, one after the other |
| `Signals.StepKeeps` | CPPCodeRespository/mongoose.c:14014-14483 | each kind of step keeps the invariant |
| `Signals.Ring.Post` | CPPCodeRespository/mongoose.c:14383-14397 | the signal is queued last, around the end of the ring, or dropped when the queue is full |
| `Signals.Ring.Pop` | CPPCodeRespository/mongoose.c:14402-14409 | the oldest signal is taken |
| `Signals.Ring.RemoveConn` | CPPCodeRespository/mongoose.c:14474-14483 | exactly the signals of the connection become tombstones |
| `Signals.Manager.RecvCommon` | CPPCodeRespository/mongoose.c:14014-14027 | ring and flags follow the abstract step |
| `Signals.Manager.ProcessOne` | CPPCodeRespository/mongoose.c:14399-14458 | ring and flags follow the abstract step, and what is acted on is the oldest signal |
| `Signals.Manager.RemoveConn` | CPPCodeRespository/mongoose.c:14474-14483 | ring and flags follow the abstract step |
| `JsonRoundTrip.RoundTripIff` | CPPCodeRespository/json_reader.cpp:151-616 | parsing any spacing of a value's lexemes gives the value back, up to array holes read as null and small unsigned integers read as signed, exactly when all its integers lie in the range read without falling back to double |
| `JsonRoundTrip.SpacingIrrelevant` | CPPCodeRespository/json_reader.cpp:246-361 | what the reader makes of a text depends on its lexemes only |
| `JsonGrammar.ParseIff` | CPPCodeRespository/json_reader.cpp:180-579 | exactly the texts of an explicit grammar are accepted, and each gives its value: scalars, arrays and objects with white space and comments between their tokens, and the liberties the reader takes with separators |
| `JsonGrammar.DocReads` | CPPCodeRespository/json_reader.cpp:180-579 | what is written in the grammar is read as its value, and nothing behind it is taken |
| `JsonGrammar.DocOf` | CPPCodeRespository/json_reader.cpp:180-579 | whatever is read was written in the grammar |
| `JsonGrammar.MembersRead` | CPPCodeRespository/json_reader.cpp:480-536 | members with their names, colons and separators are read, up to the closing brace |
| `JsonGrammar.ItemsRead` | CPPCodeRespository/json_reader.cpp:539-579 | elements and their separators are read, up to the closing bracket |
| `JsonText.SpacesSpelled` | CPPCodeRespository/json_reader.cpp:349-360 | section 2 of RFC 8259: the characters that are white space, and the digits |
| `JsonTokens.NumberCharacters` | CPPCodeRespository/json_reader.cpp:452-462 | the characters that a number token is made of |
| `JsonText.LiteralsSpelled` | CPPCodeRespository/json_reader.cpp:315-326 | the three literals, in ASCII |
| `JsonTokens.CommentsIgnored` | CPPCodeRespository/json_reader.cpp:246-260 | wherever comments are skipped, any number of them with white space between makes no difference |
| `JsonTokens.CommentOf` | CPPCodeRespository/json_reader.cpp:378-449 | whatever is dropped as a comment is one: up to its first closing mark, or to the end of its line |
| `JsonTokens.RealRead` | CPPCodeRespository/json_reader.cpp:452-462 | section 6 of RFC 8259: a number with a fraction or an exponent is one token, and the scan for a double gets all of it |
| `JsonTokens.AnyTokenSeparates` | CPPCodeRespository/json_reader.cpp:559-577 | between elements any token but a closing bracket passes for a comma |
| `JsonStrings.DecodesIff` | CPPCodeRespository/json_reader.cpp:658-701 | section 7 of RFC 8259: exactly the texts made of plain bytes, the eight two-character escapes and code point escapes are decoded, each to what its pieces mean |
| `JsonStrings.StringRead` | CPPCodeRespository/json_reader.cpp:658-701 | every spelling of a string that the standard allows is one token, and reads as that string |
| `JsonStrings.OtherLetterRejected` | CPPCodeRespository/json_reader.cpp:670-691 | a backslash in front of any other letter, or at the end, makes the string an error |
| `JsonStrings.UnescapedIff` | CPPCodeRespository/json_reader.cpp:672-691 | the letters that may follow a backslash are those of the table |
| `JsonRoundTrip.ParseSpaced` | CPPCodeRespository/json_reader.cpp:195-243 | the reader consumes exactly the lexemes of the value, whatever follows |
| `JsonRoundTrip.ParseElementsSpaced` | CPPCodeRespository/json_reader.cpp:539-578 | the array loop reads back all elements, holes included |
| `JsonRoundTrip.ParseMembersSpaced` | CPPCodeRespository/json_reader.cpp:480-536 | the object loop reads back all members in order |
| `JsonRoundTrip.DecodeIntText` | CPPCodeRespository/json_reader.cpp:582-616 | which value the decimal text of an integer is decoded to, in and out of the exact range |
| `JsonRoundTrip.DecodeEscape` | CPPCodeRespository/json_reader.cpp:658-701 | decoding undoes escaping for every string |
| `JsonRoundTrip.ScanEscape` | CPPCodeRespository/json_reader.cpp:464-478 | an escaped string ends at its own closing quote |
| `JsonRoundTrip.NormElementAt` | CPPCodeRespository/json_value.cpp:873-1011 | the normal form has the size of the array, and at each index the normal form of what operator[] gives |
| `JsonRoundTrip.NormMemberAt` | CPPCodeRespository/json_value.cpp:1062-1078 | the normal form has the same members |
| `JsonRoundTrip.RereadInOrder` | CPPCodeRespository/json_value.cpp:1022-1040 | members that were stored in name order are stored again in the same order |
| `JsonValue.PutAllSorted` | CPPCodeRespository/json_value.cpp:1022-1040 | members that arrive in name order are simply appended |
| `JsonWriter.FastRoundTripIff` | CPPCodeRespository/json_writer.cpp:200-266 | what FastWriter writes, with or without YAML spacing, is read back as the value's normal form exactly when its integers are in range |
| `JsonWriter.FastWriter.Write` | CPPCodeRespository/json_writer.cpp:201-208 | the document is the value's lexemes without spacing but YAML's, and a newline |
| `JsonWriter.FastWriter.WriteArray` | CPPCodeRespository/json_writer.cpp:233-245 | the array loop appends the lexemes of all elements up to size(), holes as null |
| `JsonWriter.FastWriter.WriteObject` | CPPCodeRespository/json_writer.cpp:246-264 | the object loop appends the lexemes of all members |
| `JsonWriter.UintToString` | CPPCodeRespository/json_writer.cpp:30-40 | the digits stored downwards are the decimal text and stay inside the buffer |
| `JsonWriter.IntegerToString` | CPPCodeRespository/json_writer.cpp:42-64 | decimal text with sign, also of the least integer |
| `JsonWriter.QuotedString` | CPPCodeRespository/json_writer.cpp:111-175 | the shortcut for plain text and the escaping loop give the same quoted text |
| `JsonStrings.EscapeSpells` | CPPCodeRespository/json_writer.cpp:111-170 | what is written spells the string, and holds no line end |
| `JsonStrings.EscapeLegalIff` | CPPCodeRespository/json_writer.cpp:111-170 | it is what RFC 8259 allows exactly when the string holds no control character but the five that have a letter |
| `JsonWriter.LexSolid` | CPPCodeRespository/json_writer.cpp:211-266 | no lexeme is empty, starts with white space, or runs into its neighbour |
| `JsonStyledWriter.StyledAgreesWithFast` | CPPCodeRespository/json_writer.cpp:279-484 | styled and fast text of every value parse to the same thing, which is the normal form exactly when all integers are in range |
| `JsonStyledWriter.StyledWriter.Write` | CPPCodeRespository/json_writer.cpp:280-291 | the styled text is the layout of the value and a line end: a spacing of its lexemes in which every line is indented by its nesting |
| `JsonStyledWriter.StyledWriter.WriteValue` | CPPCodeRespository/json_writer.cpp:294-351 | with the cache switched on exactly one text is pushed, otherwise exactly the layout of the value at the present depth is written; the indentation is restored |
| `JsonStyledWriter.StyledWriter.IsMultilineArray` | CPPCodeRespository/json_writer.cpp:408-436 | true exactly when the array does not fit on one line; the cache then holds exactly one direct rendering per element, or is empty |
| `JsonStyledWriter.StyledWriter.WriteLines` | CPPCodeRespository/json_writer.cpp:363-390 | each element on a line of its own, from the cache or written directly, one level deeper than the brackets |
| `JsonStyledWriter.StyledWriter.WriteOneLine` | CPPCodeRespository/json_writer.cpp:391-402 | the size assertion holds, and the cached texts stand side by side between the brackets |
| `JsonStyledWriter.StyledWriter.WriteObjectValue` | CPPCodeRespository/json_writer.cpp:319-349 | each member on a line of its own, one level deeper than the braces |
| `JsonStyledWriter.StyledWriter.WriteIndent` | CPPCodeRespository/json_writer.cpp:449-460 | behind a space nothing is added; otherwise the document ends in a line end, added only when it is missing and something stands before it, and exactly the indentation |
| `JsonLayout.LayoutIndented` | CPPCodeRespository/json_writer.cpp:319-460 | in the layout every line is indented by three spaces for each bracket that is open, strings left aside, and a closing bracket stands at the level of the line that opened it |
| `JsonLayout.LayoutSpaced` | CPPCodeRespository/json_writer.cpp:294-402 | the layout is the lexemes of the value with white space between them |
| `JsonLayout.RowFlat` | CPPCodeRespository/json_writer.cpp:391-402 | an array on one line holds no line end |
| `JsonLayout.FitsIff` | CPPCodeRespository/json_writer.cpp:408-436 | the width compared with the margin is that of the line as it would be written |
| `JsonStyledWriter.StyledWriter.Unindent` | CPPCodeRespository/json_writer.cpp:479-483 | takes back exactly one indentation |
| `JsonEndToEnd.FastThenParse` | CPPCodeRespository/json_writer.cpp:201-266 | writing and parsing, run against each other, succeed with the normal form exactly when the integers are in range |
| `JsonEndToEnd.StyledThenParse` | CPPCodeRespository/json_writer.cpp:280-484 | both writers' texts give the reader the same value |
| `JsonParser.Reader.Parse` | CPPCodeRespository/json_reader.cpp:151-192 | succeeds exactly when the document starts with a value, which is then the specified one; an error is on record exactly when it does not |
| `JsonParser.Reader.ReadValue` | CPPCodeRespository/json_reader.cpp:195-243 | the cursor ends behind the value; errors are only added, and exactly on failure |
| `JsonParser.Reader.ReadArray` | CPPCodeRespository/json_reader.cpp:539-578 | the array loop, element by element, on the cursor |
| `JsonParser.Reader.ReadObject` | CPPCodeRespository/json_reader.cpp:480-536 | the object loop, name, colon, value and separator, on the cursor |
| `JsonParser.Reader.ReadToken` | CPPCodeRespository/json_reader.cpp:274-345 | the token at the cursor, with its span |
| `JsonParser.Reader.SkipCommentTokens` | CPPCodeRespository/json_reader.cpp:246-260 | the next token that is not a comment |
| `JsonParser.Reader.Match` | CPPCodeRespository/json_reader.cpp:363-374 | the pattern is compared from its end, and the cursor moves only on a match |
| `JsonParser.Reader.ReadString` | CPPCodeRespository/json_reader.cpp:464-478 | the cursor ends behind the closing quote, escapes skipped in pairs |
| `JsonParser.Reader.ReadCStyleComment` | CPPCodeRespository/json_reader.cpp:426-436 | the cursor ends behind the first closing mark |
| `JsonParser.Reader.DecodeNumber` | CPPCodeRespository/json_reader.cpp:582-616 | the digit loop gives the integer, gives up for a double at the threshold, or reports an error |
| `JsonParser.Reader.DecodeString` | CPPCodeRespository/json_reader.cpp:658-701 | the loop over the text between the quotes gives the decoded string or an error |
| `JsonParser.Reader.DecodeUnicodeCodePoint` | CPPCodeRespository/json_reader.cpp:704-731 | one escape or a surrogate pair, with the cursor behind it |
| `JsonParser.Reader.DecodeHex4` | CPPCodeRespository/json_reader.cpp:734-757 | four hexadecimal digits of either case |
| `JsonOrder.Trichotomy` | CPPCodeRespository/json_value.cpp:565-606 | of any two values exactly one is less, or they are the same, through nested size-first and then lexicographic comparison |
| `JsonOrder.LessTransitive` | CPPCodeRespository/json_value.cpp:565-606 | operator< is transitive on all values |
| `JsonOrder.EqualIff` | CPPCodeRespository/json_value.cpp:627-668 | operator== holds exactly when neither side is less, which is exactly when the values are the same |
| `JsonOrder.KeyTrichotomy` | CPPCodeRespository/json_value.cpp:217-231 | the order of map keys, indices or names, is total |
| `JsonOrder.MapTrichotomy` | CPPCodeRespository/json_value.cpp:588-595 | the lexicographic comparison of two maps of one size is total |
| `JsonOrder.LessIff` | CPPCodeRespository/json_value.cpp:565-606 | which order it is: numbers by value, false before true, strings by their first differing byte, containers by size and then by the first place where they differ |
| `JsonOrder.KindsInOrder` | CPPCodeRespository/json_value.cpp:568-570 | values of different kinds are in the order of ValueType |
| `Unicode.SpelledDecodes` | CPPCodeRespository/json_reader.cpp:658-757 | section 7 of RFC 8259: every sequence of scalar values written as escapes and surrogate pairs decodes to its UTF-8 |
| `Unicode.CodePointIff` | CPPCodeRespository/json_reader.cpp:704-757 | one escape: the result is a scalar value exactly when the first unit is no low surrogate, and the code point that is spelled exactly when, besides, a high surrogate is followed by a low one |
| `Unicode.EscapesIff` | CPPCodeRespository/json_reader.cpp:658-757 | text of escapes only: accepted exactly when no high surrogate is left over at the end; the result is then legal UTF-8 exactly when no low surrogate stands outside of a pair, and what the text spells exactly when all surrogates are paired |
| `Unicode.DecodeEncode` | CPPCodeRespository/json_reader.cpp:69-103 | what the encoder writes is legal UTF-8 (section 3 of RFC 3629) for exactly these code points |
| `Unicode.EncodeDecode` | CPPCodeRespository/json_reader.cpp:69-103 | legal UTF-8 is what the encoder writes for what is read |
| `Unicode.EncodeInjective` | CPPCodeRespository/json_reader.cpp:69-103 | the encoding is uniquely decodable |
| `Unicode.EncodersAgree` | CPPCodeRespository/tinyxml2.cpp:403-453 | the encoders of both libraries agree on a code point exactly when it is at most U+10FFFF or takes more than 21 bits |
| `Unicode.UnpairedHighAccepted` | CPPCodeRespository/json_reader.cpp:704-731 | an input that shows it: a high surrogate followed by the escape of "A" is read as U+10041 |
| `Unicode.ConvertUTF32ToUTF8` | CPPCodeRespository/tinyxml2.cpp:403-453 | the bytes stored from last to first are the encoding, and nothing behind them is touched |
| `XmlDocument.PrintParseIff` | CPPCodeRespository/tinyxml2.cpp:1010-1122 | printing a document and parsing the text gives the document back exactly when it does not nest too deep, holds no carriage return and, in the indented form, has no text right before an element |
| `XmlDocument.DocumentRead` | CPPCodeRespository/tinyxml2.cpp:1010-1122 | any layout of a document's pieces is read as that document, and fails exactly when it nests too deep |
| `XmlDocument.RereadAllIff` | CPPCodeRespository/tinyxml2.cpp:2631-2762 | which trees survive indentation and line ends unchanged |
| `XmlDocument.Print` | CPPCodeRespository/tinyxml2.cpp:2386-2395 | the printed text is exactly that of the layout; it is a layout of the document's pieces, with the spaces that indentation adds to text |
| `XmlRoundTrip.ParseAll` | CPPCodeRespository/tinyxml2.cpp:1010-1122 | the pieces of sibling nodes are read as these nodes, at every depth and before any continuation; too deep a nesting is an error |
| `XmlRoundTrip.ParseOpen` | CPPCodeRespository/tinyxml2.cpp:1085-1119 | an element with children: its end tag is read by a child, handed up and matched with its own name |
| `XmlRoundTrip.EndTagStep` | CPPCodeRespository/tinyxml2.cpp:1085-1095 | an end tag ends the list of children and goes up |
| `XmlRoundTrip.OpeningTagRead` | CPPCodeRespository/tinyxml2.cpp:1885-1942 | an opening tag is read as its name and attributes, sealed or not |
| `XmlRoundTrip.AttributeRead` | CPPCodeRespository/tinyxml2.cpp:1378-1403 | an attribute that was printed is read back, up to line ends |
| `XmlRoundTrip.AttributeInEitherQuotes` | CPPCodeRespository/tinyxml2.cpp:1378-1403 | an attribute value in quotes or apostrophes is read, whatever white space stands around the "=" |
| `XmlRoundTrip.TextStep` | CPPCodeRespository/tinyxml2.cpp:1169-1193 | printed text is read as one node, up to the next tag |
| `XmlRoundTrip.MarkedStep` | CPPCodeRespository/tinyxml2.cpp:1234-1340 | comments, declarations, CDATA and unknown stretches are read back as such |
| `XmlRoundTrip.MarkedIdentified` | CPPCodeRespository/tinyxml2.cpp:678-745 | each marked stretch is told from the others by its start |
| `XmlGrammar.ParseIff` | CPPCodeRespository/tinyxml2.cpp:1010-1122 | exactly the documents of an explicit grammar are read, and each as its nodes: every element has its own end tag, no tag the same attribute twice, declarations come first, no stretch is left open, and nesting stays below the limit |
| `XmlGrammar.DeclarationsFit` | CPPCodeRespository/tinyxml2.cpp:1055-1077 | in whatever is read declarations stand in the document itself, behind nothing but declarations |
| `XmlGrammar.ItemsRead` | CPPCodeRespository/tinyxml2.cpp:1010-1122 | a list of nodes written in the grammar is read as these nodes |
| `XmlGrammar.ItemsOf` | CPPCodeRespository/tinyxml2.cpp:1010-1122 | whatever is read was written in the grammar |
| `XmlGrammar.TagReads` | CPPCodeRespository/tinyxml2.cpp:1968-1995 | tags with white space anywhere it is allowed are read as name and attributes |
| `XmlGrammar.TagOf` | CPPCodeRespository/tinyxml2.cpp:1968-1995 | whatever is read as a tag was written as one, with different attribute names |
| `XmlTree.NameCharacters` | CPPCodeRespository/tinyxml2.h:571-590 | the characters of names and white space |
| `XmlTree.MarksSpelled` | CPPCodeRespository/tinyxml2.cpp:678-745 | the marks of comments, CDATA, declarations and unknown stretches |
| `XmlText.DecodeEscape` | CPPCodeRespository/tinyxml2.cpp:267-365 | decoding undoes printing for every string, in text and in attribute values, up to line ends; exactly for strings without a carriage return |
| `XmlText.NormalizeIff` | CPPCodeRespository/tinyxml2.cpp:280-302 | line ends are left alone exactly where there is no carriage return |
| `XmlText.EntityRead` | CPPCodeRespository/tinyxml2.cpp:327-340 | each character that is escaped is read back from its entity |
| `XmlText.EntitiesSpelled` | CPPCodeRespository/tinyxml2.cpp:129-135 | the entities are the five of section 4.6 of the XML recommendation |
| `XmlReference.ReferenceRead` | CPPCodeRespository/tinyxml2.cpp:456-549 | section 4.1 of the XML recommendation: every code point below 2^32, as a decimal or hexadecimal numeral in either case and with zeros in front, is read as its UTF-8, and exactly the reference is taken |
| `XmlReference.ReferenceIff` | CPPCodeRespository/tinyxml2.cpp:456-549 | a reference is read exactly when only digits stand between its last mark and the semicolon |
| `XmlReference.NonDigitRejected` | CPPCodeRespository/tinyxml2.cpp:497-499 | anything else among the digits keeps the "&" as text |
| `XmlReference.OpeningAtEnd` | CPPCodeRespository/tinyxml2.cpp:460-548 | a text that ends in "&#" loses the "&" |
| `XmlReference.MarkInside` | CPPCodeRespository/tinyxml2.cpp:521-541 | an input that needs the word "last": "&#1#65;" is read as "A" |
| `XmlText.UnknownEntityIff` | CPPCodeRespository/tinyxml2.cpp:327-345 | at an unknown entity the "&" is kept, in the round and in the final text, exactly when the byte at the write pointer is an "&" itself |
| `XmlText.DecodeIdealIff` | CPPCodeRespository/tinyxml2.cpp:267-365 | from every state of the loop the text comes out as it is meant to, unknown entities untouched, exactly when at each of them the write pointer stands on an "&" of the original text |
| `XmlText.WholeTextIdealIff` | CPPCodeRespository/tinyxml2.cpp:267-365 | the same for whole texts; in particular whenever nothing is shortened: no known entity, no reference, no line end of two bytes |
| `XmlText.UnknownEntityGarbled` | CPPCodeRespository/tinyxml2.cpp:341-345 | an input that fails: the unknown entity behind a decoded one loses its "&" |
| `XmlText.DecodePlain` | CPPCodeRespository/tinyxml2.cpp:267-365 | without flags nothing is rewritten |
| `XmlStrPair.StrPair.GetStr` | CPPCodeRespository/tinyxml2.cpp:267-365 | decoding in place gives the decoded text, ends it with NUL, and touches nothing outside the string; a second call changes nothing |
| `XmlStrPair.StrPair.Round` | CPPCodeRespository/tinyxml2.cpp:279-353 | the write pointer never passes the read pointer, so unread text is intact |
| `XmlStrPair.GetCharacterRef` | CPPCodeRespository/tinyxml2.cpp:456-549 | decimal and hexadecimal references, read backwards with 32-bit words, give the bytes and the end of the reference |
| `XmlStrPair.PrintString` | CPPCodeRespository/tinyxml2.cpp:2564-2616 | copying runs of plain bytes between entities gives the escaped text |
| `XmlLayout.CompactIsPlain` | CPPCodeRespository/tinyxml2.cpp:2631-2736 | the compact form of any tree is its pieces put together, with no white space added |
| `XmlLayout.IndentedIsPretty` | CPPCodeRespository/tinyxml2.cpp:2631-2736 | without text every node inside an element starts a line, indented by four spaces a level, and every end tag stands at the level of its element |
| `XmlLayout.DocumentIsPretty` | CPPCodeRespository/tinyxml2.cpp:2631-2736 | the same for whole documents: a line end between nodes, and one more behind each element |
| `XmlPrinter.Printer.OpenElement` | CPPCodeRespository/tinyxml2.cpp:2631-2649 | seals the tag before, breaks the line unless text has been written or nothing has, indents by four spaces a level, and starts the tag |
| `XmlPrinter.Printer.CloseElement` | CPPCodeRespository/tinyxml2.cpp:2711-2736 | "/>" right behind an opening tag, else an end tag, on an indented line of its own unless text has been written; depth, stack and text depth are taken back |
| `XmlPrinter.Printer.PushText` | CPPCodeRespository/tinyxml2.cpp:2749-2762 | text is escaped or marked as CDATA and appended without separators |
| `XmlPrinter.Printer.PushMarked` | CPPCodeRespository/tinyxml2.cpp:2821-2863 | comments, declarations and unknown stretches are appended, on indented lines of their own unless text has been written |
| `XmlPrinter.Printer.PushAttribute` | CPPCodeRespository/tinyxml2.cpp:2652-2660 | name and escaped value are appended to the open tag |
| `XmlPrinter.Printer.Accept` | CPPCodeRespository/tinyxml2.cpp:2036-2047 | visiting a node appends exactly its text in the layout, which is its pieces, padded as indentation pads them, and restores depth and stack |
| `XmlPrinter.Printer.AcceptAll` | CPPCodeRespository/tinyxml2.cpp:2040-2044 | visiting siblings appends exactly their texts, one after the other |
| `XmlParser.Document.Parse` | CPPCodeRespository/tinyxml2.cpp:2450-2464 | succeeds exactly when the specification does, with its nodes, and the depth is back to 0 |
| `XmlParser.Document.ParseDeep` | CPPCodeRespository/tinyxml2.cpp:1010-1122 | the children up to an end tag or the end of the text; the depth is counted while this runs and restored |
| `XmlParser.Document.ParseElementNode` | CPPCodeRespository/tinyxml2.cpp:1085-1119 | an end tag is handed up; an element must be closed by the end tag of its own name |
| `XmlParser.Document.ParseElement` | CPPCodeRespository/tinyxml2.cpp:1968-1993 | tag, attributes and, unless closed, the children |
| `XmlParser.Document.ParseAttributes` | CPPCodeRespository/tinyxml2.cpp:1885-1942 | attributes up to the end of the tag; a repeated name is an error |
| `XmlParser.Document.Identify` | CPPCodeRespository/tinyxml2.cpp:678-745 | the kind of node and where its content starts |
| `XmlParser.Document.ParseText` | CPPCodeRespository/tinyxml2.cpp:193-215 | where the text ends and where reading goes on, or not found |
| `XmlParser.Document.ParseName` | CPPCodeRespository/tinyxml2.cpp:218-235 | the length of the name at the cursor |
| `SiblingList.OnePlace` | CPPCodeRespository/tinyxml2.cpp:826-957 | no sequence holds a node twice, and no two parents share one |
| `SiblingList.Node.Unlink` | CPPCodeRespository/tinyxml2.cpp:826-848 | the child leaves its parent's sequence, all other sequences stay, and all pointers agree with the sequences |
| `SiblingList.Node.InsertEndChild` | CPPCodeRespository/tinyxml2.cpp:863-890 | the node leaves wherever it was and becomes the last child; refused exactly for another document's node |
| `SiblingList.Node.InsertFirstChild` | CPPCodeRespository/tinyxml2.cpp:893-921 | the node leaves wherever it was and becomes the first child; refused exactly for another document's node |
| `SiblingList.Node.InsertAfterChild` | CPPCodeRespository/tinyxml2.cpp:924-957 | the node leaves wherever it was and follows `afterThis`; a null pointer is followed exactly when it is the last child and already follows `afterThis` |
| `SiblingList.LastBehindFirst` | CPPCodeRespository/tinyxml2.cpp:946-954 | a state that breaks it: of two children, the last is to be moved behind the first, where it already is |
| `SiblingList.Node.Preamble` | CPPCodeRespository/tinyxml2.cpp:1139-1151 | a node that has a parent leaves its sequence, and only that |
| `SiblingList.Node.DeleteChild` | CPPCodeRespository/tinyxml2.cpp:850-860 | the node is unlinked and its parent's sequence is without it |
| `SiblingList.Node.UnlinkPointers` | CPPCodeRespository/tinyxml2.cpp:826-848 | what Unlink does to first, last, previous and next pointers, field by field |

## Left out

Stated weaker than the source, member by member:

- WebSocketConnection.Connection.Deliver: not stated where `Step` is Undefined, that is for a continuation frame with no message under way (the C code then takes payload bytes for the size word) and for frame lengths that wrap around in 64 bits.
- WebSocketConnection.Connection.StoreFirstInPlace: the resize is taken not to move the buffer while `p` and `sizep` point into it, and the size word is little-endian.
- WebSocketSession.AllMessagesDelivered: defragmentation is on and no control frame comes between fragments, for which see `WebSocketSession.ControlFramesIff`; the flag that closes the connection is not modelled, since the test for it reads a byte that may have been moved already. A fragmented message arrives with the flags of its last frame, so its opcode is not reported.
- CoapMessage.Message.AddOption: option values are copied, while the source keeps pointers into the packet.
- CoapMessage.Message.Compose: allocation succeeds.
- MultipartConnection.Connection.ProcessBoundary: stops where the scan goes on into what lies behind the received bytes; `MultipartLimits.StaleLineTakenIff` says what it can find there. The names taken from Content-Disposition headers are not modelled.
- Multipart.WholeBodyTold: for headers of Content-Disposition lines only, since other lines send the scan behind the received bytes; `MultipartLimits.ToldRightIff` shows that nothing less will do.
- MultipartConnection.Connection.ContinueWaitForChunk: a boundary with fewer than four bytes in front of it gives the handler a negative length; the model stops there.
- Chunked.ReceiveHolds: up to and including the arrival that ends the body; sizes that wrap around in 64 bits stop decoding. Messages behind the last chunk are not followed.
- HashContext.Sha1Context.Final: states the words of the digest, for any block compression; the rounds of the compression, the bytes of the digest and wiping the context are not modelled. The same holds for `HashContext.Md5Context.Final`.
- Glob.MatchPrefixN: lengths do not overflow an int, and patterns hold no NUL.
- UriSyntax.ParseRenderIff: a NUL ends a fragment and starts a new path, and a larger port may wrap around to the right one, so both are excluded here; `UriSyntax.ParseUri` follows the code on them.
- UriPath.NormalizeInPlace: output and input in one place only, which is how the repository calls it.
- Signals.Manager.ProcessOne: each locked section is one step; what the signal handlers do is not modelled beyond the flag they clear.
- JsonParser.Reader.ReadValue: the value is returned, while the source assigns it through a stack of node pointers; comments are skipped and not collected.
- JsonParser.Reader.DecodeNumber: reading a double is any function of the text, and its 32-byte buffer is not modelled.
- JsonParser.Reader.RecoverFromError: only that the cursor stays in the text, since an error has been recorded by then.
- JsonGrammar.ParseIff: what number characters mean as a double is any function of the text; errors after the document are not looked for, as in the source.
- JsonRoundTrip.RoundTripIff: values without doubles whose strings hold no NUL. Array sizes whose triple overflows an int are not modelled.
- JsonOrder.Trichotomy: doubles compare as real numbers, so there is no NaN; null `char*` strings are not modelled.
- XmlDocument.PrintParseIff: trees whose names are names, whose text is not blank, stands inside elements and is not next to other text, and whose marked stretches do not hold their own end mark; printing does not check this. A byte order mark is skipped when reading and not printed.
- XmlGrammar.ParseIff: the text up to its first NUL, decoded at once and without collapsing white space.
- XmlReference.ReferenceIff: words have 32 bits; where unsigned long has 64, decimal numerals from 2^32 on can give another code point.
- XmlStrPair.StrPair.GetStr: white space is not collapsed; spans are decoded at once, where the source waits for the first use.
- XmlStrPair.GetCharacterRef: words have 32 bits, as unsigned long has on Windows.
- XmlParser.Document.Parse: error codes and line numbers are not modelled, nor the NULs that reading a name writes behind the cursor.
- XmlPrinter.Printer.PushMarked: one method stands for the three that differ in their marks only.
- SiblingList.Node.DeleteChild: unlinks; destroying the subtree and the list of unlinked nodes are not modelled.
- SiblingList.Node.InsertAfterChild: nothing keeps a node from being moved under its own descendant.

Not modelled at all:

- sockets, the event loop, TLS, DNS, timers, files, CGI, WebDAV, threads and the demo programs: calls into code that is not there;
- allocation failure and memory pools;
- MQTT, SNTP, SSI, base64, hexadecimal and URL escapes, `Json::Path`, `Value::resize`, the stream writer: they would add easier members, or are plumbing;
- printing and scanning of floating point numbers, and parsers built on sscanf: their meaning is in the C library;
- HTTP header parsing and the WebSocket handshake;
- the text of JSON error messages.
