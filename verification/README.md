# Verified model of via-httplib

via-httplib is a C++ library for HTTP/1.1 servers and clients. This project models its core
in Dafny and proves what it is for: that messages survive being encoded, cut into buffers
and parsed again; that the receive loops end, and which limits they keep; that the
bucketed map behaves as a map, also under concurrency; and that a connection neither loses
nor repeats a write.

## The model

**Receiving.** Every parser of the library is a class with member variables that takes one
character at a time and keeps its state between buffers. Each appears twice here. As a
value (`RequestLines`, `FieldLines`, `Headers`, `Chunks`, `ResponseLines`, `Requests`,
`Responses`, with the loops of `Server`
and `Client`), where `Step` is `parse_char`, and
`Parse` and `Receive` take a state and the unread input and return the state, the rest of
the input and one of done, more needed or error. And as a class (`LineParsers`,
`HeaderParsers`, `ChunkParsers`, `RequestReceivers`, `ResponseReceivers`) with the same
variables, loops and early returns as the C++, whose methods are proved to do what the
functions say. The theorems are about the functions and so hold of the classes.

All template and constructor parameters are fields of `Limits`, and every theorem is for
all their values unless it says otherwise. The C++ `bool` of a parser is true for done only;
more and error look the same to its caller, which therefore compares the iterator with the
end of the buffer. So an error on the last byte of a buffer is reported as incomplete, as in
the code, and forgotten by the next call. The application's handlers, on both sides, are any
function from the number of the report and what it shows to what they do to the receiver:
on a server, clear it by sending a response, mark a continue response as sent, or both; on a
client, clear it by sending a request. Characters are ASCII, `long` has 64 bits.

**The map.** `HashMaps` has the sorted buckets, the class over them, and the mathematical map
that they stand for. `ConcurrentMaps` is a transition system in which any number of threads
take one lock, work on one bucket, or release one lock at a time; a log records each
operation when it takes effect. Locks are reader and writer locks, and the results hold
whether or not a waiting writer holds back new readers.

**The connection.** `Connections` has the flags of `comms::connection`, the write that the
socket adaptor has in progress, and runs in which calls of the application and completions
come in any order, for TCP and for SSL.

## What the code does that its documentation does not say

- A request line is never accepted if only one white space character is allowed: the blank
  that ends the URI counts against the limit for the blanks before it (`OneBlankIsNotEnough`).
- If a buffer ends inside a header field and the next one starts with the line end, the block
  of headers ends there and the field is lost (`PendingFieldIsDropped`); if it ends before a
  continuation line, the continuation is refused (`ContinuationLost`). Where CRLF is enforced,
  a chunk whose final CR and LF come in different buffers is refused. For a stream that is
  accepted in one buffer these are the only places in which a cut matters
  (`CutIsHarmlessExactly`, for headers, for chunks and for whole calls), but for responses
  that have no announced length (`OpenEndTakesMore`).
- A stream that is refused in one buffer may be accepted in several. An error in headers or
  chunks on the last byte of a buffer is forgotten: a bad byte is skipped (`BadByteSkipped`),
  and one header more than allowed is let through (`HeaderTooMany`), so the limits on the
  number and length of headers hold only while no buffer ends there
  (`EveryRunKeepsHeaderLimits`). A CR at the end of a buffer is not remembered either
  (`CrTwice`). And a request without a content length is complete at the end of a buffer but
  refused in front of more bytes (`EndsUnannounced` in `RequestAnyCuts`). Away from these
  places and the ones above every stream is read the same (`EveryPartitionUpToRefusal`).
- Erasing a key that is absent removes the next larger key of its bucket, if there is one
  (`EraseIsRemovalExactly`).
- The client's loop does not end when the body of a response without a content length has
  reached the largest size allowed and more bytes are in the buffer (`StreamDivergesExactly`).
- Where chunks are reported one by one, a chunked request that expects a 100 Continue
  response is reported to the continue handler and then by its chunks, and never to the
  request handler (`AskingIsNoRequest`).
- A client whose handler sends its next request when the header of a response in chunks is
  reported loses the rest of that response: its chunks are refused (`SendingEarlyLosesBody`).
- `is_valid` accepts header strings that end the header early or not at all: ones that start
  with a line end, or that do not end in one (`ValidResponseEndsOnceExactly`).
- When a write fails with an error, the flag for a write in progress stays set: no send is
  accepted any more (`FailedWriteIsFinal`), and `disconnect` never shuts the socket down
  (`DisconnectTakesEffectExactly`).

## Model

| member | source | states |
|---|---|---|
| Numbers.TextRoundTrip | include/via/http/character.hpp:148-205 | Decimal and hexadecimal texts are read back as the number written, for every number a `long` holds; larger ones give -1. |
| Numbers.FromTextRejects | include/via/http/character.hpp:148-205 | Exactly which texts give -1: empty, a character that is no digit, or a value above the largest `long`. |
| Numbers.HexFitsSixteenDigits | include/via/http/chunk.hpp:76-112 | Every 64-bit size can be written within the 16 digits that a chunk header admits. |
| Characters.ContainsExactly | include/via/http/headers.hpp:320-327 | A text contains a word if and only if it reads the word from some index on. |
| Characters.ClassesAreListed | include/via/http/request.hpp:84-230 | The members of every character class, letter by letter. |
| WireFormat.DigitsAreListed | include/via/http/character.hpp:148-205 | The digits of numbers and their values, upper and lower case. |
| RequestLines.Parse | include/via/http/request.hpp:306-326 | Progress, and how done, more and error relate to the valid and fail flags. |
| RequestLines.ParseCut | include/via/http/request.hpp:84-326 | A request line may be cut into buffers anywhere. |
| RequestLineGrammar.ParseIsGrammar | include/via/http/request.hpp:84-316 | On every input the automaton succeeds exactly where an independent decoder of the grammar does, with the same method, URI, version and rest. |
| RequestLineGrammar.RoundTrip | include/via/http/request.hpp:426-433 | Parsing what `to_string` wrote gives it back and stops right behind it, whatever follows. |
| RequestLineGrammar.OneBlankIsNotEnough | include/via/http/request.hpp:112-126 | With fewer than two white space characters allowed, no input at all is accepted. |
| LineParsers.RequestLine.ParseChar | include/via/http/request.hpp:84-255 | The method on member variables makes the step of the automaton. |
| LineParsers.RequestLine.Parse | include/via/http/request.hpp:306-326 | The loop over a buffer leaves the line and the iterator where the specification does. |
| LineParsers.RequestLine.ToString | include/via/http/request.hpp:426-433 | Writes the text that `RoundTrip` reads back. |
| FieldLines.ParseCut | include/via/http/headers.hpp:79-195 | A field may be cut anywhere but between its line end and a continuation blank. |
| FieldLines.ContinuationLost | include/via/http/headers.hpp:184-191 | A continuation line that arrives in a buffer of its own is refused. |
| FieldFolding.FoldedField | include/via/http/headers.hpp:79-195 | A folded field reads as its lines joined with single spaces, and is accepted if and only if its leading blanks and its bytes, over all its lines, are within limits. |
| FieldFolding.AcceptedField | include/via/http/headers.hpp:79-195 | The converse: everything accepted is a name, a colon and such lines. |
| HeaderParsers.FieldLine.ParseChar | include/via/http/headers.hpp:79-143 | The method makes the step of the automaton. |
| HeaderParsers.FieldLine.Parse | include/via/http/headers.hpp:177-195 | The loop, with its look at the next character of the buffer, follows the specification. |
| Headers.Parse | include/via/http/headers.hpp:278-311 | Progress, and that a block is done exactly if it is valid. |
| Headers.ParseCut | include/via/http/headers.hpp:278-311 | A block that is not refused whole is read the same when cut at a good place. |
| Headers.CutIsHarmlessExactly | include/via/http/headers.hpp:278-311 | The condition is tight: a cut inside a block is harmless if and only if it is a good one. |
| Headers.PendingFieldIsDropped | include/via/http/headers.hpp:281-287 | With a field in progress, a buffer that starts with a line end completes the block without the field. |
| HeaderFold.BlockParses | include/via/http/headers.hpp:278-328 | A block is accepted if and only if its fields fit the limits, and then its fields are the fold of what was written. |
| HeaderFold.AcceptedBlock | include/via/http/headers.hpp:278-311 | The converse: every accepted block consists of fields that fit and a blank line. |
| HeaderFold.FieldsAreJoinedValues | include/via/http/headers.hpp:316-328 | A name has the values written under it, in order of arrival, joined by `;` if the name reads "cookie" from some letter on and by `,` otherwise. |
| HeaderFold.JoinedByName | include/via/http/headers.hpp:316-328 | `cookie` and `set-cookie` are joined by `;`, `accept` and `via` by `,`. |
| HeaderFold.InterleavingIsIrrelevant | include/via/http/headers.hpp:316-328 | Blocks with the same values for each name have the same fields, however names are interleaved. |
| HeaderFold.FitsInTotal | include/via/http/headers.hpp:288-306 | Lines within their limits and a total within the block's limits are enough for a block to fit. |
| HeaderEncoding.HeadersRoundTrip | include/via/http/header_field.hpp:353-354 | Headers that are written are read back, up to the blank line behind them. |
| HeaderEncoding.ToStringRoundTrip | include/via/http/headers.hpp:416-424 | For every order of enumeration, parsing `to_string` and a blank line gives the same fields. |
| HeaderParsers.MessageHeaders.Add | include/via/http/headers.hpp:316-328 | The update of the map of fields. |
| HeaderParsers.MessageHeaders.Parse | include/via/http/headers.hpp:278-311 | The loop follows the specification, with a field in progress kept between calls. |
| HeaderParsers.MessageHeaders.ToString | include/via/http/headers.hpp:416-424 | The loop writes the text that `ToStringRoundTrip` reads back, for some enumeration of the fields. |
| Framing.IsChunkedExactly | include/via/http/headers.hpp:360-373 | A message is in chunks if and only if its transfer-encoding is not blank and reads "identity", in any case, from no letter on. |
| Framing.ExpectsContinueExactly | include/via/http/headers.hpp:390-400 | A 100 Continue response is expected if and only if expect reads "100-continue", in any case, from some letter on. |
| Framing.ContentLengthExactly | include/via/http/headers.hpp:350-355 | The content length is the value of its decimal digits, 0 without the field and -1 for anything else or for more than a `long` holds. |
| Framing.ChunkedHeaderAnnouncesChunks | include/via/http/headers.hpp:360-373 | A header list whose only transfer-encoding has the value chunked, in any case, announces chunks, and one with identity does not. |
| Chunks.ParseHeader | include/via/http/chunk.hpp:74-246 | Progress, the flags, and that a size in a valid header is within its limit. |
| Chunks.HeaderCut | include/via/http/chunk.hpp:74-246 | A chunk header may be cut anywhere. |
| ChunkHeaderGrammar.ParseIsGrammar | include/via/http/chunk.hpp:74-246 | On every input the automaton succeeds exactly where an independent decoder of the chunk header does, with the same size, extension and rest. |
| ChunkHeaderGrammar.SizeOfExactly | include/via/http/chunk.hpp:114-122 | A size is the value of its digits; no digits, or a value above the largest `long`, is the largest size. |
| MessageExamples.EmptySizeIsRefused | include/via/http/chunk.hpp:114-122 | A chunk header without a size is refused. |
| Chunks.Parse | include/via/http/chunk.hpp:391-445 | Keeps the invariant of a chunk: valid means complete data of a size within limits. |
| ChunkCuts.ParseCut | include/via/http/chunk.hpp:391-445 | A chunk that is not refused whole is read the same when cut at a good place. |
| ChunkCuts.CutIsHarmlessExactly | include/via/http/chunk.hpp:391-445 | A cut inside a chunk is harmless if and only if it is a good one. |
| CutExamples.FieldDropped | include/via/http/headers.hpp:278-311 | A block that has a field when it arrives whole and none when cut before its line end. |
| CutExamples.FoldLost | include/via/http/headers.hpp:184-191 | A block that is accepted whole and refused when cut before a fold. |
| CutExamples.ChunkRefused | include/via/http/chunk.hpp:420-427 | A chunk that is accepted whole and refused when cut before its last LF. |
| CutExamples.BadByteSkipped | include/via/http/headers.hpp:177-182 | A block that is refused whole and accepted when cut behind its bad byte. |
| CutExamples.HeaderTooMany | include/via/http/headers.hpp:287-293 | A block with a header too many that is refused whole and accepted when cut behind it. |
| CutExamples.CrTwice | include/via/http/chunk.hpp:420-441 | A chunk that is refused whole and accepted when cut between two CRs. |
| AnyCuts.HeadersInTwo | include/via/http/headers.hpp:278-311 | On every input, accepted or not, a block is read the same when cut at a harmless place. |
| AnyCuts.DataInTwo | include/via/http/chunk.hpp:403-441 | On every input, cutting the data of a chunk or its line end changes nothing if and only if no CR is forgotten or its LF refused. |
| AnyCuts.ChunkInTwo | include/via/http/chunk.hpp:391-445 | On every input, a chunk is read the same when cut at a harmless place. |
| ChunkRoundTrip.HeaderRoundTrip | include/via/http/chunk.hpp:303-311 | A chunk header that is written is read back. |
| ChunkRoundTrip.ChunkIsReadBack | include/via/http/chunk.hpp:391-445 | Size, extension and data of every chunk sent are recovered, whatever follows. |
| ChunkRoundTrip.LastChunkIsReadBack | include/via/http/chunk.hpp:492-503 | A last chunk is recovered with its extension and trailers. |
| ChunkParsers.ChunkHeader.ParseChar | include/via/http/chunk.hpp:74-192 | The method makes the step of the automaton. |
| ChunkParsers.ChunkHeader.Parse | include/via/http/chunk.hpp:235-246 | The loop follows the specification. |
| ChunkParsers.RxChunk.Parse | include/via/http/chunk.hpp:391-445 | Header, data, line end or trailers, as specified, with the object kept valid. |
| Requests.ParseRequest | include/via/http/request.hpp:513-526 | Request line and headers in turn: progress, and done exactly if valid. |
| Requests.ReceiveMakesProgress | include/via/http/request.hpp:839-1019 | On every input, a call from a state of the server loop reads a byte or refuses the request, and what it leaves behind satisfies the invariant. |
| Requests.EveryRunKeepsLimits | include/via/http/request.hpp:780-1019 | After any sequence of receive, clear and settings: no body before a valid request, bodies and chunks within their limits and announced lengths, a valid chunk has all its data. The limits on headers are the next row's. |
| HeaderLimits.EveryRunKeepsHeaderLimits | include/via/http/headers.hpp:278-311 | Headers and trailers are within the limits on their number and length after any run in which no buffer ends right behind what is refused. |
| HeaderLimits.CallKeepsHeaderLimits | include/via/http/request.hpp:839-1019 | The same for one call, from any state within the limits. |
| RequestCuts.RequestCut | include/via/http/request.hpp:513-526 | A request header may be cut at any good place. |
| RequestCuts.ReceiveCut | include/via/http/request.hpp:839-1019 | A call on a part of a buffer that is not refused whole gives the same report, or takes everything in and the next call goes on from there. |
| RequestAnyCuts.ReceiveInTwo | include/via/http/request.hpp:839-1019 | The same on every input: a call on the first part gives the same report, refusals included, or the next call goes on from there, unless the cut is at a place that matters. |
| ExactCuts.CutIsHarmlessExactly | include/via/http/request.hpp:839-1019 | For whole calls: when what the cut lies in is complete without it and not refused, the cut is harmless if and only if it is a good one. |
| ExactCuts.RequestRefused | include/via/http/request.hpp:839-1019 | A request that is accepted whole and refused when cut in front of the line end of its field. |
| RequestReceivers.RxRequest.Parse | include/via/http/request.hpp:513-526 | The method follows the specification. |
| RequestReceivers.RequestReceiver.Receive | include/via/http/request.hpp:839-1019 | The method with all its early returns follows the specification and keeps the receiver valid. |
| RequestReceivers.RequestReceiver.Clear | include/via/http/request.hpp:794-802 | Resets all but the response code and the settings, and makes a refused receiver valid again. |
| RequestVerdicts.MissingHostIsRefused | include/via/http/request.hpp:872-878 | An HTTP/1.1 request whose host is absent or blank is refused behind its header, with BAD_REQUEST. |
| RequestVerdicts.ServerRefusesMissingHost | include/via/http_server.hpp:306-371 | The loop reports it once, as a refusal, and reads nothing behind it. |
| RequestVerdicts.SizedVerdict | include/via/http/request.hpp:880-955 | At the call that completes the header of any other request without chunks: in which cases it is refused and with which response code, and otherwise the whole state with the body, the verb and the HEAD flag. |
| RequestVerdicts.ChunkedVerdict | include/via/http/request.hpp:957-979 | For a request in chunks: whether it asks for a 100 Continue response, is reported or goes on. |
| RequestVerdicts.ChunkVerdict | include/via/http/request.hpp:981-1015 | For a chunk: refused and with which code, added to the body, or reported. |
| RequestVerdicts.HandledExactly | include/via/http_server.hpp:310-368 | What the loop leaves of the receiver behind each report, for every reaction of the handler. |
| RefusalCodes.RefusedWithCode | include/via/http/request.hpp:852-865 | A request line that is refused gets NOT_IMPLEMENTED or REQUEST_URI_TOO_LONG exactly if it starts with a method or a URI that is too long, and BAD_REQUEST otherwise. |
| RefusalCodes.TooLongIsRefused | include/via/http/request.hpp:852-865 | And one that starts so is refused at once. |
| BodyConservation.BodyIsTheNextBytes | include/via/http/request.hpp:880-955 | Over any number of calls, a request is reported as soon as its announced bytes have arrived and not before, with exactly these in its body and every later byte unread. |
| BodyConservation.HeaderThenBody | include/via/http/request.hpp:842-880 | The bytes counted start behind the blank line, also if they come with the header. |
| BodyConservation.BodyFollowsHeader | include/via/http/request.hpp:839-955 | From the first byte on, over any buffers: a request is reported as soon as its header and announced bytes have arrived and not before. |
| BodyConservation.EveryByteIsAccountedFor | include/via/http/request.hpp:839-955 | Whenever a request without chunks is reported, the bytes that arrived are its header, its body and the unread rest, in this order, and the body has the announced length. |
| ChunkModes.OneCall | include/via/http/request.hpp:957-1015 | What one call does in the two modes. |
| ChunkModes.ModesAgree | include/via/http/request.hpp:957-1015 | Over any buffers, concatenation delivers a request exactly if its chunks arrive completely with no more data than allowed; its body is then their data and both modes end at the same byte. |
| ChunkModes.HeaderInBothModes | include/via/http/request.hpp:842-878 | The same from the first byte of a request on. |
| Server.ReportsAreBounded | include/via/http_server.hpp:306-371 | The loop makes no more reports than there are bytes, on every input and with every handler. |
| Server.FirstCall | include/via/http_server.hpp:306-371 | Every round advances the iterator or ends the loop. |
| Server.RunCut | include/via/http_server.hpp:306-371 | The loop over a buffer is the loop over its parts, cut at a good place. |
| RequestReceivers.HandleReport | include/via/http_server.hpp:310-368 | The switch on what was reported, with the handler's effect on the receiver. |
| RequestReceivers.ReceiveHandler | include/via/http_server.hpp:270-371 | The loop ends for every buffer and handler and makes exactly the specified reports. |
| BufferIndependence.EveryPartitionReportsTheSame | include/via/http_server.hpp:270-371 | A stream accepted in one buffer gives the same reports, and the same receiver in each, for every partition into buffers without a bad cut. |
| AnyPartition.RunInTwo | include/via/http_server.hpp:306-371 | On every input, the loop over two buffers is the loop over the whole, which ends with a refusal in the first. |
| AnyPartition.EveryPartitionUpToRefusal | include/via/http_server.hpp:270-371 | Every stream, accepted or not, gives the same reports up to its first refusal for every partition whose cuts are harmless. |
| MessageEncoding.AddedContentLength | include/via/http/request.hpp:666-682 | The content length that `message` adds is the one the receiver reads. |
| MessageEncoding.OtherFieldsAreKept | include/via/http/request.hpp:666-682 | Adding it changes no other field. |
| WireFormat.RequestIsWritten | include/via/http/request.hpp:666-682 | The text of a request header, letter by letter: a content length is added exactly if the headers name neither it nor an encoding. |
| WireFormat.ResponseIsWritten | include/via/http/response.hpp:679-696 | The same for a response, but for a status below 200, 204 and 304. |
| WireFormat.ChunksAreWritten | include/via/http/chunk.hpp:303-311 | The text of a chunk and of the last chunk, letter by letter. |
| RequestRoundTrip.HeaderIsReadBack | include/via/http/request.hpp:666-682 | Request line and fields are recovered from `message`. |
| RequestRoundTrip.PipelinedRoundTrip | include/via/http_server.hpp:306-371 | Any list of well-formed requests, sent one behind the other, is reported in order and every byte is read: in one report each with the extension and trailers of the last chunk, where chunks are concatenated, and otherwise with one report for each chunk, its extension and the trailers. |
| RequestRoundTrip.RoundTripInBuffers | include/via/http_server.hpp:270-371 | The same, in both modes, in any buffers without a bad cut. |
| RequestRoundTrip.AskingIsNoRequest | include/via/http/request.hpp:962-977 | Where chunks are reported, a request that asks for a 100 Continue response is never reported as a request. |
| MessageExamples.PostIsReported | include/via/http_server.hpp:306-371 | A request in chunks, byte by byte, and what is reported of it. |
| MessageExamples.NoHostIsRefused | include/via/http/request.hpp:561-566 | A request without a host, byte by byte. |
| ResponseLines.ParseCut | include/via/http/response.hpp:86-342 | A response line may be cut anywhere. |
| ResponseLines.StatusStaysBounded | include/via/http/response.hpp:172-188 | The running status never exceeds ten times its limit plus nine. |
| ResponseLineGrammar.ParseIsGrammar | include/via/http/response.hpp:86-273 | On every input the automaton succeeds exactly where an independent decoder of the status line does, with the same status, reason, version and rest. |
| ResponseLineRoundTrip.RoundTrip | include/via/http/response.hpp:459-466 | Parsing what `to_string` wrote gives it back. |
| LineParsers.ResponseLine.ParseChar | include/via/http/response.hpp:86-273 | The method makes the step of the automaton. |
| LineParsers.ResponseLine.Parse | include/via/http/response.hpp:329-342 | The loop follows the specification. |
| Responses.ReceiveMakesProgress | include/via/http/response.hpp:814-904 | A call reads a byte or refuses the response in every state but exactly one kind, in which it never will. |
| Responses.ReceiveKeepsInvariant | include/via/http/response.hpp:814-904 | Every call on every buffer keeps the invariant of the receiver. |
| ResponseVerdicts.HeaderVerdict | include/via/http/response.hpp:836-873 | At the call that completes a header: chunks announced, a length refused, or the body filled up to its length or as far as it may grow. |
| ResponseVerdicts.ChunkVerdict | include/via/http/response.hpp:876-903 | For a chunk: refused, reported or not complete. |
| ResponseVerdicts.HandledExactly | include/via/http_client.hpp:235-259 | What the loop leaves of the receiver behind each report, for every handler. |
| ResponseReceivers.ResponseReceiver.Receive | include/via/http/response.hpp:814-904 | The method follows the specification and keeps the receiver valid, from any valid state. |
| Client.DivergesOnlyWhenStuck | include/via/http_client.hpp:231-261 | With any handler, a loop that does not end has come to that state, and from there no buffer lets it end. |
| ClientTermination.OpenBodyDivergesExactly | include/via/http/response.hpp:846-873 | Within a body of no announced length the loop does not end if and only if the buffer holds more than the body may still grow by. |
| ClientTermination.StreamDivergesExactly | include/via/http_client.hpp:231-261 | From a new client: over well-formed responses and a last one that announces no length, the loop does not end if and only if more of its body is in the buffer than may be received; all others are reported. |
| ClientTermination.TwoBytesTooMany | include/via/http_client.hpp:231-261 | A buffer on which it does not end. |
| ResponseReceivers.ReceiveHandler | include/via/http_client.hpp:231-261 | With any handler the loop makes exactly the specified reports on every buffer, and stops with a flag where it would repeat a round forever. |
| ResponseReceivers.HandleReport | include/via/http_client.hpp:235-259 | The switch on what was reported, with the handler's effect on the receiver. |
| ResponseRoundTrip.HeaderIsReadBack | include/via/http/response.hpp:679-696 | Status line and fields are recovered from `message`. |
| ResponseRoundTrip.StreamRoundTrip | include/via/http_client.hpp:231-261 | Any list of responses with a content length or chunks is reported in order: status, reason, fields, and body or chunks; for any handler if none is in chunks, and otherwise for those that send nothing in the middle of such a response. |
| MessageExamples.OkIsReported | include/via/http_client.hpp:231-261 | A response in chunks, byte by byte, and what is reported of it. |
| ResponseRoundTrip.SendingEarlyLosesBody | include/via/http_client.hpp:193-198 | For every response in chunks: a handler that sends when its header is reported has the rest refused. |
| ResponseCuts.ReceiveCut | include/via/http/response.hpp:814-904 | As for requests: a call on a part of a buffer gives the same report, or takes everything in and the next call goes on; also for bodies without an announced length. |
| ResponseCuts.OpenEndTakesMore | include/via/http/response.hpp:836-868 | The one further bad cut is tight: a response without an announced length that was reported at the end of its buffer would have had a body, had there been another byte. |
| ClientBuffers.RunCut | include/via/http_client.hpp:231-261 | With any handler, the client loop over a buffer is the loop over its parts, cut at a good place, whether or not it ends. |
| ClientBuffers.EveryPartitionReportsTheSame | include/via/http_client.hpp:212-262 | With any handler, a stream of responses accepted in one buffer gives the same reports for every partition into buffers without a bad cut. |
| ClientBuffers.RoundTripInBuffers | include/via/http_client.hpp:212-262 | Any list of well-formed responses is recovered in order from such buffers, with the handlers of `StreamRoundTrip`. |
| SplitDetection.AreHeadersSplit | include/via/http/headers.hpp:429-453 | True if and only if the text contains LF LF or LF CR LF. |
| SplitDetection.ValidResponseEndsOnceExactly | include/via/http/response.hpp:672-696 | A response accepted by `is_valid` has an empty line at its very end and nowhere else if and only if its header string does not start with a line end and, unless a content length is added behind it, ends in one. |
| HashMaps.AddUpdates | include/via/thread/threadsafe_hash_map.hpp:126-136 | Adding a pair to a sorted bucket keeps it sorted and updates the map, for every key. |
| HashMaps.RemoveRemovesPosition | include/via/thread/threadsafe_hash_map.hpp:140-147 | Removing a key removes the first pair that is not below it. |
| HashMaps.KeyIsInItsBucket | include/via/thread/threadsafe_hash_map.hpp:168-196 | A key is in the map exactly if it is in the bucket it hashes to. |
| HashMaps.InsertUpdates | include/via/thread/threadsafe_hash_map.hpp:201-205 | Insert updates the map and keeps every key where it hashes to. |
| HashMaps.EraseRemovesPosition | include/via/thread/threadsafe_hash_map.hpp:216-220 | What erase does for any key. |
| HashMaps.EraseIsRemovalExactly | include/via/thread/threadsafe_hash_map.hpp:140-147 | It is removal from the map if and only if the key is present or its bucket holds no larger key. |
| HashMaps.ErasingLosesAnotherKey | include/via/thread/threadsafe_hash_map.hpp:140-147 | A map from which erasing 3 removes 5. |
| HashMaps.DataListsContents | include/via/thread/threadsafe_hash_map.hpp:255-275 | The pairs of all buckets list the map, each mapping once. |
| HashMaps.EmptyIsEmpty | include/via/thread/threadsafe_hash_map.hpp:234-250 | All buckets are empty if and only if the map is. |
| HashMaps.ThreadsafeHashMap.Find | include/via/thread/threadsafe_hash_map.hpp:191-196 | Looks a key up in the map, or gives the default. |
| HashMaps.ThreadsafeHashMap.Insert | include/via/thread/threadsafe_hash_map.hpp:201-205 | Updates the map in place. |
| HashMaps.ThreadsafeHashMap.Erase | include/via/thread/threadsafe_hash_map.hpp:216-220 | Removes the pair at the key's position, and when that is removal. |
| HashMaps.ThreadsafeHashMap.Empty | include/via/thread/threadsafe_hash_map.hpp:234-250 | Answers for the map. |
| HashMaps.ThreadsafeHashMap.Data | include/via/thread/threadsafe_hash_map.hpp:255-275 | Lists the map, each mapping once. |
| HashMaps.ThreadsafeHashMap.Clear | include/via/thread/threadsafe_hash_map.hpp:279-289 | Leaves the empty map. |
| ConcurrentSafety.ExclusionKept | include/via/thread/threadsafe_hash_map.hpp:110-147 | No two threads ever hold a bucket in conflicting modes. |
| ConcurrentSafety.LockIsFreeExactly | include/via/thread/threadsafe_hash_map.hpp:110-147 | A lock can be taken exactly if nobody else holds it, or only find, empty and data hold it and one of these asks for it. |
| ConcurrentSafety.WorkOnKeyTakesEffect | include/via/thread/threadsafe_hash_map.hpp:110-147 | Find, insert and erase, under the lock of one bucket, act on the whole map and return what it has. |
| ConcurrentSafety.EraseOfPresentKey | include/via/thread/threadsafe_hash_map.hpp:140-147 | A logged erase of a key that is present removes that key and no other. |
| ConcurrentSafety.EffectIsLoggedOnce | include/via/thread/threadsafe_hash_map.hpp:191-289 | Every operation takes effect exactly once between its start and its return. |
| ConcurrentSafety.StepKeepsInvariant | include/via/thread/threadsafe_hash_map.hpp:110-289 | Every step keeps exclusion, order, a log that is a sequential history ending in the current map, and results that agree with it. |
| ConcurrentRuns.EveryRunKeepsInvariant | include/via/thread/threadsafe_hash_map.hpp:110-289 | So does every interleaving of any number of threads; with the next row, the map is linearizable. |
| ConcurrentRuns.OperationHasOneEntry | include/via/thread/threadsafe_hash_map.hpp:110-289 | Over any run, from its start to its return, an operation has exactly one entry in the history, with its effect there, and returns its result on the map before that entry. |
| ConcurrentRuns.WholeMapReadsAreSnapshots | include/via/thread/threadsafe_hash_map.hpp:234-275 | Whatever other threads do, `data` lists, and `empty` answers for, the map at the instant the last lock was taken. |
| ConcurrentRuns.OthersWaitForClear | include/via/thread/threadsafe_hash_map.hpp:279-289 | While a thread clears, no step of another takes effect or changes a bucket. |
| ConcurrentRuns.ClearIsAtomic | include/via/thread/threadsafe_hash_map.hpp:279-289 | From its last lock until the last bucket is empty, whatever other threads do, the log grows by the clear alone and the buckets are those of that instant but for the ones emptied; at the end all are empty. |
| ConcurrentRuns.NoDeadlock | include/via/thread/threadsafe_hash_map.hpp:234-289 | In every reachable state with an unfinished operation, one can go on. |
| ConcurrentRuns.OperationsEnd | include/via/thread/threadsafe_hash_map.hpp:110-289 | Once nothing new is started, the moves left are bounded, and at their end every operation has returned. |
| Connections.ActKeepsInvariant | include/via/comms/connection.hpp:100-249 | Every call and completion conserves the writes. |
| Connections.WritesAreConserved | include/via/comms/connection.hpp:100-249 | Over every run: sends accepted are SENT events and the one in progress; at most one write is outstanding, on the current buffers; messages are written in order. |
| Connections.NothingAfterDisconnect | include/via/comms/connection.hpp:490-549 | After `disconnect` during a write no send is accepted and no SENT raised, in any continuation. |
| Connections.AtMostOneAfterShutdown | include/via/comms/connection.hpp:216-249 | After a shutdown no SENT is raised and at most one more send accepted. |
| Connections.DisconnectWaitsForWrite | include/via/comms/connection.hpp:490-512 | After `disconnect` during a write, the socket is shut down once everything accepted is written and not before. |
| Connections.DisconnectTakesEffectExactly | include/via/comms/connection.hpp:490-512 | `disconnect` can still shut the socket down if and only if no write has failed. |
| Connections.FailedWriteIsFinal | include/via/comms/connection.hpp:216-249 | After a failed write the connection never accepts a send and never raises SENT again. |
| Connections.FailedWriteBlocksDisconnect | include/via/comms/connection.hpp:216-249 | A run that comes to a state in which it cannot. |
| ConnectionEvents.ActRaisesExactly | include/via/comms/connection.hpp:161-249 | For every state and every call or completion: the events raised, the flags and the messages behind it, and whether a shutdown is asked for. |
| ConnectionEvents.DisconnectsAreCounted | include/via/comms/connection.hpp:161-249 | Over every run DISCONNECTED is raised once for each shutdown called back and not aborted and once for each read or write that tells that the peer has gone. |
| ConnectionEvents.PeerCloses | include/via/comms/connection.hpp:139-178 | A TCP connection that its peer closes raises DISCONNECTED. |
| Connections.Connection.SendData | include/via/comms/connection.hpp:540-549 | Accepts a message exactly if connected and idle, and otherwise leaves the write in progress alone. |
| Connections.Connection.Disconnect | include/via/comms/connection.hpp:490-497 | Shuts down at once, or defers it. |
| Connections.Connection.Shutdown | include/via/comms/connection.hpp:501-512 | Sets the flag first, so that the adaptor may call back at once. |
| Connections.Connection.WriteCallback | include/via/comms/connection.hpp:216-240 | The order in which the flags and the error are looked at. |
| Connections.Connection.SignalErrorOrDisconnect | include/via/comms/connection.hpp:161-178 | Which event an error raises, and when it is answered with a shutdown. |

## Left out

- Sockets, acceptors, resolvers, timers, TLS and UDP: the adaptors are represented by the completions they deliver.
- Ownership through shared and weak pointers, and the connected and disconnected events of server and client.
- The request router, and `split`.
- Authentication and base64.
- The tables of header names, methods and reason phrases, the date header, `swap`, accessors: easy members.
- The body of the reply to a TRACE request, and the text of other responses that handlers send: only what sending does to the receiver is modelled (`React` in `Server`). A handler is a function of the number and kind of the report and of the receiver; it has no other memory.
- Limits above the largest `long`: the code casts `max_content_length_`, `max_body_size_` and the size of a chunk to a signed type, where they become negative, so that `request_receiver` refuses every body and the data that a chunk lacks is a negative number; here they are natural numbers and are not cast.
- Locales, and a `long` of 32 bits.
- Buffers are sequences of characters with an index for the iterator, and the buckets' vectors are values in an array; reuse of memory and aliasing of the caller's buffers are not modelled. `std::lower_bound` is the first position that is not below the key.
- Keys of the map are integers with any hash function; locks are released in any order.
- ClientBuffers.EveryPartitionReportsTheSame: for streams that are accepted in one buffer; for any stream, cuts are treated on the server's side only.
- ResponseReceivers.ResponseReceiver.Receive: not for a call without data in the middle of a body of no announced length, where the code would move the iterator back; the client loop never makes that call.
- RequestRoundTrip.PipelinedRoundTrip: for TRACE requests without a body, since others are refused, and for handlers that send their final response to a chunked request at its end: earlier, the code forgets the request in its middle; later, where chunks are concatenated, it does not forget it.
- ResponseRoundTrip.StreamRoundTrip: for responses with an announced length or chunks; where any other response ends depends on its buffers.
