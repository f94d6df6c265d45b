/** Writing requests (tx_request) and reading them back through the server loop. */
module RequestRoundTrip {
  import opened Characters
  import opened Parsing
  import opened Requests
  import opened Server
  import opened HeaderEncoding
  import opened ChunkRoundTrip
  import opened MessageEncoding
  import opened BufferIndependence
  import RL = RequestLines
  import Grammar = RequestLineGrammar
  import Headers
  import Chunks
  import opened Framing

  /** A request as an application sends it. */
  datatype Message = Message(line: Grammar.Parts, headers: seq<HeaderLine>, body: Body)

  /** The headers that are sent, with the content length that message may add. */
  function Sent(m: Message): seq<HeaderLine> {
    if AddsContentLength(HeadersText(m.headers)) then m.headers + [ContentLengthHeader(BodyLength(m.body))] else m.headers
  }

  /** tx_request::message, for any header string */
  function MessageText(line: Grammar.Parts, headers: string, contentLength: nat): string {
    Grammar.Encode(line) + headers
    + (if AddsContentLength(headers) then ToHeader(ContentLengthHeader(contentLength)) else "")
    + CRLF
  }

  /** All that is sent for a request. */
  function Encode(m: Message): string {
    MessageText(m.line, HeadersText(m.headers), BodyLength(m.body)) + BodyText(m.body)
  }

  function Stream(ms: seq<Message>): string {
    if ms == [] then "" else Encode(ms[0]) + Stream(ms[1..])
  }

  /** The fields that a receiver reads. */
  function FieldsOf(m: Message): Headers.Fields { FoldOf(Sent(m)) }

  /** Whether the header asks for a 100 Continue response before the body. */
  ghost predicate Expects(m: Message) {
    && m.body.Chunked? && AsksToContinue(FieldsOf(m))
    && !(m.line.major == '0' || (m.line.major == '1' && m.line.minor == '0'))
  }

  /** What a receiver accepts, with limits `l` and concatenating chunks or not. */
  ghost predicate WellFormed(l: Limits, concatenate: bool, m: Message) {
    && l.maxWs >= 2
    && Grammar.WellFormed(l, m.line)
    && (m.line.verb == "TRACE" ==> m.body == Sized(""))
    && HeadersFit(l, Sent(m))
    && (m.line.major == '1' && m.line.minor == '1' ==> ValueOf(FieldsOf(m), "host") != "")
    && BodyFits(l, FieldsOf(m), m.body)
    && (m.body.Sized? || concatenate ==> |BodyData(m.body)| <= l.maxContent)
  }

  /** What a handler can see of a request: its header, or all of it with its last chunk. */
  datatype View =
    | Asking(line: Grammar.Parts, fields: Headers.Fields)
    | Request(line: Grammar.Parts, fields: Headers.Fields, body: string, extension: string, trailers: Headers.Fields)

  function PartsOf(line: RL.Line): Grammar.Parts {
    Grammar.Parts(line.verb, line.uri, line.major, line.minor)
  }

  function RequestOf(s: Receiver): View {
    View.Request(PartsOf(s.request.line), s.request.headers.fields, s.body,
                 s.chunk.header.extension, s.chunk.trailers.fields)
  }

  /** What an event shows; a refusal, which shows nothing, does not occur below. */
  function Seen(e: Event): Report<View> {
    match e.rx
    case ExpectContinue => Head(Asking(PartsOf(e.seen.request.line), e.seen.request.headers.fields))
    case ChunkReceived => ChunkOf(e.seen.chunk)
    case _ => Head(RequestOf(e.seen))
  }

  function AllSeen(es: seq<Event>): (rs: seq<Report<View>>)
    ensures |rs| == |es|
  {
    if es == [] then [] else [Seen(es[0])] + AllSeen(es[1..])
  }

  /** The reports of chunks: one of the whole request with `body`, or one for each chunk. */
  function BodyReports(line: Grammar.Parts, fields: Headers.Fields, concatenate: bool, body: string, b: Body)
      : seq<Report<View>>
    requires b.Chunked?
  {
    if concatenate then [Head(View.Request(line, fields, body, b.extension, FoldOf(b.trailers)))] else ChunkReports(b)
  }

  /** The reports of the header of a request in chunks, unless it is reported with its body. */
  ghost function HeaderReports(concatenate: bool, m: Message): seq<Report<View>> {
    if Expects(m) then [Head(Asking(m.line, FieldsOf(m)))]
    else if concatenate then []
    else [Head(View.Request(m.line, FieldsOf(m), "", "", map[]))]
  }

  /** The reports that a request should give: HEAD without chunks may become GET. */
  ghost function Expected(m: Message, concatenate: bool, translateHead: bool): seq<Report<View>> {
    if m.body.Sized? then
      var line := if translateHead && m.line.verb == "HEAD" then m.line.(verb := "GET") else m.line;
      [Head(View.Request(line, FieldsOf(m), m.body.data, "", map[]))]
    else HeaderReports(concatenate, m) + BodyReports(m.line, FieldsOf(m), concatenate, BodyData(m.body), m.body)
  }

  ghost function AllExpected(ms: seq<Message>, concatenate: bool, translateHead: bool): seq<Report<View>> {
    if ms == [] then []
    else Expected(ms[0], concatenate, translateHead) + AllExpected(ms[1..], concatenate, translateHead)
  }

  /** A receiver that is not in the middle of a request. */
  predicate Idle(s: Receiver) { s == Clear(s) }

  /**
    A handler that sends its final response to a request in chunks when it is complete:
    not earlier, and where chunks are concatenated not later.
   */
  ghost predicate AnswersAtEnd(h: Handler) {
    forall k, rx, s: Receiver :: s.request.IsChunked() ==>
      if s.concatenate && rx == Rx.Valid then h(k, rx, s).clears
      else (rx == ChunkReceived && s.chunk.IsLast()) || !h(k, rx, s).clears
  }

  // ---------------------------------------------------------------------------------
  // One request
  // ---------------------------------------------------------------------------------

  lemma HeaderText(m: Message)
    ensures MessageText(m.line, HeadersText(m.headers), BodyLength(m.body)) == Grammar.Encode(m.line) + (HeadersText(Sent(m)) + CRLF)
  {
    if AddsContentLength(HeadersText(m.headers)) {
      HeadersTextAppend(m.headers, ContentLengthHeader(BodyLength(m.body)));
    }
  }

  /** The request header is read back. */
  lemma HeaderIsReadBack(l: Limits, concatenate: bool, m: Message, more: string)
    requires WellFormed(l, concatenate, m)
    ensures var p := ParseRequest(l, FRESH_REQUEST, MessageText(m.line, HeadersText(m.headers), BodyLength(m.body)) + more);
            && p.out.Done? && p.rest == more
            && PartsOf(p.s.line) == m.line && p.s.headers.fields == FieldsOf(m)
  {
    hide RL.Parse, Headers.Parse, Grammar.Encode, HeadersText, FoldOf, AddsContentLength, BodyFits, Grammar.WellFormed;
    HeaderText(m);
    var tail := HeadersText(Sent(m)) + (CRLF + more);
    assert MessageText(m.line, HeadersText(m.headers), BodyLength(m.body)) + more == Grammar.Encode(m.line) + tail;
    Grammar.RoundTrip(l, m.line, tail);
    HeadersRoundTrip(l, Sent(m), more);
  }

  /** The receiver behind the header of a request. */
  lemma ReadHeader(l: Limits, s: Receiver, m: Message, more: string) returns (s': Receiver)
    requires WellFormed(l, s.concatenate, m) && Idle(s)
    ensures s' == s.(request := s'.request) && Invariant(l, s') && s'.request.valid
    ensures PartsOf(s'.request.line) == m.line && s'.request.headers.fields == FieldsOf(m)
    ensures !s'.request.MissingHost() && (s'.request.IsTrace() ==> m.body == Sized(""))
    ensures var header := MessageText(m.line, HeadersText(m.headers), BodyLength(m.body));
            ParseRequest(l, s.request, header + more) == Parsed(s'.request, more, Done)
  {
    hide ParseRequest, MessageText, FieldsOf, HeadersFit, BodyFits, Grammar.WellFormed;
    HeaderIsReadBack(l, s.concatenate, m, more);
    var header := MessageText(m.line, HeadersText(m.headers), BodyLength(m.body));
    s' := s.(request := ParseRequest(l, FRESH_REQUEST, header + more).s);
  }

  lemma SizedCall(l: Limits, s: Receiver, m: Message, more: string)
    requires WellFormed(l, s.concatenate, m) && Idle(s) && m.body.Sized?
    ensures Invariant(l, s)
    ensures var r := Receive(l, s, Encode(m) + more);
            && r.rx.Valid? && r.rest == more && !r.s.request.IsChunked()
            && [Head(RequestOf(r.s))] == Expected(m, s.concatenate, s.translateHead)
            && Clear(r.s) == s.(code := r.s.code)
  {
    hide ParseRequest, ReceiveSized, MessageText, FieldsOf, HeadersFit, Headers.IsChunked, Headers.ContentLength,
      Grammar.WellFormed, Complete, BodyFits;
    BodyIsFound(l, FieldsOf(m), m.body);
    var header := MessageText(m.line, HeadersText(m.headers), BodyLength(m.body));
    var data := m.body.data;
    assert Encode(m) + more == header + (data + more);
    var s' := ReadHeader(l, s, m, data + more);
    ClearKeepsInvariant(l, s);
    assert Receive(l, s, Encode(m) + more) == ReceiveSized(l, s', data + more);
    WholeBody(l, s', data, more);
    CompletedReport(s', m, data);
  }

  /** A body of the announced length, within limits, is received as a whole. */
  lemma WholeBody(l: Limits, s: Receiver, data: string, more: string)
    requires s.body == [] && s.request.ContentLength() == |data| <= l.maxContent
    requires s.request.IsTrace() ==> data == ""
    requires Headers.Find(s.request.headers.fields, Headers.LC_CONTENT_LENGTH) != []
    requires |s.body| <= BodyLimit(l, s.request)
    ensures var s' := if s.request.IsTrace() then s.(code := MethodNotAllowed) else s;
            ReceiveSized(l, s, data + more) == Received(Complete(s'.(body := data)), more, Rx.Valid)
  {
    hide Headers.ContentLength, Headers.Find, Complete, ReadBody;
    ReadWhole(s, data, more);
    ReadWhole(s.(code := MethodNotAllowed), data, more);
  }

  /** What is seen of a complete request without chunks. */
  lemma CompletedReport(s: Receiver, m: Message, data: string)
    requires m.body == Sized(data) && s.chunk == Chunks.FRESH
    requires PartsOf(s.request.line) == m.line && s.request.headers.fields == FieldsOf(m)
    ensures forall code :: [Head(RequestOf(Complete(s.(code := code, body := data))))] ==
                           Expected(m, s.concatenate, s.translateHead)
    ensures forall code :: var r := Complete(s.(code := code, body := data));
                           && r.request.headers == s.request.headers && Clear(r) == Clear(s).(code := code)
  {
    hide FieldsOf;
  }

  /** A body that has arrived completely. */
  lemma ReadWhole(s: Receiver, data: string, more: string)
    requires s.body == []
    ensures ReadBody(s, |data|, data + more) == Received(Complete(s.(body := data)), more, Rx.Valid)
  {
    hide Complete;
    assert (data + more)[..|data|] == data && (data + more)[|data|..] == more;
    assert s.body + data == data;
    if more == [] {
      assert data + more == data;
      assert (data + more)[..|data + more|] == data;
    }
  }

  // ---------------------------------------------------------------------------------
  // Chunks
  // ---------------------------------------------------------------------------------

  /** A receiver between the chunks of a request. */
  predicate BetweenChunks(l: Limits, s: Receiver) {
    && Pending(l, s) && s.request.valid && s.request.IsChunked() && !s.request.IsTrace()
    && (s.chunk == Chunks.FRESH || s.chunk.valid)
  }

  lemma NextChunk(l: Limits, s: Receiver, inp: string)
    requires BetweenChunks(l, s)
    ensures Chunks.Invariant(l, Chunks.FRESH)
    ensures Receive(l, s, inp) == ReceiveChunk(l, s.(chunk := Chunks.FRESH), inp)
  {
    hide Headers.IsChunked;
  }

  /** A chunk is added to the body or reported. */
  lemma PieceCall(l: Limits, s: Receiver, p: Piece, more: string)
    requires BetweenChunks(l, s) && p.data != [] && HeaderFits(l, |p.data|, p.extension)
    requires s.concatenate ==> |s.body| + |p.data| <= l.maxContent
    ensures var r := Receive(l, s, ChunkText(p.data, p.extension) + more);
            && r.rest == more && BetweenChunks(l, r.s)
            && !r.s.chunk.IsLast() && ChunkOf<View>(r.s.chunk) == Part(p.data, p.extension)
            && if s.concatenate
               then r.rx.Incomplete? && r.s == s.(chunk := r.s.chunk, body := s.body + p.data)
               else r.rx.ChunkReceived? && r.s == s.(chunk := r.s.chunk)
  {
    hide Chunks.Parse, ChunkText, Headers.IsChunked, HeaderFits;
    NextChunk(l, s, ChunkText(p.data, p.extension) + more);
    ReceiveMakesProgress(l, s, ChunkText(p.data, p.extension) + more);
    ChunkIsReadBack(l, p.data, p.extension, more);
  }

  lemma LastCall(l: Limits, s: Receiver, extension: string, trailers: seq<HeaderLine>, more: string)
    requires BetweenChunks(l, s) && HeaderFits(l, 0, extension) && HeadersFit(l, trailers)
    ensures var r := Receive(l, s, LastChunkText(extension, HeadersText(trailers)) + more);
            && r.rest == more && r.s == s.(chunk := r.s.chunk)
            && r.s.chunk.IsLast() && ChunkOf<View>(r.s.chunk) == End(extension, FoldOf(trailers))
            && r.rx == if s.concatenate then Rx.Valid else ChunkReceived
  {
    hide Chunks.Parse, LastChunkText, Headers.IsChunked, HeaderFits, HeadersFit;
    NextChunk(l, s, LastChunkText(extension, HeadersText(trailers)) + more);
    LastChunkIsReadBack(l, extension, trailers, more);
  }

  lemma TextsAreNonempty(p: Piece, extension: string, trailers: string)
    ensures ChunkText(p.data, p.extension) != [] && LastChunkText(extension, trailers) != []
  {
  }

  /** What a run reports and where it leaves off, in terms of what is seen. */
  ghost predicate Shows(r: Ran, reports: seq<Report<View>>, t: Ran) {
    && r.s == t.s
    && AllSeen(r.events) == reports + AllSeen(t.events)
    && (Accepted(t.events) ==> Accepted(r.events))
  }

  lemma ShowsFirst(r: Ran, e: Event, reports: seq<Report<View>>, r': Ran, t: Ran)
    requires r == Ran([e] + r'.events, r'.s) && Shows(r', reports, t) && !e.rx.Invalid?
    ensures Shows(r, [Seen(e)] + reports, t)
  {
    assert r.events[1..] == r'.events;
    assert [Seen(e)] + (reports + AllSeen(t.events)) == [Seen(e)] + reports + AllSeen(t.events);
  }

  lemma ShowsNothing(t: Ran)
    ensures Shows(t, [], t)
  {
    assert [] + AllSeen(t.events) == AllSeen(t.events);
  }

  /** What a handler that answers at the end leaves of a receiver between chunks. */
  lemma StaysBetweenChunks(l: Limits, h: Handler, k: nat, rx: Rx, s: Receiver)
    requires AnswersAtEnd(h) && BetweenChunks(l, s) && !rx.Invalid? && !rx.Incomplete?
    requires !(s.concatenate && rx.Valid?) && !(rx.ChunkReceived? && s.chunk.IsLast())
    ensures var s' := Handle(h, k, rx, s);
            && BetweenChunks(l, s') && s' == s.(continueSent := s'.continueSent)
  {
    hide Headers.IsChunked, Chunks.Invariant, RequestInvariant;
    assert !h(k, rx, s).clears;
  }

  lemma ClearedAtEnd(h: Handler, k: nat, rx: Rx, s: Receiver)
    requires AnswersAtEnd(h) && s.request.IsChunked() && s.chunk.IsLast() && !s.request.IsTrace()
    requires rx == if s.concatenate then Rx.Valid else ChunkReceived
    ensures Handle(h, k, rx, s) == Clear(s)
  {
    hide Headers.IsChunked;
    assert s.concatenate ==> h(k, rx, s).clears;
    assert !FRESH_REQUEST.IsChunked() by { NotChunked(); }
  }

  lemma NotChunked()
    ensures !FRESH_REQUEST.IsChunked()
  {
  }

  /** The loop over the last chunk of a request. */
  lemma LastRun(l: Limits, h: Handler, k: nat, s: Receiver, b: Body, more: string)
    requires BetweenChunks(l, s) && b.Chunked? && b.pieces == []
    requires HeaderFits(l, 0, b.extension) && HeadersFit(l, b.trailers)
    requires AnswersAtEnd(h)
    ensures Pending(l, Clear(s))
    ensures var line, fields := PartsOf(s.request.line), s.request.headers.fields;
            var report := if s.concatenate then Head(View.Request(line, fields, s.body, b.extension, FoldOf(b.trailers)))
                          else End(b.extension, FoldOf(b.trailers));
            Shows(Run(l, h, k, s, BodyText(b) + more), [report], Run(l, h, k + 1, Clear(s), more))
  {
    hide Receive, Handle, Invariant, Run, LastChunkText, HeaderFits, HeadersFit, FoldOf, Headers.IsChunked, AllSeen,
      Accepted, Shows;
    TextsAreNonempty(Piece([], []), b.extension, HeadersText(b.trailers));
    var inp := LastChunkText(b.extension, HeadersText(b.trailers)) + more;
    assert BodyText(b) + more == inp;
    LastCall(l, s, b.extension, b.trailers, more);
    FirstCall(l, h, k, s, inp);
    var r := Receive(l, s, inp);
    ClearKeepsInvariant(l, s);
    ClearedAtEnd(h, k, r.rx, r.s);
    var t := Run(l, h, k + 1, Clear(s), more);
    ShowsNothing(t);
    ShowsFirst(Run(l, h, k, s, inp), Event(r.rx, r.s), [], t, t);
    assert [Seen(Event(r.rx, r.s))] + [] == [Seen(Event(r.rx, r.s))];
  }

  /** The reports of the rest `b` of a body, of which the receiver may hold the beginning. */
  function RestReports(s: Receiver, b: Body): seq<Report<View>>
    requires b.Chunked?
  {
    BodyReports(PartsOf(s.request.line), s.request.headers.fields, s.concatenate, s.body + PiecesData(b.pieces), b)
  }

  /** The loop over the chunks of a request. */
  lemma {:induction false} ChunksRun(l: Limits, h: Handler, k: nat, s: Receiver, b: Body, more: string)
    requires BetweenChunks(l, s) && b.Chunked?
    requires PiecesFit(l, b.pieces) && HeaderFits(l, 0, b.extension) && HeadersFit(l, b.trailers)
    requires s.concatenate ==> |s.body| + |PiecesData(b.pieces)| <= l.maxContent
    requires AnswersAtEnd(h)
    ensures Pending(l, Clear(s))
    ensures Shows(Run(l, h, k, s, BodyText(b) + more), RestReports(s, b),
                  Run(l, h, k + |RestReports(s, b)|, Clear(s), more))
    decreases |b.pieces|
  {
    hide Receive, Handle, Invariant, Run, ChunkText, LastChunkText, HeaderFits, HeadersFit, FoldOf, Headers.IsChunked,
      AllSeen, Accepted, Shows, BetweenChunks;
    if b.pieces == [] {
      LastRun(l, h, k, s, b, more);
      assert s.body + PiecesData(b.pieces) == s.body;
      assert ChunkReports<View>(b) == [End(b.extension, FoldOf(b.trailers))];
    } else {
      var p := b.pieces[0];
      var b' := b.(pieces := b.pieces[1..]);
      var tail := BodyText(b') + more;
      var inp := ChunkText(p.data, p.extension) + tail;
      assert BodyText(b) + more == inp;
      TextsAreNonempty(p, b.extension, HeadersText(b.trailers));
      PieceCall(l, s, p, tail);
      BetweenIsPending(l, s);
      FirstCall(l, h, k, s, inp);
      var r := Receive(l, s, inp);
      if s.concatenate {
        ChunksRun(l, h, k, r.s, b', more);
        assert s.body + p.data + PiecesData(b'.pieces) == s.body + PiecesData(b.pieces);
      } else {
        StaysBetweenChunks(l, h, k, r.rx, r.s);
        var s' := Handle(h, k, r.rx, r.s);
        BetweenIsPending(l, s');
        ChunksRun(l, h, k + 1, s', b', more);
        ShowsFirst(Run(l, h, k, s, inp), Event(r.rx, r.s), ChunkReports(b'), Run(l, h, k + 1, s', tail),
                   Run(l, h, k + 1 + |ChunkReports<View>(b')|, Clear(s), more));
        assert ChunkReports<View>(b) == [Part(p.data, p.extension)] + ChunkReports(b');
      }
    }
  }

  lemma BetweenIsPending(l: Limits, s: Receiver)
    requires BetweenChunks(l, s)
    ensures Pending(l, s)
  {
  }

  // ---------------------------------------------------------------------------------
  // Whole requests
  // ---------------------------------------------------------------------------------

  /** The header of a request in chunks: reported, or read on with what follows it. */
  lemma ChunkedHeader(l: Limits, h: Handler, k: nat, s: Receiver, m: Message, more: string) returns (s': Receiver)
    requires WellFormed(l, s.concatenate, m) && Idle(s) && m.body.Chunked? && more != [] && AnswersAtEnd(h)
    ensures s' == s.(request := s'.request, code := s'.code, continueSent := s'.continueSent)
    ensures BetweenChunks(l, s') && Pending(l, s)
    ensures PartsOf(s'.request.line) == m.line && s'.request.headers.fields == FieldsOf(m)
    ensures var header := MessageText(m.line, HeadersText(m.headers), BodyLength(m.body));
            var reports := HeaderReports(s.concatenate, m);
            var t := Run(l, h, k + |reports|, s', more);
            Shows(Run(l, h, k, s, header + more), reports, t)
  {
    hide ParseRequest, ReceiveChunk, MessageText, FieldsOf, HeadersFit, Headers.IsChunked, Headers.ContentLength,
      Headers.ExpectsContinue, AsksToContinue, BodyFits, Grammar.WellFormed, Run, Handle, Shows, AllSeen, Accepted;
    BodyIsFound(l, FieldsOf(m), m.body);
    ExpectsContinueExactly(FieldsOf(m));
    var inp := MessageText(m.line, HeadersText(m.headers), BodyLength(m.body)) + more;
    var read := ReadHeader(l, s, m, more);
    ClearKeepsInvariant(l, s);
    FirstCall(l, h, k, s, inp);
    assert read.request.ExpectsContinue() == Expects(m);
    if Expects(m) || !s.concatenate {
      var rx := if Expects(m) then ExpectContinue else Rx.Valid;
      var seen := if Expects(m) then read.(code := Continue) else read;
      assert Receive(l, s, inp) == Received(seen, more, rx);
      StaysBetweenChunks(l, h, k, rx, seen);
      s' := Handle(h, k, rx, seen);
      var t := Run(l, h, k + 1, s', more);
      ShowsNothing(t);
      ShowsFirst(Run(l, h, k, s, inp), Event(rx, seen), [], t, t);
      assert [Seen(Event(rx, seen))] + [] == HeaderReports(s.concatenate, m);
    } else {
      s' := read;
      FirstCall(l, h, k, s', more);
      assert Receive(l, s, inp) == Receive(l, s', more);
      ShowsNothing(Run(l, h, k, s', more));
    }
  }

  /** The loop over one request that is not in chunks. */
  lemma SizedRun(l: Limits, h: Handler, k: nat, s: Receiver, m: Message, more: string) returns (s': Receiver)
    requires WellFormed(l, s.concatenate, m) && Idle(s) && m.body.Sized?
    ensures Pending(l, s) && Pending(l, s') && Idle(s') && s' == s.(code := s'.code)
    ensures var reports := Expected(m, s.concatenate, s.translateHead);
            |reports| == 1 && Shows(Run(l, h, k, s, Encode(m) + more), reports, Run(l, h, k + 1, s', more))
  {
    hide Receive, Invariant, Run, Encode, WellFormed, Expected, Headers.IsChunked, Shows, AllSeen, RequestOf;
    ClearKeepsInvariant(l, s);
    var inp := Encode(m) + more;
    SizedCall(l, s, m, more);
    HeaderTextNonempty(m);
    FirstCall(l, h, k, s, inp);
    var r := Receive(l, s, inp);
    ClearKeepsInvariant(l, r.s);
    ClearAfterReaction(r.s, h(k, Rx.Valid, r.s));
    s' := Clear(r.s);
    var t := Run(l, h, k + 1, s', more);
    ShowsNothing(t);
    ShowsFirst(Run(l, h, k, s, inp), Event(r.rx, r.s), [], t, t);
    assert [Head(RequestOf(r.s))] + [] == [Head(RequestOf(r.s))];
  }

  lemma ChunkedParts(l: Limits, concatenate: bool, translateHead: bool, m: Message, more: string)
    requires WellFormed(l, concatenate, m) && m.body.Chunked?
    ensures var b := m.body;
            && PiecesFit(l, b.pieces) && HeaderFits(l, 0, b.extension) && HeadersFit(l, b.trailers)
            && BodyData(b) == PiecesData(b.pieces) && (concatenate ==> |BodyData(b)| <= l.maxContent)
            && BodyText(b) != []
    ensures Encode(m) + more ==
            MessageText(m.line, HeadersText(m.headers), BodyLength(m.body)) + (BodyText(m.body) + more)
    ensures Expected(m, concatenate, translateHead) ==
            HeaderReports(concatenate, m) + BodyReports(m.line, FieldsOf(m), concatenate, BodyData(m.body), m.body)
  {
    hide MessageText, FieldsOf, HeadersFit, HeaderFits, PiecesFit, Headers.IsChunked, HeaderReports, BodyReports,
      Grammar.WellFormed;
    BodyTextNonempty(m.body);
  }

  /** The loop over one request in chunks. */
  lemma ChunkedRun(l: Limits, h: Handler, k: nat, s: Receiver, m: Message, more: string) returns (s': Receiver)
    requires WellFormed(l, s.concatenate, m) && Idle(s) && m.body.Chunked? && AnswersAtEnd(h)
    ensures Pending(l, s) && Pending(l, s') && Idle(s') && s' == s.(code := s'.code)
    ensures var reports := Expected(m, s.concatenate, s.translateHead);
            Shows(Run(l, h, k, s, Encode(m) + more), reports, Run(l, h, k + |reports|, s', more))
  {
    hide Receive, Invariant, Run, MessageText, FieldsOf, Encode, Expected, BodyText, BodyData, WellFormed, HeaderReports,
      BodyReports, HeadersText, Shows, AnswersAtEnd, BetweenChunks;
    ChunkedParts(l, s.concatenate, s.translateHead, m, more);
    var tail := BodyText(m.body) + more;
    var read := ChunkedHeader(l, h, k, s, m, tail);
    var announced := HeaderReports(s.concatenate, m);
    BetweenIsPending(l, read);
    assert read.body + PiecesData(m.body.pieces) == BodyData(m.body);
    var reports := RestReports(read, m.body);
    ChunksRun(l, h, k + |announced|, read, m.body, more);
    ClearKeepsInvariant(l, read);
    s' := Clear(read);
    ShowsBoth(Run(l, h, k, s, Encode(m) + more), announced, Run(l, h, k + |announced|, read, tail), reports,
              Run(l, h, k + |announced| + |reports|, s', more));
  }

  /** The loop over one request. */
  lemma MessageRun(l: Limits, h: Handler, k: nat, s: Receiver, m: Message, more: string) returns (s': Receiver)
    requires WellFormed(l, s.concatenate, m) && Idle(s) && AnswersAtEnd(h)
    ensures Pending(l, s) && Pending(l, s') && Idle(s') && s' == s.(code := s'.code)
    ensures var reports := Expected(m, s.concatenate, s.translateHead);
            Shows(Run(l, h, k, s, Encode(m) + more), reports, Run(l, h, k + |reports|, s', more))
  {
    hide *;
    if m.body.Sized? {
      s' := SizedRun(l, h, k, s, m, more);
    } else {
      s' := ChunkedRun(l, h, k, s, m, more);
    }
  }

  lemma ShowsBoth(r: Ran, a: seq<Report<View>>, r': Ran, b: seq<Report<View>>, t: Ran)
    requires Shows(r, a, r') && Shows(r', b, t)
    ensures Shows(r, a + b, t)
  {
    assert a + (b + AllSeen(t.events)) == a + b + AllSeen(t.events);
  }

  /** Whatever a handler did to a receiver without chunks, clearing it has the same result. */
  lemma ClearAfterReaction(s: Receiver, r: Reaction)
    requires !s.request.IsChunked()
    ensures !React(s, r).request.IsChunked() && Clear(React(s, r)) == Clear(s)
  {
  }

  lemma HeaderTextNonempty(m: Message)
    ensures Encode(m) != []
  {
    assert |MessageText(m.line, HeadersText(m.headers), BodyLength(m.body))| >= |CRLF|;
  }

  lemma BodyTextNonempty(b: Body)
    requires b.Chunked?
    ensures BodyText(b) != []
  {
    TextsAreNonempty(Piece([], []), b.extension, HeadersText(b.trailers));
  }

  /**
    Main result: any list of well-formed requests, sent one behind the other, is reported
    in order, exactly as it was sent, and every byte is read. It holds where chunks are
    concatenated and where they are reported one by one.
   */
  lemma {:induction false} PipelinedRoundTrip(l: Limits, h: Handler, k: nat, s: Receiver, ms: seq<Message>)
    requires Idle(s) && AnswersAtEnd(h)
    requires forall i :: 0 <= i < |ms| ==> WellFormed(l, s.concatenate, ms[i])
    ensures Pending(l, s)
    ensures var r := Run(l, h, k, s, Stream(ms));
            && Idle(r.s) && Accepted(r.events)
            && AllSeen(r.events) == AllExpected(ms, s.concatenate, s.translateHead)
    decreases |ms|
  {
    hide WellFormed, Expected, Encode, Seen, Run, Invariant, AnswersAtEnd;
    ClearKeepsInvariant(l, s);
    if ms == [] {
      NothingToRun(l, h, k, s);
    } else {
      var s' := MessageRun(l, h, k, s, ms[0], Stream(ms[1..]));
      PipelinedRoundTrip(l, h, k + |Expected(ms[0], s.concatenate, s.translateHead)|, s', ms[1..]);
    }
  }

  lemma {:induction false} PiecesAreNoHeads(pieces: seq<Piece>)
    ensures forall i :: 0 <= i < |PieceReports<View>(pieces)| ==> !PieceReports<View>(pieces)[i].Head?
  {
    if pieces != [] {
      PiecesAreNoHeads(pieces[1..]);
    }
  }

  /**
    Where chunks are reported one by one, a request that asks for a 100 Continue response
    is reported when it asks and then by its chunks, but never as a request.
   */
  lemma AskingIsNoRequest(m: Message, translateHead: bool)
    requires Expects(m)
    ensures var reports := Expected(m, false, translateHead);
            && reports[0] == Head(Asking(m.line, FieldsOf(m)))
            && forall i :: 1 <= i < |reports| ==> !reports[i].Head?
  {
    PiecesAreNoHeads(m.body.pieces);
  }

  /** And the same is reported when the stream arrives in buffers with good cuts. */
  lemma RoundTripInBuffers(l: Limits, h: Handler, k: nat, s: Receiver, ms: seq<Message>, buffers: seq<string>)
    requires Idle(s) && AnswersAtEnd(h)
    requires forall i :: 0 <= i < |ms| ==> WellFormed(l, s.concatenate, ms[i])
    requires Flatten(buffers) == Stream(ms)
    requires forall i :: 0 <= i < |buffers| ==> buffers[i] != []
    requires Pending(l, s) && GoodCuts(l, h, k, s, buffers)
    ensures var r := RunAll(l, h, k, s, buffers);
            && Idle(r.s) && Accepted(r.events)
            && AllSeen(r.events) == AllExpected(ms, s.concatenate, s.translateHead)
  {
    hide WellFormed, Expected, AllSeen, Run, RunAll, GoodCuts, Invariant, Stream, Flatten, Accepted, AnswersAtEnd;
    PipelinedRoundTrip(l, h, k, s, ms);
    EveryPartitionReportsTheSame(l, h, k, s, buffers);
  }
}
