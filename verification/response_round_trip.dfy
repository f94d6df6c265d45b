/** Writing responses (tx_response) and reading them back through the client loop. */
module ResponseRoundTrip {
  import opened Characters
  import opened Parsing
  import opened Responses
  import opened Client
  import opened HeaderEncoding
  import opened ChunkRoundTrip
  import opened MessageEncoding
  import RL = ResponseLines
  import Lines = ResponseLineRoundTrip
  import Headers
  import Chunks
  import opened Numbers

  /** A response as a server sends it. */
  datatype Message = Message(line: Lines.Parts, headers: seq<HeaderLine>, body: Body)

  /** response_status::content_permitted */
  predicate ContentPermitted(status: nat) {
    status >= 200 && status != 204 && status != 304
  }

  predicate AddsLength(line: Lines.Parts, headers: string) {
    AddsContentLength(headers) && ContentPermitted(line.status)
  }

  /** The headers that are sent, with the content length that message may add. */
  function Sent(m: Message): seq<HeaderLine> {
    if AddsLength(m.line, HeadersText(m.headers)) then m.headers + [ContentLengthHeader(BodyLength(m.body))] else m.headers
  }

  /** tx_response::message, for any header string */
  function MessageText(line: Lines.Parts, headers: string, contentLength: nat): string {
    Lines.Encode(line) + headers
    + (if AddsLength(line, headers) then ToHeader(ContentLengthHeader(contentLength)) else "")
    + CRLF
  }

  /** All that is sent for a response. */
  function Encode(m: Message): string {
    MessageText(m.line, HeadersText(m.headers), BodyLength(m.body)) + BodyText(m.body)
  }

  function Stream(ms: seq<Message>): string {
    if ms == [] then "" else Encode(ms[0]) + Stream(ms[1..])
  }

  /** The fields that a receiver reads. */
  function FieldsOf(m: Message): Headers.Fields { FoldOf(Sent(m)) }

  /** What a receiver with limits `l` accepts as a response whose end it can tell. */
  ghost predicate WellFormed(l: Limits, m: Message) {
    && Lines.WellFormed(l, m.line)
    && HeadersFit(l, Sent(m))
    && BodyFits(l, FieldsOf(m), m.body)
  }

  /** What the application can see of a response. */
  datatype View = View(line: Lines.Parts, fields: Headers.Fields, body: string)

  function PartsOf(line: RL.Line): Lines.Parts {
    Lines.Parts(line.status, line.reason, line.major, line.minor)
  }

  function HeadOf(s: Receiver): View {
    View(PartsOf(s.response.line), s.response.headers.fields, s.body)
  }

  /** What an event shows; a refusal, which shows nothing, does not occur below. */
  function Seen(e: Event): Report<View> {
    if e.rx.ChunkReceived? then ChunkOf(e.seen.chunk) else Head(HeadOf(e.seen))
  }

  function AllSeen(es: seq<Event>): (rs: seq<Report<View>>)
    ensures |rs| == |es|
  {
    if es == [] then [] else [Seen(es[0])] + AllSeen(es[1..])
  }

  predicate Accepted(es: seq<Event>) {
    forall e :: e in es ==> !e.rx.Invalid?
  }

  /** The reports that a response should give. */
  function Expected(m: Message): seq<Report<View>> {
    if m.body.Sized? then [Head(View(m.line, FieldsOf(m), m.body.data))]
    else [Head(View(m.line, FieldsOf(m), ""))] + ChunkReports(m.body)
  }

  function AllExpected(ms: seq<Message>): seq<Report<View>> {
    if ms == [] then [] else Expected(ms[0]) + AllExpected(ms[1..])
  }

  // ---------------------------------------------------------------------------------
  // One response
  // ---------------------------------------------------------------------------------

  lemma HeaderText(m: Message)
    ensures MessageText(m.line, HeadersText(m.headers), BodyLength(m.body)) == Lines.Encode(m.line) + (HeadersText(Sent(m)) + CRLF)
  {
    if AddsLength(m.line, HeadersText(m.headers)) {
      HeadersTextAppend(m.headers, ContentLengthHeader(BodyLength(m.body)));
    }
  }

  /** The response header is read back. */
  lemma HeaderIsReadBack(l: Limits, m: Message, more: string)
    requires WellFormed(l, m)
    ensures var p := ParseResponse(l, FRESH_RESPONSE, MessageText(m.line, HeadersText(m.headers), BodyLength(m.body)) + more);
            && p.out.Done? && p.rest == more
            && PartsOf(p.s.line) == m.line && p.s.headers.fields == FieldsOf(m)
  {
    hide RL.Parse, Headers.Parse, Lines.Encode, HeadersText, FoldOf, AddsContentLength, BodyFits, Lines.WellFormed;
    HeaderText(m);
    var tail := HeadersText(Sent(m)) + (CRLF + more);
    assert MessageText(m.line, HeadersText(m.headers), BodyLength(m.body)) + more == Lines.Encode(m.line) + tail;
    Lines.RoundTrip(l, m.line, tail);
    HeadersRoundTrip(l, Sent(m), more);
  }

  lemma HeaderTextNonempty(m: Message)
    ensures MessageText(m.line, HeadersText(m.headers), BodyLength(m.body)) != []
  {
    assert |MessageText(m.line, HeadersText(m.headers), BodyLength(m.body))| >= |CRLF|;
  }

  /** The first call on a response: the whole of it, or its header if it is chunked. */
  lemma HeaderCall(l: Limits, m: Message, more: string)
    requires WellFormed(l, m)
    ensures Pending(l, FRESH)
    ensures var r := Receive(l, FRESH, Encode(m) + more);
            && r.rx.Valid? && (m.body.Chunked? <==> r.s.response.IsChunked())
            && HeadOf(r.s) == View(m.line, FieldsOf(m), if m.body.Sized? then m.body.data else "")
            && r.rest == (if m.body.Sized? then more else BodyText(m.body) + more)
            && (m.body.Chunked? ==> BetweenChunks(l, r.s))
  {
    hide ParseResponse, MessageText, FieldsOf, HeadersFit, BodyText, Headers.IsChunked, Headers.ContentLength,
      Lines.WellFormed, HeaderFits, PiecesFit;
    FreshIsPending(l);
    BodyIsFound(l, FieldsOf(m), m.body);
    var header := MessageText(m.line, HeadersText(m.headers), BodyLength(m.body));
    assert Encode(m) + more == header + (BodyText(m.body) + more);
    HeaderIsReadBack(l, m, BodyText(m.body) + more);
    var s := FRESH.(response := ParseResponse(l, FRESH_RESPONSE, Encode(m) + more).s);
    if m.body.Sized? {
      SizedText(m.body);
      ReadWhole(l, s, m.body.data, more);
    }
  }

  lemma SizedText(b: Body)
    requires b.Sized?
    ensures BodyText(b) == b.data
  {
  }

  /** A body that has arrived completely. */
  lemma ReadWhole(l: Limits, s: Receiver, data: string, more: string)
    requires s.body == [] && s.response.ContentLength() == |data| && !s.response.IsCloseDelimited()
    ensures ReceiveSized(l, s, data + more) == Received(s.(body := data), more, Rx.Valid)
  {
    hide Headers.IsChunked, Headers.ContentLength;
    assert (data + more)[..|data|] == data && (data + more)[|data|..] == more;
    assert s.body + data == data;
    if more == [] {
      assert data + more == data;
      assert (data + more)[..|data + more|] == data;
    }
  }

  /** A receiver between the chunks of a response. */
  predicate BetweenChunks(l: Limits, s: Receiver) {
    && Pending(l, s) && s.response.valid && s.response.IsChunked()
    && (s.chunk == Chunks.FRESH || s.chunk.valid)
  }

  lemma NextChunk(l: Limits, s: Receiver, inp: string)
    requires BetweenChunks(l, s)
    ensures Chunks.Invariant(l, Chunks.FRESH) && !IsStuck(l, s)
    ensures Receive(l, s, inp) == ReceiveChunk(l, s.(chunk := Chunks.FRESH), inp)
  {
    hide Headers.IsChunked;
  }

  lemma PieceCall(l: Limits, s: Receiver, p: Piece, more: string)
    requires BetweenChunks(l, s) && p.data != [] && HeaderFits(l, |p.data|, p.extension)
    ensures var r := Receive(l, s, ChunkText(p.data, p.extension) + more);
            && r.rx.ChunkReceived? && r.rest == more && BetweenChunks(l, r.s)
            && !r.s.chunk.IsLast() && ChunkOf<View>(r.s.chunk) == Part(p.data, p.extension)
  {
    hide Chunks.Parse, ChunkText, Headers.IsChunked, HeaderFits;
    NextChunk(l, s, ChunkText(p.data, p.extension) + more);
    ChunkOutcomes(l, s.(chunk := Chunks.FRESH), ChunkText(p.data, p.extension) + more);
    ChunkIsReadBack(l, p.data, p.extension, more);
  }

  lemma LastCall(l: Limits, s: Receiver, extension: string, trailers: seq<HeaderLine>, more: string)
    requires BetweenChunks(l, s) && HeaderFits(l, 0, extension) && HeadersFit(l, trailers)
    ensures var r := Receive(l, s, LastChunkText(extension, HeadersText(trailers)) + more);
            && r.rx.ChunkReceived? && r.rest == more
            && r.s.chunk.IsLast() && ChunkOf<View>(r.s.chunk) == End(extension, FoldOf(trailers))
  {
    hide Chunks.Parse, LastChunkText, Headers.IsChunked, HeaderFits, HeadersFit;
    NextChunk(l, s, LastChunkText(extension, HeadersText(trailers)) + more);
    LastChunkIsReadBack(l, extension, trailers, more);
  }

  lemma TextsAreNonempty(p: Piece, extension: string, trailers: string)
    ensures ChunkText(p.data, p.extension) != [] && LastChunkText(extension, trailers) != []
  {
  }

  /** What a run reports and where it leaves off, in terms of what is seen. */
  ghost predicate Shows(r: Ran, reports: seq<Report<View>>, t: Ran) {
    && r.diverges == t.diverges && r.s == t.s
    && AllSeen(r.events) == reports + AllSeen(t.events)
    && (Accepted(t.events) ==> Accepted(r.events))
  }

  lemma ShowsFirst(r: Ran, e: Event, reports: seq<Report<View>>, r': Ran, t: Ran)
    requires r == r'.(events := [e] + r'.events) && Shows(r', reports, t) && !e.rx.Invalid?
    ensures Shows(r, [Seen(e)] + reports, t)
  {
    assert r.events[1..] == r'.events;
    assert [Seen(e)] + (reports + AllSeen(t.events)) == [Seen(e)] + reports + AllSeen(t.events);
  }

  /** A handler that sends no request before a response in chunks is complete. */
  ghost predicate SendsAtEnd(h: Handler) {
    forall k, rx, s: Receiver :: s.response.IsChunked() && h(k, rx, s) ==> rx == ChunkReceived && s.chunk.IsLast()
  }

  /** The loop over the last chunk of a response. */
  lemma LastRun(l: Limits, h: Handler, k: nat, s: Receiver, b: Body, more: string)
    requires BetweenChunks(l, s) && b.Chunked? && b.pieces == []
    requires HeaderFits(l, 0, b.extension) && HeadersFit(l, b.trailers)
    ensures Pending(l, FRESH)
    ensures Shows(Run(l, h, k, s, BodyText(b) + more), [End(b.extension, FoldOf(b.trailers))], Run(l, h, k + 1, FRESH, more))
  {
    hide Receive, Invariant, Run, LastChunkText, HeaderFits, HeadersFit, FoldOf, Headers.IsChunked, AllSeen,
      ChunkOf, Accepted, Shows, IsStuck;
    FreshIsPending(l);
    var inp := LastChunkText(b.extension, HeadersText(b.trailers)) + more;
    assert BodyText(b) + more == inp;
    TextsAreNonempty(Piece([], []), b.extension, HeadersText(b.trailers));
    NextChunk(l, s, inp);
    LastCall(l, s, b.extension, b.trailers, more);
    FirstCall(l, h, k, s, inp);
    var r := Receive(l, s, inp);
    LastIsCleared(h, k, r.s);
    var t := Run(l, h, k + 1, FRESH, more);
    ShowsNothing(t);
    ShowsFirst(Run(l, h, k, s, inp), Event(r.rx, r.s), [], t, t);
    assert [Seen(Event(r.rx, r.s))] + [] == [End(b.extension, FoldOf(b.trailers))];
  }

  lemma LastIsCleared(h: Handler, k: nat, s: Receiver)
    requires s.chunk.IsLast()
    ensures Handle(h, k, ChunkReceived, s) == FRESH
  {
  }

  /** The loop over the first chunk of a response. */
  lemma PieceRun(l: Limits, h: Handler, k: nat, s: Receiver, p: Piece, more: string) returns (s': Receiver)
    requires BetweenChunks(l, s) && p.data != [] && HeaderFits(l, |p.data|, p.extension) && SendsAtEnd(h)
    ensures BetweenChunks(l, s')
    ensures var t := Run(l, h, k + 1, s', more);
            forall reports, u :: Shows(t, reports, u) ==>
              Shows(Run(l, h, k, s, ChunkText(p.data, p.extension) + more), [Part(p.data, p.extension)] + reports, u)
  {
    hide Receive, Invariant, Run, ChunkText, HeaderFits, Headers.IsChunked, AllSeen, ChunkOf, Accepted, Shows, IsStuck;
    var inp := ChunkText(p.data, p.extension) + more;
    TextsAreNonempty(p, "", "");
    NextChunk(l, s, inp);
    PieceCall(l, s, p, more);
    FirstCall(l, h, k, s, inp);
    var r := Receive(l, s, inp);
    s' := r.s;
    assert !h(k, ChunkReceived, s');
    var t := Run(l, h, k + 1, s', more);
    forall reports, u | Shows(t, reports, u)
      ensures Shows(Run(l, h, k, s, inp), [Part(p.data, p.extension)] + reports, u)
    {
      ShowsFirst(Run(l, h, k, s, inp), Event(r.rx, r.s), reports, t, u);
    }
  }

  /** The loop over the chunks of a response: one report each. */
  lemma {:induction false} ChunksRun(l: Limits, h: Handler, k: nat, s: Receiver, b: Body, more: string)
    requires BetweenChunks(l, s) && b.Chunked? && SendsAtEnd(h)
    requires PiecesFit(l, b.pieces) && HeaderFits(l, 0, b.extension) && HeadersFit(l, b.trailers)
    ensures Pending(l, FRESH)
    ensures Shows(Run(l, h, k, s, BodyText(b) + more), ChunkReports(b),
                  Run(l, h, k + |ChunkReports<View>(b)|, FRESH, more))
    decreases |b.pieces|
  {
    hide Run, ChunkText, LastChunkText, HeaderFits, HeadersFit, FoldOf, Shows, BetweenChunks, SendsAtEnd;
    FreshIsPending(l);
    if b.pieces == [] {
      LastRun(l, h, k, s, b, more);
      assert ChunkReports<View>(b) == [End(b.extension, FoldOf(b.trailers))];
    } else {
      var p := b.pieces[0];
      var b' := b.(pieces := b.pieces[1..]);
      var tail := BodyText(b') + more;
      assert BodyText(b) + more == ChunkText(p.data, p.extension) + tail;
      var s' := PieceRun(l, h, k, s, p, tail);
      ChunksRun(l, h, k + 1, s', b', more);
      assert ChunkReports<View>(b) == [Part(p.data, p.extension)] + ChunkReports(b');
    }
  }

  lemma ShowsNothing(t: Ran)
    ensures Shows(t, [], t)
  {
    assert [] + AllSeen(t.events) == AllSeen(t.events);
  }

  /** The loop over one response. */
  lemma MessageRun(l: Limits, h: Handler, k: nat, m: Message, more: string)
    requires WellFormed(l, m) && (m.body.Sized? || SendsAtEnd(h))
    ensures Pending(l, FRESH)
    ensures Shows(Run(l, h, k, FRESH, Encode(m) + more), Expected(m), Run(l, h, k + |Expected(m)|, FRESH, more))
  {
    hide Receive, Invariant, Run, Encode, BodyText, HeadersFit, HeaderFits, PiecesFit, FieldsOf, Headers.IsChunked,
      Headers.ContentLength, Lines.WellFormed, AllSeen, Accepted, Shows, HeadOf, ChunkReports;
    HeaderCall(l, m, more);
    EncodeNonempty(m);
    var inp := Encode(m) + more;
    FirstCall(l, h, k, FRESH, inp);
    var r := Receive(l, FRESH, inp);
    if m.body.Sized? {
      HeadIsCleared(h, k, r.s);
      var t := Run(l, h, k + 1, FRESH, more);
      ShowsNothing(t);
      ShowsFirst(Run(l, h, k, FRESH, inp), Event(r.rx, r.s), [], t, t);
      assert Expected(m) == [Head(HeadOf(r.s))] + [];
    } else {
      assert !h(k, Rx.Valid, r.s);
      ChunksRun(l, h, k + 1, r.s, m.body, more);
      var t := Run(l, h, k + 1 + |ChunkReports<View>(m.body)|, FRESH, more);
      ShowsFirst(Run(l, h, k, FRESH, inp), Event(r.rx, r.s), ChunkReports(m.body),
                 Run(l, h, k + 1, r.s, BodyText(m.body) + more), t);
    }
  }

  /** Behind a response without chunks the receiver is cleared, whatever the handler does. */
  lemma HeadIsCleared(h: Handler, k: nat, s: Receiver)
    requires !s.response.IsChunked()
    ensures Handle(h, k, Rx.Valid, s) == FRESH
  {
  }

  lemma EncodeNonempty(m: Message)
    ensures Encode(m) != []
  {
    HeaderTextNonempty(m);
  }

  /** The loop over a list of responses, whatever follows them. */
  lemma {:induction false} StreamRun(l: Limits, h: Handler, k: nat, ms: seq<Message>, more: string)
    requires forall i :: 0 <= i < |ms| ==> WellFormed(l, ms[i]) && (ms[i].body.Sized? || SendsAtEnd(h))
    ensures Pending(l, FRESH)
    ensures Shows(Run(l, h, k, FRESH, Stream(ms) + more), AllExpected(ms),
                  Run(l, h, k + |AllExpected(ms)|, FRESH, more))
    decreases |ms|
  {
    hide WellFormed, Expected, Encode, Run, Invariant, AllSeen, Accepted, SendsAtEnd;
    FreshIsPending(l);
    if ms == [] {
      assert Stream(ms) + more == more;
      ShowsNothing(Run(l, h, k, FRESH, more));
    } else {
      var tail := Stream(ms[1..]) + more;
      assert Stream(ms) + more == Encode(ms[0]) + tail;
      var k' := k + |Expected(ms[0])|;
      MessageRun(l, h, k, ms[0], tail);
      StreamRun(l, h, k', ms[1..], more);
      ShowsBoth(Run(l, h, k, FRESH, Stream(ms) + more), Expected(ms[0]), Run(l, h, k', FRESH, tail), AllExpected(ms[1..]),
                Run(l, h, k' + |AllExpected(ms[1..])|, FRESH, more));
    }
  }

  lemma ShowsBoth(r: Ran, a: seq<Report<View>>, r': Ran, b: seq<Report<View>>, t: Ran)
    requires Shows(r, a, r') && Shows(r', b, t)
    ensures Shows(r, a + b, t)
  {
    assert a + (b + AllSeen(t.events)) == a + b + AllSeen(t.events);
  }

  /**
    Main result: any list of well-formed responses, sent one behind the other, is
    reported in order: status, reason, fields and body, or the chunks one by one. The
    handler may send the next request at any report but in the middle of a response in
    chunks.
   */
  lemma StreamRoundTrip(l: Limits, h: Handler, k: nat, ms: seq<Message>)
    requires forall i :: 0 <= i < |ms| ==> WellFormed(l, ms[i]) && (ms[i].body.Sized? || SendsAtEnd(h))
    ensures Pending(l, FRESH)
    ensures var r := Run(l, h, k, FRESH, Stream(ms));
            && !r.diverges && r.s == FRESH && Accepted(r.events)
            && AllSeen(r.events) == AllExpected(ms)
  {
    hide WellFormed, Run, Invariant, AllExpected, Stream, SendsAtEnd;
    StreamRun(l, h, k, ms, "");
    NothingToRun(l, h, k + |AllExpected(ms)|);
    assert Stream(ms) + "" == Stream(ms);
    assert AllExpected(ms) + [] == AllExpected(ms);
  }

  lemma NothingToRun(l: Limits, h: Handler, k: nat)
    requires Pending(l, FRESH)
    ensures Run(l, h, k, FRESH, "") == Ran([], FRESH, false)
  {
  }

  // ---------------------------------------------------------------------------------
  // Sending in the middle of a response
  // ---------------------------------------------------------------------------------

  /** No response starts like a chunk. */
  lemma ChunkIsNoResponse(l: Limits, c: char, inp: string)
    requires IsHexDigit(c)
    ensures Pending(l, FRESH)
    ensures var r := Receive(l, FRESH, [c] + inp); r.rx.Invalid? && r.s == FRESH
  {
    FreshIsPending(l);
    hide Headers.Parse;
    assert c != 'H' && !IsBlank(c);
    assert RL.Parse(l, RL.FRESH, [c] + inp).s.fail;
  }

  lemma BodyStartsWithDigit(b: Body)
    requires b.Chunked?
    ensures BodyText(b) != [] && IsHexDigit(BodyText(b)[0])
  {
    hide FoldOf, HeadersText;
    if b.pieces != [] {
      var n := |b.pieces[0].data|;
      assert IsDigitOf(16, ToHex(n)[0]);
    }
  }

  /**
    Sending a request when the header of a response in chunks is reported loses the rest
    of that response, and what follows it: the chunks are refused.
   */
  lemma SendingEarlyLosesBody(l: Limits, h: Handler, k: nat, m: Message, more: string)
    requires WellFormed(l, m) && m.body.Chunked?
    requires h(k, Rx.Valid, Receive(l, FRESH, Encode(m) + more).s)
    ensures Pending(l, FRESH)
    ensures var r := Run(l, h, k, FRESH, Encode(m) + more);
            && |r.events| == 2 && r.s == FRESH
            && Seen(r.events[0]) == Head(View(m.line, FieldsOf(m), "")) && r.events[1].rx.Invalid?
  {
    hide Receive, Invariant, Encode, BodyText, FieldsOf, Headers.IsChunked, WellFormed, HeadOf;
    HeaderCall(l, m, more);
    EncodeNonempty(m);
    BodyStartsWithDigit(m.body);
    var tail := BodyText(m.body) + more;
    assert tail == [tail[0]] + tail[1..];
    ChunkIsNoResponse(l, tail[0], tail[1..]);
    FirstCall(l, h, k, FRESH, Encode(m) + more);
    FirstCall(l, h, k + 1, FRESH, tail);
  }
}
