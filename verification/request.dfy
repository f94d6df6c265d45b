/** The request receiver of request.hpp (rx_request and request_receiver), as values. */
module Requests {
  import opened Parsing
  import RL = RequestLines
  import Headers
  import Chunks

  /** The member variables of an rx_request. */
  datatype Request = Request(line: RL.Line, headers: Headers.Block, valid: bool) {
    predicate IsChunked() { Headers.IsChunked(headers.fields) }

    function ContentLength(): int { Headers.ContentLength(headers.fields) }

    predicate IsHttp10OrEarlier() { line.major == '0' || (line.major == '1' && line.minor == '0') }

    /** An HTTP/1.1 request must have a host. */
    predicate MissingHost() {
      line.major == '1' && line.minor == '1' && Headers.Find(headers.fields, Headers.LC_HOST) == []
    }

    predicate ExpectsContinue() { !IsHttp10OrEarlier() && Headers.ExpectsContinue(headers.fields) }

    predicate IsHead() { line.verb == HEAD }

    predicate IsTrace() { line.verb == TRACE }
  }

  const HEAD: string := "HEAD"
  const GET: string := "GET"
  const TRACE: string := "TRACE"

  const FRESH_REQUEST: Request := Request(RL.FRESH, Headers.FRESH, false)

  /** What holds of a request between calls. */
  predicate RequestInvariant(r: Request) {
    && r.line.valid == r.line.state.Valid?
    && !r.headers.field.state.Valid?
    && (!r.line.valid ==> r.headers == Headers.FRESH)
    && r.valid == (r.line.valid && r.headers.valid)
  }

  /** rx_request::parse, behind the request line. */
  function ParseHeaders(l: Limits, r: Request, inp: string): (p: Parsed<Request>)
    requires !r.headers.field.state.Valid? && !r.headers.valid
    ensures p.s.line == r.line
  {
    var p := Headers.Parse(l, r.headers, inp);
    Parsed(r.(headers := p.s, valid := r.valid || p.out.Done?), p.rest, p.out)
  }

  /** rx_request::parse */
  function ParseRequest(l: Limits, r: Request, inp: string): (p: Parsed<Request>)
    requires RequestInvariant(r) && !r.valid
    ensures RequestInvariant(p.s)
    ensures |p.rest| <= |inp|
    ensures inp != [] ==> |p.rest| < |inp|
    ensures p.out.Done? <==> p.s.valid
    ensures p.out.More? ==> p.rest == []
    ensures !r.line.fail ==> (p.s.line.fail ==> p.out.Error? && !p.s.line.valid)
  {
    if r.line.valid then ParseHeaders(l, r, inp)
    else
      var p := RL.Parse(l, r.line, inp);
      var r := r.(line := p.s);
      if p.out.Done? then ParseHeaders(l, r, p.rest) else Parsed(r, p.rest, p.out)
  }

  /** The response codes that a receiver chooses. */
  datatype Code =
    | NoContent | Continue | BadRequest | MethodNotAllowed | LengthRequired
    | PayloadTooLarge | UriTooLong | NotImplemented

  /** The member variables of a request_receiver. */
  datatype Receiver = Receiver(
    translateHead: bool,
    concatenate: bool,
    request: Request,
    chunk: Chunks.Chunk,
    body: string,
    code: Code,
    continueSent: bool,
    isHead: bool)

  /** A receiver after a call: its state, the bytes it did not read, and its report. */
  datatype Received = Received(s: Receiver, rest: string, rx: Rx)

  const FRESH_RECEIVER: Receiver :=
    Receiver(true, true, FRESH_REQUEST, Chunks.FRESH, [], NoContent, false, false)

  /** clear: the response code and the settings are kept. */
  function Clear(s: Receiver): Receiver {
    s.(request := FRESH_REQUEST, chunk := Chunks.FRESH, body := [], continueSent := false, isHead := false)
  }

  function Refuse(s: Receiver, code: Code, rest: string): Received {
    Received(Clear(s.(code := code)), rest, Invalid)
  }

  /** The length that a body can grow to: none if the announced one is not acceptable. */
  function BodyLimit(l: Limits, r: Request): nat {
    if r.ContentLength() < 0 || r.ContentLength() > l.maxContent then 0 else r.ContentLength()
  }

  /** What holds of a receiver after any sequence of its operations. */
  predicate Invariant(l: Limits, s: Receiver) {
    && RequestInvariant(s.request) && !s.request.line.fail
    && Chunks.Invariant(l, s.chunk)
    && |s.body| <= l.maxContent
    && (!s.request.valid ==> s.body == [] && s.chunk == Chunks.FRESH)
    && (s.request.valid && !s.request.IsChunked() ==>
          |s.body| <= BodyLimit(l, s.request) && s.chunk == Chunks.FRESH)
  }

  /** A complete request: HEAD may be passed on as GET. */
  function Complete(s: Receiver): Receiver {
    var s := s.(isHead := s.request.IsHead());
    if s.isHead && s.translateHead
    then s.(request := s.request.(line := s.request.line.(verb := GET)))
    else s
  }

  /** The body of a request of an acceptable length, as far as it has arrived. */
  function ReadBody(s: Receiver, length: nat, inp: string): (r: Received)
    requires |s.body| <= length
    ensures |r.rest| <= |inp|
  {
    var required := length - |s.body|;
    var n := if |inp| > required then required else |inp|;
    var s := s.(body := s.body + inp[..n]);
    if |s.body| == length then Received(Complete(s), inp[n..], Rx.Valid)
    else Received(s, inp[n..], Incomplete)
  }

  /** The part of receive that reads a body of a known length. */
  function ReceiveSized(l: Limits, s: Receiver, inp: string): (r: Received)
    requires |s.body| <= BodyLimit(l, s.request)
    ensures |r.rest| <= |inp|
  {
    var length := s.request.ContentLength();
    if s.request.IsTrace() && length != 0 then Refuse(s, BadRequest, inp)
    else
      var s := if s.request.IsTrace() then s.(code := MethodNotAllowed) else s;
      if length < 0 then Refuse(s, BadRequest, inp)
      else if length > l.maxContent then Refuse(s, PayloadTooLarge, inp)
      else if length == 0 && inp != []
           && Headers.Find(s.request.headers.fields, Headers.LC_CONTENT_LENGTH) == []
      then Refuse(s, LengthRequired, inp)
      else ReadBody(s, length, inp)
  }

  /** The part of receive that reads a chunk. */
  function ReceiveChunk(l: Limits, s: Receiver, inp: string): (r: Received)
    requires Chunks.Invariant(l, s.chunk) && !s.chunk.valid
    ensures |r.rest| <= |inp|
  {
    var p := Chunks.Parse(l, s.chunk, inp);
    var s := s.(chunk := p.s);
    if !p.out.Done? && p.rest != [] then Refuse(s, BadRequest, p.rest)
    else if !s.chunk.valid then Received(s, p.rest, Incomplete)
    else if !s.concatenate then Received(s, p.rest, ChunkReceived)
    else if s.chunk.IsLast() then Received(s, p.rest, Rx.Valid)
    else if |s.body| + |s.chunk.data| > l.maxContent then Refuse(s, PayloadTooLarge, p.rest)
    else Received(s.(body := s.body + s.chunk.data), p.rest, Incomplete)
  }

  /** The part of receive behind the request header, which may just have been parsed. */
  function ReceiveBody(l: Limits, s: Receiver, inp: string, parsed: bool): (r: Received)
    requires Invariant(l, s) && s.request.valid
    ensures |r.rest| <= |inp|
  {
    if s.request.MissingHost() then Received(s.(code := BadRequest), inp, Invalid)
    else if !s.request.IsChunked() then ReceiveSized(l, s, inp)
    else
      var s := if s.chunk.valid then s.(chunk := Chunks.FRESH) else s;
      if parsed && s.request.ExpectsContinue() && !s.continueSent
      then Received(s.(code := Continue), inp, ExpectContinue)
      else if parsed && !s.concatenate then Received(s, inp, Rx.Valid)
      else ReceiveChunk(l, s, inp)
  }

  /** The response code for a header that cannot be parsed. */
  function RefusalCode(state: RL.State): Code {
    match state
    case ErrorMethodLength => NotImplemented
    case ErrorUriLength => UriTooLong
    case _ => BadRequest
  }

  /** receive */
  function Receive(l: Limits, s: Receiver, inp: string): (r: Received)
    requires Invariant(l, s)
    ensures |r.rest| <= |inp|
  {
    if s.request.valid then ReceiveBody(l, s, inp, false)
    else
      var p := ParseRequest(l, s.request, inp);
      var s := s.(request := p.s);
      if p.out.Done? then ReceiveBody(l, s, p.rest, true)
      else if p.rest != [] || p.s.line.fail then
        Refuse(s, RefusalCode(p.s.line.state), p.rest)
      else Received(s, p.rest, Incomplete)
  }

  // ---------------------------------------------------------------------------------
  // What every run keeps
  // ---------------------------------------------------------------------------------

  /** A completed request keeps all that the invariant looks at. */
  lemma CompleteKeepsRequest(s: Receiver)
    ensures var r := Complete(s);
            && r.request.headers == s.request.headers && r.request.valid == s.request.valid
            && (RequestInvariant(s.request) ==> RequestInvariant(r.request))
            && r.request.line.fail == s.request.line.fail
            && r.body == s.body && r.chunk == s.chunk
  {
  }

  lemma ReadBodyKeepsInvariant(l: Limits, s: Receiver, length: nat, inp: string)
    requires Invariant(l, s) && s.request.valid && !s.request.IsChunked()
    requires length == s.request.ContentLength() <= l.maxContent
    ensures var r := ReadBody(s, length, inp);
            && Invariant(l, r.s)
            && (r.rx.Valid? ==> |r.s.body| == r.s.request.ContentLength() && !r.s.request.IsChunked())
            && (r.rx.Incomplete? ==> r.s.request == s.request && |r.s.body| < s.request.ContentLength())
            && (r.rx.Valid? || r.rx.Incomplete?)
            && (|s.body| < length && inp != [] ==> |r.rest| < |inp|)
  {
    hide Complete, RequestInvariant, Headers.IsChunked, Headers.ContentLength;
    var n := |inp| - |ReadBody(s, length, inp).rest|;
    CompleteKeepsRequest(s.(body := s.body + inp[..n]));
  }

  lemma SizedKeepsInvariant(l: Limits, s: Receiver, inp: string)
    requires Invariant(l, s) && s.request.valid && !s.request.IsChunked()
    ensures var r := ReceiveSized(l, s, inp);
            && Invariant(l, r.s)
            && (r.rx.Valid? ==> |r.s.body| == r.s.request.ContentLength())
            && (r.rx.Incomplete? ==> r.s.request == s.request && |r.s.body| < s.request.ContentLength() <= l.maxContent)
            && (r.rx.Invalid? || r.rx.Valid? || r.rx.Incomplete?)
            && (r.rx.Valid? ==> !r.s.request.IsChunked())
            && (|s.body| < s.request.ContentLength() && inp != [] ==> r.rx.Invalid? || |r.rest| < |inp|)
  {
    hide Headers.IsChunked, Headers.ContentLength, ReadBody, RequestInvariant;
    ClearKeepsInvariant(l, s);
    var length := s.request.ContentLength();
    if 0 <= length <= l.maxContent {
      ReadBodyKeepsInvariant(l, s, length, inp);
      ReadBodyKeepsInvariant(l, s.(code := MethodNotAllowed), length, inp);
    }
  }

  lemma ClearKeepsInvariant(l: Limits, s: Receiver)
    ensures Invariant(l, Clear(s)) && Pending(l, Clear(s))
  {
  }

  lemma ChunkKeepsInvariant(l: Limits, s: Receiver, inp: string)
    requires Invariant(l, s) && s.request.valid && s.request.IsChunked() && !s.chunk.valid
    ensures var r := ReceiveChunk(l, s, inp);
            && Invariant(l, r.s)
            && (!r.rx.Invalid? ==> r.s.request == s.request)
            && !r.rx.ExpectContinue?
            && (inp != [] ==> r.rx.Invalid? || |r.rest| < |inp|)
  {
    hide Chunks.Parse, Headers.IsChunked, Headers.ContentLength;
    ClearKeepsInvariant(l, s);
  }

  /**
    What the server loop adds to the invariant: it never keeps a request that is already
    complete or that has been refused.
   */
  predicate Pending(l: Limits, s: Receiver) {
    && Invariant(l, s)
    && (s.request.valid ==> !s.request.MissingHost())
    && (s.request.valid && !s.request.IsChunked() ==> |s.body| < s.request.ContentLength() <= l.maxContent)
  }

  /** What holds of the result `r` of a call. */
  predicate Outcomes(l: Limits, r: Received) {
    && Invariant(l, r.s)
    && (r.rx.Incomplete? ==> Pending(l, r.s))
    && (r.rx.Valid? && !r.s.request.IsChunked() ==> |r.s.body| == r.s.request.ContentLength())
    && (!r.rx.Invalid? && r.s.request.IsChunked() ==> Pending(l, r.s))
    && (r.rx.ExpectContinue? || r.rx.ChunkReceived? ==> r.s.request.IsChunked())
  }

  lemma BodyMakesProgress(l: Limits, s: Receiver, inp: string, parsed: bool)
    requires Invariant(l, s) && s.request.valid
    ensures var r := ReceiveBody(l, s, inp, parsed);
            && Outcomes(l, r)
            && (!parsed && Pending(l, s) && inp != [] ==> r.rx.Invalid? || |r.rest| < |inp|)
  {
    hide ReceiveSized, ReceiveChunk, Headers.IsChunked, Headers.ContentLength;
    if !s.request.IsChunked() {
      SizedKeepsInvariant(l, s, inp);
    } else {
      ChunkKeepsInvariant(l, if s.chunk.valid then s.(chunk := Chunks.FRESH) else s, inp);
    }
  }

  /**
    On every input and from every state that the server loop can be in, a call reads at
    least one byte or refuses the request; and every call keeps the invariant.
   */
  lemma ReceiveMakesProgress(l: Limits, s: Receiver, inp: string)
    requires Invariant(l, s)
    ensures var r := Receive(l, s, inp);
            && Outcomes(l, r)
            && (Pending(l, s) && inp != [] ==> r.rx.Invalid? || |r.rest| < |inp|)
  {
    hide ReceiveBody, ParseRequest, Headers.IsChunked, Headers.ContentLength;
    if s.request.valid {
      BodyMakesProgress(l, s, inp, false);
    } else {
      var p := ParseRequest(l, s.request, inp);
      if p.out.Done? {
        BodyMakesProgress(l, s.(request := p.s), p.rest, true);
      } else {
        ClearKeepsInvariant(l, s.(request := p.s));
      }
    }
  }

  // ---------------------------------------------------------------------------------
  // Every run
  // ---------------------------------------------------------------------------------

  /** The operations of a receiver. */
  datatype Operation =
    | DoReceive(buffer: string)
    | DoClear
    | SetTranslateHead(enable: bool)
    | SetConcatenateChunks(enable: bool)
    | SetContinueSent

  /** The state after one operation. */
  function Do(l: Limits, s: Receiver, op: Operation): (r: Receiver)
    requires Invariant(l, s)
    ensures Invariant(l, r)
  {
    match op
    case DoReceive(buffer) =>
      ReceiveMakesProgress(l, s, buffer);
      hide Receive, Invariant;
      Receive(l, s, buffer).s
    case DoClear => Clear(s)
    case SetTranslateHead(enable) => s.(translateHead := enable)
    case SetConcatenateChunks(enable) => s.(concatenate := enable)
    case SetContinueSent => s.(continueSent := true)
  }

  /** The state after a sequence of operations, in any order and on any buffers. */
  function After(l: Limits, s: Receiver, ops: seq<Operation>): (r: Receiver)
    requires Invariant(l, s)
    ensures Invariant(l, r)
    decreases |ops|
  {
    if ops == [] then s else After(l, Do(l, s, ops[0]), ops[1..])
  }

  /** Main result: what the invariant says of a new receiver after any run. */
  lemma EveryRunKeepsLimits(l: Limits, ops: seq<Operation>)
    ensures var s := After(l, FRESH_RECEIVER, ops);
            && (!s.request.valid ==> s.body == [])
            && |s.body| <= l.maxContent
            && (s.request.valid && !s.request.IsChunked() && s.request.ContentLength() >= 0 ==>
                  |s.body| <= s.request.ContentLength())
            && (s.chunk.header.valid ==> |s.chunk.data| <= s.chunk.header.size <= l.maxChunk)
            && (s.chunk.valid && !s.chunk.IsLast() ==> |s.chunk.data| == s.chunk.header.size)
  {
  }
}
