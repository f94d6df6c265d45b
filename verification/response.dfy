/** The response receiver of response.hpp (rx_response and response_receiver), as values. */
module Responses {
  import opened Parsing
  import RL = ResponseLines
  import Headers
  import Chunks

  /** The member variables of an rx_response. */
  datatype Response = Response(line: RL.Line, headers: Headers.Block, valid: bool) {
    predicate IsChunked() { Headers.IsChunked(headers.fields) }

    function ContentLength(): int { Headers.ContentLength(headers.fields) }

    /** Whether the end of the body is only marked by the end of the connection. */
    predicate IsCloseDelimited() {
      ContentLength() == 0 && Headers.Find(headers.fields, Headers.LC_CONTENT_LENGTH) == []
    }
  }

  const FRESH_RESPONSE: Response := Response(RL.FRESH, Headers.FRESH, false)

  /** What holds of a response between calls. */
  predicate ResponseInvariant(r: Response) {
    && r.line.valid == r.line.state.Valid?
    && !r.headers.field.state.Valid?
    && (!r.line.valid ==> r.headers == Headers.FRESH)
    && r.valid == (r.line.valid && r.headers.valid)
  }

  /** rx_response::parse, behind the response line. */
  function ParseHeaders(l: Limits, r: Response, inp: string): (p: Parsed<Response>)
    requires !r.headers.field.state.Valid? && !r.headers.valid
    ensures p.s.line == r.line
  {
    var p := Headers.Parse(l, r.headers, inp);
    Parsed(r.(headers := p.s, valid := r.valid || p.out.Done?), p.rest, p.out)
  }

  /** rx_response::parse */
  function ParseResponse(l: Limits, r: Response, inp: string): (p: Parsed<Response>)
    requires ResponseInvariant(r) && !r.valid
    ensures ResponseInvariant(p.s)
    ensures |p.rest| <= |inp|
    ensures inp != [] ==> |p.rest| < |inp|
    ensures p.out.Done? <==> p.s.valid
    ensures p.out.More? ==> p.rest == []
    ensures !r.line.fail ==> (p.s.line.fail ==> p.out.Error? && !p.s.line.valid)
  {
    if r.line.valid then ParseHeaders(l, r, inp)
    else
      var p := RL.Parse(l, r.line, inp);
      var r := r.(line := p.s);
      if p.out.Done? then ParseHeaders(l, r, p.rest) else Parsed(r, p.rest, p.out)
  }

  /** The member variables of a response_receiver. */
  datatype Receiver = Receiver(response: Response, chunk: Chunks.Chunk, body: string)

  datatype Received = Received(s: Receiver, rest: string, rx: Rx)

  const FRESH: Receiver := Receiver(FRESH_RESPONSE, Chunks.FRESH, [])

  /** What holds of a receiver between calls; `maxContent` is its max_body_size_. */
  predicate Invariant(l: Limits, s: Receiver) {
    && ResponseInvariant(s.response) && !s.response.line.fail
    && Chunks.Invariant(l, s.chunk)
    && (!s.response.valid ==> s.body == [] && s.chunk == Chunks.FRESH)
    && (s.response.valid && !s.response.IsChunked() ==>
          s.chunk == Chunks.FRESH && |s.body| <= BodyLimit(l, s.response))
  }

  /** The length that a body can grow to. */
  function BodyLimit(l: Limits, r: Response): nat {
    if r.IsCloseDelimited() then l.maxContent else if r.ContentLength() < 0 then 0 else r.ContentLength()
  }

  /** The part of receive that reads a body that is not chunked. */
  function ReceiveSized(l: Limits, s: Receiver, inp: string): (r: Received)
    ensures |r.rest| <= |inp|
  {
    if s.response.ContentLength() < 0 then Received(FRESH, inp, Invalid)
    else
      var length := if inp != [] && s.response.IsCloseDelimited() then l.maxContent else s.response.ContentLength();
      var required := length - |s.body|;
      var n := if |inp| > required then (if required >= 0 then required else 0) else |inp|;
      var s := s.(body := s.body + inp[..n]);
      if |s.body| == s.response.ContentLength() then Received(s, inp[n..], Rx.Valid)
      else Received(s, inp[n..], Incomplete)
  }

  /** The part of receive that reads a chunk. */
  function ReceiveChunk(l: Limits, s: Receiver, inp: string): (r: Received)
    requires Chunks.Invariant(l, s.chunk) && !s.chunk.valid
    ensures |r.rest| <= |inp|
  {
    var p := Chunks.Parse(l, s.chunk, inp);
    var s := s.(chunk := p.s);
    if !p.out.Done? && p.rest != [] then Received(FRESH, p.rest, Invalid)
    else if s.chunk.valid then Received(s, p.rest, ChunkReceived)
    else Received(s, p.rest, Incomplete)
  }

  /** The part of receive behind the response header, which may just have been parsed. */
  function ReceiveBody(l: Limits, s: Receiver, inp: string, parsed: bool): (r: Received)
    requires Invariant(l, s) && s.response.valid
    ensures |r.rest| <= |inp|
  {
    if !s.response.IsChunked() then ReceiveSized(l, s, inp)
    else
      var s := if s.chunk.valid then s.(chunk := Chunks.FRESH) else s;
      if parsed then Received(s, inp, Rx.Valid) else ReceiveChunk(l, s, inp)
  }

  /** receive */
  function Receive(l: Limits, s: Receiver, inp: string): (r: Received)
    requires Invariant(l, s)
    ensures |r.rest| <= |inp|
  {
    if s.response.valid then ReceiveBody(l, s, inp, false)
    else
      var p := ParseResponse(l, s.response, inp);
      var s := s.(response := p.s);
      if p.out.Done? then ReceiveBody(l, s, p.rest, true)
      else if p.rest != [] || p.s.line.fail then Received(FRESH, p.rest, Invalid)
      else Received(s, p.rest, Incomplete)
  }

  // ---------------------------------------------------------------------------------
  // What every call keeps, and when it makes progress
  // ---------------------------------------------------------------------------------

  /** A body that has grown to its limit without an announced length. */
  predicate IsStuck(l: Limits, s: Receiver) {
    && s.response.valid && !s.response.IsChunked() && s.response.IsCloseDelimited()
    && |s.body| == l.maxContent != 0
  }

  /** What the client loop adds to the invariant: it never keeps a complete response. */
  predicate Pending(l: Limits, s: Receiver) {
    && Invariant(l, s)
    && (s.response.valid && !s.response.IsChunked() ==>
          if s.response.IsCloseDelimited() then s.body != [] else |s.body| < s.response.ContentLength())
  }

  /** What holds of the result `r` of a call. */
  predicate Outcomes(l: Limits, r: Received) {
    && Invariant(l, r.s)
    && (r.rx.Incomplete? ==> Pending(l, r.s))
    && (r.rx.Invalid? ==> r.s == FRESH)
    && !r.rx.ExpectContinue?
    && (r.rx.ChunkReceived? ==> r.s.response.IsChunked())
    && (!r.rx.Invalid? && r.s.response.IsChunked() ==> Pending(l, r.s))
  }

  lemma FreshIsPending(l: Limits)
    ensures Pending(l, FRESH) && Chunks.Invariant(l, Chunks.FRESH)
  {
  }

  lemma SizedOutcomes(l: Limits, s: Receiver, inp: string)
    requires Invariant(l, s) && s.response.valid && !s.response.IsChunked()
    requires inp == [] ==> Pending(l, s) || s.body == []
    ensures var r := ReceiveSized(l, s, inp);
            && Outcomes(l, r) && !r.rx.ChunkReceived?
            && (!r.rx.Invalid? ==> r.s.response == s.response)
            && (Pending(l, s) && inp != [] ==>
                  (|r.rest| < |inp| || r.rx.Invalid? <==> !IsStuck(l, s))
                  && (IsStuck(l, s) ==> r == Received(s, inp, Incomplete)))
  {
    hide Headers.IsChunked, Headers.ContentLength, Headers.Find, ResponseInvariant, Chunks.Invariant;
    FreshIsPending(l);
    assert s.body + inp[..0] == s.body && inp[0..] == inp;
  }

  lemma ChunkOutcomes(l: Limits, s: Receiver, inp: string)
    requires Invariant(l, s) && s.response.valid && s.response.IsChunked() && !s.chunk.valid
    ensures var r := ReceiveChunk(l, s, inp);
            && Outcomes(l, r) && !r.rx.Valid?
            && (inp != [] ==> r.rx.Invalid? || |r.rest| < |inp|)
            && (!r.rx.Invalid? ==> r.s == s.(chunk := r.s.chunk))
  {
    hide Chunks.Parse, Headers.IsChunked, Headers.ContentLength, ResponseInvariant;
    FreshIsPending(l);
  }

  lemma SizedKeepsInvariant(l: Limits, s: Receiver, inp: string)
    requires Invariant(l, s) && s.response.valid && !s.response.IsChunked()
    ensures Invariant(l, ReceiveSized(l, s, inp).s)
  {
    hide Headers.IsChunked, Headers.ContentLength, Headers.Find, ResponseInvariant, Chunks.Invariant;
    FreshIsPending(l);
  }

  /** Every call keeps the invariant, on any buffer and also behind a complete response. */
  lemma ReceiveKeepsInvariant(l: Limits, s: Receiver, inp: string)
    requires Invariant(l, s)
    ensures Invariant(l, Receive(l, s, inp).s)
  {
    hide ReceiveSized, ReceiveChunk, ParseResponse, Headers.IsChunked, Headers.ContentLength, Headers.Find;
    FreshIsPending(l);
    if s.response.valid && !s.response.IsChunked() {
      SizedKeepsInvariant(l, s, inp);
    } else if s.response.valid {
      ChunkOutcomes(l, if s.chunk.valid then s.(chunk := Chunks.FRESH) else s, inp);
    } else {
      var p := ParseResponse(l, s.response, inp);
      if p.out.Done? && !p.s.IsChunked() {
        SizedKeepsInvariant(l, s.(response := p.s), p.rest);
      }
    }
  }

  /**
    A call keeps the invariant. It reads a byte or refuses the response in every state of
    the client loop but one, in which it never will: a body without an announced length
    that has reached the largest size allowed.
   */
  lemma ReceiveMakesProgress(l: Limits, s: Receiver, inp: string)
    requires Pending(l, s) && inp != []
    ensures var r := Receive(l, s, inp);
            && Outcomes(l, r)
            && (|r.rest| < |inp| || r.rx.Invalid? <==> !IsStuck(l, s))
            && (IsStuck(l, s) ==> r == Received(s, inp, Incomplete))
  {
    hide ReceiveSized, ReceiveChunk, ParseResponse, Headers.IsChunked, Headers.ContentLength, Headers.Find;
    FreshIsPending(l);
    if s.response.valid && !s.response.IsChunked() {
      SizedOutcomes(l, s, inp);
    } else if s.response.valid {
      ChunkOutcomes(l, if s.chunk.valid then s.(chunk := Chunks.FRESH) else s, inp);
    } else {
      var p := ParseResponse(l, s.response, inp);
      var s' := s.(response := p.s);
      if p.out.Done? && !p.s.IsChunked() {
        SizedOutcomes(l, s', p.rest);
      }
    }
  }
}
