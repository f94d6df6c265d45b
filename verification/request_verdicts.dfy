/**
  What the request receiver decides, case by case, in terms of the letters of the header
  alone: which report a request gives, with which response code, and where it leaves off.
 */
module RequestVerdicts {
  import opened Characters
  import opened Parsing
  import opened Requests
  import opened Framing
  import Server
  import Headers
  import Chunks

  /** An HTTP/1.1 request that names no host. */
  predicate LacksHost(r: Request) {
    r.line.major == '1' && r.line.minor == '1' && ValueOf(r.headers.fields, "host") == ""
  }

  /** A request that asks for a 100 Continue response, which HTTP/1.0 does not know. */
  ghost predicate Asks(r: Request) {
    && AsksToContinue(r.headers.fields)
    && !(r.line.major == '0' || (r.line.major == '1' && r.line.minor == '0'))
  }

  /** The response code to a request without chunks that is refused, with `n` bytes behind its header. */
  ghost function Refusal(l: Limits, r: Request, n: nat): Option<Code> {
    var length := Announced(r.headers.fields);
    if r.line.verb == "TRACE" && length != 0 then Some(BadRequest)
    else if length < 0 then Some(BadRequest)
    else if length > l.maxContent then Some(PayloadTooLarge)
    else if n > 0 && ValueOf(r.headers.fields, "content-length") == "" then Some(LengthRequired)
    else None
  }

  lemma HostIsAskedExactly(r: Request)
    ensures r.MissingHost() <==> LacksHost(r)
  {
  }

  lemma AskingIsFoundExactly(r: Request)
    ensures r.ExpectsContinue() <==> Asks(r)
  {
    ExpectsContinueExactly(r.headers.fields);
  }

  lemma FramingIsFound(r: Request)
    ensures r.IsChunked() <==> InChunks(r.headers.fields)
    ensures r.ContentLength() == Announced(r.headers.fields)
    ensures Headers.Find(r.headers.fields, Headers.LC_CONTENT_LENGTH) == ValueOf(r.headers.fields, "content-length")
  {
    IsChunkedExactly(r.headers.fields);
    ContentLengthExactly(r.headers.fields);
  }

  /** The request as it is passed on when it is complete. */
  function PassedOn(s: Receiver, verb: string): string {
    if verb == "HEAD" && s.translateHead then "GET" else verb
  }

  /**
    Main result for the host: a complete header without one, and with the version that
    needs one, is refused behind its blank line.
   */
  lemma MissingHostIsRefused(l: Limits, s: Receiver, inp: string)
    requires Invariant(l, s) && !s.request.valid
    requires var p := ParseRequest(l, s.request, inp); p.out.Done? && LacksHost(p.s)
    ensures var p := ParseRequest(l, s.request, inp);
            Receive(l, s, inp) == Received(s.(request := p.s, code := BadRequest), p.rest, Rx.Invalid)
  {
    var p := ParseRequest(l, s.request, inp);
    HostIsAskedExactly(p.s);
    hide ParseRequest, Request.MissingHost;
  }

  /** A receiver as it is behind a refusal. */
  function Refused(s: Receiver, code: Code): Receiver {
    s.(code := code, request := FRESH_REQUEST, chunk := Chunks.FRESH, body := "", continueSent := false, isHead := false)
  }

  /** A receiver as it reports a complete request. */
  function Reported(s: Receiver, r: Request, body: string): Receiver {
    s.(request := r.(line := r.line.(verb := PassedOn(s, r.line.verb))),
       body := body,
       isHead := r.line.verb == "HEAD",
       code := if r.line.verb == "TRACE" then MethodNotAllowed else s.code)
  }

  lemma WholeOrPart(s: Receiver, n: nat, rest: string)
    requires s.body == ""
    ensures ReadBody(s, n, rest) ==
            if |rest| < n then Received(s.(body := rest), "", Incomplete)
            else Received(Complete(s.(body := rest[..n])), rest[n..], Rx.Valid)
  {
    hide Complete;
    assert rest[..|rest|] == rest && "" + rest == rest;
    if n <= |rest| {
      assert "" + rest[..n] == rest[..n];
      assert |rest| == n ==> rest[n..] == "";
    }
  }

  lemma CompleteIsReported(s: Receiver, body: string)
    ensures s.request.line.verb != "TRACE" ==> Complete(s.(body := body)) == Reported(s, s.request, body)
    ensures s.request.line.verb == "TRACE" ==>
              Complete(s.(code := MethodNotAllowed, body := body)) == Reported(s, s.request, body)
  {
    assert "TRACE" != "HEAD";
  }

  lemma RefusedIsCleared(s: Receiver, code: Code, rest: string)
    ensures Refuse(s, code, rest) == Received(Refused(s, code), rest, Rx.Invalid)
    ensures Refuse(s.(code := MethodNotAllowed), code, rest) == Received(Refused(s, code), rest, Rx.Invalid)
  {
  }

  /** The body of a request without chunks, from the first byte behind its header. */
  lemma SizedBody(l: Limits, s: Receiver, rest: string)
    requires Invariant(l, s) && s.request.valid && s.body == "" && !s.request.IsChunked()
    ensures var n := Announced(s.request.headers.fields);
            ReceiveSized(l, s, rest) ==
            match Refusal(l, s.request, |rest|)
            case Some(code) => Received(Refused(s, code), rest, Rx.Invalid)
            case None =>
              if |rest| < n then Received(s.(body := rest), "", Incomplete)
              else Received(Reported(s, s.request, rest[..n]), rest[n..], Rx.Valid)
  {
    FramingIsFound(s.request);
    NoLength(s.request);
    hide Announced, Headers.IsChunked, Headers.ContentLength, Headers.Find, RequestInvariant, ValueOf, ReadBody, Complete,
      Refused, Reported, Refuse, Chunks.Invariant;
    RefusedIsCleared(s, BadRequest, rest);
    RefusedIsCleared(s, PayloadTooLarge, rest);
    RefusedIsCleared(s, LengthRequired, rest);
    var n := s.request.ContentLength();
    if 0 <= n {
      WholeOrPart(s, n, rest);
      WholeOrPart(s.(code := MethodNotAllowed), n, rest);
      if n <= |rest| {
        CompleteIsReported(s, rest[..n]);
      }
    }
  }

  lemma NoLength(r: Request)
    ensures Headers.Find(r.headers.fields, Headers.LC_CONTENT_LENGTH) == [] ==> r.ContentLength() == 0
  {
  }

  /**
    Main result for a request without chunks, at the call that completes its header:
    refused exactly in the four cases above and otherwise reported with the announced
    bytes, or as soon as they arrive.
   */
  lemma SizedVerdict(l: Limits, s: Receiver, inp: string)
    requires Invariant(l, s) && !s.request.valid
    requires var p := ParseRequest(l, s.request, inp);
             p.out.Done? && !LacksHost(p.s) && !InChunks(p.s.headers.fields)
    ensures var p := ParseRequest(l, s.request, inp);
            var n := Announced(p.s.headers.fields);
            Receive(l, s, inp) ==
            match Refusal(l, p.s, |p.rest|)
            case Some(code) => Received(Refused(s, code), p.rest, Rx.Invalid)
            case None =>
              if |p.rest| < n then Received(s.(request := p.s, body := p.rest), "", Incomplete)
              else Received(Reported(s, p.s, p.rest[..n]), p.rest[n..], Rx.Valid)
  {
    var p := ParseRequest(l, s.request, inp);
    var s' := s.(request := p.s);
    HostIsAskedExactly(p.s);
    FramingIsFound(p.s);
    assert Invariant(l, s') by {
      hide ParseRequest, InChunks, Announced;
    }
    assert Receive(l, s, inp) == ReceiveSized(l, s', p.rest) by {
      hide ParseRequest, InChunks, Announced, ReceiveSized, Headers.IsChunked, Headers.ContentLength;
    }
    hide *;
    SizedBody(l, s', p.rest);
  }

  /**
    Main result for a request in chunks, at the call that completes its header: it asks,
    is reported, or goes on with its chunks.
   */
  lemma ChunkedVerdict(l: Limits, s: Receiver, inp: string)
    requires Invariant(l, s) && !s.request.valid
    requires var p := ParseRequest(l, s.request, inp);
             p.out.Done? && !LacksHost(p.s) && InChunks(p.s.headers.fields)
    ensures var p := ParseRequest(l, s.request, inp);
            var s' := s.(request := p.s);
            && Invariant(l, s')
            && Receive(l, s, inp) ==
               if Asks(p.s) && !s.continueSent then Received(s'.(code := Continue), p.rest, ExpectContinue)
               else if !s.concatenate then Received(s', p.rest, Rx.Valid)
               else Receive(l, s', p.rest)
  {
    var p := ParseRequest(l, s.request, inp);
    HostIsAskedExactly(p.s);
    FramingIsFound(p.s);
    AskingIsFoundExactly(p.s);
    hide ParseRequest, InChunks, Announced, Asks, LacksHost, ReceiveChunk, Headers.IsChunked, Headers.ContentLength,
      Headers.ExpectsContinue, Headers.Find;
  }

  /** Main result for a chunk: what is refused and with which code, added to the body, or reported. */
  lemma ChunkVerdict(l: Limits, s: Receiver, inp: string)
    requires Invariant(l, s) && s.request.valid && !LacksHost(s.request) && InChunks(s.request.headers.fields)
    ensures var c := if s.chunk.valid then Chunks.FRESH else s.chunk;
            && Chunks.Invariant(l, c) && !c.valid
            && var p := Chunks.Parse(l, c, inp);
               var last := p.s.header.size == 0;
               Receive(l, s, inp) ==
               if p.out.Error? && p.rest != "" then Received(Refused(s, BadRequest), p.rest, Rx.Invalid)
               else if !p.out.Done? then Received(s.(chunk := p.s), "", Incomplete)
               else if !s.concatenate then Received(s.(chunk := p.s), p.rest, ChunkReceived)
               else if last then Received(s.(chunk := p.s), p.rest, Rx.Valid)
               else if |s.body| + |p.s.data| > l.maxContent then Received(Refused(s, PayloadTooLarge), p.rest, Rx.Invalid)
               else Received(s.(chunk := p.s, body := s.body + p.s.data), p.rest, Incomplete)
  {
    HostIsAskedExactly(s.request);
    FramingIsFound(s.request);
    hide InChunks, Announced, LacksHost, Headers.IsChunked, Headers.ContentLength, Headers.Find, Chunks.Parse;
  }

  // ---------------------------------------------------------------------------------
  // The server
  // ---------------------------------------------------------------------------------

  /** What the loop reports of a request without a host: a single refusal, and nothing behind it. */
  lemma ServerRefusesMissingHost(l: Limits, h: Server.Handler, k: nat, s: Receiver, inp: string)
    requires Pending(l, s) && !s.request.valid && inp != ""
    requires var p := ParseRequest(l, s.request, inp); p.out.Done? && LacksHost(p.s)
    ensures var p := ParseRequest(l, s.request, inp);
            var r := Server.Run(l, h, k, s, inp);
            && r.events == [Server.Event(Rx.Invalid, s.(request := p.s, code := BadRequest))]
            && r.s == Refused(s, BadRequest)
  {
    MissingHostIsRefused(l, s, inp);
    Server.FirstCall(l, h, k, s, inp);
    hide ParseRequest, Receive, Server.Run, Invariant;
  }

  /** A receiver that has been cleared. */
  function Cleared(s: Receiver): Receiver {
    s.(request := FRESH_REQUEST, chunk := Chunks.FRESH, body := "", continueSent := false, isHead := false)
  }

  /**
    Main result for a report: behind a final response the receiver is clear, whatever was
    reported; behind a 100 Continue response, or none, it is clear exactly if the request
    is complete.
   */
  lemma HandledExactly(h: Server.Handler, k: nat, rx: Rx, s: Receiver)
    requires rx.Valid? || rx.ExpectContinue? || rx.ChunkReceived?
    requires rx.ExpectContinue? || rx.ChunkReceived? ==> InChunks(s.request.headers.fields)
    ensures var r := h(k, rx, s);
            var asks := rx == ExpectContinue;
            var complete :=
              if rx.Valid? then s.request.line.verb == "TRACE" || !InChunks(s.request.headers.fields)
              else rx.ChunkReceived? && s.chunk.header.size == 0;
            Server.Handle(h, k, rx, s) ==
            if complete || (r.clears && !asks) then Cleared(s)
            else if r.clears then Cleared(s).(continueSent := r.marksContinue)
            else s.(continueSent := s.continueSent || r.marksContinue)
  {
    IsChunkedExactly(s.request.headers.fields);
    NotInChunks();
    hide Headers.IsChunked, InChunks;
  }

  lemma NotInChunks()
    ensures !FRESH_REQUEST.IsChunked()
  {
  }
}
