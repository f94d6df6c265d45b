/** What the response receiver decides, case by case, in terms of the letters of the header. */
module ResponseVerdicts {
  import opened Parsing
  import opened Responses
  import opened Framing
  import Client
  import Headers
  import Chunks

  lemma FramingIsFound(r: Response)
    ensures r.IsChunked() <==> InChunks(r.headers.fields)
    ensures r.ContentLength() == Announced(r.headers.fields)
    ensures r.IsCloseDelimited() <==> ValueOf(r.headers.fields, "content-length") == ""
  {
    IsChunkedExactly(r.headers.fields);
    ContentLengthExactly(r.headers.fields);
    hide InChunks;
  }

  /** The length up to which a body without chunks is filled, if there is anything to fill it with. */
  ghost function BodySize(l: Limits, fields: Headers.Fields, rest: string): int {
    if ValueOf(fields, "content-length") == "" && rest != "" then l.maxContent else Announced(fields)
  }

  lemma SizedBody(l: Limits, s: Receiver, rest: string)
    requires s.body == ""
    ensures var fields := s.response.headers.fields;
            var n := BodySize(l, fields, rest);
            ReceiveSized(l, s, rest) ==
            if Announced(fields) < 0 then Received(FRESH, rest, Rx.Invalid)
            else
              var m := if |rest| < n then |rest| else n;
              Received(s.(body := rest[..m]), rest[m..], if m == Announced(fields) then Rx.Valid else Incomplete)
  {
    FramingIsFound(s.response);
    hide Announced, Headers.ContentLength, Headers.Find, InChunks, Headers.IsChunked;
    var n := BodySize(l, s.response.headers.fields, rest);
    if 0 <= n <= |rest| {
      assert "" + rest[..n] == rest[..n];
    }
    assert "" + rest[..|rest|] == rest[..|rest|];
  }

  /**
    Main result at the call that completes a header: chunks are announced, the length is
    refused, or the body is filled up to its length or, without one, as far as it may grow.
   */
  lemma HeaderVerdict(l: Limits, s: Receiver, inp: string)
    requires Invariant(l, s) && !s.response.valid && ParseResponse(l, s.response, inp).out.Done?
    ensures var p := ParseResponse(l, s.response, inp);
            var s' := s.(response := p.s);
            var fields := p.s.headers.fields;
            var n := BodySize(l, fields, p.rest);
            Receive(l, s, inp) ==
            if InChunks(fields) then Received(s', p.rest, Rx.Valid)
            else if Announced(fields) < 0 then Received(FRESH, p.rest, Rx.Invalid)
            else
              var m := if |p.rest| < n then |p.rest| else n;
              Received(s'.(body := p.rest[..m]), p.rest[m..], if m == Announced(fields) then Rx.Valid else Incomplete)
  {
    var p := ParseResponse(l, s.response, inp);
    FramingIsFound(p.s);
    SizedBody(l, s.(response := p.s), p.rest);
    hide ParseResponse, ReceiveSized, Announced, InChunks, Headers.IsChunked, Headers.ContentLength, BodySize;
  }

  /** Main result for a chunk of a response: refused, reported, or not complete. */
  lemma ChunkVerdict(l: Limits, s: Receiver, inp: string)
    requires Invariant(l, s) && s.response.valid && InChunks(s.response.headers.fields)
    ensures var c := if s.chunk.valid then Chunks.FRESH else s.chunk;
            && Chunks.Invariant(l, c) && !c.valid
            && var p := Chunks.Parse(l, c, inp);
               Receive(l, s, inp) ==
               if p.out.Error? && p.rest != "" then Received(FRESH, p.rest, Rx.Invalid)
               else if !p.out.Done? then Received(s.(chunk := p.s), "", Incomplete)
               else Received(s.(chunk := p.s), p.rest, ChunkReceived)
  {
    FramingIsFound(s.response);
    FreshIsPending(l);
    hide Chunks.Parse, Announced, InChunks, Headers.IsChunked, Headers.ContentLength;
  }

  /** Main result for a report: the receiver is clear behind a request that is sent, and behind a complete response. */
  lemma HandledExactly(h: Client.Handler, k: nat, rx: Rx, s: Receiver)
    requires rx.Valid? || rx.ChunkReceived?
    ensures var complete := if rx.Valid? then !InChunks(s.response.headers.fields) else s.chunk.header.size == 0;
            Client.Handle(h, k, rx, s) == if complete || h(k, rx, s) then FRESH else s
  {
    FramingIsFound(s.response);
    NotInChunks();
    hide InChunks, Headers.IsChunked;
  }

  lemma NotInChunks()
    ensures !FRESH.response.IsChunked()
  {
  }
}
