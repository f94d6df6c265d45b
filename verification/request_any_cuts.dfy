/** Cutting any stream into buffers, for one call of the request receiver. */
module RequestAnyCuts {
  import opened Parsing
  import opened Requests
  import opened Suffixes
  import opened AnyCuts
  import RL = RequestLines
  import FL = FieldLines
  import Headers
  import Chunks
  import RequestCuts

  /** Whether a buffer may start with `a` when the receiver is in state `s`. */
  predicate ReceiverStartsWell(s: Receiver, a: string) {
    && (!s.request.valid ==> StartsWell(s.request.headers, a))
    && (!s.chunk.valid ==> StartsWell(s.chunk.trailers, a))
  }

  /** Whether cutting between `a` and `b` leaves the header of a request as it is. */
  predicate RequestHarmless(l: Limits, r: Request, a: string, b: string)
    requires RequestInvariant(r) && !r.valid && b != []
  {
    if r.line.valid then HeadersHarmless(l, r.headers, a, b)
    else
      var p := RL.Parse(l, r.line, a);
      p.out.Done? ==> HeadersHarmless(l, r.headers, p.rest, b)
  }

  /** The chunk that a call reads on with. */
  function CurrentChunk(s: Receiver): Chunks.Chunk {
    if s.chunk.valid then Chunks.FRESH else s.chunk
  }

  /** Whether what follows the header, which may just have been parsed, is read as a chunk. */
  predicate ReadsChunk(s: Receiver, parsed: bool) {
    && !s.request.MissingHost() && s.request.IsChunked()
    && (parsed ==> s.concatenate && (s.request.ExpectsContinue() ==> s.continueSent))
  }

  /** Whether a request is complete only because the buffer ends behind its header. */
  predicate EndsUnannounced(rx: Rx, s: Receiver, rest: string) {
    && rx.Valid? && rest == [] && !s.request.IsChunked()
    && Headers.Find(s.request.headers.fields, Headers.LC_CONTENT_LENGTH) == []
  }

  predicate BodyHarmless(l: Limits, s: Receiver, a: string, b: string, parsed: bool)
    requires Invariant(l, s) && s.request.valid && b != []
  {
    && (ReadsChunk(s, parsed) ==> ChunkHarmless(l, CurrentChunk(s), a, b))
    && var p := ReceiveBody(l, s, a, parsed); !EndsUnannounced(p.rx, p.s, p.rest)
  }

  /** Whether cutting between `a` and `b` changes nothing for a call that is given `a` first. */
  predicate Harmless(l: Limits, s: Receiver, a: string, b: string)
    requires Invariant(l, s) && b != []
  {
    if s.request.valid then BodyHarmless(l, s, a, b, false)
    else
      var p := ParseRequest(l, s.request, a);
      if p.out.Done? then Invariant(l, s.(request := p.s)) && BodyHarmless(l, s.(request := p.s), p.rest, b, true)
      else RequestHarmless(l, s.request, a, b)
  }

  lemma RequestInTwo(l: Limits, r: Request, a: string, b: string)
    requires RequestInvariant(r) && !r.valid && !r.line.fail && b != []
    requires StartsWell(r.headers, a) && RequestHarmless(l, r, a, b)
    ensures var p := ParseRequest(l, r, a);
            ParseRequest(l, r, a + b) == if p.out.More? then ParseRequest(l, p.s, b) else p.(rest := p.rest + b)
    ensures var p := ParseRequest(l, r, a);
            p.out.Error? ==> p.rest != [] || p.s.line.fail
  {
    hide RL.Parse, Headers.Parse;
    if r.line.valid {
      HeadersInTwo(l, r.headers, a, b);
    } else {
      RL.ParseCut(l, r.line, a, b);
      var p := RL.Parse(l, r.line, a);
      if p.out.Done? {
        HeadersInTwo(l, r.headers, p.rest, b);
      }
    }
  }

  lemma ReadBodyKeepsHeaders(s: Receiver, length: nat, inp: string)
    requires |s.body| <= length
    ensures var r := ReadBody(s, length, inp);
            r.s.request.headers == s.request.headers && |r.rest| <= |inp| && (r.rx.Valid? || r.rx.Incomplete?)
    ensures |s.body| == length && inp == "" ==> ReadBody(s, length, inp).rx.Valid?
  {
  }

  lemma SizedInTwo(l: Limits, s: Receiver, a: string, b: string)
    requires Invariant(l, s) && s.request.valid && !s.request.IsChunked() && b != []
    requires var p := ReceiveSized(l, s, a); !EndsUnannounced(p.rx, p.s, p.rest)
    ensures var p := ReceiveSized(l, s, a);
            var w := ReceiveSized(l, s, a + b);
            if p.rx.Incomplete?
            then p.rest == [] && Invariant(l, p.s) && p.s.request == s.request && w == ReceiveSized(l, p.s, b)
            else w == p.(rest := p.rest + b)
  {
    hide Headers.IsChunked, Headers.ContentLength, Headers.Find, RequestInvariant, ReadBody;
    SizedKeepsInvariant(l, s, a);
    var length := s.request.ContentLength();
    if 0 <= length <= l.maxContent {
      RequestCuts.ReadBodyCut(s, length, a, b);
      RequestCuts.ReadBodyCut(s.(code := MethodNotAllowed), length, a, b);
      ReadBodyKeepsHeaders(s, length, a);
      ReadBodyKeepsHeaders(s.(code := MethodNotAllowed), length, a);
    }
  }

  lemma ReceiveChunkInTwo(l: Limits, s: Receiver, a: string, b: string)
    requires Invariant(l, s) && s.request.valid && s.request.IsChunked() && !s.request.MissingHost()
    requires !s.chunk.valid && b != [] && StartsWell(s.chunk.trailers, a) && ChunkHarmless(l, s.chunk, a, b)
    ensures var p := ReceiveChunk(l, s, a);
            Invariant(l, p.s) && RequestCuts.Continues(l, p, ReceiveChunk(l, s, a + b), b)
  {
    hide Headers.IsChunked, Headers.ContentLength, Headers.Find, Headers.ExpectsContinue, RequestInvariant, Chunks.Parse,
      Chunks.Invariant, ReceiveSized, ParseRequest, ChunkHarmless, StartsWell;
    ChunkKeepsInvariant(l, s, a);
    ChunkInTwo(l, s.chunk, a, b);
    ErrorsAreSeen(l, s.chunk, a, b);
  }

  /** An error in front of a harmless cut is reported. */
  lemma ErrorsAreSeen(l: Limits, c: Chunks.Chunk, a: string, b: string)
    requires Chunks.Invariant(l, c) && !c.valid && b != [] && ChunkHarmless(l, c, a, b)
    ensures var p := Chunks.Parse(l, c, a); p.out.Error? ==> p.rest != []
  {
    hide Chunks.ParseHeader, Headers.Parse;
  }

  lemma SizedContinues(l: Limits, s: Receiver, a: string, b: string)
    requires Invariant(l, s) && s.request.valid && !s.request.IsChunked() && !s.request.MissingHost() && b != []
    requires var p := ReceiveSized(l, s, a); !EndsUnannounced(p.rx, p.s, p.rest)
    ensures var p := ReceiveSized(l, s, a);
            Invariant(l, p.s) && RequestCuts.Continues(l, p, ReceiveSized(l, s, a + b), b)
  {
    hide ReceiveSized, Headers.IsChunked, Headers.ContentLength, Headers.Find, RequestInvariant, EndsUnannounced;
    SizedKeepsInvariant(l, s, a);
    SizedInTwo(l, s, a, b);
  }

  lemma ReceiveBodyInTwo(l: Limits, s: Receiver, a: string, b: string, parsed: bool)
    requires Invariant(l, s) && s.request.valid && b != []
    requires (!s.chunk.valid ==> StartsWell(s.chunk.trailers, a)) && BodyHarmless(l, s, a, b, parsed)
    ensures var p := ReceiveBody(l, s, a, parsed);
            Invariant(l, p.s) && RequestCuts.Continues(l, p, ReceiveBody(l, s, a + b, parsed), b)
  {
    hide ReceiveSized, ReceiveChunk, Headers.IsChunked, Headers.ContentLength, Headers.Find, Receive;
    BodyMakesProgress(l, s, a, parsed);
    if !s.request.IsChunked() && !s.request.MissingHost() {
      SizedContinues(l, s, a, b);
    } else if ReadsChunk(s, parsed) {
      var s' := if s.chunk.valid then s.(chunk := Chunks.FRESH) else s;
      ChunkKeepsInvariant(l, s', a);
      ReceiveChunkInTwo(l, s', a, b);
    }
  }

  /** The case of a header that the first part completes. */
  lemma HeaderDoneInTwo(l: Limits, s: Receiver, a: string, b: string)
    requires Invariant(l, s) && !s.request.valid && b != [] && ReceiverStartsWell(s, a) && Harmless(l, s, a, b)
    requires ParseRequest(l, s.request, a).out.Done?
    ensures var p := Receive(l, s, a);
            Invariant(l, p.s) && RequestCuts.Continues(l, p, Receive(l, s, a + b), b)
  {
    var p := ParseRequest(l, s.request, a);
    var s' := s.(request := p.s);
    DoneInTwo(l, s.request, a, b);
    hide ReceiveBody, ParseRequest, BodyHarmless, Headers.IsChunked, RequestCuts.Continues, RequestInvariant, Chunks.Invariant;
    assert Receive(l, s, a) == ReceiveBody(l, s', p.rest, true);
    assert Receive(l, s, a + b) == ReceiveBody(l, s', p.rest + b, true);
    ReceiveBodyInTwo(l, s', p.rest, b, true);
  }

  /** The case of a header that the first part does not complete. */
  lemma HeaderInTwo(l: Limits, s: Receiver, a: string, b: string)
    requires Invariant(l, s) && !s.request.valid && b != [] && ReceiverStartsWell(s, a) && Harmless(l, s, a, b)
    requires !ParseRequest(l, s.request, a).out.Done?
    ensures var p := Receive(l, s, a);
            Invariant(l, p.s) && RequestCuts.Continues(l, p, Receive(l, s, a + b), b)
  {
    hide ReceiveBody, ParseRequest, BodyHarmless, Headers.IsChunked, Headers.ContentLength;
    ReceiveMakesProgress(l, s, a);
    RequestInTwo(l, s.request, a, b);
  }

  /**
    Main result for one call, on every input: unless the buffer is cut at a place that
    matters, a call on its first part reports the same, refusals included, and leaves the
    rest, or takes it all in and the next call goes on.
   */
  lemma ReceiveInTwo(l: Limits, s: Receiver, a: string, b: string)
    requires Invariant(l, s) && b != [] && ReceiverStartsWell(s, a) && Harmless(l, s, a, b)
    ensures var p := Receive(l, s, a);
            Invariant(l, p.s) && RequestCuts.Continues(l, p, Receive(l, s, a + b), b)
  {
    if s.request.valid {
      hide ReceiveBody, BodyHarmless, ParseRequest, RequestCuts.Continues;
      ReceiveBodyInTwo(l, s, a, b, false);
    } else if ParseRequest(l, s.request, a).out.Done? {
      hide *;
      HeaderDoneInTwo(l, s, a, b);
    } else {
      hide *;
      HeaderInTwo(l, s, a, b);
    }
  }

  /** A header that is complete in the first part is not touched by the cut. */
  lemma DoneInTwo(l: Limits, r: Request, a: string, b: string)
    requires RequestInvariant(r) && !r.valid && !r.line.fail && b != []
    requires StartsWell(r.headers, a) && ParseRequest(l, r, a).out.Done?
    ensures var p := ParseRequest(l, r, a); ParseRequest(l, r, a + b) == p.(rest := p.rest + b)
  {
    hide RL.Parse, Headers.Parse;
    RequestInTwo(l, r, a, b);
  }
}
