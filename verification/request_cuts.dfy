/** Cutting a stream of requests into buffers, for one call of the receiver. */
module RequestCuts {
  import opened Parsing
  import opened Requests
  import RL = RequestLines
  import Headers
  import Chunks
  import ChunkCuts

  /**
    Whether a buffer may start with `b` when the receiver is in state `s`: neither the
    headers nor a chunk may be cut in a bad place. Anywhere else a cut is harmless.
   */
  predicate GoodCut(l: Limits, s: Receiver, b: string) {
    if !s.request.valid then s.request.line.valid ==> Headers.GoodCut(s.request.headers, b)
    else s.request.IsChunked() ==> ChunkCuts.GoodCut(l, s.chunk, b)
  }

  /** The errors that receive reports: a bad request line, or a refusal before the end. */
  predicate Refused(p: Parsed<Request>) {
    !p.out.Done? && (p.rest != [] || p.s.line.fail)
  }

  lemma HeadersCut(l: Limits, r: Request, a: string, b: string)
    requires !r.headers.field.state.Valid? && !r.headers.valid && !r.valid && b != []
    requires !Headers.Refused(Headers.Parse(l, r.headers, a + b))
    requires var p := ParseHeaders(l, r, a); !p.out.Done? && p.rest == [] ==> Headers.GoodCut(p.s.headers, b)
    ensures var p := ParseHeaders(l, r, a);
            var w := ParseHeaders(l, r, a + b);
            if p.out.Done? then w == p.(rest := p.rest + b)
            else p.rest == [] && p.out.More? && !p.s.headers.field.state.Valid? && !p.s.headers.valid
                 && w == ParseHeaders(l, p.s, b)
  {
    hide Headers.Parse;
    Headers.ParseCut(l, r.headers, a, b);
  }

  lemma RequestCut(l: Limits, r: Request, a: string, b: string)
    requires RequestInvariant(r) && !r.valid && !r.line.fail && b != []
    requires !Refused(ParseRequest(l, r, a + b))
    requires var p := ParseRequest(l, r, a);
             !p.out.Done? && p.rest == [] && p.s.line.valid ==> Headers.GoodCut(p.s.headers, b)
    ensures var p := ParseRequest(l, r, a);
            var w := ParseRequest(l, r, a + b);
            if p.out.Done? then w == p.(rest := p.rest + b)
            else p.rest == [] && p.out.More? && !p.s.line.fail && w == ParseRequest(l, p.s, b)
  {
    hide RL.Parse, Headers.Parse;
    if r.line.valid {
      HeadersCut(l, r, a, b);
    } else {
      RL.ParseCut(l, r.line, a, b);
      var p := RL.Parse(l, r.line, a);
      if p.out.Done? {
        HeadersCut(l, r.(line := p.s), p.rest, b);
      }
    }
  }

  /** What a call on `a` must have to do with the call `w` on the whole of `a + b`. */
  ghost predicate Continues(l: Limits, p: Received, w: Received, b: string)
    requires Invariant(l, p.s)
  {
    if p.rx.Incomplete? && p.rest == [] && !p.s.chunk.valid
    then w == Receive(l, p.s, b)
    else w == p.(rest := p.rest + b)
  }

  lemma ReadBodyCut(s: Receiver, length: nat, a: string, b: string)
    requires |s.body| <= length && b != []
    ensures var p := ReadBody(s, length, a);
            ReadBody(s, length, a + b) ==
            if p.rx.Incomplete? then ReadBody(p.s, length, b) else p.(rest := p.rest + b)
    ensures var p := ReadBody(s, length, a);
            p.rx.Incomplete? ==> p.rest == [] && p.s == s.(body := s.body + a) && |p.s.body| < length
  {
    hide Complete;
    var required := length - |s.body|;
    if |a| >= required {
      assert a[..required] == (a + b)[..required];
      assert a[required..] + b == (a + b)[required..];
    } else {
      var n := if |a + b| > required then required else |a + b|;
      assert s.body + a + b[..n - |a|] == s.body + (a + b)[..n];
      assert (a + b)[n..] == b[n - |a|..];
      assert a[..|a|] == a;
    }
  }

  lemma SizedCut(l: Limits, s: Receiver, a: string, b: string)
    requires Invariant(l, s) && s.request.valid && !s.request.IsChunked() && !s.request.MissingHost()
    requires b != [] && !ReceiveSized(l, s, a + b).rx.Invalid?
    ensures var p := ReceiveSized(l, s, a);
            && !p.rx.Invalid? && Invariant(l, p.s)
            && (p.rx.Incomplete? ==> p.rest == [] && !p.s.chunk.valid)
            && Continues(l, p, ReceiveSized(l, s, a + b), b)
  {
    hide Headers.IsChunked, Headers.ContentLength, RequestInvariant, ReadBody;
    SizedKeepsInvariant(l, s, a);
    var length := s.request.ContentLength();
    assert 0 <= length <= l.maxContent;
    ReadBodyCut(s, length, a, b);
    ReadBodyCut(s.(code := MethodNotAllowed), length, a, b);
  }

  lemma ChunkCut(l: Limits, s: Receiver, a: string, b: string)
    requires Invariant(l, s) && s.request.valid && s.request.IsChunked() && !s.request.MissingHost()
    requires !s.chunk.valid && b != []
    requires !ReceiveChunk(l, s, a + b).rx.Invalid?
    requires var p := ReceiveChunk(l, s, a);
             p.rx.Incomplete? && p.rest == [] && !p.s.chunk.valid ==> ChunkCuts.GoodCut(l, p.s.chunk, b)
    ensures var p := ReceiveChunk(l, s, a);
            && !p.rx.Invalid? && Invariant(l, p.s)
            && Continues(l, p, ReceiveChunk(l, s, a + b), b)
  {
    hide Headers.IsChunked, Headers.ContentLength, RequestInvariant, Chunks.Parse;
    ChunkKeepsInvariant(l, s, a);
    assert ChunkCuts.Refused(Chunks.Parse(l, s.chunk, a)) ==> ReceiveChunk(l, s, a).rx.Invalid?;
    ChunkCuts.ParseCut(l, s.chunk, a, b);
  }

  lemma BodyCut(l: Limits, s: Receiver, a: string, b: string, parsed: bool)
    requires Invariant(l, s) && s.request.valid && b != []
    requires !ReceiveBody(l, s, a + b, parsed).rx.Invalid?
    requires var p := ReceiveBody(l, s, a, parsed);
             p.rx.Incomplete? && p.rest == [] ==> GoodCut(l, p.s, b)
    ensures var p := ReceiveBody(l, s, a, parsed);
            && !p.rx.Invalid? && Invariant(l, p.s)
            && Continues(l, p, ReceiveBody(l, s, a + b, parsed), b)
  {
    hide ReceiveSized, ReceiveChunk, Headers.IsChunked, Headers.ContentLength, Receive;
    BodyMakesProgress(l, s, a, parsed);
    if !s.request.IsChunked() {
      SizedCut(l, s, a, b);
    } else if parsed && ((s.request.ExpectsContinue() && !s.continueSent) || !s.concatenate) {
    } else {
      var s' := if s.chunk.valid then s.(chunk := Chunks.FRESH) else s;
      ChunkKeepsInvariant(l, s', a);
      assert ReceiveBody(l, s, a, parsed) == ReceiveChunk(l, s', a);
      assert ReceiveBody(l, s, a + b, parsed) == ReceiveChunk(l, s', a + b);
      ChunkCut(l, s', a, b);
    }
  }

  /**
    Main result for one call: unless the whole buffer is refused, a call on its first part
    reports the same and leaves the rest, or takes it all in and the next call goes on.
   */
  lemma ReceiveCut(l: Limits, s: Receiver, a: string, b: string)
    requires Invariant(l, s) && b != []
    requires !Receive(l, s, a + b).rx.Invalid?
    requires var p := Receive(l, s, a);
             p.rx.Incomplete? && p.rest == [] ==> GoodCut(l, p.s, b)
    ensures var p := Receive(l, s, a);
            && !p.rx.Invalid? && Invariant(l, p.s)
            && Continues(l, p, Receive(l, s, a + b), b)
  {
    hide ReceiveBody, ParseRequest, Headers.IsChunked, Headers.ContentLength;
    ReceiveMakesProgress(l, s, a);
    if s.request.valid {
      BodyCut(l, s, a, b, false);
    } else {
      var p := ParseRequest(l, s.request, a);
      assert !Refused(ParseRequest(l, s.request, a + b));
      RequestCut(l, s.request, a, b);
      if p.out.Done? {
        BodyCut(l, s.(request := p.s), p.rest, b, true);
      }
    }
  }
}
