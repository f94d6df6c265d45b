/** Cutting a stream of responses into buffers, for one call of the receiver. */
module ResponseCuts {
  import opened Parsing
  import opened Responses
  import Characters
  import RL = ResponseLines
  import FL = FieldLines
  import Headers
  import Chunks
  import ChunkCuts

  /** Whether a buffer may start with `b` when the receiver is in state `s`, as for requests. */
  predicate GoodCut(l: Limits, s: Receiver, b: string) {
    if !s.response.valid then s.response.line.valid ==> Headers.GoodCut(s.response.headers, b)
    else s.response.IsChunked() ==> ChunkCuts.GoodCut(l, s.chunk, b)
  }

  /**
    Whether a response ends here only because its buffer does: its body has no announced
    length and none of it was in the buffer.
   */
  predicate EndsOpen(l: Limits, rx: Rx, s: Receiver) {
    rx.Valid? && !s.response.IsChunked() && s.response.IsCloseDelimited() && l.maxContent > 0
  }

  /** The errors that receive reports: a bad response line, or a refusal before the end. */
  predicate Refused(p: Parsed<Response>) {
    !p.out.Done? && (p.rest != [] || p.s.line.fail)
  }

  lemma HeadersCut(l: Limits, r: Response, a: string, b: string)
    requires !r.headers.field.state.Valid? && !r.headers.valid && !r.valid && b != []
    requires !Headers.Refused(Headers.Parse(l, r.headers, a + b))
    requires var p := ParseHeaders(l, r, a); !p.out.Done? && p.rest == [] ==> Headers.GoodCut(p.s.headers, b)
    ensures var p := ParseHeaders(l, r, a);
            var w := ParseHeaders(l, r, a + b);
            if p.out.Done? then w == p.(rest := p.rest + b)
            else p.rest == [] && p.out.More? && !p.s.headers.field.state.Valid? && !p.s.headers.valid
                 && w == ParseHeaders(l, p.s, b)
  {
    hide Headers.Parse;
    Headers.ParseCut(l, r.headers, a, b);
  }

  lemma ResponseCut(l: Limits, r: Response, a: string, b: string)
    requires ResponseInvariant(r) && !r.valid && !r.line.fail && b != []
    requires !Refused(ParseResponse(l, r, a + b))
    requires var p := ParseResponse(l, r, a);
             !p.out.Done? && p.rest == [] && p.s.line.valid ==> Headers.GoodCut(p.s.headers, b)
    ensures var p := ParseResponse(l, r, a);
            var w := ParseResponse(l, r, a + b);
            if p.out.Done? then w == p.(rest := p.rest + b)
            else p.rest == [] && p.out.More? && !p.s.line.fail && w == ParseResponse(l, p.s, b)
  {
    hide RL.Parse, Headers.Parse;
    if r.line.valid {
      HeadersCut(l, r, a, b);
    } else {
      RL.ParseCut(l, r.line, a, b);
      var p := RL.Parse(l, r.line, a);
      if p.out.Done? {
        HeadersCut(l, r.(line := p.s), p.rest, b);
      }
    }
  }

  /** What a call on `a` must have to do with the call `w` on the whole of `a + b`. */
  ghost predicate Continues(l: Limits, p: Received, w: Received, b: string)
    requires Invariant(l, p.s)
  {
    if p.rx.Incomplete? && p.rest == [] then w == Receive(l, p.s, b) else w == p.(rest := p.rest + b)
  }

  /** A body that is filled up to `length` from `inp`, and what is left of that. */
  function Fill(body: string, length: nat, inp: string): (string, string)
    requires |body| <= length
  {
    var n := if |inp| > length - |body| then length - |body| else |inp|;
    (body + inp[..n], inp[n..])
  }

  lemma FillCut(body: string, length: nat, a: string, b: string)
    requires |body| <= length
    ensures var f := Fill(body, length, a);
            Fill(body, length, a + b) ==
            if |body| + |a| >= length then (f.0, f.1 + b) else Fill(body + a, length, b)
    ensures |body| + |a| < length ==> Fill(body, length, a) == (body + a, "")
  {
    var required := length - |body|;
    if |a| >= required {
      assert (a + b)[..required] == a[..required];
      assert (a + b)[required..] == a[required..] + b;
    } else {
      var n := if |a + b| > required then required else |a + b|;
      assert a[..|a|] == a && a[|a|..] == "";
      assert body + a + b[..n - |a|] == body + (a + b)[..n];
      assert (a + b)[n..] == b[n - |a|..];
    }
  }

  /** The length up to which a body is filled if there is anything to fill it with. */
  function FillLength(l: Limits, r: Response): int {
    if r.IsCloseDelimited() then l.maxContent else r.ContentLength()
  }

  lemma SizedFills(l: Limits, s: Receiver, inp: string)
    requires s.response.ContentLength() >= 0 && |s.body| <= FillLength(l, s.response)
    requires inp == [] ==> !s.response.IsCloseDelimited()
    ensures var f := Fill(s.body, FillLength(l, s.response), inp);
            ReceiveSized(l, s, inp) ==
            Received(s.(body := f.0), f.1, if |f.0| == s.response.ContentLength() then Rx.Valid else Incomplete)
  {
    hide Headers.ContentLength, Headers.Find;
  }

  lemma SizedLimit(l: Limits, s: Receiver, inp: string)
    requires Invariant(l, s) && s.response.valid && !s.response.IsChunked()
    requires !ReceiveSized(l, s, inp).rx.Invalid?
    ensures s.response.ContentLength() >= 0 && |s.body| <= FillLength(l, s.response)
    ensures s.response.IsCloseDelimited() ==> s.response.ContentLength() == 0
  {
    hide Headers.ContentLength, Headers.Find, Headers.IsChunked, ResponseInvariant, Chunks.Invariant;
  }

  /** What the parts of a buffer do to a body that is filled up to `FillLength`. */
  lemma FilledCut(l: Limits, s: Receiver, a: string, b: string)
    requires s.response.ContentLength() >= 0 && |s.body| <= FillLength(l, s.response) && b != []
    requires a == [] ==> !s.response.IsCloseDelimited()
    ensures var p := ReceiveSized(l, s, a);
            var w := ReceiveSized(l, s, a + b);
            if p.rx.Incomplete? && p.rest == [] then w == ReceiveSized(l, p.s, b) else w == p.(rest := p.rest + b)
  {
    hide Headers.ContentLength, Headers.Find, ReceiveSized, Fill;
    var length := FillLength(l, s.response);
    FillCut(s.body, length, a, b);
    FillBounded(s.body, length, a);
    SizedFills(l, s, a);
    SizedFills(l, s, a + b);
    var p := ReceiveSized(l, s, a);
    FullBodyTakesNothing(p.s.body, length, b);
    SizedFills(l, p.s, b);
    assert "" + b == b;
  }

  lemma FillBounded(body: string, length: nat, inp: string)
    requires |body| <= length
    ensures |Fill(body, length, inp).0| <= length
    ensures |body| + |inp| >= length ==> |Fill(body, length, inp).0| == length
  {
  }

  lemma SizedCut(l: Limits, s: Receiver, a: string, b: string)
    requires Invariant(l, s) && s.response.valid && !s.response.IsChunked() && b != []
    requires a == [] ==> Pending(l, s) || s.body == []
    requires !ReceiveSized(l, s, a + b).rx.Invalid?
    requires var p := ReceiveSized(l, s, a); p.rest == [] ==> !EndsOpen(l, p.rx, p.s)
    ensures var p := ReceiveSized(l, s, a);
            && !p.rx.Invalid? && Invariant(l, p.s)
            && Continues(l, p, ReceiveSized(l, s, a + b), b)
  {
    hide Headers.IsChunked, Headers.ContentLength, Headers.Find, ResponseInvariant, Chunks.Invariant, ReceiveSized;
    SizedLimit(l, s, a + b);
    SizedKeepsInvariant(l, s, a);
    SameResponse(l, s, a);
    if a == [] && s.response.IsCloseDelimited() {
      assert a + b == b;
      NothingRead(l, s);
      if s.body == [] && l.maxContent == 0 {
        SizedFills(l, s, b);
      }
    } else {
      SizedFills(l, s, a);
      FilledCut(l, s, a, b);
    }
  }

  lemma NothingRead(l: Limits, s: Receiver)
    requires s.response.IsCloseDelimited()
    ensures ReceiveSized(l, s, "") == Received(s, "", if s.body == [] then Rx.Valid else Incomplete)
  {
    hide Headers.ContentLength, Headers.Find;
  }

  lemma FullBodyTakesNothing(body: string, length: nat, b: string)
    ensures |body| == length ==> Fill(body, length, b) == (body, b)
  {
    assert b[0..] == b && body + b[..0] == body;
  }

  lemma ChunkCut(l: Limits, s: Receiver, a: string, b: string)
    requires Invariant(l, s) && s.response.valid && s.response.IsChunked() && !s.chunk.valid && b != []
    requires !ReceiveChunk(l, s, a + b).rx.Invalid?
    requires var p := ReceiveChunk(l, s, a);
             p.rx.Incomplete? && p.rest == [] ==> ChunkCuts.GoodCut(l, p.s.chunk, b)
    ensures var p := ReceiveChunk(l, s, a);
            && !p.rx.Invalid? && Invariant(l, p.s)
            && Continues(l, p, ReceiveChunk(l, s, a + b), b)
  {
    hide Headers.IsChunked, Headers.ContentLength, ResponseInvariant, Chunks.Parse;
    ChunkOutcomes(l, s, a);
    assert ChunkCuts.Refused(Chunks.Parse(l, s.chunk, a)) ==> ReceiveChunk(l, s, a).rx.Invalid?;
    ChunkCuts.ParseCut(l, s.chunk, a, b);
  }

  lemma BodyCut(l: Limits, s: Receiver, a: string, b: string, parsed: bool)
    requires Invariant(l, s) && s.response.valid && b != []
    requires a == [] ==> Pending(l, s) || s.body == []
    requires !ReceiveBody(l, s, a + b, parsed).rx.Invalid?
    requires var p := ReceiveBody(l, s, a, parsed);
             p.rest == [] ==> (p.rx.Incomplete? ==> GoodCut(l, p.s, b)) && !EndsOpen(l, p.rx, p.s)
    ensures var p := ReceiveBody(l, s, a, parsed);
            && !p.rx.Invalid? && Invariant(l, p.s)
            && Continues(l, p, ReceiveBody(l, s, a + b, parsed), b)
  {
    hide ReceiveSized, ReceiveChunk, Headers.IsChunked, Headers.ContentLength, Headers.Find, Receive;
    FreshIsPending(l);
    if !s.response.IsChunked() {
      SizedCut(l, s, a, b);
    } else if !parsed {
      var s' := if s.chunk.valid then s.(chunk := Chunks.FRESH) else s;
      ChunkOutcomes(l, s', a);
      assert ReceiveBody(l, s, a, parsed) == ReceiveChunk(l, s', a);
      assert ReceiveBody(l, s, a + b, parsed) == ReceiveChunk(l, s', a + b);
      ChunkCut(l, s', a, b);
    }
  }

  /**
    Main result for one call: unless the whole buffer is refused, or the first part ends
    a response that has no other end, a call on the first part reports the same and
    leaves the rest, or takes it all in and the next call goes on.
   */
  lemma ReceiveCut(l: Limits, s: Receiver, a: string, b: string)
    requires Pending(l, s) && a != [] && b != []
    requires !Receive(l, s, a + b).rx.Invalid?
    requires var p := Receive(l, s, a);
             p.rest == [] ==> (p.rx.Incomplete? ==> GoodCut(l, p.s, b)) && !EndsOpen(l, p.rx, p.s)
    ensures var p := Receive(l, s, a);
            && !p.rx.Invalid? && Invariant(l, p.s)
            && Continues(l, p, Receive(l, s, a + b), b)
  {
    hide ReceiveBody, ParseResponse, Headers.IsChunked, Headers.ContentLength, Headers.Find;
    ReceiveMakesProgress(l, s, a);
    if s.response.valid {
      BodyCut(l, s, a, b, false);
    } else {
      var p := ParseResponse(l, s.response, a);
      assert !Refused(ParseResponse(l, s.response, a + b));
      ResponseCut(l, s.response, a, b);
      if p.out.Done? {
        BodyCut(l, s.(response := p.s), p.rest, b, true);
      }
    }
  }

  /**
    The condition on the end of a response is tight: where a response ends only because
    its buffer does, more bytes in the buffer would have become its body.
   */
  lemma OpenEndTakesMore(l: Limits, s: Receiver, a: string, b: string)
    requires Pending(l, s) && !s.response.valid && a != [] && b != []
    requires var p := Receive(l, s, a); p.rest == [] && EndsOpen(l, p.rx, p.s)
    ensures var w := Receive(l, s, a + b);
            w.rx.Incomplete? && w.s.body != [] && w.s.body <= b
  {
    hide ReceiveBody, ParseResponse, Headers.IsChunked, Headers.ContentLength, Headers.Find;
    var p := ParseResponse(l, s.response, a);
    DoneResponseCut(l, s.response, a, b);
    OpenBodyTakesMore(l, s.(response := p.s), p.rest, b);
  }

  lemma OpenBodyTakesMore(l: Limits, s: Receiver, a: string, b: string)
    requires Invariant(l, s) && s.response.valid && s.body == [] && b != []
    requires var p := ReceiveBody(l, s, a, true); p.rest == [] && EndsOpen(l, p.rx, p.s)
    ensures var w := ReceiveBody(l, s, a + b, true);
            w.rx.Incomplete? && w.s.body != [] && w.s.body <= b
  {
    hide Headers.IsChunked, Headers.ContentLength, Headers.Find, Invariant, ReceiveSized, ReceiveChunk;
    SameResponse(l, s, a);
    OpenSizedTakesMore(l, s, a, b);
  }

  lemma SameResponse(l: Limits, s: Receiver, a: string)
    ensures var r := ReceiveSized(l, s, a); !r.rx.Invalid? ==> r.s.response == s.response
  {
  }

  lemma OpenSizedTakesMore(l: Limits, s: Receiver, a: string, b: string)
    requires s.body == [] && b != [] && s.response.IsCloseDelimited() && l.maxContent > 0
    requires ReceiveSized(l, s, a).rx.Valid?
    ensures var w := ReceiveSized(l, s, a + b);
            w.rx.Incomplete? && w.s.body != [] && w.s.body <= b
  {
    hide *;
    if a != [] {
      OpenBodyIsIncomplete(l, s, a);
    }
    assert a + b == b;
    OpenBodyIsIncomplete(l, s, b);
  }

  lemma OpenBodyIsIncomplete(l: Limits, s: Receiver, inp: string)
    requires s.body == [] && inp != [] && s.response.IsCloseDelimited() && l.maxContent > 0
    ensures var r := ReceiveSized(l, s, inp);
            r.rx.Incomplete? && r.s.body != [] && r.s.body <= inp
  {
    hide Headers.ContentLength, Headers.Find;
    var n := if |inp| > l.maxContent then l.maxContent else |inp|;
    assert s.body + inp[..n] == inp[..n];
  }

  /** A header that is complete in the first part of a buffer ends there. */
  lemma DoneResponseCut(l: Limits, r: Response, a: string, b: string)
    requires ResponseInvariant(r) && !r.valid && !r.line.fail && b != []
    requires ParseResponse(l, r, a).out.Done?
    ensures var p := ParseResponse(l, r, a); ParseResponse(l, r, a + b) == p.(rest := p.rest + b)
  {
    hide RL.Parse, Headers.Parse;
    if r.line.valid {
      DoneHeadersCut(l, r.headers, a, b);
    } else {
      RL.ParseCut(l, r.line, a, b);
      DoneHeadersCut(l, r.headers, RL.Parse(l, r.line, a).rest, b);
    }
  }

  lemma {:induction false} DoneHeadersCut(l: Limits, h: Headers.Block, a: string, b: string)
    requires !h.field.state.Valid? && !h.valid && b != []
    requires Headers.Parse(l, h, a).out.Done?
    ensures var p := Headers.Parse(l, h, a); Headers.Parse(l, h, a + b) == p.(rest := p.rest + b)
    decreases |a|
  {
    assert a != [] && (a + b)[0] == a[0];
    if Characters.IsEndOfLine(a[0]) {
      Headers.BlankLineCut(l, h, a, b);
    } else {
      FL.ParseCut(l, h.field, a, b);
      var p := FL.Parse(l, h.field, a);
      DoneHeadersCut(l, Headers.AddField(h, p.s), p.rest, b);
    }
  }
}
