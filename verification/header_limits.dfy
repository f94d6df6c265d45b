/**
  The limits on the number and the total length of headers, over any number of buffers:
  they are kept unless a buffer ends right behind what is refused.
 */
module HeaderLimits {
  import opened Characters
  import opened Parsing
  import opened Requests
  import opened RequestAnyCuts
  import RL = RequestLines
  import FL = FieldLines
  import Headers
  import Chunks

  predicate WithinLimits(l: Limits, s: Receiver) {
    !Headers.Exceeds(l, s.request.headers) && !Headers.Exceeds(l, s.chunk.trailers)
  }

  predicate BodyForgetsError(l: Limits, s: Receiver, inp: string, parsed: bool)
    requires Invariant(l, s) && s.request.valid
  {
    ReadsChunk(s, parsed) && var p := Chunks.Parse(l, CurrentChunk(s), inp); p.out.Error? && p.rest == []
  }

  /** Whether the last byte of a buffer is refused: the call then reports that more is needed. */
  predicate ForgetsError(l: Limits, s: Receiver, inp: string)
    requires Invariant(l, s)
  {
    if s.request.valid then BodyForgetsError(l, s, inp, false)
    else
      var p := ParseRequest(l, s.request, inp);
      if p.out.Done? then Invariant(l, s.(request := p.s)) && BodyForgetsError(l, s.(request := p.s), p.rest, true)
      else p.out.Error? && p.rest == [] && !p.s.line.fail
  }

  lemma {:induction false} HeadersWithinLimits(l: Limits, h: Headers.Block, inp: string)
    requires !h.field.state.Valid? && !Headers.Exceeds(l, h)
    ensures var p := Headers.Parse(l, h, inp); !p.out.Error? ==> !Headers.Exceeds(l, p.s)
    decreases |inp|
  {
    hide FL.Parse, Headers.BlankLine;
    if inp != [] && !IsEndOfLine(inp[0]) {
      var p := FL.Parse(l, h.field, inp);
      if p.out.Done? {
        var h' := Headers.AddField(h, p.s);
        if !Headers.Exceeds(l, h') {
          HeadersWithinLimits(l, h', p.rest);
        }
      }
    }
  }

  lemma RequestWithinLimits(l: Limits, r: Request, inp: string)
    requires RequestInvariant(r) && !r.valid && !Headers.Exceeds(l, r.headers)
    ensures var p := ParseRequest(l, r, inp); !p.out.Error? ==> !Headers.Exceeds(l, p.s.headers)
  {
    hide Headers.Parse;
    var p := RL.Parse(l, r.line, inp);
    HeadersWithinLimits(l, r.headers, inp);
    HeadersWithinLimits(l, r.headers, p.rest);
  }

  lemma ChunkWithinLimits(l: Limits, c: Chunks.Chunk, inp: string)
    requires Chunks.Invariant(l, c) && !c.valid && !Headers.Exceeds(l, c.trailers)
    ensures var p := Chunks.Parse(l, c, inp); !p.out.Error? ==> !Headers.Exceeds(l, p.s.trailers)
  {
    hide Headers.Parse;
    var p := Chunks.ParseHeader(l, c.header, inp);
    HeadersWithinLimits(l, c.trailers, inp);
    HeadersWithinLimits(l, c.trailers, p.rest);
  }

  lemma FreshWithinLimits(l: Limits)
    ensures !Headers.Exceeds(l, Headers.FRESH)
  {
  }

  lemma ReadBodyWithinLimits(l: Limits, s: Receiver, length: nat, inp: string)
    requires |s.body| <= length && WithinLimits(l, s)
    ensures WithinLimits(l, ReadBody(s, length, inp).s)
  {
  }

  lemma SizedWithinLimits(l: Limits, s: Receiver, inp: string)
    requires Invariant(l, s) && s.request.valid && !s.request.IsChunked() && WithinLimits(l, s)
    ensures WithinLimits(l, ReceiveSized(l, s, inp).s)
  {
    hide ReadBody, Headers.IsChunked, Headers.ContentLength, Headers.Find, Headers.Exceeds;
    FreshWithinLimits(l);
    var length := s.request.ContentLength();
    if 0 <= length <= l.maxContent {
      ReadBodyWithinLimits(l, s, length, inp);
      ReadBodyWithinLimits(l, s.(code := MethodNotAllowed), length, inp);
    }
  }

  lemma ReceiveChunkWithinLimits(l: Limits, s: Receiver, inp: string)
    requires Chunks.Invariant(l, s.chunk) && !s.chunk.valid && WithinLimits(l, s)
    requires var p := Chunks.Parse(l, s.chunk, inp); !(p.out.Error? && p.rest == [])
    ensures WithinLimits(l, ReceiveChunk(l, s, inp).s)
  {
    hide Chunks.Parse, Chunks.Invariant;
    FreshWithinLimits(l);
    ChunkWithinLimits(l, s.chunk, inp);
  }

  lemma BodyWithinLimits(l: Limits, s: Receiver, inp: string, parsed: bool)
    requires Invariant(l, s) && s.request.valid && WithinLimits(l, s) && !BodyForgetsError(l, s, inp, parsed)
    ensures WithinLimits(l, ReceiveBody(l, s, inp, parsed).s)
  {
    hide ReceiveChunk, ReceiveSized, Headers.IsChunked, Headers.ExpectsContinue, Headers.Find, Headers.Exceeds, Chunks.Parse;
    FreshWithinLimits(l);
    if !s.request.IsChunked() {
      SizedWithinLimits(l, s, inp);
    } else if ReadsChunk(s, parsed) {
      ReceiveChunkWithinLimits(l, s.(chunk := CurrentChunk(s)), inp);
    }
  }

  /** A call keeps the limits unless the last byte of its buffer is refused. */
  lemma CallKeepsHeaderLimits(l: Limits, s: Receiver, inp: string)
    requires Invariant(l, s) && WithinLimits(l, s) && !ForgetsError(l, s, inp)
    ensures WithinLimits(l, Receive(l, s, inp).s)
  {
    hide ReceiveBody, ParseRequest, Headers.Exceeds;
    FreshWithinLimits(l);
    if s.request.valid {
      BodyWithinLimits(l, s, inp, false);
    } else {
      RequestWithinLimits(l, s.request, inp);
      var p := ParseRequest(l, s.request, inp);
      if p.out.Done? {
        BodyWithinLimits(l, s.(request := p.s), p.rest, true);
      }
    }
  }

  /** Whether no buffer of a run ends right behind what is refused. */
  predicate ForgetsNothing(l: Limits, s: Receiver, ops: seq<Operation>)
    requires Invariant(l, s)
    decreases |ops|
  {
    ops == [] ||
    ((ops[0].DoReceive? ==> !ForgetsError(l, s, ops[0].buffer)) && ForgetsNothing(l, Do(l, s, ops[0]), ops[1..]))
  }

  lemma {:induction false} RunKeepsHeaderLimits(l: Limits, s: Receiver, ops: seq<Operation>)
    requires Invariant(l, s) && WithinLimits(l, s) && ForgetsNothing(l, s, ops)
    ensures WithinLimits(l, After(l, s, ops))
    decreases |ops|
  {
    hide Receive, Invariant, ForgetsError, Headers.Exceeds;
    FreshWithinLimits(l);
    if ops != [] {
      if ops[0].DoReceive? {
        CallKeepsHeaderLimits(l, s, ops[0].buffer);
      }
      RunKeepsHeaderLimits(l, Do(l, s, ops[0]), ops[1..]);
    }
  }

  /**
    Main result: after any run of a new receiver in which no buffer ends right behind
    what is refused, the headers and the trailers are within their limits.
   */
  lemma EveryRunKeepsHeaderLimits(l: Limits, ops: seq<Operation>)
    requires ForgetsNothing(l, FRESH_RECEIVER, ops)
    ensures var s := After(l, FRESH_RECEIVER, ops);
            && |s.request.headers.fields| <= l.maxHeaderNumber && s.request.headers.length <= l.maxHeaderLength
            && |s.chunk.trailers.fields| <= l.maxHeaderNumber && s.chunk.trailers.length <= l.maxHeaderLength
  {
    RunKeepsHeaderLimits(l, FRESH_RECEIVER, ops);
  }
}
