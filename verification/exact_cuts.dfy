/** The condition on cuts is tight for whole calls: at any bad place a request is damaged. */
module ExactCuts {
  import opened Characters
  import opened Parsing
  import opened Requests
  import opened Suffixes
  import opened AnyCuts
  import opened RequestAnyCuts
  import opened AnyPartition
  import RL = RequestLines
  import FL = FieldLines
  import Headers
  import Chunks
  import ChunkCuts
  import RequestCuts
  import Grammar = RequestLineGrammar
  import CutExamples
  import Framing
  import RequestVerdicts

  /** A block that is complete has no field in progress, unless it started with one and a line end. */
  lemma {:induction false} CompleteBlock(l: Limits, h: Headers.Block, inp: string)
    requires !h.field.state.Valid? && (h.field == FL.FRESH || (inp != [] && !IsEndOfLine(inp[0])))
    requires Headers.Parse(l, h, inp).out.Done?
    ensures Headers.Parse(l, h, inp).s.field == FL.FRESH
    decreases |inp|
  {
    hide FL.Parse, Headers.BlankLine;
    if !IsEndOfLine(inp[0]) {
      var h' := Headers.AddField(h, FL.Parse(l, h.field, inp).s);
      CompleteBlock(l, h', FL.Parse(l, h.field, inp).rest);
    }
  }

  /** At a bad place the second part is refused, or ends the block with its field in progress. */
  lemma BadHeadersCut(l: Limits, h: Headers.Block, b: string)
    requires !h.field.state.Valid? && b != [] && !Headers.GoodCut(h, b)
    ensures var q := Headers.Parse(l, h, b); q.out.Error? || q.s.field != FL.FRESH
  {
    if h.field == FL.FRESH {
      FL.ContinuationLost(l, b);
      hide FL.Parse;
    } else {
      hide FL.Parse;
    }
  }

  lemma CompleteRequest(l: Limits, r: Request, inp: string)
    requires RequestInvariant(r) && !r.valid && ParseRequest(l, r, inp).out.Done?
    requires r.headers.field == FL.FRESH || (inp != [] && !IsEndOfLine(inp[0]))
    ensures ParseRequest(l, r, inp).s.headers.field == FL.FRESH
  {
    hide RL.Parse, Headers.Parse;
    if r.line.valid {
      CompleteBlock(l, r.headers, inp);
    } else {
      CompleteBlock(l, r.headers, RL.Parse(l, r.line, inp).rest);
    }
  }

  lemma SizedKeepsHeaders(l: Limits, s: Receiver, inp: string)
    requires Invariant(l, s) && s.request.valid && !s.request.IsChunked()
    ensures var r := ReceiveSized(l, s, inp);
            !r.rx.Invalid? ==> r.s.request.headers == s.request.headers && r.s.request.valid
  {
    hide ReadBody, Headers.IsChunked, Headers.ContentLength, Headers.Find, RequestInvariant, Chunks.Invariant;
    var length := s.request.ContentLength();
    if 0 <= length <= l.maxContent {
      KeepsHeaders(s, length, inp);
      KeepsHeaders(s.(code := MethodNotAllowed), length, inp);
    }
  }

  /** What is read behind a header leaves the header alone. */
  lemma BodyKeepsHeaders(l: Limits, s: Receiver, inp: string, parsed: bool)
    requires Invariant(l, s) && s.request.valid
    ensures var r := ReceiveBody(l, s, inp, parsed);
            !r.rx.Invalid? ==> r.s.request.headers == s.request.headers && r.s.request.valid
  {
    hide ReceiveSized, ReceiveChunk, Headers.IsChunked, Headers.ContentLength, Headers.ExpectsContinue;
    if !s.request.IsChunked() {
      SizedKeepsHeaders(l, s, inp);
    } else {
      ChunkKeepsInvariant(l, if s.chunk.valid then s.(chunk := Chunks.FRESH) else s, inp);
    }
  }

  lemma KeepsHeaders(s: Receiver, length: nat, inp: string)
    requires |s.body| <= length
    ensures var r := ReadBody(s, length, inp);
            r.s.request.headers == s.request.headers && r.s.request.valid == s.request.valid
  {
  }

  /** A bad cut in the header of a request. */
  lemma BadRequestCut(l: Limits, s: Receiver, b: string, w: Received)
    requires Invariant(l, s) && !s.request.valid && s.request.line.valid && b != []
    requires !Headers.GoodCut(s.request.headers, b)
    requires w.s.request.valid && w.s.request.headers.field == FL.FRESH && !w.rx.Invalid?
    ensures Receive(l, s, b) != w
  {
    BadHeadersCut(l, s.request.headers, b);
    hide ReceiveBody, Headers.Parse;
    var q := ParseRequest(l, s.request, b);
    assert q.out.Error? || q.s.headers.field != FL.FRESH;
    if q.out.Done? {
      BodyKeepsHeaders(l, s.(request := q.s), q.rest, true);
    }
  }

  lemma CompleteChunk(l: Limits, c: Chunks.Chunk, inp: string)
    requires Chunks.Invariant(l, c) && !c.valid && Chunks.Parse(l, c, inp).out.Done?
    requires c.trailers.field == FL.FRESH || (inp != [] && !IsEndOfLine(inp[0]))
    ensures Chunks.Parse(l, c, inp).s.trailers.field == FL.FRESH
  {
    hide Chunks.ParseHeader, Headers.Parse;
    var p := Chunks.ParseHeader(l, c.header, inp);
    var rest := if c.header.valid then inp else p.rest;
    if Headers.Parse(l, c.trailers, rest).out.Done? && (c.header.valid || p.out.Done?) {
      CompleteBlock(l, c.trailers, rest);
    }
  }

  /** At a bad place in a chunk the second part is refused, or ends it with a trailer in progress. */
  lemma BadChunkCut(l: Limits, c: Chunks.Chunk, b: string)
    requires Chunks.Invariant(l, c) && !c.valid && b != [] && !ChunkCuts.GoodCut(l, c, b)
    ensures var q := Chunks.Parse(l, c, b); q.out.Error? || q.s.trailers.field != FL.FRESH
  {
    if c.IsLast() {
      BadHeadersCut(l, c.trailers, b);
    } else {
      assert b[0..] == b;
    }
    hide Headers.Parse;
  }

  /** A call that reads a chunk to its end. */
  lemma ChunkComplete(l: Limits, s: Receiver, inp: string)
    requires Invariant(l, s) && s.request.valid && s.request.IsChunked() && !s.chunk.valid
    requires var w := ReceiveChunk(l, s, inp); !w.rx.Invalid? && !TakesAll(w)
    ensures Chunks.Parse(l, s.chunk, inp).out.Done?
    ensures ReceiveChunk(l, s, inp).s.chunk == Chunks.Parse(l, s.chunk, inp).s
  {
    hide Chunks.Parse, Headers.IsChunked;
  }

  lemma BadReceiveChunk(l: Limits, s: Receiver, b: string, w: Received)
    requires Invariant(l, s) && s.request.valid && s.request.IsChunked() && !s.request.MissingHost() && !s.chunk.valid
    requires b != [] && !ChunkCuts.GoodCut(l, s.chunk, b)
    requires !w.rx.Invalid? && w.s.chunk.valid && w.s.chunk.trailers.field == FL.FRESH
    ensures Receive(l, s, b) != w
  {
    BadChunkCut(l, s.chunk, b);
    hide Chunks.Parse, Headers.IsChunked, ChunkCuts.GoodCut;
  }

  lemma OnlyChunksTakeAll(l: Limits, s: Receiver, a: string, parsed: bool)
    requires Invariant(l, s) && s.request.valid && s.request.IsChunked() && TakesAll(ReceiveBody(l, s, a, parsed))
    ensures ReadsChunk(s, parsed)
  {
    hide ReceiveChunk, Headers.IsChunked;
  }

  /** A bad cut behind the header of a request. */
  lemma BadBodyCut(l: Limits, s: Receiver, a: string, b: string, parsed: bool)
    requires Invariant(l, s) && s.request.valid && b != []
    requires s.chunk.valid || s.chunk.trailers.field == FL.FRESH || (a != [] && !IsEndOfLine(a[0]))
    requires TakesAll(ReceiveBody(l, s, a, parsed))
    requires var w := ReceiveBody(l, s, a + b, parsed); !w.rx.Invalid? && !TakesAll(w)
    requires var p := ReceiveBody(l, s, a, parsed);
             p.s.request.valid && !RequestCuts.GoodCut(l, p.s, b)
    ensures var p := ReceiveBody(l, s, a, parsed);
            Invariant(l, p.s) && Receive(l, p.s, b) != ReceiveBody(l, s, a + b, parsed)
  {
    hide ReceiveSized, ReceiveChunk, Headers.IsChunked, Headers.ContentLength, Headers.Find, Receive;
    BodyMakesProgress(l, s, a, parsed);
    BodyKeepsHeaders(l, s, a, parsed);
    var p := ReceiveBody(l, s, a, parsed);
    var s' := if s.chunk.valid then s.(chunk := Chunks.FRESH) else s;
    OnlyChunksTakeAll(l, s, a, parsed);
    assert p == ReceiveChunk(l, s', a) && ReceiveBody(l, s, a + b, parsed) == ReceiveChunk(l, s', a + b);
    ChunkKeepsInvariant(l, s', a);
    ChunkComplete(l, s', a + b);
    CompleteChunk(l, s'.chunk, a + b);
    BadReceiveChunk(l, p.s, b, ReceiveChunk(l, s', a + b));
  }

  /**
    Main result: whenever the part of a message that a cut lies in is complete without
    the cut and not refused, the cut is harmless if and only if it is a good one.
   */
  lemma CutIsHarmlessExactly(l: Limits, s: Receiver, a: string, b: string)
    requires Invariant(l, s) && ReceiverStartsWell(s, a) && a != [] && b != []
    requires TakesAll(Receive(l, s, a))
    requires var w := Receive(l, s, a + b); !w.rx.Invalid? && !TakesAll(w)
    ensures var p := Receive(l, s, a);
            Invariant(l, p.s) && (Receive(l, p.s, b) == Receive(l, s, a + b) <==> RequestCuts.GoodCut(l, p.s, b))
  {
    hide ReceiveBody, ParseRequest, Headers.IsChunked, Headers.ContentLength, BodyHarmless;
    ReceiveMakesProgress(l, s, a);
    var p := Receive(l, s, a);
    var w := Receive(l, s, a + b);
    if RequestCuts.GoodCut(l, p.s, b) {
      RequestCuts.ReceiveCut(l, s, a, b);
    } else if s.request.valid {
      BodyKeepsHeaders(l, s, a, false);
      BadBodyCut(l, s, a, b, false);
    } else {
      var q := ParseRequest(l, s.request, a);
      if q.out.Done? {
        DoneInTwo(l, s.request, a, b);
        BodyMakesProgress(l, s.(request := q.s), q.rest, true);
        BodyKeepsHeaders(l, s.(request := q.s), q.rest, true);
        BadBodyCut(l, s.(request := q.s), q.rest, b, true);
      } else {
        ReportIsSettled(l, s, a + b);
        var v := ParseRequest(l, s.request, a + b);
        CompleteRequest(l, s.request, a + b);
        BodyKeepsHeaders(l, s.(request := v.s), v.rest, true);
        BadRequestCut(l, p.s, b, w);
      }
    }
  }

  // ---------------------------------------------------------------------------------
  // An example
  // ---------------------------------------------------------------------------------

  const LINE: string := "GET / HTTP/1.0\r\n"

  lemma LineIsWellFormed()
    ensures var parts := Grammar.Parts("GET", "/", '1', '0');
            Grammar.WellFormed(CutExamples.SMALL, parts) && Grammar.Encode(parts) == LINE
  {
  }

  /** The request line is read, and the headers are begun. */
  lemma BehindLine(more: string)
    ensures var l := CutExamples.SMALL;
            var line := RL.Parse(l, RL.FRESH, LINE + more);
            && line.out.Done? && line.rest == more && line.s.verb == "GET" && line.s.major == '1' && line.s.minor == '0'
            && ParseRequest(l, FRESH_REQUEST, LINE + more) == ParseHeaders(l, FRESH_REQUEST.(line := line.s), more)
  {
    hide RL.Parse, Headers.Parse;
    LineIsWellFormed();
    Grammar.RoundTrip(CutExamples.SMALL, Grammar.Parts("GET", "/", '1', '0'), more);
  }

  lemma NoLength(r: Request)
    requires r.headers.fields == map["a" := "b"] || r.headers.fields == map[]
    ensures !r.IsChunked() && Framing.ValueOf(r.headers.fields, "content-length") == ""
  {
    assert "content-length"[0] == 'c' && Headers.LC_TRANSFER_ENCODING[0] == 't';
    assert "content-length" !in r.headers.fields && Headers.LC_TRANSFER_ENCODING !in r.headers.fields;
  }

  /** A request of that kind is complete at the end of its buffer, and refused in front of more. */
  lemma BehindHeader(l: Limits, s: Receiver, rest: string)
    requires Invariant(l, s) && s.request.valid && s.body == []
    requires s.request.line.major == '1' && s.request.line.minor == '0' && s.request.line.verb == GET
    requires s.request.headers.fields == map["a" := "b"] || s.request.headers.fields == map[]
    ensures var r := ReceiveBody(l, s, rest, true);
            if rest == "" then r.rx.Valid? && r.rest == "" && r.s.request.headers == s.request.headers
            else r.rx.Invalid? && r.s.code == LengthRequired
  {
    NoLength(s.request);
    assert GET != "TRACE";
    hide ReceiveSized, Headers.IsChunked, Headers.ContentLength, Headers.Find, Framing.ValueOf;
    RequestVerdicts.SizedBody(l, s, rest);
    assert ReceiveBody(l, s, rest, true) == ReceiveSized(l, s, rest);
    NothingAnnounced(s.request.headers.fields);
    hide Framing.Announced, ReceiveBody;
  }

  lemma NothingAnnounced(fields: Headers.Fields)
    requires Framing.ValueOf(fields, "content-length") == ""
    ensures Framing.Announced(fields) == 0
  {
  }

  /** What a first call makes of the request line and `more`. */
  lemma FirstCall(more: string)
    ensures var l := CutExamples.SMALL;
            var h := Headers.Parse(l, Headers.FRESH, more);
            var r := Receive(l, FRESH_RECEIVER, LINE + more);
            && (h.out.Done? && h.rest == "" && h.s.fields == map["a" := "b"] ==>
                  r.rx.Valid? && r.rest == "" && r.s.request.headers == h.s)
            && (h.out.More? ==>
                  && r.rx.Incomplete? && r.rest == "" && r.s == FRESH_RECEIVER.(request := r.s.request)
                  && r.s.request.line.verb == GET && r.s.request.line.major == '1' && r.s.request.line.minor == '0'
                  && r.s.request.line.valid && !r.s.request.valid && r.s.request.headers == h.s && Invariant(l, r.s))
  {
    var l := CutExamples.SMALL;
    BehindLine(more);
    ReceiveMakesProgress(l, FRESH_RECEIVER, LINE + more);
    hide ReceiveBody, ParseRequest, RL.Parse, Headers.Parse;
    var q := ParseRequest(l, FRESH_REQUEST, LINE + more);
    if q.out.Done? && q.rest == "" && q.s.headers.fields == map["a" := "b"] {
      BehindHeader(l, FRESH_RECEIVER.(request := q.s), "");
    }
  }

  lemma SecondCall(l: Limits, s: Receiver, b: string)
    requires Invariant(l, s) && !s.request.valid && s.request.line.valid
    requires s.request.line.verb == GET && s.request.line.major == '1' && s.request.line.minor == '0'
    requires var h := Headers.Parse(l, s.request.headers, b); h.out.Done? && h.rest != "" && h.s.fields == map[]
    ensures var r := Receive(l, s, b); r.rx.Invalid? && r.s.code == LengthRequired
  {
    hide ReceiveBody, Headers.Parse;
    var q := ParseRequest(l, s.request, b);
    BehindHeader(l, s.(request := q.s), q.rest);
  }

  /** A whole request that is refused when its buffer is cut in front of the line end of a field. */
  lemma RequestRefused()
    ensures var l := CutExamples.SMALL;
            var w := Receive(l, FRESH_RECEIVER, LINE + "A: b\r\n\r\n");
            w.rx.Valid? && w.rest == "" && w.s.request.headers.fields == map["a" := "b"]
    ensures var l := CutExamples.SMALL;
            var p := Receive(l, FRESH_RECEIVER, LINE + "A: b");
            && p.rx.Incomplete? && p.rest == "" && Invariant(l, p.s)
            && var r := Receive(l, p.s, "\r\n\r\n");
               r.rx.Invalid? && r.s.code == LengthRequired
  {
    hide Receive, Invariant, Headers.Parse, LINE;
    var l := CutExamples.SMALL;
    ClearKeepsInvariant(l, FRESH_RECEIVER);
    CutExamples.FieldDropped();
    FirstCall("A: b\r\n\r\n");
    FirstCall("A: b");
    SecondCall(l, Receive(l, FRESH_RECEIVER, LINE + "A: b").s, "\r\n\r\n");
  }
}
