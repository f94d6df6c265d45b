/**
  Cutting headers and chunks into buffers, for any input: also for input that is refused,
  now or later. Beside the bad places of accepted input there are two: behind an error,
  which is forgotten when it lies at the end of a buffer, and behind a CR that is not
  remembered.
 */
module AnyCuts {
  import opened Characters
  import opened Parsing
  import opened Suffixes
  import FL = FieldLines
  import Headers
  import Chunks
  import ChunkCuts

  // ---------------------------------------------------------------------------------
  // Headers
  // ---------------------------------------------------------------------------------

  /** Whether a buffer may start with `a` when the block is in state `h`. */
  predicate StartsWell(h: Headers.Block, a: string) {
    h.field == FL.FRESH || a == [] || !IsEndOfLine(a[0])
  }

  /** Whether a buffer may start with `b` behind `a`, which has left the block in state `h`. */
  predicate MayCutHeaders(h: Headers.Block, a: string, b: string)
    requires b != []
  {
    && (if h.field == FL.FRESH then !IsBlank(b[0]) else !IsEndOfLine(b[0]))
    && (h.field == FL.FRESH && EndsInCr(a) ==> b[0] == '\n')
  }

  /** Whether cutting between `a` and `b` leaves the block as it is. */
  predicate HeadersHarmless(l: Limits, h: Headers.Block, a: string, b: string)
    requires !h.field.state.Valid? && b != []
  {
    var p := Headers.Parse(l, h, a);
    match p.out
    case Done => true
    case Error => p.rest != []
    case More => MayCutHeaders(p.s, a, b)
  }

  /** The case of a field that is not complete in the first part. */
  lemma FieldInTwo(l: Limits, h: Headers.Block, a: string, b: string)
    requires !h.field.state.Valid? && b != [] && a != [] && !IsEndOfLine(a[0])
    requires !FL.Parse(l, h.field, a).out.Done? && HeadersHarmless(l, h, a, b)
    ensures var p := Headers.Parse(l, h, a);
            Headers.Parse(l, h, a + b) == if p.out.More? then Headers.Parse(l, p.s, b) else p.(rest := p.rest + b)
  {
    hide FL.Parse, Headers.BlankLine;
    FL.ParseCut(l, h.field, a, b);
    assert (a + b)[0] == a[0];
    var f := FL.Parse(l, h.field, a);
    assert f.s != FL.FRESH;
  }

  /** The case of a field that ends the first part. */
  lemma LineInTwo(l: Limits, h: Headers.Block, a: string, b: string)
    requires !h.field.state.Valid? && b != [] && a != [] && !IsEndOfLine(a[0])
    requires var f := FL.Parse(l, h.field, a); f.out.Done? && f.rest == []
    requires HeadersHarmless(l, h, a, b)
    ensures var p := Headers.Parse(l, h, a);
            p.out.More? && Headers.Parse(l, h, a + b) == Headers.Parse(l, p.s, b)
  {
    hide FL.Parse, Headers.BlankLine;
    var f := FL.Parse(l, h.field, a);
    var h' := Headers.AddField(h, f.s);
    assert !Headers.Exceeds(l, h') && Headers.Parse(l, h', "") == Parsed(h', "", More);
    FL.ParseCut(l, h.field, a, b);
    assert (a + b)[0] == a[0] && f.rest + b == b;
  }

  /**
    Main result for headers: on every input, cutting at a place that is harmless changes
    nothing, whether the block is accepted, refused or not complete.
   */
  lemma {:induction false} HeadersInTwo(l: Limits, h: Headers.Block, a: string, b: string)
    requires !h.field.state.Valid? && b != [] && StartsWell(h, a) && HeadersHarmless(l, h, a, b)
    ensures var p := Headers.Parse(l, h, a);
            Headers.Parse(l, h, a + b) == if p.out.More? then Headers.Parse(l, p.s, b) else p.(rest := p.rest + b)
    decreases |a|
  {
    if a == [] {
      assert a + b == b;
    } else if IsEndOfLine(a[0]) {
      Headers.BlankLineCut(l, h, a, b);
    } else {
      var f := FL.Parse(l, h.field, a);
      FieldIsRead(l, h.field, a);
      hide FL.Parse, Headers.BlankLine;
      if !f.out.Done? {
        FieldInTwo(l, h, a, b);
      } else if f.rest == [] {
        LineInTwo(l, h, a, b);
      } else {
        FL.ParseCut(l, h.field, a, b);
        assert (a + b)[0] == a[0];
        SuffixEndsAlike(f.rest, a);
        var h' := Headers.AddField(h, f.s);
        if !Headers.Exceeds(l, h') {
          HeadersInTwo(l, h', f.rest, b);
        }
      }
    }
  }

  // ---------------------------------------------------------------------------------
  // Chunks
  // ---------------------------------------------------------------------------------

  /** Whether `a` ends behind the CR of the line end that follows the data of a chunk. */
  predicate EndsBehindDataCr(c: Chunks.Chunk, a: string)
    requires |c.data| <= c.header.size
  {
    |a| == c.header.size - |c.data| + 1 && EndsInCr(a)
  }

  predicate MayCutBody(l: Limits, c: Chunks.Chunk, a: string, b: string)
    requires |c.data| <= c.header.size && !c.trailers.field.state.Valid? && b != []
  {
    if c.IsLast() then HeadersHarmless(l, c.trailers, a, b)
    else EndsBehindDataCr(c, a) ==> b[0] != '\r' && !(l.strictCrlf && b[0] == '\n')
  }

  /** Whether cutting between `a` and `b` leaves the chunk as it is. */
  predicate ChunkHarmless(l: Limits, c: Chunks.Chunk, a: string, b: string)
    requires Chunks.Invariant(l, c) && !c.valid && b != []
  {
    if c.header.valid then MayCutBody(l, c, a, b)
    else
      var p := Chunks.ParseHeader(l, c.header, a);
      match p.out
      case Done => MayCutBody(l, c.(header := p.s), p.rest, b)
      case Error => p.rest != []
      case More => true
  }

  /** On every input, a cut of the data and its line end changes nothing exactly at these places. */
  lemma DataInTwo(l: Limits, c: Chunks.Chunk, a: string, b: string)
    requires |c.data| <= c.header.size && b != []
    requires Chunks.ParseData(l, c, a).out.More?
    ensures var p := Chunks.ParseData(l, c, a);
            Chunks.ParseData(l, c, a + b) == Chunks.ParseData(l, p.s, b) <==>
            (EndsBehindDataCr(c, a) ==> b[0] != '\r' && !(l.strictCrlf && b[0] == '\n'))
  {
    if |c.data| + |a| <= c.header.size {
      ChunkCuts.ShortDataCut(l, c, a, b);
    } else {
      ChunkCuts.LongDataCut(l, c, a, b);
      var p := Chunks.ParseData(l, c, a);
      assert p.s.data + b[..0] == p.s.data && b[0..] == b;
      var r := a[c.header.size - |c.data|..];
      assert r == ['\r'];
    }
  }

  lemma BodyInTwo(l: Limits, c: Chunks.Chunk, a: string, b: string)
    requires |c.data| <= c.header.size && !c.valid && !c.trailers.field.state.Valid? && b != []
    requires StartsWell(c.trailers, a) && MayCutBody(l, c, a, b)
    ensures var p := Chunks.ParseBody(l, c, a);
            var w := Chunks.ParseBody(l, c, a + b);
            if p.out.More?
            then |p.s.data| <= p.s.header.size && !p.s.trailers.field.state.Valid? && w == Chunks.ParseBody(l, p.s, b)
            else w == p.(rest := p.rest + b)
  {
    hide Headers.Parse;
    if c.IsLast() {
      HeadersInTwo(l, c.trailers, a, b);
    } else if Chunks.ParseData(l, c, a).out.More? {
      DataInTwo(l, c, a, b);
    } else {
      ChunkCuts.LongDataCut(l, c, a, b);
    }
  }

  /** Main result for chunks: the same, for the header, data and trailers of a chunk. */
  lemma ChunkInTwo(l: Limits, c: Chunks.Chunk, a: string, b: string)
    requires Chunks.Invariant(l, c) && !c.valid && b != []
    requires StartsWell(c.trailers, a) && ChunkHarmless(l, c, a, b)
    ensures var p := Chunks.Parse(l, c, a);
            Chunks.Parse(l, c, a + b) == if p.out.More? then Chunks.Parse(l, p.s, b) else p.(rest := p.rest + b)
  {
    hide Chunks.ParseHeader, Chunks.ParseBody;
    if c.header.valid {
      BodyInTwo(l, c, a, b);
    } else {
      Chunks.HeaderCut(l, c.header, a, b);
      var p := Chunks.ParseHeader(l, c.header, a);
      if p.out.Done? {
        BodyInTwo(l, c.(header := p.s), p.rest, b);
      }
    }
  }
}
