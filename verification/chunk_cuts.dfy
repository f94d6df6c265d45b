/** Cutting a chunk into buffers. */
module ChunkCuts {
  import opened Characters
  import opened Parsing
  import opened Chunks
  import Headers
  import FL = FieldLines

  /**
    Whether a buffer may start with `b` when the chunk is in state `c`: its trailers must
    not be cut in a bad place, and where CRLF is enforced it must not start with the LF
    behind the chunk data.
   */
  predicate GoodCut(l: Limits, c: Chunk, b: string) {
    b != [] && c.header.valid && !c.valid ==>
      if c.IsLast() then Headers.GoodCut(c.trailers, b)
      else l.strictCrlf ==> !(|c.data| == c.header.size && b[0] == '\n')
  }

  /** The error that the caller sees: a refusal before the buffer ran out. */
  predicate Refused(p: Parsed<Chunk>) { !p.out.Done? && p.rest != [] }

  lemma ShortDataCut(l: Limits, c: Chunk, a: string, b: string)
    requires |c.data| + |a| <= c.header.size && b != []
    ensures ParseData(l, c, a) == Parsed(c.(data := c.data + a), [], More)
    ensures ParseData(l, c, a + b) == ParseData(l, c.(data := c.data + a), b)
  {
    var required := c.header.size - |c.data|;
    if |a + b| > required {
      assert c.data + (a + b)[..required] == c.data + a + b[..required - |a|];
      assert (a + b)[required..] == b[required - |a|..];
    } else {
      assert c.data + (a + b) == c.data + a + b;
    }
  }

  lemma LongDataCut(l: Limits, c: Chunk, a: string, b: string)
    requires |c.data| <= c.header.size < |c.data| + |a| && b != []
    ensures var p := ParseData(l, c, a);
            var w := ParseData(l, c, a + b);
            if p.out.More?
            then p.rest == [] && |p.s.data| == c.header.size
                 && w == if b[0] == '\n' then Parsed(p.s.(valid := true), b[1..], Done) else Parsed(p.s, b, Error)
            else w == p.(rest := p.rest + b)
  {
    var required := c.header.size - |c.data|;
    assert (a + b)[..required] == a[..required];
    var r := a[required..];
    assert (a + b)[required..] == r + b;
    assert (r + b)[1..] == r[1..] + b;
    if r[0] == '\r' && r[1..] == [] {
      assert r[1..] + b == b;
    } else if r[0] == '\r' {
      assert (r[1..] + b)[1..] == r[1..][1..] + b;
    }
  }

  lemma NewlineEndsData(l: Limits, c: Chunk, b: string)
    requires |c.data| == c.header.size && b != [] && b[0] == '\n' && !l.strictCrlf
    ensures ParseData(l, c, b) == Parsed(c.(valid := true), b[1..], Done)
  {
    assert c.data + b[..0] == c.data;
    assert b[0..] == b;
  }

  lemma DataCut(l: Limits, c: Chunk, a: string, b: string)
    requires |c.data| <= c.header.size && b != []
    requires !Refused(ParseData(l, c, a + b))
    requires var p := ParseData(l, c, a);
             !p.out.Done? && p.rest == [] && l.strictCrlf ==> !(|p.s.data| == c.header.size && b[0] == '\n')
    ensures var p := ParseData(l, c, a);
            var w := ParseData(l, c, a + b);
            if p.out.Done? then w == p.(rest := p.rest + b)
            else p.rest == [] && p.out.More? && w == ParseData(l, p.s, b)
  {
    if |c.data| + |a| <= c.header.size {
      ShortDataCut(l, c, a, b);
    } else {
      LongDataCut(l, c, a, b);
      var p := ParseData(l, c, a);
      if p.out.More? && !l.strictCrlf {
        NewlineEndsData(l, p.s, b);
      }
      hide ParseData;
    }
  }

  lemma BodyCut(l: Limits, c: Chunk, a: string, b: string)
    requires |c.data| <= c.header.size && !c.trailers.field.state.Valid? && !c.valid && c.header.valid
    requires b != [] && !Refused(ParseBody(l, c, a + b))
    requires var p := ParseBody(l, c, a); !p.out.Done? && p.rest == [] ==> GoodCut(l, p.s, b)
    ensures var p := ParseBody(l, c, a);
            var w := ParseBody(l, c, a + b);
            if p.out.Done? then w == p.(rest := p.rest + b)
            else p.rest == [] && p.out.More? && |p.s.data| <= p.s.header.size
                 && !p.s.trailers.field.state.Valid? && w == ParseBody(l, p.s, b)
  {
    if c.IsLast() {
      hide Headers.Parse;
      Headers.ParseCut(l, c.trailers, a, b);
    } else {
      DataCut(l, c, a, b);
    }
  }

  /**
    A chunk that is not refused when it arrives in one buffer is read the same when the
    buffer is cut at a good place.
   */
  lemma ParseCut(l: Limits, c: Chunk, a: string, b: string)
    requires Invariant(l, c) && !c.valid && b != []
    requires !Refused(Parse(l, c, a + b))
    requires var p := Parse(l, c, a); !p.out.Done? && p.rest == [] ==> GoodCut(l, p.s, b)
    ensures var p := Parse(l, c, a);
            var w := Parse(l, c, a + b);
            if p.out.Done? then w == p.(rest := p.rest + b)
            else p.rest == [] && p.out.More? && w == Parse(l, p.s, b)
  {
    hide ParseHeader, ParseBody;
    if c.header.valid {
      BodyCut(l, c, a, b);
    } else {
      HeaderCut(l, c.header, a, b);
      var p := ParseHeader(l, c.header, a);
      if p.out.Done? {
        BodyCut(l, c.(header := p.s), p.rest, b);
      }
    }
  }

  /**
    The condition on cuts is tight for chunks too: when a chunk is complete in one buffer
    and the cut lies inside it, the cut is harmless if and only if it is a good one.
   */
  lemma CutIsHarmlessExactly(l: Limits, c: Chunk, a: string, b: string)
    requires Invariant(l, c) && !c.valid && b != []
    requires c.trailers.field == FL.FRESH || (a != [] && !IsEndOfLine(a[0]))
    requires Parse(l, c, a + b).out.Done? && Parse(l, c, a).out.More?
    ensures Parse(l, Parse(l, c, a).s, b) == Parse(l, c, a + b) <==> GoodCut(l, Parse(l, c, a).s, b)
  {
    hide ParseHeader, ParseBody;
    if GoodCut(l, Parse(l, c, a).s, b) {
      ParseCut(l, c, a, b);
    } else if c.header.valid {
      BadCut(l, c, a, b);
    } else {
      HeaderCut(l, c.header, a, b);
      var p := ParseHeader(l, c.header, a);
      BadCut(l, c.(header := p.s), p.rest, b);
    }
  }

  lemma BadCut(l: Limits, c: Chunk, a: string, b: string)
    requires |c.data| <= c.header.size && !c.valid && c.header.valid && !c.trailers.field.state.Valid? && b != []
    requires c.trailers.field == FL.FRESH || (a != [] && !IsEndOfLine(a[0]))
    requires ParseBody(l, c, a + b).out.Done? && ParseBody(l, c, a).out.More?
    requires !GoodCut(l, ParseBody(l, c, a).s, b)
    ensures ParseBody(l, ParseBody(l, c, a).s, b) != ParseBody(l, c, a + b)
  {
    if c.IsLast() {
      hide Headers.Parse;
      Headers.CutIsHarmlessExactly(l, c.trailers, a, b);
    } else {
      var p := ParseData(l, c, a);
      assert b[0..] == b;
      assert ParseData(l, p.s, b).out.Error?;
    }
  }
}
