/** The chunk automata of chunk.hpp (chunk_header and rx_chunk), as values. */
module Chunks {
  import opened Characters
  import opened Parsing
  import opened Numbers
  import Headers

  datatype State =
    | SizeLs | Size | ExtensionLs | Extension | Lf | Valid
    | ErrorLength | ErrorCrlf | ErrorWs | ErrorSize

  /** The member variables of a chunk_header. */
  datatype Header = Header(
    size: nat,
    length: nat,
    ws: nat,
    hexSize: string,
    extension: string,
    state: State,
    sizeRead: bool,
    valid: bool)

  const FRESH_HEADER: Header := Header(0, 0, 0, [], [], SizeLs, false, false)

  /** Enough digits for a 64-bit number. */
  const MAX_SIZE_DIGITS: nat := 16

  /** A size read from the text: what is not a number becomes the largest size_t. */
  function SizeOf(hexSize: string): nat {
    var n := FromHex(hexSize);
    if n < 0 then SIZE_MAX else n
  }

  /** The SIZE case of parse_char, which SIZE_LS falls through to. */
  function SizeStep(l: Limits, h: Header, c: char): Stepped<Header> {
    if IsHexDigit(c) then
      var h := h.(hexSize := h.hexSize + [c]);
      if |h.hexSize| > MAX_SIZE_DIGITS then Stepped(h.(state := ErrorSize), false) else Stepped(h, true)
    else if IsEndOfLine(c) || c == ';' then
      var h := h.(size := SizeOf(h.hexSize), sizeRead := true);
      if h.size > l.maxChunk then Stepped(h.(state := ErrorSize), false)
      else if c == ';' then Stepped(h.(ws := 0, state := ExtensionLs), true)
      else if c == '\r' then Stepped(h.(state := Lf), true)
      else if l.strictCrlf then Stepped(h, false)
      else Stepped(h.(state := State.Valid), true)
    else Stepped(h, false)
  }

  /** The EXTENSION case of parse_char, which EXTENSION_LS falls through to. */
  function ExtensionStep(l: Limits, h: Header, c: char): Stepped<Header> {
    if !IsEndOfLine(c) then Stepped(h.(extension := h.extension + [c], state := Extension), true)
    else if c == '\r' then Stepped(h.(state := Lf), true)
    else if l.strictCrlf then Stepped(h.(state := ErrorCrlf), false)
    else Stepped(h.(state := State.Valid), true)
  }

  /** parse_char */
  function Step(l: Limits, h: Header, c: char): (r: Stepped<Header>)
    ensures HeaderInvariant(l, h) ==> HeaderInvariant(l, r.s)
    ensures r.s.valid == h.valid
    ensures !r.ok && !h.state.Valid? ==> !r.s.state.Valid?
  {
    var h := h.(length := h.length + 1);
    if h.length > l.maxLine then Stepped(h.(state := ErrorLength), false)
    else match h.state
      case SizeLs =>
        if IsBlank(c) then
          var h := h.(ws := h.ws + 1);
          if h.ws > l.maxWs then Stepped(h.(state := ErrorWs), false) else Stepped(h, true)
        else SizeStep(l, h.(state := Size), c)
      case Size => SizeStep(l, h, c)
      case ExtensionLs =>
        if IsBlank(c) then
          var h := h.(ws := h.ws + 1);
          if h.ws > l.maxWs then Stepped(h, false) else Stepped(h, true)
        else ExtensionStep(l, h.(state := Extension), c)
      case Extension => ExtensionStep(l, h, c)
      case Lf => if c == '\n' then Stepped(h.(state := State.Valid), true) else Stepped(h, false)
      case _ => Stepped(h, false)
  }

  /** Behind the size, the size is known to be allowed. */
  predicate HeaderInvariant(l: Limits, h: Header) {
    h.state in {ExtensionLs, Extension, Lf, State.Valid} ==> h.size <= l.maxChunk
  }

  /** chunk_header::parse */
  function ParseHeader(l: Limits, h: Header, inp: string): (p: Parsed<Header>)
    ensures |p.rest| <= |inp|
    ensures inp != [] && !h.state.Valid? ==> |p.rest| < |inp|
    ensures p.out.Done? <==> p.s.state.Valid?
    ensures !h.valid ==> p.s.valid == p.out.Done?
    ensures p.out.More? ==> p.rest == []
    ensures HeaderInvariant(l, h) ==> HeaderInvariant(l, p.s)
    decreases |inp|
  {
    hide Step;
    if h.state.Valid? then Parsed(h.(valid := true), inp, Done)
    else if inp == [] then Parsed(h.(valid := false), inp, More)
    else
      var r := Step(l, h, inp[0]);
      if !r.ok then Parsed(r.s, inp[1..], Error) else ParseHeader(l, r.s, inp[1..])
  }

  /** The buffers of a chunk header may be cut anywhere. */
  lemma {:induction false} HeaderCut(l: Limits, h: Header, a: string, b: string)
    requires !h.valid
    ensures var p := ParseHeader(l, h, a);
            ParseHeader(l, h, a + b) ==
            if p.out.More? then ParseHeader(l, p.s, b) else p.(rest := p.rest + b)
    decreases |a|
  {
    if a == [] {
      assert a + b == b;
    } else if !h.state.Valid? {
      assert (a + b)[1..] == a[1..] + b;
      var r := Step(l, h, a[0]);
      if r.ok {
        HeaderCut(l, r.s, a[1..], b);
      }
    }
  }

  // ---------------------------------------------------------------------------------
  // Chunks
  // ---------------------------------------------------------------------------------

  /** The member variables of an rx_chunk. */
  datatype Chunk = Chunk(header: Header, data: string, trailers: Headers.Block, valid: bool) {
    predicate IsLast() { header.size == 0 }
  }

  const FRESH: Chunk := Chunk(FRESH_HEADER, [], Headers.FRESH, false)

  /** What holds of a chunk between calls. */
  predicate Invariant(l: Limits, c: Chunk) {
    && HeaderInvariant(l, c.header)
    && c.header.valid == c.header.state.Valid?
    && !c.trailers.field.state.Valid?
    && (!c.header.valid ==> c.data == [] && c.trailers == Headers.FRESH && !c.valid)
    && (c.header.valid ==> |c.data| <= c.header.size <= l.maxChunk)
    && (c.header.valid && !c.IsLast() ==> c.trailers == Headers.FRESH && (c.valid ==> |c.data| == c.header.size))
    && (c.header.valid && c.IsLast() ==> c.trailers.valid == c.valid)
  }

  /** The line end behind the data of a chunk: CRLF or, if that is not enforced, LF. */
  function ParseDataEnd(l: Limits, c: Chunk, inp: string): (p: Parsed<Chunk>)
    requires inp != []
    ensures |p.rest| <= |inp|
  {
    if inp[0] != '\r' && l.strictCrlf then Parsed(c, inp, Error)
    else
      var r := if inp[0] == '\r' then inp[1..] else inp;
      if r == [] then Parsed(c, r, More)
      else if r[0] != '\n' then Parsed(c, r, Error)
      else Parsed(c.(valid := true), r[1..], Done)
  }

  /** The data of a chunk and the line end behind it. */
  function ParseData(l: Limits, c: Chunk, inp: string): (p: Parsed<Chunk>)
    requires |c.data| <= c.header.size
    ensures |p.rest| <= |inp|
  {
    var required := c.header.size - |c.data|;
    if |inp| > required
    then ParseDataEnd(l, c.(data := c.data + inp[..required]), inp[required..])
    else Parsed(c.(data := c.data + inp), [], More)
  }

  /** The part of rx_chunk::parse behind the chunk header. */
  function ParseBody(l: Limits, c: Chunk, inp: string): (p: Parsed<Chunk>)
    requires |c.data| <= c.header.size && !c.trailers.field.state.Valid?
    ensures p.s.header == c.header
  {
    if c.IsLast() then
      var p := Headers.Parse(l, c.trailers, inp);
      Parsed(c.(trailers := p.s, valid := c.valid || p.out.Done?), p.rest, p.out)
    else ParseData(l, c, inp)
  }

  /** rx_chunk::parse */
  function Parse(l: Limits, c: Chunk, inp: string): (p: Parsed<Chunk>)
    requires Invariant(l, c) && !c.valid
    ensures Invariant(l, p.s)
    ensures |p.rest| <= |inp|
    ensures inp != [] ==> |p.rest| < |inp| || (p.out.Error? && p.rest == inp)
    ensures p.out.Done? <==> p.s.valid
    ensures p.out.More? ==> p.rest == []
  {
    if c.header.valid then ParseBody(l, c, inp)
    else
      var p := ParseHeader(l, c.header, inp);
      var c := c.(header := p.s);
      if p.out.Done? then ParseBody(l, c, p.rest) else Parsed(c, p.rest, p.out)
  }
}
