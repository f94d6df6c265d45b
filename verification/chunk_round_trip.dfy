/** Writing chunks (chunk_header::to_string, send_chunk, last_chunk) and reading them back. */
module ChunkRoundTrip {
  import opened Characters
  import opened Parsing
  import opened Numbers
  import opened Chunks
  import opened FieldFolding
  import opened HeaderEncoding
  import Headers

  function ExtensionText(extension: string): string {
    if extension == [] then "" else "; " + extension
  }

  /** chunk_header::to_string */
  function HeaderText(size: nat, extension: string): string {
    ToHex(size) + ExtensionText(extension) + CRLF
  }

  /** http_connection::send_chunk */
  function ChunkText(data: string, extension: string): string {
    HeaderText(|data|, extension) + data + CRLF
  }

  /** last_chunk::to_string */
  function LastChunkText(extension: string, trailers: string): string {
    "0" + ExtensionText(extension) + CRLF + trailers + CRLF
  }

  /** What the receiver with limits `l` accepts as a chunk header. */
  ghost predicate HeaderFits(l: Limits, size: nat, extension: string) {
    && size <= l.maxChunk && size <= LONG_MAX
    && All(NotEndOfLine, extension) && (extension != [] ==> !IsBlank(extension[0]) && l.maxWs >= 1)
    && |HeaderText(size, extension)| <= l.maxLine
  }

  /** One character: the only lemma below that looks into the loop of the automaton. */
  lemma Character(l: Limits, h: Header, c: char, inp: string)
    requires !h.state.Valid?
    ensures var r := Step(l, h, c);
            ParseHeader(l, h, [c] + inp) == if r.ok then ParseHeader(l, r.s, inp) else Parsed(r.s, inp, Error)
  {
    assert ([c] + inp)[1..] == inp;
  }

  lemma Finished(l: Limits, h: Header, inp: string)
    requires h.state.Valid?
    ensures ParseHeader(l, h, inp) == Parsed(h.(valid := true), inp, Done)
  {
  }

  lemma {:induction false} DigitsPart(l: Limits, h: Header, digits: string, inp: string)
    requires h.state == SizeLs || h.state == Size
    requires digits != [] && All(IsHexDigit, digits)
    requires h.length + |digits| <= l.maxLine && |h.hexSize| + |digits| <= MAX_SIZE_DIGITS
    ensures ParseHeader(l, h, digits + inp) ==
            ParseHeader(l, h.(hexSize := h.hexSize + digits, length := h.length + |digits|, state := Size), inp)
    decreases |digits|
  {
    hide ParseHeader;
    var h' := h.(hexSize := h.hexSize + [digits[0]], length := h.length + 1, state := Size);
    assert digits + inp == [digits[0]] + (digits[1..] + inp);
    Character(l, h, digits[0], digits[1..] + inp);
    if |digits| == 1 {
      assert digits[1..] + inp == inp;
      assert h.hexSize + digits == h'.hexSize;
    } else {
      DigitsPart(l, h', digits[1..], inp);
      assert h'.hexSize + digits[1..] == h.hexSize + digits;
    }
  }

  lemma {:induction false} ExtensionPart(l: Limits, h: Header, text: string, inp: string)
    requires text != [] && All(NotEndOfLine, text)
    requires h.state == Extension || (h.state == ExtensionLs && !IsBlank(text[0]))
    requires h.length + |text| <= l.maxLine
    ensures ParseHeader(l, h, text + inp) ==
            ParseHeader(l, h.(extension := h.extension + text, length := h.length + |text|, state := Extension), inp)
    decreases |text|
  {
    hide ParseHeader;
    var h' := h.(extension := h.extension + [text[0]], length := h.length + 1, state := Extension);
    assert text + inp == [text[0]] + (text[1..] + inp);
    Character(l, h, text[0], text[1..] + inp);
    if |text| == 1 {
      assert text[1..] + inp == inp;
      assert h.extension + text == h'.extension;
    } else {
      ExtensionPart(l, h', text[1..], inp);
      assert h'.extension + text[1..] == h.extension + text;
    }
  }

  lemma LineFeedPart(l: Limits, h: Header, inp: string)
    requires h.state == Lf && h.length + 1 <= l.maxLine
    ensures ParseHeader(l, h, "\n" + inp) ==
            Parsed(h.(length := h.length + 1, state := State.Valid, valid := true), inp, Done)
  {
    hide ParseHeader;
    Character(l, h, '\n', inp);
    Finished(l, h.(length := h.length + 1, state := State.Valid), inp);
  }

  lemma ReadNoExtension(l: Limits, h: Header, more: string)
    requires h.state == Size && 0 <= FromHex(h.hexSize) <= l.maxChunk
    requires h.length + 2 <= l.maxLine
    ensures ParseHeader(l, h, CRLF + more) ==
            Parsed(h.(size := FromHex(h.hexSize), sizeRead := true, length := h.length + 2,
                      state := State.Valid, valid := true), more, Done)
  {
    hide ParseHeader;
    assert CRLF + more == ['\r'] + ("\n" + more);
    Character(l, h, '\r', "\n" + more);
    var h' := h.(size := FromHex(h.hexSize), sizeRead := true, length := h.length + 1, state := Lf);
    LineFeedPart(l, h', more);
  }

  lemma ReadExtension(l: Limits, h: Header, extension: string, more: string)
    requires h.state == Size && 0 <= FromHex(h.hexSize) <= l.maxChunk && h.extension == []
    requires extension != [] && All(NotEndOfLine, extension) && !IsBlank(extension[0]) && l.maxWs >= 1
    requires h.length + |extension| + 4 <= l.maxLine
    ensures ParseHeader(l, h, "; " + extension + CRLF + more) ==
            Parsed(h.(size := FromHex(h.hexSize), sizeRead := true, ws := 1, extension := extension,
                      length := h.length + |extension| + 4, state := State.Valid, valid := true), more, Done)
  {
    hide ParseHeader;
    var end := ['\r'] + ("\n" + more);
    assert "; " + extension + CRLF + more == [';'] + ([' '] + (extension + end));
    SemicolonPart(l, h, extension + end);
    hide Step;
    var h2 := AfterSemicolon(h);
    ExtensionPart(l, h2, extension, end);
    assert h2.extension + extension == extension;
    EndOfExtension(l, h2.(extension := extension, length := h2.length + |extension|, state := Extension), more);
  }

  function AfterSemicolon(h: Header): Header
    requires 0 <= FromHex(h.hexSize)
  {
    h.(size := FromHex(h.hexSize), sizeRead := true, length := h.length + 2, ws := 1, state := ExtensionLs)
  }

  lemma SemicolonPart(l: Limits, h: Header, inp: string)
    requires h.state == Size && 0 <= FromHex(h.hexSize) <= l.maxChunk
    requires l.maxWs >= 1 && h.length + 2 <= l.maxLine
    ensures ParseHeader(l, h, [';'] + ([' '] + inp)) == ParseHeader(l, AfterSemicolon(h), inp)
  {
    hide ParseHeader;
    Character(l, h, ';', [' '] + inp);
    var h1 := h.(size := FromHex(h.hexSize), sizeRead := true, length := h.length + 1, ws := 0, state := ExtensionLs);
    Character(l, h1, ' ', inp);
  }

  lemma EndOfExtension(l: Limits, h: Header, more: string)
    requires h.state == Extension && h.length + 2 <= l.maxLine
    ensures ParseHeader(l, h, ['\r'] + ("\n" + more)) ==
            Parsed(h.(length := h.length + 2, state := State.Valid, valid := true), more, Done)
  {
    hide ParseHeader;
    Character(l, h, '\r', "\n" + more);
    LineFeedPart(l, h.(length := h.length + 1, state := Lf), more);
  }

  /** A chunk header that was written is read back. */
  lemma HeaderRoundTrip(l: Limits, size: nat, extension: string, more: string)
    requires HeaderFits(l, size, extension)
    ensures var p := ParseHeader(l, FRESH_HEADER, HeaderText(size, extension) + more);
            && p.out.Done? && p.rest == more && p.s.valid && p.s.state.Valid?
            && p.s.size == size && p.s.extension == extension
  {
    hide ParseHeader, ToText, FromText;
    var digits := ToHex(size);
    HexFitsSixteenDigits(size);
    TextRoundTrip(size, 16);
    var end := ExtensionText(extension) + CRLF + more;
    assert HeaderText(size, extension) + more == digits + end;
    assert All(IsHexDigit, digits) by {
      assert forall i :: 0 <= i < |digits| ==> IsDigitOf(16, digits[i]);
    }
    DigitsPart(l, FRESH_HEADER, digits, end);
    assert FRESH_HEADER.hexSize + digits == digits;
    var h := FRESH_HEADER.(hexSize := digits, length := |digits|, state := Size);
    if extension == [] {
      assert end == CRLF + more;
      ReadNoExtension(l, h, more);
    } else {
      ReadExtension(l, h, extension, more);
    }
  }

  /** A chunk that was written is read back, up to the line end behind its data. */
  lemma ChunkIsReadBack(l: Limits, data: string, extension: string, more: string)
    requires data != [] && HeaderFits(l, |data|, extension)
    ensures var p := Parse(l, Chunks.FRESH, ChunkText(data, extension) + more);
            && p.out.Done? && p.rest == more && p.s.data == data
            && p.s.header.size == |data| && p.s.header.extension == extension
  {
    hide ParseHeader, HeaderText;
    var tail := data + (CRLF + more);
    assert ChunkText(data, extension) + more == HeaderText(|data|, extension) + tail;
    HeaderRoundTrip(l, |data|, extension, tail);
    var h := ParseHeader(l, FRESH_HEADER, HeaderText(|data|, extension) + tail).s;
    var c := Chunks.FRESH.(header := h);
    assert tail[..|data|] == data && tail[|data|..] == CRLF + more;
    assert c.data + data == data;
    assert (CRLF + more)[1..] == "\n" + more;
    assert ("\n" + more)[1..] == more;
    assert ParseData(l, c, tail) == Parsed(c.(data := data, valid := true), more, Done);
  }

  /** The last chunk is read back with its trailers. */
  lemma LastChunkIsReadBack(l: Limits, extension: string, trailers: seq<HeaderLine>, more: string)
    requires HeaderFits(l, 0, extension) && HeadersFit(l, trailers)
    ensures var p := Parse(l, Chunks.FRESH, LastChunkText(extension, HeadersText(trailers)) + more);
            && p.out.Done? && p.rest == more && p.s.IsLast() && p.s.data == []
            && p.s.header.extension == extension && p.s.trailers.fields == FoldOf(trailers)
  {
    hide ParseHeader, Headers.Parse, HeadersText, HeadersFit, FoldOf;
    var tail := HeadersText(trailers) + (CRLF + more);
    ValueOfText(0, 16);
    assert LastChunkText(extension, HeadersText(trailers)) + more == HeaderText(0, extension) + tail;
    HeaderRoundTrip(l, 0, extension, tail);
    HeadersRoundTrip(l, trailers, more);
  }
}
