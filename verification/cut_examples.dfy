/** Messages that are accepted whole and damaged by a cut: each of the bad cuts occurs. */
module CutExamples {
  import opened Characters
  import opened Parsing
  import opened Numbers
  import opened FieldFolding
  import opened HeaderFold
  import opened ChunkRoundTrip
  import FL = FieldLines
  import Headers
  import Chunks

  const SMALL: Limits := Limits(8, 8, 999, 8, 8, 64, 16, 2, true, 16, 16)

  const AB: Segment := Segment(" ", "b", true)
  const AC: Segment := Segment(" ", "c", true)

  lemma Segments()
    ensures AreSegments(SMALL, [AB]) && SegmentsText([AB]) == " b\r\n" && Unfolded([AB]) == "b"
    ensures AreSegments(SMALL, [AB, AC]) && SegmentsText([AB, AC]) == " b\r\n c\r\n" && Unfolded([AB, AC]) == "b c"
    ensures BlankCount([AB]) == 1 && BlankCount([AB, AC]) == 2
    ensures Lowercase("A") == "a"
  {
    assert [AB, AC][1..] == [AC] && [AB][1..] == [] && [AC][1..] == [];
    assert "A"[1..] == "";
  }

  /** The field "a" alone, written in the lines `gs`, and a blank line. */
  lemma OneFieldBlock(gs: seq<Segment>)
    requires AreSegments(SMALL, gs) && BlankCount(gs) <= 2 && |SegmentsText(gs)| <= 14 && |Unfolded(gs)| <= 60
    ensures var whole := Headers.Parse(SMALL, Headers.FRESH, "A:" + SegmentsText(gs) + CRLF);
            whole.out.Done? && whole.s.fields == map["a" := Unfolded(gs)] && whole.rest == ""
  {
    hide SegmentsText, Unfolded, BlankCount, Headers.Parse;
    var fs := [Source("A", gs)];
    Segments();
    assert fs[1..] == [];
    assert "A" + ":" + SegmentsText(gs) == "A:" + SegmentsText(gs);
    assert BlockText(fs) == "A:" + SegmentsText(gs);
    assert LineEnd(true) + "" == CRLF;
    BlockParses(SMALL, Headers.FRESH, fs, true, "");
    assert gs != [];
    hide AreSegments;
    var h := AddSource(Headers.FRESH, fs[0]);
    assert h.fields == map["a" := Unfolded(gs)];
    assert h.length == 1 + |Unfolded(gs)|;
    assert AddSources(Headers.FRESH, fs) == AddSources(h, []) == h;
    assert Fits(SMALL, h, []);
    assert Fits(SMALL, Headers.FRESH, fs);
    assert "A:" + SegmentsText(gs) + CRLF == BlockText(fs) + (LineEnd(true) + "");
  }

  /** A field is dropped when the buffer ends in front of its line end. */
  lemma FieldDropped()
    ensures var whole := Headers.Parse(SMALL, Headers.FRESH, "A: b\r\n\r\n");
            whole.out.Done? && whole.s.fields == map["a" := "b"] && whole.rest == ""
    ensures var first := Headers.Parse(SMALL, Headers.FRESH, "A: b");
            && first.out.More? && first.rest == ""
            && var second := Headers.Parse(SMALL, first.s, "\r\n\r\n");
               second.out.Done? && second.s.fields == map[] && second.rest == "\r\n"
  {
    hide Headers.Parse, FL.Parse, AreSegments, SegmentsText, Unfolded, BlankCount;
    Segments();
    OneFieldBlock([AB]);
    assert "A:" + " b\r\n" + CRLF == "A: b\r\n\r\n";
    FieldBegun();
    var f := FL.Parse(SMALL, FL.FRESH, "A: b").s;
    LineBegun("A: b");
    var h := Headers.FRESH.(field := f);
    assert CRLF <= "\r\n\r\n";
    Headers.PendingFieldIsDropped(SMALL, h, "\r\n\r\n");
    assert "\r\n\r\n"[0] == '\r' && "\r\n\r\n"[2..] == "\r\n";
  }

  /** A field that is still in progress when the buffer ends. */
  lemma FieldBegun()
    ensures var p := FL.Parse(SMALL, FL.FRESH, "A: b");
            p.out.More? && p.s != FL.FRESH
  {
    hide FL.Parse;
    var f0 := FL.FRESH;
    var f1 := FL.Step(SMALL, f0, 'A').s;
    var f2 := FL.Step(SMALL, f1, ':').s;
    var f3 := FL.Step(SMALL, f2, ' ').s;
    var f4 := FL.Step(SMALL, f3, 'b').s;
    FieldFolding.Character(SMALL, f0, 'A', ": b");
    FieldFolding.Character(SMALL, f1, ':', " b");
    FieldFolding.Character(SMALL, f2, ' ', "b");
    FieldFolding.Character(SMALL, f3, 'b', "");
    assert ['A'] + ": b" == "A: b" && [':'] + " b" == ": b" && [' '] + "b" == " b" && ['b'] + "" == "b";
    AtEnd(f4);
  }

  lemma AtEnd(f: FL.Field)
    requires !f.state.Valid?
    ensures FL.Parse(SMALL, f, "") == Parsed(f, "", More)
  {
  }

  lemma LineBegun(inp: string)
    requires inp != [] && !IsEndOfLine(inp[0]) && FL.Parse(SMALL, FL.FRESH, inp).out.More?
    ensures Headers.Parse(SMALL, Headers.FRESH, inp) ==
            Parsed(Headers.FRESH.(field := FL.Parse(SMALL, FL.FRESH, inp).s), "", More)
  {
    hide FL.Parse;
  }

  /** A fold is lost when the buffer ends in front of it. */
  lemma FoldLost()
    ensures var whole := Headers.Parse(SMALL, Headers.FRESH, "A: b\r\n c\r\n\r\n");
            whole.out.Done? && whole.s.fields == map["a" := "b c"]
    ensures var first := Headers.Parse(SMALL, Headers.FRESH, "A: b\r\n");
            first.out.More? && Headers.Parse(SMALL, first.s, " c\r\n\r\n").out.Error?
  {
    hide Headers.Parse, FL.Parse, AreSegments, SegmentsText, Unfolded, BlankCount;
    Segments();
    OneFieldBlock([AB, AC]);
    assert "A:" + " b\r\n c\r\n" + CRLF == "A: b\r\n c\r\n\r\n";
    assert FieldText("A", [AB]) + "" == "A: b\r\n";
    FoldedField(SMALL, "A", [AB], "");
    LineRead("A: b\r\n");
    FL.ContinuationLost(SMALL, " c\r\n\r\n");
    BlankRefused(Headers.Parse(SMALL, Headers.FRESH, "A: b\r\n").s, " c\r\n\r\n");
  }

  lemma LineRead(inp: string)
    requires inp != [] && !IsEndOfLine(inp[0])
    requires var p := FL.Parse(SMALL, FL.FRESH, inp); p.out.Done? && p.rest == "" && |p.s.name| + |p.s.value| <= 64
    ensures var p := Headers.Parse(SMALL, Headers.FRESH, inp); p.out.More? && p.s.field == FL.FRESH
  {
    hide FL.Parse;
    var h := Headers.AddField(Headers.FRESH, FL.Parse(SMALL, FL.FRESH, inp).s);
    assert |h.fields| == 1;
  }

  lemma BlankRefused(h: Headers.Block, inp: string)
    requires inp != [] && !IsEndOfLine(inp[0]) && h.field == FL.FRESH && FL.Parse(SMALL, FL.FRESH, inp).out.Error?
    ensures Headers.Parse(SMALL, h, inp).out.Error?
  {
  }

  /** A chunk of one byte, of which the header has been read. */
  lemma BehindHeader(rest: string) returns (c: Chunks.Chunk)
    ensures Chunks.Invariant(SMALL, c) && !c.valid && c.header.valid && c.header.size == 1 && c.data == ""
    ensures Chunks.Parse(SMALL, Chunks.FRESH, "1\r\n" + rest) == Chunks.ParseData(SMALL, c, rest)
  {
    hide Chunks.ParseHeader, Chunks.ParseData;
    OneFits();
    HeaderRoundTrip(SMALL, 1, "", rest);
    c := Chunks.FRESH.(header := Chunks.ParseHeader(SMALL, Chunks.FRESH_HEADER, "1\r\n" + rest).s);
  }

  lemma DataAndCr(c: Chunks.Chunk)
    requires c.header.size == 1 && c.data == ""
    ensures Chunks.ParseData(SMALL, c, "x\r") == Parsed(c.(data := "x"), "", More)
    ensures Chunks.ParseData(SMALL, c, "x\r\r\n") == Parsed(c.(data := "x"), "\r\n", Error)
  {
    assert "x\r"[..1] == "x" && "x\r"[1..] == "\r" && "\r"[1..] == "";
    assert "x\r\r\n"[..1] == "x" && "x\r\r\n"[1..] == "\r\r\n" && "\r\r\n"[1..] == "\r\n";
    assert c.data + "x" == "x";
  }

  /** A chunk is refused when the buffer ends inside the line end behind its data. */
  lemma ChunkRefused()
    ensures var whole := Chunks.Parse(SMALL, Chunks.FRESH, "1\r\nx\r\n");
            whole.out.Done? && whole.s.data == "x"
    ensures var first := Chunks.Parse(SMALL, Chunks.FRESH, "1\r\nx\r");
            && first.out.More?
            && Chunks.Parse(SMALL, first.s, "\n") == Parsed(first.s, "\n", Error)
  {
    hide Chunks.Parse, Chunks.ParseData;
    OneFits();
    assert ChunkText("x", "") + "" == "1\r\nx\r\n";
    ChunkIsReadBack(SMALL, "x", "", "");
    assert "1\r\n" + "x\r" == "1\r\nx\r";
    var c := BehindHeader("x\r");
    DataAndCr(c);
    NewlineRefused(c.(data := "x"));
  }

  lemma NewlineRefused(c: Chunks.Chunk)
    requires Chunks.Invariant(SMALL, c) && !c.valid && c.header.valid && |c.data| == c.header.size > 0
    ensures Chunks.Parse(SMALL, c, "\n") == Parsed(c, "\n", Error)
  {
    assert c.data + "\n"[..0] == c.data && "\n"[0..] == "\n";
  }

  lemma OneFits()
    ensures HeaderFits(SMALL, 1, "") && HeaderText(1, "") == "1\r\n"
  {
    assert ToHex(1) == "1";
  }

  // ---------------------------------------------------------------------------------
  // Errors at the end of a buffer
  // ---------------------------------------------------------------------------------

  /** A byte that is refused in one buffer is skipped when it is the last of a buffer. */
  lemma BadByteSkipped()
    ensures var whole := Headers.Parse(SMALL, Headers.FRESH, "A@: b\r\n\r\n");
            whole.out.Error? && whole.rest != ""
    ensures var first := Headers.Parse(SMALL, Headers.FRESH, "A@");
            && first.out.Error? && first.rest == ""
            && var second := Headers.Parse(SMALL, first.s, ": b\r\n\r\n");
               second.out.Done? && second.s.fields == map["a" := "b"]
  {
    hide Headers.Parse, FL.Parse;
    var f1 := FL.Step(SMALL, FL.FRESH, 'A').s;
    var f2 := FL.Step(SMALL, f1, '@').s;
    assert ['A'] + "@" == "A@" && ['@'] + "" == "@";
    FieldFolding.Character(SMALL, FL.FRESH, 'A', "@");
    FieldFolding.Character(SMALL, f1, '@', "");
    assert ['A'] + "@: b\r\n\r\n" == "A@: b\r\n\r\n" && ['@'] + ": b\r\n\r\n" == "@: b\r\n\r\n";
    FieldFolding.Character(SMALL, FL.FRESH, 'A', "@: b\r\n\r\n");
    FieldFolding.Character(SMALL, f1, '@', ": b\r\n\r\n");
    LineRefused(SMALL, Headers.FRESH, "A@");
    LineRefused(SMALL, Headers.FRESH, "A@: b\r\n\r\n");
    ValueOfA(f2);
    FieldThenBlankLine(SMALL, Headers.FRESH.(field := f2), ": b\r\n\r\n");
  }

  lemma LineRefused(l: Limits, h: Headers.Block, inp: string)
    requires inp != [] && !IsEndOfLine(inp[0]) && !h.field.state.Valid? && FL.Parse(l, h.field, inp).out.Error?
    ensures var p := FL.Parse(l, h.field, inp);
            Headers.Parse(l, h, inp) == Parsed(h.(field := p.s), p.rest, Error)
  {
    hide FL.Parse;
  }

  /** The rest of a field of which the name has been read. */
  lemma ValueOfA(f: FL.Field)
    requires f == FL.Field("a", "", 2, 0, FL.Name)
    ensures var p := FL.Parse(SMALL, f, ": b\r\n\r\n");
            p.out.Done? && p.rest == "\r\n" && p.s.name == "a" && p.s.value == "b"
  {
    hide FL.Parse;
    var f' := FL.Step(SMALL, f, ':').s;
    assert [':'] + " b\r\n\r\n" == ": b\r\n\r\n";
    FieldFolding.Character(SMALL, f, ':', " b\r\n\r\n");
    Segments();
    assert SegmentText(AB) + "\r\n" == " b\r\n\r\n";
    SegmentPart(SMALL, f', AB, "\r\n");
    var f'' := f'.(value := f'.value + "b", length := 7, ws := 1, state := FL.State.Valid);
    FieldFolding.Finished(SMALL, f'', "\r\n");
  }

  lemma FieldThenBlankLine(l: Limits, h: Headers.Block, inp: string)
    requires inp != [] && !IsEndOfLine(inp[0]) && !h.field.state.Valid? && h.fields == map[] && h.length == 0
    requires var p := FL.Parse(l, h.field, inp); p.out.Done? && p.rest == "\r\n" && |p.s.name| + |p.s.value| <= l.maxHeaderLength
    requires l.maxHeaderNumber > 0
    ensures var p := FL.Parse(l, h.field, inp);
            var q := Headers.Parse(l, h, inp);
            q.out.Done? && q.s.fields == map[p.s.name := p.s.value]
  {
    hide FL.Parse;
    var p := FL.Parse(l, h.field, inp);
    var h' := Headers.AddField(h, p.s);
    assert h'.fields == map[p.s.name := p.s.value] && |h'.fields| == 1;
    assert "\r\n"[1..][1..] == "";
  }

  const NO_HEADERS: Limits := SMALL.(maxHeaderNumber := 0)

  /** One header more than allowed is let through when its line ends a buffer. */
  lemma HeaderTooMany()
    ensures var whole := Headers.Parse(NO_HEADERS, Headers.FRESH, "A: b\r\n\r\n");
            whole.out.Error? && whole.rest != ""
    ensures var first := Headers.Parse(NO_HEADERS, Headers.FRESH, "A: b\r\n");
            && first.out.Error? && first.rest == ""
            && var second := Headers.Parse(NO_HEADERS, first.s, "\r\n");
               second.out.Done? && Headers.Exceeds(NO_HEADERS, second.s)
  {
    hide Headers.Parse, FL.Parse, SegmentsText, Unfolded, BlankCount;
    Segments();
    assert AreSegments(NO_HEADERS, [AB]);
    assert FieldText("A", [AB]) + "" == "A: b\r\n" && FieldText("A", [AB]) + "\r\n" == "A: b\r\n\r\n";
    FoldedField(NO_HEADERS, "A", [AB], "");
    FoldedField(NO_HEADERS, "A", [AB], "\r\n");
    LineExceeds(NO_HEADERS, "A: b\r\n");
    LineExceeds(NO_HEADERS, "A: b\r\n\r\n");
    BlankLineEnds(NO_HEADERS, Headers.Parse(NO_HEADERS, Headers.FRESH, "A: b\r\n").s);
  }

  lemma LineExceeds(l: Limits, inp: string)
    requires inp != [] && !IsEndOfLine(inp[0]) && FL.Parse(l, FL.FRESH, inp).out.Done? && l.maxHeaderNumber == 0
    ensures var f := FL.Parse(l, FL.FRESH, inp);
            var p := Headers.Parse(l, Headers.FRESH, inp);
            p.out.Error? && p.rest == f.rest && p.s.field == FL.FRESH && Headers.Exceeds(l, p.s)
  {
    hide FL.Parse;
    assert |Headers.AddField(Headers.FRESH, FL.Parse(l, FL.FRESH, inp).s).fields| == 1;
  }

  lemma BlankLineEnds(l: Limits, h: Headers.Block)
    requires !h.field.state.Valid?
    ensures Headers.Parse(l, h, "\r\n") == Parsed(h.(valid := true), "", Done)
  {
    assert "\r\n"[1..][1..] == "";
  }

  /** A CR too many behind the data of a chunk is let through when it starts a buffer. */
  lemma CrTwice()
    ensures var whole := Chunks.Parse(SMALL, Chunks.FRESH, "1\r\nx\r\r\n");
            whole.out.Error? && whole.rest != ""
    ensures var first := Chunks.Parse(SMALL, Chunks.FRESH, "1\r\nx\r");
            && first.out.More?
            && var second := Chunks.Parse(SMALL, first.s, "\r\n");
               second.out.Done? && second.s.data == "x"
  {
    hide Chunks.Parse, Chunks.ParseData;
    assert "1\r\n" + "x\r" == "1\r\nx\r" && "1\r\n" + "x\r\r\n" == "1\r\nx\r\r\n";
    var c := BehindHeader("x\r");
    DataAndCr(c);
    var c' := BehindHeader("x\r\r\n");
    DataAndCr(c');
    LineEndTaken(c.(data := "x"));
  }

  lemma LineEndTaken(c: Chunks.Chunk)
    requires Chunks.Invariant(SMALL, c) && !c.valid && c.header.valid && |c.data| == c.header.size > 0
    ensures Chunks.Parse(SMALL, c, "\r\n") == Parsed(c.(valid := true), "", Done)
  {
    assert c.data + "\r\n"[..0] == c.data && "\r\n"[0..] == "\r\n";
    assert "\r\n"[1..] == "\n" && "\n"[1..] == "";
  }
}
