/** The header block of headers.hpp (class message_headers), as values. */
module Headers {
  import opened Characters
  import opened Parsing
  import opened Numbers
  import FL = FieldLines

  type Fields = map<string, string>

  /** The member variables of a message_headers. */
  datatype Block = Block(fields: Fields, field: FL.Field, valid: bool, length: nat)

  const FRESH: Block := Block(map[], FL.FRESH, false, 0)

  const COOKIE: string := "cookie"

  function Separator(name: string): char {
    if Contains(name, COOKIE) then ';' else ','
  }

  /** add */
  function Add(fields: Fields, name: string, value: string): Fields {
    if name in fields
    then fields[name := fields[name] + [Separator(name)] + value]
    else fields[name := value]
  }

  /** The body of the loop in parse once a field is complete. */
  function AddField(h: Block, f: FL.Field): Block {
    Block(Add(h.fields, f.name, f.value), FL.FRESH, h.valid, h.length + FL.Size(f))
  }

  predicate Exceeds(l: Limits, h: Block) {
    h.length > l.maxHeaderLength || |h.fields| > l.maxHeaderNumber
  }

  /** The blank line that ends the block: CRLF or just LF. */
  function BlankLine(h: Block, inp: string): (p: Parsed<Block>)
    requires inp != [] && IsEndOfLine(inp[0])
    ensures |p.rest| < |inp| && p.s.field == h.field
    ensures p.s == if p.out.Done? then h.(valid := true) else h
  {
    var r := if inp[0] == '\r' then inp[1..] else inp;
    if r == [] then Parsed(h, r, More)
    else if r[0] != '\n' then Parsed(h, r, Error)
    else Parsed(h.(valid := true), r[1..], Done)
  }

  /** parse */
  function Parse(l: Limits, h: Block, inp: string): (p: Parsed<Block>)
    requires !h.field.state.Valid?
    ensures !p.s.field.state.Valid?
    ensures |p.rest| <= |inp|
    ensures inp != [] ==> |p.rest| < |inp|
    ensures p.out.More? ==> p.rest == []
    ensures !h.valid ==> (p.out.Done? <==> p.s.valid)
    decreases |inp|
  {
    if inp == [] then Parsed(h, inp, More)
    else if IsEndOfLine(inp[0]) then BlankLine(h, inp)
    else
      var p := FL.Parse(l, h.field, inp);
      if !p.out.Done? then Parsed(h.(field := p.s), p.rest, p.out)
      else
        var h' := AddField(h, p.s);
        if Exceeds(l, h') then Parsed(h', p.rest, Error) else Parse(l, h', p.rest)
  }

  /** find: the value of a field, blank if there is none. */
  function Find(fields: Fields, name: string): string {
    if name in fields then fields[name] else []
  }

  const LC_HOST: string := "host"
  const LC_CONTENT_LENGTH: string := "content-length"
  const LC_TRANSFER_ENCODING: string := "transfer-encoding"
  const LC_EXPECT: string := "expect"
  const IDENTITY: string := "identity"
  const CONTINUE: string := "100-continue"

  /** content_length: the size announced, 0 without a field, -1 if it is not a number. */
  function ContentLength(fields: Fields): (n: int)
    ensures -1 <= n <= LONG_MAX
  {
    var value := Find(fields, LC_CONTENT_LENGTH);
    if value == [] then 0 else FromDec(value)
  }

  /** is_chunked */
  predicate IsChunked(fields: Fields) {
    var value := Find(fields, LC_TRANSFER_ENCODING);
    value != [] && !Contains(Lowercase(value), IDENTITY)
  }

  /** expect_continue */
  predicate ExpectsContinue(fields: Fields) {
    var value := Find(fields, LC_EXPECT);
    value != [] && Contains(Lowercase(value), CONTINUE)
  }

  // ---------------------------------------------------------------------------------
  // Cutting a header block into buffers
  // ---------------------------------------------------------------------------------

  /**
    Whether a buffer may start with `b` when the block is in state `h`: a field in
    progress must not be followed by its line end, and a field just completed must not
    be followed by a continuation blank.
   */
  predicate GoodCut(h: Block, b: string) {
    b != [] ==> if h.field == FL.FRESH then !IsBlank(b[0]) else !IsEndOfLine(b[0])
  }

  /** The error that the caller sees: a refusal before the buffer ran out. */
  predicate Refused(p: Parsed<Block>) { !p.out.Done? && p.rest != [] }

  lemma BlankLineCut(l: Limits, h: Block, a: string, b: string)
    requires !h.field.state.Valid? && b != []
    requires a != [] && IsEndOfLine(a[0])
    ensures var p := Parse(l, h, a);
            var w := Parse(l, h, a + b);
            if p.out.More?
            then p.s == h && p.rest == [] && (IsEndOfLine(b[0]) && b[0] != '\r' ==> Parse(l, h, b) == w)
                 && (b[0] == '\n' || (w.out.Error? && w.rest == b))
            else w == p.(rest := p.rest + b)
  {
    assert (a + b)[1..] == a[1..] + b;
    if a[0] == '\r' && a[1..] != [] {
      assert (a[1..] + b)[1..] == a[1..][1..] + b;
    } else if a[0] == '\r' {
      assert a[1..] + b == b;
    }
  }

  /** The cases of the next lemma in which the buffer ends while a field is in progress. */
  lemma FieldCut(l: Limits, h: Block, a: string, b: string)
    requires !h.field.state.Valid? && b != []
    requires a != [] && !IsEndOfLine(a[0]) && !FL.Parse(l, h.field, a).out.Done?
    requires !Refused(Parse(l, h, a + b))
    requires var p := Parse(l, h, a); !p.out.Done? && p.rest == [] ==> GoodCut(p.s, b)
    ensures var p := Parse(l, h, a);
            p.rest == [] && p.out.More? && Parse(l, h, a + b) == Parse(l, p.s, b)
  {
    hide FL.Parse;
    FL.ParseCut(l, h.field, a, b);
    var p := FL.Parse(l, h.field, a);
    assert (a + b)[0] == a[0];
    assert p.s != FL.FRESH;
    assert !p.out.More? ==> FL.Parse(l, h.field, a + b) == p.(rest := p.rest + b);
  }

  /** The case in which the buffer ends right behind a line. */
  lemma LineCut(l: Limits, h: Block, a: string, b: string)
    requires !h.field.state.Valid? && b != []
    requires a != [] && !IsEndOfLine(a[0])
    requires var p := FL.Parse(l, h.field, a); p.out.Done? && p.rest == []
    requires !Refused(Parse(l, h, a + b))
    requires var p := Parse(l, h, a); !p.out.Done? && p.rest == [] ==> GoodCut(p.s, b)
    ensures var p := Parse(l, h, a);
            p.rest == [] && p.out.More? && Parse(l, h, a + b) == Parse(l, p.s, b)
  {
    var p := FL.Parse(l, h.field, a);
    var h' := AddField(h, p.s);
    assert Parse(l, h, a).s == h' && h'.field == FL.FRESH;
    FL.ParseCut(l, h.field, a, b);
    assert (a + b)[0] == a[0];
    assert p.rest + b == b;
    assert FL.Parse(l, h.field, a + b) == p.(rest := b);
  }

  /**
    A block that is not refused when it arrives in one buffer is read the same when the
    buffer is cut at a good place.
   */
  lemma {:induction false} ParseCut(l: Limits, h: Block, a: string, b: string)
    requires !h.field.state.Valid? && b != []
    requires !Refused(Parse(l, h, a + b))
    requires var p := Parse(l, h, a); !p.out.Done? && p.rest == [] ==> GoodCut(p.s, b)
    ensures var p := Parse(l, h, a);
            var w := Parse(l, h, a + b);
            if p.out.Done? then w == p.(rest := p.rest + b)
            else p.rest == [] && p.out.More? && w == Parse(l, p.s, b)
    decreases |a|
  {
    if a == [] {
      assert a + b == b;
    } else if IsEndOfLine(a[0]) {
      BlankLineCut(l, h, a, b);
    } else {
      var p := FL.Parse(l, h.field, a);
      if !p.out.Done? {
        FieldCut(l, h, a, b);
      } else if p.rest == [] {
        LineCut(l, h, a, b);
      } else {
        FL.ParseCut(l, h.field, a, b);
        assert (a + b)[0] == a[0];
        var h' := AddField(h, p.s);
        if !Exceeds(l, h') {
          ParseCut(l, h', p.rest, b);
        }
      }
    }
  }

  /** What the rest `b` of a buffer does to a block with a field in progress. */
  function Resume(l: Limits, h: Block, b: string): Parsed<Block>
    requires !h.field.state.Valid?
  {
    var p := FL.Parse(l, h.field, b);
    if !p.out.Done? then Parsed(h.(field := p.s), p.rest, p.out)
    else
      var h' := AddField(h, p.s);
      if Exceeds(l, h') then Parsed(h', p.rest, Error) else Parse(l, h', p.rest)
  }

  /** In one buffer, a field in progress is always resumed, whatever comes next. */
  lemma {:induction false} WholeResumes(l: Limits, h: Block, a: string, b: string)
    requires !h.field.state.Valid? && b != []
    requires h.field == FL.FRESH || (a != [] && !IsEndOfLine(a[0]))
    requires var p := Parse(l, h, a); p.out.More? && p.s.field != FL.FRESH
    ensures Parse(l, h, a + b) == Resume(l, Parse(l, h, a).s, b)
    decreases |a|
  {
    hide FL.Parse;
    if a != [] && !IsEndOfLine(a[0]) {
      assert (a + b)[0] == a[0];
      FL.ParseCut(l, h.field, a, b);
      var p := FL.Parse(l, h.field, a);
      if p.out.Done? && p.rest != [] {
        WholeResumes(l, AddField(h, p.s), p.rest, b);
      }
    }
  }

  /** A field in progress uses up its line end, so the block ends strictly later. */
  lemma ResumeReadsLineEnd(l: Limits, h: Block, b: string)
    requires !h.field.state.Valid? && h.field != FL.FRESH
    requires b != [] && IsEndOfLine(b[0])
    requires Resume(l, h, b).out.Done?
    ensures Resume(l, h, b) != Parse(l, h, b)
  {
    var f := h.field;
    var p := FL.Parse(l, f, b);
    var r := FL.Step(l, f, b[0]);
    assert r.ok;
    if b[0] == '\r' && |b| > 1 {
      assert p == FL.Parse(l, r.s, b[1..]);
      assert |p.rest| < |b[1..]|;
    }
  }

  /**
    The condition on cuts is tight. When a block is complete in one buffer and the cut
    lies inside it, the cut is harmless if and only if it is a good one: otherwise a
    field is dropped or a continuation line is mistaken for a field.
   */
  lemma CutIsHarmlessExactly(l: Limits, h: Block, a: string, b: string)
    requires !h.field.state.Valid? && b != []
    requires h.field == FL.FRESH || (a != [] && !IsEndOfLine(a[0]))
    requires Parse(l, h, a + b).out.Done? && Parse(l, h, a).out.More?
    ensures Parse(l, Parse(l, h, a).s, b) == Parse(l, h, a + b) <==> GoodCut(Parse(l, h, a).s, b)
  {
    var p := Parse(l, h, a);
    if GoodCut(p.s, b) {
      ParseCut(l, h, a, b);
    } else if p.s.field == FL.FRESH {
      FL.ContinuationLost(l, b);
    } else {
      WholeResumes(l, h, a, b);
      ResumeReadsLineEnd(l, p.s, b);
    }
  }

  /**
    What a cut in front of a line end does to a field in progress: the block is complete
    at once, and the field is not among its fields.
   */
  lemma PendingFieldIsDropped(l: Limits, h: Block, b: string)
    requires !h.field.state.Valid? && h.field != FL.FRESH
    requires "\n" <= b || CRLF <= b
    ensures var p := Parse(l, h, b);
            p.out.Done? && p.s == h.(valid := true)
            && p.rest == b[if "\n" <= b then 1 else 2..]
  {
    if CRLF <= b {
      assert b[1..][1..] == b[2..];
    }
  }
}
