/**
  The chunk header automaton accepts exactly the chunk header grammar (section 4.1 of
  RFC 7230, with the library's limits): as for request lines it is compared, on every
  input, with a decoder that splits the input into its parts.
 */
module ChunkHeaderGrammar {
  import opened Characters
  import opened Parsing
  import opened Numbers
  import opened Chunks
  import Grammar = RequestLineGrammar

  datatype Decoded = Decoded(size: nat, extension: string, rest: string)

  /** The size that hexadecimal digits stand for; none, or too many for a long, is the largest. */
  function SizeValue(digits: string): nat
    requires forall i :: 0 <= i < |digits| ==> IsDigitOf(16, digits[i])
  {
    if digits != "" && Value(digits, 16) <= 9223372036854775807 then Value(digits, 16) else 18446744073709551615
  }

  function DecodeEnd(l: Limits, size: nat, extension: string, s: string): Option<Decoded> {
    var eol := Grammar.EolLength(l.strictCrlf, s);
    if eol > 0 then Some(Decoded(size, extension, s[eol..])) else None
  }

  function DecodeExtension(l: Limits, size: nat, s: string): Option<Decoded> {
    var ws := TakeWhile(IsBlank, s);
    var s' := s[|ws|..];
    var extension := TakeWhile(NotEndOfLine, s');
    if |ws| <= l.maxWs then DecodeEnd(l, size, extension, s'[|extension|..]) else None
  }

  function DecodeSize(l: Limits, s: string): Option<Decoded> {
    var digits := TakeWhile(IsHexDigit, s);
    assert forall i :: 0 <= i < |digits| ==> IsHexDigit(digits[i]) && IsDigitOf(16, digits[i]);
    var s' := s[|digits|..];
    if |digits| > 16 || SizeValue(digits) > l.maxChunk then None
    else if s' != "" && s'[0] == ';' then DecodeExtension(l, SizeValue(digits), s'[1..])
    else DecodeEnd(l, SizeValue(digits), "", s')
  }

  /** Up to MAX blanks, 1 to 16 digits, an extension behind ';' and up to MAX blanks, end-of-line */
  function Decode(l: Limits, s: string): Option<Decoded> {
    var ws := TakeWhile(IsBlank, s);
    if |ws| > l.maxWs then None
    else
      match DecodeSize(l, s[|ws|..])
      case Some(d) => if |s| <= l.maxLine + |d.rest| then Some(d) else None
      case None => None
  }

  /** Whether a parse result is the decoder's answer. */
  predicate Agrees(p: Parsed<Header>, d: Option<Decoded>) {
    if p.out.Done? then d == Some(Decoded(p.s.size, p.s.extension, p.rest)) else d == None
  }

  // ---------------------------------------------------------------------------------
  // Without the limit on the length
  // ---------------------------------------------------------------------------------

  /** Whether the limit on the length cannot be reached. */
  predicate HasRoom(l: Limits, h: Header, inp: string) { h.length + |inp| <= l.maxLine }

  /** One step of the automaton: the only lemma of this part that looks into its loop. */
  lemma Unroll(l: Limits, h: Header, inp: string)
    requires !h.state.Valid?
    ensures inp == [] ==> !ParseHeader(l, h, inp).out.Done?
    ensures inp != [] ==>
              var r := Step(l, h, inp[0]);
              ParseHeader(l, h, inp) == if r.ok then ParseHeader(l, r.s, inp[1..]) else Parsed(r.s, inp[1..], Error)
  {
  }

  lemma Finished(l: Limits, h: Header, inp: string)
    requires h.state.Valid?
    ensures ParseHeader(l, h, inp) == Parsed(h.(valid := true), inp, Done)
  {
  }

  lemma BlankStep(l: Limits, h: Header, inp: string)
    requires h.state == SizeLs || h.state == ExtensionLs
    requires inp != [] && IsBlank(inp[0]) && HasRoom(l, h, inp)
    ensures if h.ws + 1 <= l.maxWs
            then ParseHeader(l, h, inp) == ParseHeader(l, h.(ws := h.ws + 1, length := h.length + 1), inp[1..])
            else !ParseHeader(l, h, inp).out.Done?
  {
    hide ParseHeader;
    Unroll(l, h, inp);
  }

  lemma {:induction false} BlanksPart(l: Limits, h: Header, inp: string)
    requires (h.state == SizeLs || h.state == ExtensionLs) && HasRoom(l, h, inp)
    ensures var ws := TakeWhile(IsBlank, inp);
            if ws == [] || h.ws + |ws| <= l.maxWs
            then ParseHeader(l, h, inp) == ParseHeader(l, h.(ws := h.ws + |ws|, length := h.length + |ws|), inp[|ws|..])
            else !ParseHeader(l, h, inp).out.Done?
    decreases |inp|
  {
    hide ParseHeader, Step;
    var ws := TakeWhile(IsBlank, inp);
    if ws != [] {
      BlankStep(l, h, inp);
      assert inp[1..][|ws[1..]|..] == inp[|ws|..];
      if h.ws + 1 <= l.maxWs {
        BlanksPart(l, h.(ws := h.ws + 1, length := h.length + 1), inp[1..]);
      }
    }
  }

  /** The end of the line behind the size or the extension. */
  lemma LineEnd(l: Limits, h: Header, inp: string)
    requires h.state == Lf && HasRoom(l, h, inp)
    ensures var p := ParseHeader(l, h, inp);
            if inp != [] && inp[0] == '\n'
            then p.out.Done? && p.s.size == h.size && p.s.extension == h.extension && p.rest == inp[1..]
            else !p.out.Done?
  {
    hide ParseHeader;
    Unroll(l, h, inp);
    if inp != [] && inp[0] == '\n' {
      Finished(l, h.(length := h.length + 1, state := State.Valid), inp[1..]);
    }
  }

  lemma ExtensionEnd(l: Limits, h: Header, inp: string)
    requires (h.state == Extension || h.state == ExtensionLs) && HasRoom(l, h, inp)
    requires inp != [] ==> IsEndOfLine(inp[0])
    ensures Agrees(ParseHeader(l, h, inp), DecodeEnd(l, h.size, h.extension, inp))
  {
    hide ParseHeader;
    Unroll(l, h, inp);
    if inp != [] && inp[0] == '\r' {
      LineEnd(l, h.(length := h.length + 1, state := Lf), inp[1..]);
      assert |inp| >= 2 ==> inp[1..][1..] == inp[2..];
    } else if inp != [] && !l.strictCrlf {
      Finished(l, h.(length := h.length + 1, state := State.Valid), inp[1..]);
    }
  }

  lemma ExtensionCharacter(l: Limits, h: Header, inp: string)
    requires h.state == Extension || (h.state == ExtensionLs && inp != [] && !IsBlank(inp[0]))
    requires inp != [] && NotEndOfLine(inp[0]) && HasRoom(l, h, inp)
    ensures ParseHeader(l, h, inp) ==
            ParseHeader(l, h.(extension := h.extension + [inp[0]], length := h.length + 1, state := Extension), inp[1..])
  {
    hide ParseHeader;
    Unroll(l, h, inp);
  }

  lemma {:induction false} ExtensionPart(l: Limits, h: Header, inp: string)
    requires h.state == Extension || (h.state == ExtensionLs && (inp != [] ==> !IsBlank(inp[0])))
    requires HasRoom(l, h, inp)
    ensures var e := TakeWhile(NotEndOfLine, inp);
            Agrees(ParseHeader(l, h, inp), DecodeEnd(l, h.size, h.extension + e, inp[|e|..]))
    decreases |inp|
  {
    hide ParseHeader, Step, DecodeEnd;
    var e := TakeWhile(NotEndOfLine, inp);
    if e == [] {
      assert h.extension + e == h.extension;
      ExtensionEnd(l, h, inp);
    } else {
      var h' := h.(extension := h.extension + [inp[0]], length := h.length + 1, state := Extension);
      ExtensionCharacter(l, h, inp);
      assert h'.extension + e[1..] == h.extension + e;
      assert inp[1..][|e[1..]|..] == inp[|e|..];
      ExtensionPart(l, h', inp[1..]);
    }
  }

  lemma DigitStep(l: Limits, h: Header, inp: string)
    requires (h.state == SizeLs || h.state == Size) && inp != [] && IsHexDigit(inp[0]) && HasRoom(l, h, inp)
    ensures var h' := h.(hexSize := h.hexSize + [inp[0]], length := h.length + 1, state := Size);
            if |h'.hexSize| <= 16 then ParseHeader(l, h, inp) == ParseHeader(l, h', inp[1..])
            else !ParseHeader(l, h, inp).out.Done?
  {
    hide ParseHeader, SizeOf;
    Unroll(l, h, inp);
  }

  /** What stands behind the digits of the size. */
  lemma SizeEnd(l: Limits, h: Header, inp: string)
    requires h.state == Size || h.state == SizeLs
    requires inp != [] ==> !IsHexDigit(inp[0]) && (h.state == SizeLs ==> !IsBlank(inp[0]))
    requires h.extension == "" && HasRoom(l, h, inp)
    ensures Agrees(ParseHeader(l, h, inp),
                   if SizeOf(h.hexSize) > l.maxChunk then None
                   else if inp != "" && inp[0] == ';' then DecodeExtension(l, SizeOf(h.hexSize), inp[1..])
                   else DecodeEnd(l, SizeOf(h.hexSize), "", inp))
  {
    hide ParseHeader, SizeOf;
    Unroll(l, h, inp);
    if inp != [] && SizeOf(h.hexSize) <= l.maxChunk {
      var h' := h.(size := SizeOf(h.hexSize), sizeRead := true, length := h.length + 1);
      if inp[0] == ';' {
        ExtensionBehind(l, h'.(ws := 0, state := ExtensionLs), inp[1..]);
      } else if inp[0] == '\r' {
        LineEnd(l, h'.(state := Lf), inp[1..]);
        assert |inp| >= 2 ==> inp[1..][1..] == inp[2..];
      } else if inp[0] == '\n' && !l.strictCrlf {
        SizeThenLf(l, h, inp);
      }
    }
  }

  lemma SizeThenLf(l: Limits, h: Header, inp: string)
    requires (h.state == Size || h.state == SizeLs) && inp != [] && inp[0] == '\n' && !l.strictCrlf
    requires SizeOf(h.hexSize) <= l.maxChunk && HasRoom(l, h, inp)
    ensures var p := ParseHeader(l, h, inp);
            p.out.Done? && p.s.size == SizeOf(h.hexSize) && p.s.extension == h.extension && p.rest == inp[1..]
  {
    hide ParseHeader, SizeOf;
    Unroll(l, h, inp);
    var r := Step(l, h, '\n');
    Finished(l, r.s, inp[1..]);
  }

  /** The extension from its leading blanks on. */
  lemma ExtensionBehind(l: Limits, h: Header, inp: string)
    requires h.state == ExtensionLs && h.ws == 0 && h.extension == "" && HasRoom(l, h, inp)
    ensures Agrees(ParseHeader(l, h, inp), DecodeExtension(l, h.size, inp))
  {
    hide ParseHeader, Step, DecodeEnd;
    var ws := TakeWhile(IsBlank, inp);
    BlanksPart(l, h, inp);
    if |ws| <= l.maxWs {
      var h' := h.(ws := |ws|, length := h.length + |ws|);
      ExtensionPart(l, h', inp[|ws|..]);
      var e := TakeWhile(NotEndOfLine, inp[|ws|..]);
      assert "" + e == e;
    }
  }

  lemma {:induction false} DigitsPart(l: Limits, h: Header, inp: string)
    requires h.state == Size || (h.state == SizeLs && (inp != [] ==> !IsBlank(inp[0])))
    requires h.extension == "" && |h.hexSize| <= 16 && HasRoom(l, h, inp)
    ensures var d := TakeWhile(IsHexDigit, inp);
            var hex := h.hexSize + d;
            var more := inp[|d|..];
            Agrees(ParseHeader(l, h, inp),
                   if |hex| > 16 || SizeOf(hex) > l.maxChunk then None
                   else if more != "" && more[0] == ';' then DecodeExtension(l, SizeOf(hex), more[1..])
                   else DecodeEnd(l, SizeOf(hex), "", more))
    decreases |inp|
  {
    hide ParseHeader, Step, SizeOf, DecodeEnd, DecodeExtension;
    var d := TakeWhile(IsHexDigit, inp);
    if d == [] {
      assert h.hexSize + d == h.hexSize;
      SizeEnd(l, h, inp);
    } else {
      DigitStep(l, h, inp);
      var h' := h.(hexSize := h.hexSize + [inp[0]], length := h.length + 1, state := Size);
      assert h'.hexSize + d[1..] == h.hexSize + d;
      assert inp[1..][|d[1..]|..] == inp[|d|..];
      if |h'.hexSize| <= 16 {
        DigitsPart(l, h', inp[1..]);
      }
    }
  }

  /** The size that the library reads is the value of the digits. */
  lemma SizeOfExactly(digits: string)
    requires forall i :: 0 <= i < |digits| ==> IsDigitOf(16, digits[i])
    ensures SizeOf(digits) == SizeValue(digits)
  {
    FromTextRejects(digits, 16);
    hide Value;
  }

  lemma SizePart(l: Limits, h: Header, inp: string)
    requires h.state == SizeLs && (inp != [] ==> !IsBlank(inp[0]))
    requires h.extension == "" && h.hexSize == "" && HasRoom(l, h, inp)
    ensures Agrees(ParseHeader(l, h, inp), DecodeSize(l, inp))
  {
    var d := TakeWhile(IsHexDigit, inp);
    assert forall i :: 0 <= i < |d| ==> IsHexDigit(d[i]) && IsDigitOf(16, d[i]);
    hide ParseHeader, Step, SizeOf, SizeValue, DecodeEnd, DecodeExtension;
    SizeOfExactly(d);
    assert "" + d == d;
    DigitsPart(l, h, inp);
  }

  lemma WithRoom(l: Limits, inp: string)
    requires |inp| <= l.maxLine
    ensures Agrees(ParseHeader(l, FRESH_HEADER, inp), Decode(l, inp))
  {
    hide ParseHeader, Step, DecodeSize;
    var ws := TakeWhile(IsBlank, inp);
    BlanksPart(l, FRESH_HEADER, inp);
    if |ws| <= l.maxWs {
      SizePart(l, FRESH_HEADER.(ws := |ws|, length := |ws|), inp[|ws|..]);
    }
  }

  // ---------------------------------------------------------------------------------
  // The limit on the length
  // ---------------------------------------------------------------------------------

  /** The limit on the length only refuses headers that are longer, and changes nothing else. */
  lemma {:induction false} OnlyLongerAreRefused(l: Limits, m: nat, h: Header, inp: string)
    requires h.length + |inp| <= m
    ensures var p := ParseHeader(l, h, inp);
            var q := ParseHeader(l.(maxLine := m), h, inp);
            if q.out.Done? && (h.state.Valid? || q.s.length <= l.maxLine) then p == q else !p.out.Done?
    ensures var q := ParseHeader(l.(maxLine := m), h, inp);
            q.s.length == h.length + (|inp| - |q.rest|)
    decreases |inp|
  {
    hide Step;
    if !h.state.Valid? && inp != [] {
      StepWithin(l, m, h, inp[0]);
      var r := Step(l.(maxLine := m), h, inp[0]);
      if r.ok {
        OnlyLongerAreRefused(l, m, r.s, inp[1..]);
      }
    }
  }

  lemma StepWithin(l: Limits, m: nat, h: Header, c: char)
    requires h.length + 1 <= m
    ensures var r := Step(l.(maxLine := m), h, c);
            && r.s.length == h.length + 1
            && if h.length + 1 <= l.maxLine then Step(l, h, c) == r else !Step(l, h, c).ok
  {
    hide SizeOf;
  }

  lemma OtherLimitsStay(l: Limits, m: nat, inp: string)
    requires |inp| <= m
    ensures Decode(l, inp) ==
            match Decode(l.(maxLine := m), inp)
            case Some(d) => if |inp| <= l.maxLine + |d.rest| then Some(d) else None
            case None => None
  {
    hide SizeValue;
  }

  /** Main result: on every input the automaton and the grammar agree. */
  lemma ParseIsGrammar(l: Limits, inp: string)
    ensures Agrees(ParseHeader(l, FRESH_HEADER, inp), Decode(l, inp))
  {
    var m := |inp| + l.maxLine;
    WithRoom(l.(maxLine := m), inp);
    OnlyLongerAreRefused(l, m, FRESH_HEADER, inp);
    OtherLimitsStay(l, m, inp);
    hide ParseHeader, Decode;
  }
}
