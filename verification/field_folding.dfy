/**
  What a header field may look like and what is read from it: a name, a colon, and one
  or more lines of which each but the first starts with a blank (section 3.2.4 of
  RFC 7230). The automaton of field_line is compared with this description.
 */
module FieldFolding {
  import opened Characters
  import opened Parsing
  import opened FieldLines

  /** One line of a field value: leading blanks, the text, and how the line ends. */
  datatype Segment = Segment(blanks: string, text: string, cr: bool)

  function LineEnd(cr: bool): string { if cr then CRLF else "\n" }

  function SegmentText(g: Segment): string { g.blanks + g.text + LineEnd(g.cr) }

  function SegmentsText(gs: seq<Segment>): string {
    if gs == [] then "" else SegmentText(gs[0]) + SegmentsText(gs[1..])
  }

  function FieldText(name: string, gs: seq<Segment>): string {
    name + ":" + SegmentsText(gs)
  }

  ghost predicate IsSegment(l: Limits, g: Segment) {
    && All(IsBlank, g.blanks)
    && All(NotEndOfLine, g.text) && (g.text != [] ==> !IsBlank(g.text[0]))
    && (l.strictCrlf ==> g.cr)
  }

  /** Lines that each continue the one before. */
  ghost predicate AreContinuations(l: Limits, gs: seq<Segment>) {
    gs == [] || (IsSegment(l, gs[0]) && gs[0].blanks != [] && AreContinuations(l, gs[1..]))
  }

  ghost predicate AreSegments(l: Limits, gs: seq<Segment>) {
    gs != [] && IsSegment(l, gs[0]) && AreContinuations(l, gs[1..])
  }

  /** The texts of the lines joined with a single space for each fold. */
  function Unfolded(gs: seq<Segment>): string
    requires gs != []
  {
    if |gs| == 1 then gs[0].text else gs[0].text + " " + Unfolded(gs[1..])
  }

  function BlankCount(gs: seq<Segment>): nat {
    if gs == [] then 0 else |gs[0].blanks| + BlankCount(gs[1..])
  }

  /** One character: the only lemma below that looks into the automaton. */
  lemma Character(l: Limits, f: Field, c: char, inp: string)
    requires !f.state.Valid?
    ensures var r := Step(l, f, c);
            Parse(l, f, [c] + inp) ==
            if r.ok then Parse(l, Continued(r.s, inp), inp) else Parsed(r.s, inp, Error)
  {
    assert ([c] + inp)[1..] == inp;
  }

  lemma {:induction false} NamePart(l: Limits, f: Field, name: string, inp: string)
    requires f.state == Name && All(IsNameChar, name)
    ensures var p := Parse(l, f, name + inp);
            if f.length + |name| <= l.maxLine || name == []
            then p == Parse(l, f.(name := f.name + Lowercase(name), length := f.length + |name|), inp)
            else p.out.Error?
    decreases |name|
  {
    hide Parse;
    if name == [] {
      assert name + inp == inp;
      assert f.name + Lowercase(name) == f.name;
    } else {
      assert name + inp == [name[0]] + (name[1..] + inp);
      Character(l, f, name[0], name[1..] + inp);
      var f' := f.(name := f.name + [ToLower(name[0])], length := f.length + 1);
      assert f'.name + Lowercase(name[1..]) == f.name + Lowercase(name);
      if f'.length <= l.maxLine {
        NamePart(l, f', name[1..], inp);
      }
    }
  }

  lemma {:induction false} BlankPart(l: Limits, f: Field, blanks: string, inp: string)
    requires f.state == ValueLs && All(IsBlank, blanks)
    ensures var p := Parse(l, f, blanks + inp);
            if (f.length + |blanks| <= l.maxLine && f.ws + |blanks| <= l.maxWs) || blanks == []
            then p == Parse(l, f.(ws := f.ws + |blanks|, length := f.length + |blanks|), inp)
            else p.out.Error?
    decreases |blanks|
  {
    hide Parse;
    if blanks == [] {
      assert blanks + inp == inp;
    } else {
      assert blanks + inp == [blanks[0]] + (blanks[1..] + inp);
      Character(l, f, blanks[0], blanks[1..] + inp);
      var f' := f.(ws := f.ws + 1, length := f.length + 1);
      if f'.length <= l.maxLine && f'.ws <= l.maxWs {
        BlankPart(l, f', blanks[1..], inp);
      }
    }
  }

  lemma {:induction false} TextPart(l: Limits, f: Field, text: string, inp: string)
    requires f.state == Value || f.state == ValueLs
    requires All(NotEndOfLine, text)
    requires f.state == ValueLs && text != [] ==> !IsBlank(text[0])
    ensures var p := Parse(l, f, text + inp);
            var state := if text == [] then f.state else Value;
            if f.length + |text| <= l.maxLine || text == []
            then p == Parse(l, f.(value := f.value + text, length := f.length + |text|, state := state), inp)
            else p.out.Error?
    decreases |text|
  {
    hide Parse;
    if text == [] {
      assert text + inp == inp;
      assert f.value + text == f.value;
    } else {
      assert text + inp == [text[0]] + (text[1..] + inp);
      Character(l, f, text[0], text[1..] + inp);
      var f' := f.(value := f.value + [text[0]], length := f.length + 1, state := Value);
      assert f'.value + text[1..] == f.value + text;
      if f'.length <= l.maxLine {
        TextPart(l, f', text[1..], inp);
      }
    }
  }

  lemma Finished(l: Limits, f: Field, inp: string)
    requires f.state.Valid?
    ensures Parse(l, f, inp) == Parsed(f, inp, Done)
  {
  }

  lemma EndPart(l: Limits, f: Field, cr: bool, inp: string)
    requires f.state == Value || f.state == ValueLs
    requires l.strictCrlf ==> cr
    ensures var p := Parse(l, f, LineEnd(cr) + inp);
            var n := f.length + |LineEnd(cr)|;
            if n <= l.maxLine
            then p == Parse(l, Continued(f.(length := n, state := State.Valid), inp), inp)
            else p.out.Error?
  {
    hide Parse;
    if cr {
      assert CRLF + inp == ['\r'] + (['\n'] + inp);
      Character(l, f, '\r', ['\n'] + inp);
      Character(l, f.(length := f.length + 1, state := Lf), '\n', inp);
    } else {
      Character(l, f, '\n', inp);
    }
  }

  /** One line of a value, from its leading blanks to the character behind its end. */
  lemma SegmentPart(l: Limits, f: Field, g: Segment, inp: string)
    requires f.state == ValueLs && IsSegment(l, g) && f.ws <= l.maxWs
    ensures var p := Parse(l, f, SegmentText(g) + inp);
            var f' := f.(value := f.value + g.text, length := f.length + |SegmentText(g)|,
                         ws := f.ws + |g.blanks|, state := State.Valid);
            if f'.length <= l.maxLine && f'.ws <= l.maxWs
            then p == Parse(l, Continued(f', inp), inp)
            else p.out.Error?
  {
    hide Parse, Step;
    var end := LineEnd(g.cr) + inp;
    assert SegmentText(g) + inp == g.blanks + (g.text + end);
    BlankPart(l, f, g.blanks, g.text + end);
    var f1 := f.(ws := f.ws + |g.blanks|, length := f.length + |g.blanks|);
    TextPart(l, f1, g.text, end);
    var f2 := f1.(value := f1.value + g.text, length := f1.length + |g.text|,
                  state := if g.text == [] then ValueLs else Value);
    EndPart(l, f2, g.cr, inp);
  }

  /** The state behind the lines `gs` of a value. */
  function AfterSegments(f: Field, gs: seq<Segment>): Field
    requires gs != []
  {
    f.(value := f.value + Unfolded(gs), length := f.length + |SegmentsText(gs)|,
       ws := f.ws + BlankCount(gs), state := State.Valid)
  }

  lemma AfterFirstSegment(f: Field, gs: seq<Segment>)
    requires |gs| > 1
    ensures AfterSegments(f, gs) ==
            AfterSegments(f.(value := f.value + gs[0].text + " ", length := f.length + |SegmentText(gs[0])|,
                             ws := f.ws + |gs[0].blanks|), gs[1..])
  {
    assert f.value + gs[0].text + " " + Unfolded(gs[1..]) == f.value + Unfolded(gs);
  }

  lemma {:induction false} SegmentsPart(l: Limits, f: Field, gs: seq<Segment>, more: string)
    requires f.state == ValueLs && AreSegments(l, gs) && f.ws <= l.maxWs
    requires more != [] ==> !IsBlank(more[0])
    ensures var p := Parse(l, f, SegmentsText(gs) + more);
            var f' := AfterSegments(f, gs);
            if f'.length <= l.maxLine && f'.ws <= l.maxWs
            then p == Parsed(f', more, Done)
            else p.out.Error?
    decreases |gs|
  {
    hide Parse, Step;
    var tail := SegmentsText(gs[1..]) + more;
    assert SegmentsText(gs) + more == SegmentText(gs[0]) + tail;
    SegmentPart(l, f, gs[0], tail);
    assert BlankCount(gs) == |gs[0].blanks| + BlankCount(gs[1..]);
    if |gs| == 1 {
      assert tail == more;
      assert AfterSegments(f, gs) ==
             f.(value := f.value + gs[0].text, length := f.length + |SegmentText(gs[0])|,
                ws := f.ws + |gs[0].blanks|, state := State.Valid);
      Finished(l, AfterSegments(f, gs), more);
    } else {
      assert SegmentText(gs[1])[0] == gs[1].blanks[0];
      assert tail[0] == gs[1].blanks[0];
      assert gs[1..][0] == gs[1];
      AfterFirstSegment(f, gs);
      var f1 := f.(value := f.value + gs[0].text + " ", length := f.length + |SegmentText(gs[0])|,
                   ws := f.ws + |gs[0].blanks|);
      if f1.length <= l.maxLine && f1.ws <= l.maxWs {
        SegmentsPart(l, f1, gs[1..], more);
      }
    }
  }

  /**
    Main result: a folded field reads like the unfolded one, and it is accepted if and
    only if the blanks that start its lines and its bytes, in total, are within limits.
   */
  lemma FoldedField(l: Limits, name: string, gs: seq<Segment>, more: string)
    requires All(IsNameChar, name) && AreSegments(l, gs)
    requires more != [] ==> !IsBlank(more[0])
    ensures var p := Parse(l, FRESH, FieldText(name, gs) + more);
            if BlankCount(gs) <= l.maxWs && |FieldText(name, gs)| <= l.maxLine
            then p.out.Done? && p.rest == more
                 && p.s.name == Lowercase(name) && p.s.value == Unfolded(gs)
            else p.out.Error?
  {
    hide Parse;
    var tail := SegmentsText(gs) + more;
    assert FieldText(name, gs) + more == name + ([':'] + tail);
    NamePart(l, FRESH, name, [':'] + tail);
    var f := FRESH.(name := Lowercase(name), length := |name|);
    assert FRESH.name + Lowercase(name) == Lowercase(name);
    Character(l, f, ':', tail);
    var f1 := f.(length := |name| + 1, state := ValueLs);
    if |name| + 1 <= l.maxLine {
      SegmentsPart(l, f1, gs, more);
      assert f1.value + Unfolded(gs) == Unfolded(gs);
    }
  }


  // ---------------------------------------------------------------------------------
  // The converse: whatever is accepted has this shape
  // ---------------------------------------------------------------------------------

  /** Lines of which the first continues a text that has already been begun. */
  ghost predicate AreRemaining(l: Limits, gs: seq<Segment>) {
    && gs != [] && gs[0].blanks == []
    && All(NotEndOfLine, gs[0].text) && (l.strictCrlf ==> gs[0].cr)
    && AreContinuations(l, gs[1..])
  }

  lemma Unroll(l: Limits, f: Field, inp: string)
    requires Parse(l, f, inp).out.Done? && !f.state.Valid?
    ensures inp != []
    ensures var r := Step(l, f, inp[0]);
            r.ok && Parse(l, f, inp) == Parse(l, Continued(r.s, inp[1..]), inp[1..])
  {
  }

  /** Lines of which the first has one more character in front. */
  lemma Prepended(c: char, hs: seq<Segment>, g: Segment) returns (gs: seq<Segment>)
    requires hs != [] && SegmentText(g) == [c] + SegmentText(hs[0])
    ensures gs == [g] + hs[1..] && gs[1..] == hs[1..]
    ensures SegmentsText(gs) == [c] + SegmentsText(hs)
  {
    gs := [g] + hs[1..];
    assert gs[1..] == hs[1..];
  }

  /** One more character in front of the text. */
  lemma PrependedText(l: Limits, c: char, hs: seq<Segment>) returns (gs: seq<Segment>)
    requires AreRemaining(l, hs) && !IsEndOfLine(c)
    ensures AreRemaining(l, gs) && gs[0].text != [] && gs[0].text[0] == c
    ensures SegmentsText(gs) == [c] + SegmentsText(hs)
  {
    hide SegmentsText, AreContinuations;
    var g := hs[0].(text := [c] + hs[0].text);
    assert SegmentText(g) == [c] + SegmentText(hs[0]);
    gs := Prepended(c, hs, g);
  }

  /** A character of a value, of its leading blanks or of its text. */
  lemma ValueCharacter(l: Limits, f: Field, inp: string)
    requires Parse(l, f, inp).out.Done? && inp != [] && !IsEndOfLine(inp[0])
    requires f.state == Value || f.state == ValueLs
    ensures var f' := if f.state == ValueLs && IsBlank(inp[0]) then f.(length := f.length + 1, ws := f.ws + 1)
                      else f.(length := f.length + 1, value := f.value + [inp[0]], state := Value);
            Parse(l, f, inp) == Parse(l, f', inp[1..])
    ensures inp == [inp[0]] + inp[1..]
  {
    hide Parse;
    Unroll(l, f, inp);
  }

  /** A value that starts at its leading blanks. */
  lemma {:induction false} AcceptedValue(l: Limits, f: Field, inp: string) returns (gs: seq<Segment>)
    requires f.state == ValueLs && Parse(l, f, inp).out.Done?
    ensures AreSegments(l, gs)
    ensures inp == SegmentsText(gs) + Parse(l, f, inp).rest
    ensures inp != [] && (IsBlank(inp[0]) ==> gs[0].blanks != [])
    decreases |inp|, 2
  {
    hide Parse, Step, SegmentsText;
    Unroll(l, f, inp);
    var c := inp[0];
    if IsBlank(c) {
      ValueCharacter(l, f, inp);
      var hs := AcceptedValue(l, f.(length := f.length + 1, ws := f.ws + 1), inp[1..]);
      var g := hs[0].(blanks := [c] + hs[0].blanks);
      assert SegmentText(g) == [c] + SegmentText(hs[0]);
      gs := Prepended(c, hs, g);
      var rest := Parse(l, f, inp).rest;
      assert [c] + (SegmentsText(hs) + rest) == [c] + SegmentsText(hs) + rest;
    } else {
      gs := AcceptedText(l, f, inp);
    }
  }

  /** A value from some character of its text on. */
  lemma {:induction false} AcceptedText(l: Limits, f: Field, inp: string) returns (gs: seq<Segment>)
    requires f.state == Value || (f.state == ValueLs && inp != [] && !IsBlank(inp[0]))
    requires Parse(l, f, inp).out.Done?
    ensures AreRemaining(l, gs)
    ensures inp == SegmentsText(gs) + Parse(l, f, inp).rest
    ensures inp != [] && (gs[0].text != [] ==> gs[0].text[0] == inp[0])
    decreases |inp|, 1
  {
    hide Parse, Step, SegmentsText, AreContinuations, Continued;
    Unroll(l, f, inp);
    var c := inp[0];
    if IsEndOfLine(c) {
      gs := AcceptedEnd(l, f, inp);
    } else {
      ValueCharacter(l, f, inp);
      var f' := f.(length := f.length + 1, value := f.value + [c], state := Value);
      var hs := AcceptedText(l, f', inp[1..]);
      gs := PrependedText(l, c, hs);
      var rest := Parse(l, f, inp).rest;
      assert [c] + (SegmentsText(hs) + rest) == [c] + SegmentsText(hs) + rest;
    }
  }

  /** The end of a line: what it consists of, and the state behind it. */
  lemma AcceptedLineEnd(l: Limits, f: Field, inp: string) returns (cr: bool, f': Field, tail: string)
    requires f.state == Value || f.state == ValueLs
    requires inp != [] && IsEndOfLine(inp[0])
    requires Parse(l, f, inp).out.Done?
    ensures f'.state.Valid? && (l.strictCrlf ==> cr)
    ensures inp == LineEnd(cr) + tail
    ensures Parse(l, f, inp) == Parse(l, Continued(f', tail), tail)
  {
    hide Parse;
    Unroll(l, f, inp);
    cr := inp[0] == '\r';
    f' := f.(length := f.length + 1, state := if cr then Lf else State.Valid);
    tail := inp[1..];
    if cr {
      Unroll(l, f', tail);
      assert tail[0] == '\n';
      f' := f'.(length := f'.length + 1, state := State.Valid);
      tail := tail[1..];
    }
  }

  lemma Single(l: Limits, g: Segment) returns (gs: seq<Segment>)
    ensures gs == [g] && AreContinuations(l, gs[1..]) && SegmentsText(gs) == SegmentText(g)
  {
    gs := [g];
  }

  lemma Followed(l: Limits, g: Segment, hs: seq<Segment>) returns (gs: seq<Segment>)
    requires AreSegments(l, hs) && hs[0].blanks != []
    ensures gs != [] && gs[0] == g && AreContinuations(l, gs[1..])
    ensures SegmentsText(gs) == SegmentText(g) + SegmentsText(hs)
  {
    gs := [g] + hs;
    assert gs[1..] == hs;
  }

  /** A value from the end of a line on. */
  lemma {:induction false} AcceptedEnd(l: Limits, f: Field, inp: string) returns (gs: seq<Segment>)
    requires f.state == Value || f.state == ValueLs
    requires inp != [] && IsEndOfLine(inp[0])
    requires Parse(l, f, inp).out.Done?
    ensures AreRemaining(l, gs) && gs[0].text == []
    ensures inp == SegmentsText(gs) + Parse(l, f, inp).rest
    decreases |inp|, 0
  {
    hide Parse, Step, SegmentsText, AreContinuations;
    var cr, f', tail := AcceptedLineEnd(l, f, inp);
    var g := Segment([], [], cr);
    assert SegmentText(g) == LineEnd(cr);
    if Continued(f', tail).state.Valid? {
      Finished(l, f', tail);
      gs := Single(l, g);
    } else {
      var hs := AcceptedValue(l, Continued(f', tail), tail);
      gs := Followed(l, g, hs);
      var rest := Parse(l, f, inp).rest;
      assert LineEnd(cr) + (SegmentsText(hs) + rest) == LineEnd(cr) + SegmentsText(hs) + rest;
    }
  }

  lemma {:induction false} AcceptedName(l: Limits, f: Field, inp: string) returns (name: string, gs: seq<Segment>)
    requires f.state == Name && Parse(l, f, inp).out.Done?
    ensures All(IsNameChar, name) && AreSegments(l, gs)
    ensures inp == FieldText(name, gs) + Parse(l, f, inp).rest
    decreases |inp|
  {
    hide Parse, SegmentsText, AreContinuations, AreSegments;
    Unroll(l, f, inp);
    var c := inp[0];
    assert inp == [c] + inp[1..];
    if c == ':' {
      name := [];
      gs := AcceptedValue(l, f.(length := f.length + 1, state := ValueLs), inp[1..]);
      assert FieldText(name, gs) == [c] + SegmentsText(gs);
    } else {
      var f' := f.(length := f.length + 1, name := f.name + [ToLower(c)]);
      name, gs := AcceptedName(l, f', inp[1..]);
      assert FieldText([c] + name, gs) == [c] + FieldText(name, gs);
      name := [c] + name;
    }
  }

  /** The rest of an accepted field never starts with a blank. */
  lemma {:induction false} NoBlankFollows(l: Limits, f: Field, inp: string)
    requires Parse(l, f, inp).out.Done? && !f.state.Valid?
    ensures var rest := Parse(l, f, inp).rest; rest != [] ==> !IsBlank(rest[0])
    decreases |inp|
  {
    hide Parse;
    Unroll(l, f, inp);
    var f' := Continued(Step(l, f, inp[0]).s, inp[1..]);
    if f'.state.Valid? {
      Finished(l, f', inp[1..]);
    } else {
      NoBlankFollows(l, f', inp[1..]);
    }
  }

  /**
    Main result: a field is accepted only if it is a name, a colon and lines as above
    whose blanks and bytes are within limits; FoldedField says that all such are.
   */
  lemma AcceptedField(l: Limits, inp: string) returns (name: string, gs: seq<Segment>)
    requires Parse(l, FRESH, inp).out.Done?
    ensures All(IsNameChar, name) && AreSegments(l, gs)
    ensures BlankCount(gs) <= l.maxWs && |FieldText(name, gs)| <= l.maxLine
    ensures inp == FieldText(name, gs) + Parse(l, FRESH, inp).rest
    ensures Parse(l, FRESH, inp).s.value == Unfolded(gs)
  {
    hide Parse;
    name, gs := AcceptedName(l, FRESH, inp);
    NoBlankFollows(l, FRESH, inp);
    FoldedField(l, name, gs, Parse(l, FRESH, inp).rest);
  }
}
