/**
  The response line automaton accepts exactly the status-line grammar (section 3.1.2 of
  RFC 7230, with the library's limits): as for requests it is compared, on every input,
  with a decoder that splits the input into its parts.
 */
module ResponseLineGrammar {
  import opened Characters
  import opened Parsing
  import opened Numbers
  import opened ResponseLines
  import Lines = ResponseLineRoundTrip
  import Grammar = RequestLineGrammar

  datatype Decoded = Decoded(parts: Lines.Parts, rest: string)

  /** The blanks that separate two parts: a single one is always allowed. */
  predicate Separates(l: Limits, ws: string) { |ws| == 1 || 1 < |ws| <= l.maxWs }

  function DecodeReason(l: Limits, parts: Lines.Parts, s: string): Option<Decoded> {
    var ws := TakeWhile(IsBlank, s);
    var s' := s[|ws|..];
    var reason := TakeWhile(NotEndOfLine, s');
    var eol := Grammar.EolLength(l.strictCrlf, s'[|reason|..]);
    if Separates(l, ws) && |reason| <= l.maxReason && eol > 0
    then Some(Decoded(parts.(reason := reason), s'[|reason|..][eol..]))
    else None
  }

  function DecodeStatus(l: Limits, major: char, minor: char, s: string): Option<Decoded> {
    var ws := TakeWhile(IsBlank, s);
    var s' := s[|ws|..];
    var digits := TakeWhile(IsDigit, s');
    assert forall i :: 0 <= i < |digits| ==> IsDigit(digits[i]) && IsDigitOf(10, digits[i]);
    if Separates(l, ws) && digits != [] && Value(digits, 10) <= l.maxStatus
    then DecodeReason(l, Lines.Parts(Value(digits, 10), "", major, minor), s'[|digits|..])
    else None
  }

  /** Up to MAX blanks, HTTP/d.d, blanks, status, blanks, reason, end-of-line */
  function Decode(l: Limits, s: string): Option<Decoded> {
    var ws := TakeWhile(IsBlank, s);
    var s' := s[|ws|..];
    if |ws| <= l.maxWs && |s'| >= 8 && s'[..5] == "HTTP/" && IsDigit(s'[5]) && s'[6] == '.' && IsDigit(s'[7])
    then DecodeStatus(l, s'[5], s'[7], s'[8..])
    else None
  }

  /** Whether a parse result is the decoder's answer. */
  predicate Agrees(p: Parsed<Line>, d: Option<Decoded>) {
    if p.out.Done?
    then d == Some(Decoded(Lines.Parts(p.s.status, p.s.reason, p.s.major, p.s.minor), p.rest))
    else d == None
  }

  /** One step of the automaton: the only lemma below that looks into its loop. */
  lemma Unroll(l: Limits, s: Line, inp: string)
    requires !s.fail && !s.state.Valid?
    ensures inp == [] ==> !Parse(l, s, inp).out.Done?
    ensures inp != [] ==>
              var r := Step(l, s, inp[0]);
              Parse(l, s, inp) == if r.ok then Parse(l, r.s.(fail := false), inp[1..])
                                  else Parsed(r.s.(fail := true), inp[1..], Error)
  {
  }

  /** Whether blanks are skipped, up to the limit. */
  predicate SkipsBlanks(s: Line) {
    s.state.HttpH? || (s.state.Status? && !s.statusRead) || (s.state.Reason? && s.reason == [])
  }

  lemma BlankStep(l: Limits, s: Line, inp: string)
    requires SkipsBlanks(s) && !s.fail && inp != [] && IsBlank(inp[0])
    ensures if s.ws + 1 <= l.maxWs then Parse(l, s, inp) == Parse(l, s.(ws := s.ws + 1), inp[1..])
            else !Parse(l, s, inp).out.Done?
  {
    hide Parse;
    Unroll(l, s, inp);
  }

  lemma {:induction false} BlanksPart(l: Limits, s: Line, inp: string)
    requires SkipsBlanks(s) && !s.fail
    ensures var w := TakeWhile(IsBlank, inp);
            if s.ws + |w| <= l.maxWs || w == []
            then Parse(l, s, inp) == Parse(l, s.(ws := s.ws + |w|), inp[|w|..])
            else !Parse(l, s, inp).out.Done?
    decreases |inp|
  {
    hide Parse;
    var w := TakeWhile(IsBlank, inp);
    if w != [] {
      BlankStep(l, s, inp);
      assert inp[1..][|w[1..]|..] == inp[|w|..];
      if s.ws + 1 <= l.maxWs {
        BlanksPart(l, s.(ws := s.ws + 1), inp[1..]);
      }
    }
  }

  // ---------------------------------------------------------------------------------
  // The reason
  // ---------------------------------------------------------------------------------

  lemma LineEnd(l: Limits, s: Line, inp: string)
    requires s.state == Reason && !s.fail && (inp != [] ==> IsEndOfLine(inp[0]))
    ensures var n := Grammar.EolLength(l.strictCrlf, inp);
            if n > 0 then Parse(l, s, inp) == Parsed(s.(state := State.Valid, valid := true), inp[n..], Done)
            else !Parse(l, s, inp).out.Done?
  {
    hide Parse;
    Unroll(l, s, inp);
    if inp != [] && inp[0] == '\r' {
      var s' := s.(state := Lf);
      Unroll(l, s', inp[1..]);
      if |inp| > 1 {
        assert inp[1..][1..] == inp[2..];
        Lines.Finished(l, s.(state := State.Valid), inp[2..]);
      }
    } else if !l.strictCrlf && inp != [] {
      Lines.Finished(l, s.(state := State.Valid), inp[1..]);
    }
  }

  lemma ReasonStep(l: Limits, s: Line, inp: string)
    requires s.state == Reason && !s.fail && inp != [] && NotEndOfLine(inp[0])
    requires s.reason == [] ==> !IsBlank(inp[0])
    ensures var s' := s.(reason := s.reason + [inp[0]]);
            if |s'.reason| <= l.maxReason then Parse(l, s, inp) == Parse(l, s', inp[1..])
            else !Parse(l, s, inp).out.Done?
  {
    hide Parse;
    Unroll(l, s, inp);
  }

  lemma {:induction false} ReasonText(l: Limits, s: Line, inp: string)
    requires s.state == Reason && !s.fail && |s.reason| <= l.maxReason
    requires s.reason == [] && inp != [] ==> !IsBlank(inp[0])
    ensures var r := TakeWhile(NotEndOfLine, inp);
            if |s.reason| + |r| <= l.maxReason
            then Parse(l, s, inp) == Parse(l, s.(reason := s.reason + r), inp[|r|..])
            else !Parse(l, s, inp).out.Done?
    decreases |inp|
  {
    hide Parse, Step;
    var r := TakeWhile(NotEndOfLine, inp);
    if r == [] {
      assert s.reason + r == s.reason;
    } else {
      var s' := s.(reason := s.reason + [inp[0]]);
      ReasonStep(l, s, inp);
      assert s'.reason + r[1..] == s.reason + r;
      assert inp[1..][|r[1..]|..] == inp[|r|..];
      if |s'.reason| <= l.maxReason {
        ReasonText(l, s', inp[1..]);
      }
    }
  }

  /** From the first blank behind the status on. */
  lemma AfterStatus(l: Limits, s: Line, inp: string)
    requires s.state == Reason && !s.fail && s.ws == 1 && s.reason == [] && inp != [] && IsBlank(inp[0])
    ensures Agrees(Parse(l, s, inp[1..]), DecodeReason(l, Lines.Parts(s.status, "", s.major, s.minor), inp))
  {
    hide Parse, Step;
    var ws := TakeWhile(IsBlank, inp);
    var more := inp[1..];
    assert ws[1..] == TakeWhile(IsBlank, more);
    assert more[|ws| - 1..] == inp[|ws|..];
    BlanksPart(l, s, more);
    if Separates(l, ws) {
      var s' := s.(ws := |ws|);
      var rest := inp[|ws|..];
      ReasonText(l, s', rest);
      var reason := TakeWhile(NotEndOfLine, rest);
      if |reason| <= l.maxReason {
        assert s'.reason + reason == reason;
        LineEnd(l, s'.(reason := reason), rest[|reason|..]);
      }
    }
  }

  // ---------------------------------------------------------------------------------
  // The status
  // ---------------------------------------------------------------------------------

  lemma DigitStep(l: Limits, s: Line, inp: string)
    requires s.state == Status && !s.fail && inp != [] && IsDigit(inp[0])
    ensures var s' := s.(statusRead := true, status := s.status * 10 + DigitValue(inp[0]));
            if s'.status <= l.maxStatus then Parse(l, s, inp) == Parse(l, s', inp[1..])
            else !Parse(l, s, inp).out.Done?
  {
    hide Parse;
    Unroll(l, s, inp);
  }

  lemma {:induction false} DigitsPart(l: Limits, s: Line, inp: string)
    requires s.state == Status && !s.fail && s.status <= l.maxStatus
    ensures var d := TakeWhile(IsDigit, inp);
            && (forall i :: 0 <= i < |d| ==> IsDigit(d[i]))
            && if Lines.Accumulated(s.status, d) <= l.maxStatus
               then Parse(l, s, inp) == Parse(l, s.(status := Lines.Accumulated(s.status, d),
                                                    statusRead := s.statusRead || d != []), inp[|d|..])
               else !Parse(l, s, inp).out.Done?
    decreases |inp|
  {
    hide Parse, Step;
    var d := TakeWhile(IsDigit, inp);
    assert forall i :: 0 <= i < |d| ==> IsDigit(d[i]);
    if d != [] {
      var s' := s.(statusRead := true, status := s.status * 10 + DigitValue(inp[0]));
      DigitStep(l, s, inp);
      Lines.AccumulatedAtLeast(s'.status, d[1..]);
      assert inp[1..][|d[1..]|..] == inp[|d|..];
      if s'.status <= l.maxStatus {
        DigitsPart(l, s', inp[1..]);
      }
    }
  }

  lemma StatusEnd(l: Limits, s: Line, inp: string)
    requires s.state == Status && !s.fail && (inp != [] ==> !IsDigit(inp[0]))
    requires !s.statusRead && inp != [] ==> !IsBlank(inp[0])
    ensures if s.statusRead && inp != [] && IsBlank(inp[0])
            then Parse(l, s, inp) == Parse(l, s.(ws := 1, state := Reason), inp[1..])
            else !Parse(l, s, inp).out.Done?
  {
    hide Parse;
    Unroll(l, s, inp);
  }

  /** From the first blank behind the version on. */
  lemma AfterVersion(l: Limits, s: Line, inp: string)
    requires s.state == Status && !s.fail && !s.statusRead && s.status == 0 && s.ws == 1 && s.reason == []
    requires inp != [] && IsBlank(inp[0])
    ensures Agrees(Parse(l, s, inp[1..]), DecodeStatus(l, s.major, s.minor, inp))
  {
    hide Parse, Step, DecodeReason, Value, Lines.Accumulated;
    var ws := TakeWhile(IsBlank, inp);
    var more := inp[1..];
    assert ws[1..] == TakeWhile(IsBlank, more);
    assert more[|ws| - 1..] == inp[|ws|..];
    BlanksPart(l, s, more);
    if Separates(l, ws) {
      StatusPart(l, s.(ws := |ws|), inp[|ws|..]);
    }
  }

  /** The status and what follows it. */
  lemma StatusPart(l: Limits, s: Line, inp: string)
    requires s.state == Status && !s.fail && !s.statusRead && s.status == 0 && s.reason == []
    requires inp != [] ==> !IsBlank(inp[0])
    ensures var digits := TakeWhile(IsDigit, inp);
            && (forall i :: 0 <= i < |digits| ==> IsDigitOf(10, digits[i]))
            && Agrees(Parse(l, s, inp),
                      if digits != [] && Value(digits, 10) <= l.maxStatus
                      then DecodeReason(l, Lines.Parts(Value(digits, 10), "", s.major, s.minor), inp[|digits|..])
                      else None)
  {
    hide Parse, Step, DecodeReason, Value, Lines.Accumulated;
    var digits := TakeWhile(IsDigit, inp);
    assert forall i :: 0 <= i < |digits| ==> IsDigit(digits[i]);
    Lines.AccumulatedIsValue(digits);
    DigitsPart(l, s, inp);
    if Value(digits, 10) <= l.maxStatus {
      var s' := s.(status := Value(digits, 10), statusRead := digits != []);
      var rest := inp[|digits|..];
      StatusEnd(l, s', rest);
      if digits != [] && rest != [] && IsBlank(rest[0]) {
        AfterStatus(l, s'.(ws := 1, state := Reason), rest);
      } else if digits != [] {
        NoReason(l, Lines.Parts(Value(digits, 10), "", s.major, s.minor), rest);
      }
    }
  }

  lemma NoReason(l: Limits, parts: Lines.Parts, s: string)
    requires s != [] ==> !IsBlank(s[0])
    ensures DecodeReason(l, parts, s) == None
  {
  }

  // ---------------------------------------------------------------------------------
  // The version
  // ---------------------------------------------------------------------------------

  /** The characters still expected of the word "HTTP/". */
  function Word(state: State): string
    requires state in {HttpH, HttpT1, HttpT2, HttpP, HttpSlash, HttpMajor}
  {
    match state
    case HttpH => "HTTP/"
    case HttpT1 => "TTP/"
    case HttpT2 => "TP/"
    case HttpP => "P/"
    case HttpSlash => "/"
    case _ => ""
  }

  lemma WordStep(l: Limits, s: Line, inp: string)
    requires s.state in {HttpH, HttpT1, HttpT2, HttpP, HttpSlash} && !s.fail
    requires s.state == HttpH && inp != [] ==> !IsBlank(inp[0])
    ensures if inp != [] && inp[0] == Word(s.state)[0]
            then exists next :: next in {HttpT1, HttpT2, HttpP, HttpSlash, HttpMajor}
                                && Word(next) == Word(s.state)[1..]
                                && Parse(l, s, inp) == Parse(l, s.(state := next), inp[1..])
            else !Parse(l, s, inp).out.Done?
  {
    hide Parse;
    Unroll(l, s, inp);
    var next := match s.state
      case HttpH => HttpT1
      case HttpT1 => HttpT2
      case HttpT2 => HttpP
      case HttpP => HttpSlash
      case _ => HttpMajor;
    assert Word(next) == Word(s.state)[1..];
  }

  lemma {:induction false} WordPart(l: Limits, s: Line, inp: string)
    requires s.state in {HttpH, HttpT1, HttpT2, HttpP, HttpSlash, HttpMajor} && !s.fail
    requires s.state == HttpH && inp != [] ==> !IsBlank(inp[0])
    ensures var w := Word(s.state);
            if w <= inp then Parse(l, s, inp) == Parse(l, s.(state := HttpMajor), inp[|w|..])
            else !Parse(l, s, inp).out.Done?
    decreases |Word(s.state)|
  {
    hide Parse, Step;
    var w := Word(s.state);
    if s.state == HttpMajor {
      assert inp[0..] == inp;
    } else {
      WordStep(l, s, inp);
      if inp != [] && inp[0] == w[0] {
        var next :| next in {HttpT1, HttpT2, HttpP, HttpSlash, HttpMajor} && Word(next) == w[1..]
                    && Parse(l, s, inp) == Parse(l, s.(state := next), inp[1..]);
        WordPart(l, s.(state := next), inp[1..]);
        assert w <= inp <==> w[1..] <= inp[1..];
        if w <= inp {
          assert inp[1..][|w[1..]|..] == inp[|w|..];
        }
      }
    }
  }

  lemma VersionNumber(l: Limits, s: Line, inp: string)
    requires s.state == HttpMajor && !s.fail
    ensures if |inp| >= 4 && IsDigit(inp[0]) && inp[1] == '.' && IsDigit(inp[2]) && IsBlank(inp[3])
            then Parse(l, s, inp) == Parse(l, s.(major := inp[0], minor := inp[2], ws := 1, state := Status), inp[4..])
            else !Parse(l, s, inp).out.Done?
  {
    hide Parse;
    Unroll(l, s, inp);
    if inp != [] && IsDigit(inp[0]) {
      var s1 := s.(major := inp[0], state := HttpDot);
      Unroll(l, s1, inp[1..]);
      if |inp| > 1 && inp[1] == '.' {
        assert inp[1..][1..] == inp[2..];
        MinorNumber(l, s1.(state := HttpMinor), inp[2..]);
        assert |inp| >= 4 ==> inp[2..][0] == inp[2] && inp[2..][1] == inp[3] && inp[2..][2..] == inp[4..];
      }
    }
  }

  lemma MinorNumber(l: Limits, s: Line, inp: string)
    requires s.state == HttpMinor && !s.fail
    ensures if |inp| >= 2 && IsDigit(inp[0]) && IsBlank(inp[1])
            then Parse(l, s, inp) == Parse(l, s.(minor := inp[0], ws := 1, state := Status), inp[2..])
            else !Parse(l, s, inp).out.Done?
  {
    hide Parse;
    Unroll(l, s, inp);
    if inp != [] && IsDigit(inp[0]) {
      Unroll(l, s.(minor := inp[0], state := HttpWs), inp[1..]);
      assert |inp| >= 2 ==> inp[1..][1..] == inp[2..];
    }
  }

  lemma VersionPart(l: Limits, s: Line, inp: string)
    requires s.state == HttpH && !s.fail && !s.statusRead && s.status == 0 && s.reason == []
    requires inp != [] ==> !IsBlank(inp[0])
    ensures Agrees(Parse(l, s, inp),
                   if |inp| >= 8 && inp[..5] == "HTTP/" && IsDigit(inp[5]) && inp[6] == '.' && IsDigit(inp[7])
                   then DecodeStatus(l, inp[5], inp[7], inp[8..])
                   else None)
  {
    hide Parse, Step, DecodeStatus;
    WordPart(l, s, inp);
    assert "HTTP/" <= inp <==> |inp| >= 5 && inp[..5] == "HTTP/";
    if "HTTP/" <= inp {
      var s5 := s.(state := HttpMajor);
      VersionNumber(l, s5, inp[5..]);
      if |inp| >= 8 {
        assert inp[5..][0] == inp[5] && inp[5..][1] == inp[6] && inp[5..][2] == inp[7];
        if |inp| >= 9 && IsBlank(inp[8]) {
          assert inp[5..][3] == inp[8] && inp[5..][4..] == inp[8..][1..];
          AfterVersion(l, s5.(major := inp[5], minor := inp[7], ws := 1, state := Status), inp[8..]);
        } else {
          NoStatus(l, inp[5], inp[7], inp[8..]);
        }
      }
    }
  }

  lemma NoStatus(l: Limits, major: char, minor: char, s: string)
    requires s != [] ==> !IsBlank(s[0])
    ensures DecodeStatus(l, major, minor, s) == None
  {
  }

  /** Main result: on every input the automaton and the grammar agree. */
  lemma ParseIsGrammar(l: Limits, inp: string)
    ensures Agrees(Parse(l, FRESH, inp), Decode(l, inp))
  {
    hide Parse, Step, DecodeStatus;
    var ws := TakeWhile(IsBlank, inp);
    BlanksPart(l, FRESH, inp);
    if |ws| <= l.maxWs {
      VersionPart(l, FRESH.(ws := |ws|), inp[|ws|..]);
    }
  }
}
