/** Writing a response line and reading it back. */
module ResponseLineRoundTrip {
  import opened Characters
  import opened Parsing
  import opened Numbers
  import opened ResponseLines

  datatype Parts = Parts(status: nat, reason: string, major: char, minor: char)

  /** What a response line must be for the receiver with limits `l` to accept it. */
  ghost predicate WellFormed(l: Limits, s: Parts) {
    && IsDigit(s.major) && IsDigit(s.minor)
    && s.status <= l.maxStatus
    && |s.reason| <= l.maxReason && All(NotEndOfLine, s.reason)
    && (s.reason != [] ==> !IsBlank(s.reason[0]))
  }

  function Encode(s: Parts): string {
    ResponseLines.ToText(s.status, s.reason, s.major, s.minor)
  }

  /** One character: the only lemma below that looks into the loop of the automaton. */
  lemma Character(l: Limits, s: Line, c: char, inp: string)
    requires !s.state.Valid? && !s.fail && Step(l, s, c).ok
    ensures Parse(l, s, [c] + inp) == Parse(l, Step(l, s, c).s.(fail := false), inp)
  {
    assert ([c] + inp)[1..] == inp;
  }

  lemma Finished(l: Limits, s: Line, inp: string)
    requires s.state.Valid?
    ensures Parse(l, s, inp) == Parsed(s.(valid := true), inp, Done)
  {
  }

  /** The value of digits that follow a number already read. */
  function Accumulated(n: nat, digits: string): nat
    requires forall i :: 0 <= i < |digits| ==> IsDigit(digits[i])
    decreases |digits|
  {
    if digits == [] then n else
      assert IsDigit(digits[0]);
      Accumulated(n * 10 + DigitValue(digits[0]), digits[1..])
  }

  lemma {:induction false} AccumulatedAtLeast(n: nat, digits: string)
    requires forall i :: 0 <= i < |digits| ==> IsDigit(digits[i])
    ensures Accumulated(n, digits) >= n
    decreases |digits|
  {
    if digits != [] {
      AccumulatedAtLeast(n * 10 + DigitValue(digits[0]), digits[1..]);
    }
  }

  lemma {:induction false} AccumulatedLast(n: nat, digits: string, c: char)
    requires forall i :: 0 <= i < |digits| ==> IsDigit(digits[i])
    requires IsDigit(c)
    ensures Accumulated(n, digits + [c]) == Accumulated(n, digits) * 10 + DigitValue(c)
    decreases |digits|
  {
    if digits == [] {
      assert digits + [c] == [c];
    } else {
      assert (digits + [c])[1..] == digits[1..] + [c];
      AccumulatedLast(n * 10 + DigitValue(digits[0]), digits[1..], c);
    }
  }

  lemma {:induction false} AccumulatedIsValue(digits: string)
    requires forall i :: 0 <= i < |digits| ==> IsDigit(digits[i])
    ensures forall i :: 0 <= i < |digits| ==> IsDigitOf(10, digits[i])
    ensures Accumulated(0, digits) == Value(digits, 10)
  {
    if digits != [] {
      var n := |digits| - 1;
      assert digits == digits[..n] + [digits[n]];
      AccumulatedIsValue(digits[..n]);
      AccumulatedLast(0, digits[..n], digits[n]);
    }
  }

  lemma {:induction false} StatusPart(l: Limits, s: Line, digits: string, inp: string)
    requires s.state == Status && !s.fail && digits != []
    requires forall i :: 0 <= i < |digits| ==> IsDigit(digits[i])
    requires Accumulated(s.status, digits) <= l.maxStatus
    ensures Parse(l, s, digits + inp) ==
            Parse(l, s.(status := Accumulated(s.status, digits), statusRead := true), inp)
    decreases |digits|
  {
    hide Parse;
    var s' := s.(status := s.status * 10 + DigitValue(digits[0]), statusRead := true);
    assert digits + inp == [digits[0]] + (digits[1..] + inp);
    AccumulatedAtLeast(s'.status, digits[1..]);
    Character(l, s, digits[0], digits[1..] + inp);
    if |digits| == 1 {
      assert digits[1..] + inp == inp;
    } else {
      StatusPart(l, s', digits[1..], inp);
    }
  }

  lemma {:induction false} ReasonPart(l: Limits, s: Line, text: string, inp: string)
    requires s.state == Reason && !s.fail && All(NotEndOfLine, text)
    requires s.reason == [] && text != [] ==> !IsBlank(text[0])
    requires |s.reason| + |text| <= l.maxReason
    ensures Parse(l, s, text + inp) == Parse(l, s.(reason := s.reason + text), inp)
    decreases |text|
  {
    hide Parse;
    if text == [] {
      assert text + inp == inp;
      assert s.reason + text == s.reason;
    } else {
      var s' := s.(reason := s.reason + [text[0]]);
      assert text + inp == [text[0]] + (text[1..] + inp);
      Character(l, s, text[0], text[1..] + inp);
      ReasonPart(l, s', text[1..], inp);
      assert s'.reason + text[1..] == s.reason + text;
    }
  }

  lemma EndPart(l: Limits, s: Line, inp: string)
    requires s.state == Reason && !s.fail
    ensures Parse(l, s, CRLF + inp) == Parsed(s.(state := State.Valid, valid := true), inp, Done)
  {
    hide Parse;
    assert CRLF + inp == ['\r'] + (['\n'] + inp);
    Character(l, s, '\r', ['\n'] + inp);
    Character(l, s.(state := Lf), '\n', inp);
    Finished(l, s.(state := State.Valid), inp);
  }

  /** The word "HTTP/" and the version. */
  lemma WordPart(l: Limits, s: Line, inp: string)
    requires s.state == HttpH && !s.fail
    ensures Parse(l, s, "HTTP/" + inp) == Parse(l, s.(state := HttpMajor), inp)
  {
    hide Parse;
    assert "HTTP/" + inp == ['H'] + (['T'] + (['T'] + (['P'] + (['/'] + inp))));
    Character(l, s, 'H', ['T'] + (['T'] + (['P'] + (['/'] + inp))));
    Character(l, s.(state := HttpT1), 'T', ['T'] + (['P'] + (['/'] + inp)));
    Character(l, s.(state := HttpT2), 'T', ['P'] + (['/'] + inp));
    Character(l, s.(state := HttpP), 'P', ['/'] + inp);
    Character(l, s.(state := HttpSlash), '/', inp);
  }

  lemma VersionPart(l: Limits, s: Line, major: char, minor: char, inp: string)
    requires s.state == HttpMajor && !s.fail && IsDigit(major) && IsDigit(minor)
    ensures Parse(l, s, [major, '.', minor, ' '] + inp) ==
            Parse(l, s.(major := major, minor := minor, ws := 1, state := Status), inp)
  {
    hide Parse;
    assert [major, '.', minor, ' '] + inp == [major] + (['.'] + ([minor] + ([' '] + inp)));
    Character(l, s, major, ['.'] + ([minor] + ([' '] + inp)));
    var s1 := s.(major := major, state := HttpDot);
    Character(l, s1, '.', [minor] + ([' '] + inp));
    Character(l, s1.(state := HttpMinor), minor, [' '] + inp);
    Character(l, s1.(minor := minor, state := HttpWs), ' ', inp);
  }

  lemma StatusAndReason(l: Limits, s: Line, status: nat, reason: string, more: string)
    requires s.state == Status && !s.fail && s.status == 0 && s.reason == []
    requires status <= l.maxStatus && |reason| <= l.maxReason
    requires All(NotEndOfLine, reason) && (reason != [] ==> !IsBlank(reason[0]))
    ensures Parse(l, s, ToDec(status) + ([' '] + (reason + (CRLF + more)))) ==
            Parsed(s.(status := status, statusRead := true, reason := reason, ws := 1,
                      state := State.Valid, valid := true), more, Done)
  {
    hide Parse;
    var digits := ToDec(status);
    assert forall i :: 0 <= i < |digits| ==> IsDigitOf(10, digits[i]) && IsDigit(digits[i]);
    ValueOfText(status, 10);
    AccumulatedIsValue(digits);
    hide Numbers.ToText, Value, Accumulated;
    var tail := reason + (CRLF + more);
    StatusPart(l, s, digits, [' '] + tail);
    var s1 := s.(status := status, statusRead := true);
    Character(l, s1, ' ', tail);
    var s2 := s1.(ws := 1, state := Reason);
    ReasonPart(l, s2, reason, CRLF + more);
    assert s2.reason + reason == reason;
    EndPart(l, s2.(reason := reason), more);
  }

  /** Parsing what to_string wrote gives it back and stops right behind it. */
  lemma RoundTrip(l: Limits, s: Parts, more: string)
    requires WellFormed(l, s)
    ensures var p := Parse(l, FRESH, Encode(s) + more);
            && p.out.Done? && p.rest == more
            && Parts(p.s.status, p.s.reason, p.s.major, p.s.minor) == s
  {
    hide Parse, Step;
    var tail := ToDec(s.status) + ([' '] + (s.reason + (CRLF + more)));
    assert Encode(s) + more == "HTTP/" + ([s.major, '.', s.minor, ' '] + tail);
    WordPart(l, FRESH, [s.major, '.', s.minor, ' '] + tail);
    var s1 := FRESH.(state := HttpMajor);
    VersionPart(l, s1, s.major, s.minor, tail);
    StatusAndReason(l, s1.(major := s.major, minor := s.minor, ws := 1, state := Status), s.status, s.reason, more);
  }
}
