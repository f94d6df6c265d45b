/** The response line automaton of response.hpp, as values. */
module ResponseLines {
  import opened Characters
  import opened Parsing
  import opened Numbers
  import RL = RequestLines

  datatype State =
    | HttpH | HttpT1 | HttpT2 | HttpP | HttpSlash | HttpMajor | HttpDot | HttpMinor | HttpWs
    | Status | Reason | Cr | Lf | Valid
    | ErrorCrlf | ErrorWs | ErrorStatusValue | ErrorReasonLength

  /** The member variables of a response_line. */
  datatype Line = Line(
    status: nat,
    reason: string,
    major: char,
    minor: char,
    state: State,
    ws: nat,
    statusRead: bool,
    valid: bool,
    fail: bool)

  const FRESH: Line := Line(0, [], '\0', '\0', HttpH, 0, false, false, false)

  function Expect(s: Line, c: char, expected: char, next: State): Stepped<Line> {
    if c == expected then Stepped(s.(state := next), true) else Stepped(s, false)
  }

  /** The CR case of parse_char, which REASON falls through to. */
  function EndStep(l: Limits, s: Line, c: char): Stepped<Line> {
    if c == '\r' then Stepped(s.(state := Lf), true)
    else if !l.strictCrlf && c == '\n' then Stepped(s.(state := State.Valid), true)
    else Stepped(s.(state := ErrorCrlf), false)
  }

  /** parse_char */
  function Step(l: Limits, s: Line, c: char): Stepped<Line> {
    match s.state
    case HttpH =>
      if IsBlank(c) then
        var s := s.(ws := s.ws + 1);
        if s.ws > l.maxWs then Stepped(s.(state := ErrorWs), false) else Stepped(s, true)
      else Expect(s, c, 'H', HttpT1)
    case HttpT1 => Expect(s, c, 'T', HttpT2)
    case HttpT2 => Expect(s, c, 'T', HttpP)
    case HttpP => Expect(s, c, 'P', HttpSlash)
    case HttpSlash => Expect(s, c, '/', HttpMajor)
    case HttpMajor =>
      if IsDigit(c) then Stepped(s.(major := c, state := HttpDot), true) else Stepped(s, false)
    case HttpDot => Expect(s, c, '.', HttpMinor)
    case HttpMinor =>
      if IsDigit(c) then Stepped(s.(minor := c, state := HttpWs), true) else Stepped(s, false)
    case HttpWs =>
      if IsBlank(c) then Stepped(s.(ws := 1, state := Status), true) else Stepped(s, false)
    case Status =>
      if IsDigit(c) then
        var s := s.(statusRead := true, status := s.status * 10 + DigitValue(c));
        if s.status > l.maxStatus then Stepped(s.(state := ErrorStatusValue), false) else Stepped(s, true)
      else if IsBlank(c) then
        if s.statusRead then Stepped(s.(ws := 1, state := Reason), true)
        else
          var s := s.(ws := s.ws + 1);
          if s.ws > l.maxWs then Stepped(s.(state := ErrorWs), false) else Stepped(s, true)
      else Stepped(s, false)
    case Reason =>
      if IsEndOfLine(c) then EndStep(l, s, c)
      else if s.reason == [] && IsBlank(c) then
        var s := s.(ws := s.ws + 1);
        if s.ws > l.maxWs then Stepped(s.(state := ErrorWs), false) else Stepped(s, true)
      else
        var s := s.(reason := s.reason + [c]);
        if |s.reason| > l.maxReason then Stepped(s.(state := ErrorReasonLength), false) else Stepped(s, true)
    case Cr => EndStep(l, s, c)
    case Lf => Expect(s, c, '\n', State.Valid)
    case _ => Stepped(s, false)
  }

  /** parse */
  function Parse(l: Limits, s: Line, inp: string): (p: Parsed<Line>)
    ensures |p.rest| <= |inp|
    ensures inp != [] && !s.state.Valid? ==> |p.rest| < |inp|
    ensures !s.valid || s.state.Valid? ==> (p.out.Done? <==> p.s.valid)
    ensures p.out.Done? ==> p.s.state.Valid?
    ensures p.out.More? ==> p.rest == [] && !p.s.state.Valid?
    ensures !s.fail ==> (p.s.fail <==> p.out.Error?)
    ensures !p.out.Done? ==> !p.s.state.Valid?
    decreases |inp|
  {
    if s.state.Valid? then Parsed(s.(valid := true), inp, Done)
    else if inp == [] then Parsed(s.(valid := false), inp, More)
    else
      var r := Step(l, s, inp[0]);
      if !r.ok then Parsed(r.s.(fail := true), inp[1..], Error)
      else Parse(l, r.s.(fail := false), inp[1..])
  }

  /** The buffers of a response line may be cut anywhere. */
  lemma {:induction false} ParseCut(l: Limits, s: Line, a: string, b: string)
    requires !s.valid
    ensures var p := Parse(l, s, a);
            Parse(l, s, a + b) ==
            if p.out.More? then Parse(l, p.s, b) else p.(rest := p.rest + b)
    decreases |a|
  {
    if a == [] {
      assert a + b == b;
    } else if !s.state.Valid? {
      assert (a + b)[1..] == a[1..] + b;
      var r := Step(l, s, a[0]);
      if r.ok {
        ParseCut(l, r.s.(fail := false), a[1..], b);
      }
    }
  }

  /** to_string */
  function ToText(status: nat, reason: string, major: char, minor: char): string {
    RL.HttpVersion(major, minor) + " " + ToDec(status) + " " + reason + CRLF
  }

  // ---------------------------------------------------------------------------------
  // The width of the status
  // ---------------------------------------------------------------------------------

  /** The status is within its limit, or one digit beyond it when that has been refused. */
  predicate StatusBounded(l: Limits, s: Line) {
    if s.state.ErrorStatusValue? then s.status <= 10 * l.maxStatus + 9 else s.status <= l.maxStatus
  }

  lemma StepBounds(l: Limits, s: Line, c: char)
    requires StatusBounded(l, s)
    ensures StatusBounded(l, Step(l, s, c).s)
  {
  }

  /** The running status never outgrows its limit by more than a digit, so an int holds it. */
  lemma {:induction false} StatusStaysBounded(l: Limits, s: Line, inp: string)
    requires StatusBounded(l, s)
    ensures StatusBounded(l, Parse(l, s, inp).s)
    decreases |inp|
  {
    if !s.state.Valid? && inp != [] {
      var r := Step(l, s, inp[0]);
      StepBounds(l, s, inp[0]);
      hide Step;
      if r.ok {
        StatusStaysBounded(l, r.s.(fail := false), inp[1..]);
      }
    }
  }
}
