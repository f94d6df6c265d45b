/** The request line automaton of request.hpp, as values and as the class that runs it. */
module RequestLines {
  import opened Characters
  import opened Parsing

  datatype State =
    | Method | Uri
    | HttpH | HttpT1 | HttpT2 | HttpP | HttpSlash | HttpMajor | HttpDot | HttpMinor
    | Cr | Lf | Valid
    | ErrorCrlf | ErrorWs | ErrorMethodLength | ErrorUriLength

  /** The member variables of a request_line. */
  datatype Line = Line(
    verb: string,
    uri: string,
    major: char,
    minor: char,
    state: State,
    ws: nat,
    valid: bool,
    fail: bool)

  const FRESH: Line := Line([], [], '\0', '\0', Method, 0, false, false)

  function Expect(s: Line, c: char, expected: char, next: State): Stepped<Line> {
    if c == expected then Stepped(s.(state := next), true) else Stepped(s, false)
  }

  /** parse_char */
  function Step(l: Limits, s: Line, c: char): Stepped<Line> {
    match s.state
    case Method =>
      if IsUpper(c) then
        var s' := s.(verb := s.verb + [c]);
        if |s'.verb| > l.maxMethod
        then Stepped(s'.(state := ErrorMethodLength), false)
        else Stepped(s', true)
      else if IsBlank(c) && s.verb != [] then Stepped(s.(ws := 1, state := Uri), true)
      else Stepped(s, false)
    case Uri =>
      if IsEndOfLine(c) then Stepped(s, false)
      else if IsBlank(c) then
        var s' := s.(ws := s.ws + 1);
        if s'.ws > l.maxWs then Stepped(s'.(state := ErrorWs), false)
        else if s'.uri != [] then Stepped(s'.(ws := 1, state := HttpH), true)
        else Stepped(s', true)
      else
        var s' := s.(uri := s.uri + [c]);
        if |s'.uri| > l.maxUri then Stepped(s'.(state := ErrorUriLength), false) else Stepped(s', true)
    case HttpH =>
      if IsBlank(c) then
        var s' := s.(ws := s.ws + 1);
        if s'.ws > l.maxWs then Stepped(s'.(state := ErrorWs), false) else Stepped(s', true)
      else Expect(s, c, 'H', HttpT1)
    case HttpT1 => Expect(s, c, 'T', HttpT2)
    case HttpT2 => Expect(s, c, 'T', HttpP)
    case HttpP => Expect(s, c, 'P', HttpSlash)
    case HttpSlash => Expect(s, c, '/', HttpMajor)
    case HttpMajor =>
      if IsDigit(c) then Stepped(s.(major := c, state := HttpDot), true) else Stepped(s, false)
    case HttpDot => Expect(s, c, '.', HttpMinor)
    case HttpMinor =>
      if IsDigit(c) then Stepped(s.(minor := c, state := Cr), true) else Stepped(s, false)
    case Cr =>
      if c == '\r' then Stepped(s.(state := Lf), true)
      else if !l.strictCrlf && c == '\n' then Stepped(s.(state := State.Valid), true)
      else Stepped(s.(state := ErrorCrlf), false)
    case Lf => Expect(s, c, '\n', State.Valid)
    case _ => Stepped(s, false)
  }

  /** parse */
  function Parse(l: Limits, s: Line, inp: string): (p: Parsed<Line>)
    ensures |p.rest| <= |inp|
    ensures inp != [] && !s.state.Valid? ==> |p.rest| < |inp|
    ensures !s.valid || s.state.Valid? ==> (p.out.Done? <==> p.s.valid)
    ensures p.out.Done? ==> p.s.state.Valid?
    ensures p.out.More? ==> p.rest == [] && !p.s.state.Valid?
    ensures !s.fail ==> (p.s.fail <==> p.out.Error?)
    ensures !p.out.Done? ==> !p.s.state.Valid?
    decreases |inp|
  {
    if s.state.Valid? then Parsed(s.(valid := true), inp, Done)
    else if inp == [] then Parsed(s.(valid := false), inp, More)
    else
      var r := Step(l, s, inp[0]);
      if !r.ok then Parsed(r.s.(fail := true), inp[1..], Error)
      else Parse(l, r.s.(fail := false), inp[1..])
  }

  /** The buffers of a request line may be cut anywhere. */
  lemma {:induction false} ParseCut(l: Limits, s: Line, a: string, b: string)
    requires !s.valid
    ensures var p := Parse(l, s, a);
            Parse(l, s, a + b) ==
            if p.out.More? then Parse(l, p.s, b) else p.(rest := p.rest + b)
    decreases |a|
  {
    if a == [] {
      assert a + b == b;
    } else if !s.state.Valid? {
      assert (a + b)[1..] == a[1..] + b;
      var r := Step(l, s, a[0]);
      if r.ok {
        ParseCut(l, r.s.(fail := false), a[1..], b);
      }
    }
  }

  /** to_string */
  function ToText(s: Line): string {
    s.verb + " " + s.uri + " " + HttpVersion(s.major, s.minor) + CRLF
  }

  function HttpVersion(major: char, minor: char): string {
    "HTTP/" + [major, '.', minor]
  }
}
