/** The classes request_line and response_line, run against their automata. */
module LineParsers {
  import opened Characters
  import opened Parsing
  import opened Numbers
  import RL = RequestLines
  import SL = ResponseLines

  class RequestLine {
    const limits: Limits
    var verb: string
    var uri: string
    var major: char
    var minor: char
    var state: RL.State
    var ws: nat
    var valid: bool
    var fail: bool

    function Value(): RL.Line
      reads this
    {
      RL.Line(verb, uri, major, minor, state, ws, valid, fail)
    }

    constructor (limits: Limits)
      ensures this.limits == limits && Value() == RL.FRESH
    {
      this.limits := limits;
      verb, uri, major, minor := [], [], '\0', '\0';
      state, ws, valid, fail := RL.State.Method, 0, false, false;
    }

    method Clear()
      modifies this
      ensures Value() == RL.FRESH
    {
      verb, uri, major, minor := [], [], '\0', '\0';
      state, ws, valid, fail := RL.State.Method, 0, false, false;
    }

    method ParseChar(c: char) returns (ok: bool)
      modifies this
      ensures Stepped(Value(), ok) == RL.Step(limits, old(Value()), c)
    {
      ok := true;
      match state
      case Method =>
        if IsUpper(c) {
          verb := verb + [c];
          if |verb| > limits.maxMethod {
            state := RL.State.ErrorMethodLength;
            return false;
          }
        } else if IsBlank(c) && verb != [] {
          ws := 1;
          state := RL.State.Uri;
        } else {
          return false;
        }
      case Uri =>
        if IsEndOfLine(c) {
          return false;
        } else if IsBlank(c) {
          ws := ws + 1;
          if ws > limits.maxWs {
            state := RL.State.ErrorWs;
            return false;
          }
          if uri != [] {
            ws := 1;
            state := RL.State.HttpH;
          }
        } else {
          uri := uri + [c];
          if |uri| > limits.maxUri {
            state := RL.State.ErrorUriLength;
            return false;
          }
        }
      case HttpH =>
        if IsBlank(c) {
          ws := ws + 1;
          if ws > limits.maxWs {
            state := RL.State.ErrorWs;
            return false;
          }
        } else {
          ok := Expect(c, 'H', RL.State.HttpT1);
        }
      case HttpT1 => ok := Expect(c, 'T', RL.State.HttpT2);
      case HttpT2 => ok := Expect(c, 'T', RL.State.HttpP);
      case HttpP => ok := Expect(c, 'P', RL.State.HttpSlash);
      case HttpSlash => ok := Expect(c, '/', RL.State.HttpMajor);
      case HttpMajor =>
        if !IsDigit(c) { return false; }
        major := c;
        state := RL.State.HttpDot;
      case HttpDot => ok := Expect(c, '.', RL.State.HttpMinor);
      case HttpMinor =>
        if !IsDigit(c) { return false; }
        minor := c;
        state := RL.State.Cr;
      case Cr =>
        if c == '\r' {
          state := RL.State.Lf;
        } else if !limits.strictCrlf && c == '\n' {
          state := RL.State.Valid;
        } else {
          state := RL.State.ErrorCrlf;
          return false;
        }
      case Lf => ok := Expect(c, '\n', RL.State.Valid);
      case _ => return false;
    }

    method Expect(c: char, expected: char, next: RL.State) returns (ok: bool)
      modifies this
      ensures Stepped(Value(), ok) == RL.Expect(old(Value()), c, expected, next)
    {
      ok := c == expected;
      if ok { state := next; }
    }

    method Parse(buffer: string, iter: nat) returns (ok: bool, next: nat)
      requires iter <= |buffer|
      modifies this
      ensures iter <= next <= |buffer|
      ensures var p := RL.Parse(limits, old(Value()), buffer[iter..]);
              Value() == p.s && buffer[next..] == p.rest && ok == p.out.Done?
    {
      hide RL.Step;
      next := iter;
      while next != |buffer| && !state.Valid?
        invariant iter <= next <= |buffer|
        invariant RL.Parse(limits, old(Value()), buffer[iter..]) == RL.Parse(limits, Value(), buffer[next..])
        decreases |buffer| - next
      {
        var c := buffer[next];
        assert buffer[next..][1..] == buffer[next + 1..];
        next := next + 1;
        var parsed := ParseChar(c);
        fail := !parsed;
        if fail { return false, next; }
      }
      valid := state.Valid?;
      return valid, next;
    }

    method ToString() returns (output: string)
      ensures output == RL.ToText(Value())
    {
      output := verb;
      output := output + (" " + uri + " " + RL.HttpVersion(major, minor) + CRLF);
    }
  }

  class ResponseLine {
    const limits: Limits
    var status: nat
    var reason: string
    var major: char
    var minor: char
    var state: SL.State
    var ws: nat
    var statusRead: bool
    var valid: bool
    var fail: bool

    function Value(): SL.Line
      reads this
    {
      SL.Line(status, reason, major, minor, state, ws, statusRead, valid, fail)
    }

    constructor (limits: Limits)
      ensures this.limits == limits && Value() == SL.FRESH
    {
      this.limits := limits;
      status, reason, major, minor := 0, [], '\0', '\0';
      state, ws, statusRead, valid, fail := SL.State.HttpH, 0, false, false, false;
    }

    method Clear()
      modifies this
      ensures Value() == SL.FRESH
    {
      status, reason, major, minor := 0, [], '\0', '\0';
      state, ws, statusRead, valid, fail := SL.State.HttpH, 0, false, false, false;
    }

    method Expect(c: char, expected: char, next: SL.State) returns (ok: bool)
      modifies this
      ensures Stepped(Value(), ok) == SL.Expect(old(Value()), c, expected, next)
    {
      ok := c == expected;
      if ok { state := next; }
    }

    /** The end of the line, which the reason and an absent reason share. */
    method EndOfLine(c: char) returns (ok: bool)
      modifies this
      ensures Stepped(Value(), ok) == SL.EndStep(limits, old(Value()), c)
    {
      ok := true;
      if c == '\r' {
        state := SL.State.Lf;
      } else if !limits.strictCrlf && c == '\n' {
        state := SL.State.Valid;
      } else {
        state := SL.State.ErrorCrlf;
        ok := false;
      }
    }

    /** A blank that is skipped, up to a limit. */
    method SkipBlank() returns (ok: bool)
      modifies this
      ensures var s := old(Value()).(ws := old(ws) + 1);
              Stepped(Value(), ok) ==
              if s.ws > limits.maxWs then Stepped(s.(state := SL.State.ErrorWs), false) else Stepped(s, true)
    {
      ws := ws + 1;
      ok := ws <= limits.maxWs;
      if !ok { state := SL.State.ErrorWs; }
    }

    method ParseChar(c: char) returns (ok: bool)
      modifies this
      ensures Stepped(Value(), ok) == SL.Step(limits, old(Value()), c)
    {
      ok := true;
      match state
      case HttpH =>
        if IsBlank(c) { ok := SkipBlank(); } else { ok := Expect(c, 'H', SL.State.HttpT1); }
      case HttpT1 => ok := Expect(c, 'T', SL.State.HttpT2);
      case HttpT2 => ok := Expect(c, 'T', SL.State.HttpP);
      case HttpP => ok := Expect(c, 'P', SL.State.HttpSlash);
      case HttpSlash => ok := Expect(c, '/', SL.State.HttpMajor);
      case HttpMajor =>
        if !IsDigit(c) { return false; }
        major := c;
        state := SL.State.HttpDot;
      case HttpDot => ok := Expect(c, '.', SL.State.HttpMinor);
      case HttpMinor =>
        if !IsDigit(c) { return false; }
        minor := c;
        state := SL.State.HttpWs;
      case HttpWs =>
        if !IsBlank(c) { return false; }
        ws := 1;
        state := SL.State.Status;
      case Status =>
        if IsDigit(c) {
          statusRead := true;
          status := status * 10;
          status := status + DigitValue(c);
          if status > limits.maxStatus {
            state := SL.State.ErrorStatusValue;
            return false;
          }
        } else if !IsBlank(c) {
          return false;
        } else if statusRead {
          ws := 1;
          state := SL.State.Reason;
        } else {
          ok := SkipBlank();
        }
      case Reason =>
        if IsEndOfLine(c) {
          ok := EndOfLine(c);
        } else if reason == [] && IsBlank(c) {
          ok := SkipBlank();
        } else {
          reason := reason + [c];
          if |reason| > limits.maxReason {
            state := SL.State.ErrorReasonLength;
            return false;
          }
        }
      case Cr => ok := EndOfLine(c);
      case Lf => ok := Expect(c, '\n', SL.State.Valid);
      case _ => return false;
    }

    method Parse(buffer: string, iter: nat) returns (ok: bool, next: nat)
      requires iter <= |buffer|
      modifies this
      ensures iter <= next <= |buffer|
      ensures var p := SL.Parse(limits, old(Value()), buffer[iter..]);
              Value() == p.s && buffer[next..] == p.rest && ok == p.out.Done?
    {
      hide SL.Step;
      next := iter;
      while next != |buffer| && !state.Valid?
        invariant iter <= next <= |buffer|
        invariant SL.Parse(limits, old(Value()), buffer[iter..]) == SL.Parse(limits, Value(), buffer[next..])
        decreases |buffer| - next
      {
        var c := buffer[next];
        assert buffer[next..][1..] == buffer[next + 1..];
        next := next + 1;
        var parsed := ParseChar(c);
        fail := !parsed;
        if fail { return false, next; }
      }
      valid := state.Valid?;
      return valid, next;
    }

    method ToString() returns (output: string)
      ensures output == SL.ToText(status, reason, major, minor)
    {
      output := RL.HttpVersion(major, minor);
      output := output + (" " + ToDec(status) + " " + reason + CRLF);
    }
  }
}
