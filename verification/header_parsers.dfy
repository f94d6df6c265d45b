/** The classes field_line and message_headers, run against their automata. */
module HeaderParsers {
  import opened Characters
  import opened Parsing
  import opened HeaderEncoding
  import FL = FieldLines
  import Headers

  class FieldLine {
    const limits: Limits
    var name: string
    var value: string
    var length: nat
    var ws: nat
    var state: FL.State

    function Value(): FL.Field
      reads this
    {
      FL.Field(name, value, length, ws, state)
    }

    constructor (limits: Limits)
      ensures this.limits == limits && Value() == FL.FRESH
    {
      this.limits := limits;
      name, value, length, ws, state := [], [], 0, 0, FL.State.Name;
    }

    method Clear()
      modifies this
      ensures Value() == FL.FRESH
    {
      name, value, length, ws, state := [], [], 0, 0, FL.State.Name;
    }

    /** The VALUE case, which VALUE_LS falls through to. */
    method ParseValueChar(c: char) returns (ok: bool)
      modifies this
      ensures Stepped(Value(), ok) == FL.ValueStep(limits, old(Value()), c)
    {
      ok := true;
      if !IsEndOfLine(c) {
        value := value + [c];
        state := FL.State.Value;
      } else if c == '\r' {
        state := FL.State.Lf;
      } else if limits.strictCrlf {
        state := FL.State.ErrorCrlf;
        ok := false;
      } else {
        state := FL.State.Valid;
      }
    }

    method ParseChar(c: char) returns (ok: bool)
      modifies this
      ensures Stepped(Value(), ok) == FL.Step(limits, old(Value()), c)
    {
      ok := true;
      length := length + 1;
      if length > limits.maxLine {
        state := FL.State.ErrorLength;
      }
      match state
      case Name =>
        if FL.IsNameChar(c) {
          name := name + [ToLower(c)];
        } else if c == ':' {
          state := FL.State.ValueLs;
        } else {
          return false;
        }
      case ValueLs =>
        if IsBlank(c) {
          ws := ws + 1;
          if ws > limits.maxWs {
            state := FL.State.ErrorWs;
            return false;
          }
        } else {
          ok := ParseValueChar(c);
        }
      case Value => ok := ParseValueChar(c);
      case Lf =>
        if c == '\n' { state := FL.State.Valid; } else { return false; }
      case _ => return false;
    }

    method Parse(buffer: string, iter: nat) returns (ok: bool, next: nat)
      requires iter <= |buffer|
      modifies this
      ensures iter <= next <= |buffer|
      ensures var p := FL.Parse(limits, old(Value()), buffer[iter..]);
              Value() == p.s && buffer[next..] == p.rest && ok == p.out.Done?
    {
      hide FL.Step;
      next := iter;
      while next != |buffer| && !state.Valid?
        invariant iter <= next <= |buffer|
        invariant FL.Parse(limits, old(Value()), buffer[iter..]) == FL.Parse(limits, Value(), buffer[next..])
        decreases |buffer| - next
      {
        var c := buffer[next];
        assert buffer[next..][1..] == buffer[next + 1..];
        next := next + 1;
        var parsed := ParseChar(c);
        if !parsed { return false, next; }
        if state.Valid? {
          // a blank behind the line end means that the value goes on
          if next != |buffer| && IsBlank(buffer[next]) {
            value := value + " ";
            state := FL.State.ValueLs;
          }
        }
      }
      return state.Valid?, next;
    }
  }

  class MessageHeaders {
    const limits: Limits
    const field: FieldLine
    var fields: Headers.Fields
    var valid: bool
    var length: nat

    ghost predicate Valid()
      reads this, field
    {
      field.limits == limits && !field.state.Valid?
    }

    function Value(): Headers.Block
      reads this, field
    {
      Headers.Block(fields, field.Value(), valid, length)
    }

    constructor (limits: Limits)
      ensures this.limits == limits && Valid() && Value() == Headers.FRESH && fresh(field)
    {
      this.limits := limits;
      field := new FieldLine(limits);
      fields, valid, length := map[], false, 0;
    }

    method Clear()
      requires Valid()
      modifies this, field
      ensures Valid() && Value() == Headers.FRESH
    {
      fields := map[];
      field.Clear();
      valid := false;
      length := 0;
    }

    method Add(name: string, value: string)
      modifies this`fields
      ensures fields == Headers.Add(old(fields), name, value)
    {
      if name in fields {
        var separator := if Contains(name, Headers.COOKIE) then ';' else ',';
        fields := fields[name := fields[name] + [separator] + value];
      } else {
        fields := fields[name := value];
      }
    }

    method Parse(buffer: string, iter: nat) returns (ok: bool, next: nat)
      requires Valid() && iter <= |buffer|
      modifies this, field
      ensures Valid() && iter <= next <= |buffer|
      ensures var p := Headers.Parse(limits, old(Value()), buffer[iter..]);
              Value() == p.s && buffer[next..] == p.rest && ok == p.out.Done?
    {
      hide FL.Parse, Headers.BlankLine, Headers.Separator, Headers.Add, Contains;
      next := iter;
      while next != |buffer| && !IsEndOfLine(buffer[next])
        invariant Valid() && iter <= next <= |buffer|
        invariant Headers.Parse(limits, old(Value()), buffer[iter..]) == Headers.Parse(limits, Value(), buffer[next..])
        decreases |buffer| - next
      {
        var parsed;
        parsed, next := field.Parse(buffer, next);
        if !parsed { return false, next; }

        length := length + (|field.name| + |field.value|);
        Add(field.name, field.value);
        field.Clear();

        if length > limits.maxHeaderLength || |fields| > limits.maxHeaderNumber {
          return false, next;
        }
      }

      ok, next := ParseBlankLine(buffer, next);
    }

    /** The blank line at the end of the headers: CRLF or just LF. */
    method ParseBlankLine(buffer: string, iter: nat) returns (ok: bool, next: nat)
      requires Valid() && iter <= |buffer|
      requires iter < |buffer| ==> IsEndOfLine(buffer[iter])
      modifies this`valid
      ensures iter <= next <= |buffer|
      ensures var p := Headers.Parse(limits, old(Value()), buffer[iter..]);
              Value() == p.s && buffer[next..] == p.rest && ok == p.out.Done?
    {
      next := iter;
      if next == |buffer| { return false, next; }
      if buffer[next] == '\r' {
        next := next + 1;
        assert buffer[iter..][1..] == buffer[next..];
      }
      if next == |buffer| || buffer[next] != '\n' { return false, next; }
      assert buffer[next..][1..] == buffer[next + 1..];
      next := next + 1;
      valid := true;
      return true, next;
    }

    /** In the order in which the fields happen to be enumerated. */
    method ToString() returns (output: string, ghost names: seq<string>)
      ensures IsEnumeration(names, fields)
      ensures output == HeadersText(Enumerated(names, fields))
    {
      output, names := [], [];
      var remaining := fields.Keys;
      while remaining != {}
        invariant remaining <= fields.Keys
        invariant forall i :: 0 <= i < |names| ==> names[i] in fields && names[i] !in remaining
        invariant forall i, j :: 0 <= i < j < |names| ==> names[i] != names[j]
        invariant forall name :: name in names <==> name in fields.Keys - remaining
        invariant output == HeadersText(Enumerated(names, fields))
        decreases remaining
      {
        var name :| name in remaining;
        remaining := remaining - {name};
        EnumeratedAppend(names, fields, name);
        HeadersTextAppend(Enumerated(names, fields), HeaderLine(name, fields[name]));
        output := output + ToHeader(HeaderLine(name, fields[name]));
        names := names + [name];
      }
    }
  }

  lemma {:induction false} EnumeratedAppend(names: seq<string>, fields: Headers.Fields, name: string)
    requires forall i :: 0 <= i < |names| ==> names[i] in fields
    requires name in fields
    ensures Enumerated(names + [name], fields) == Enumerated(names, fields) + [HeaderLine(name, fields[name])]
  {
    if names == [] {
      assert names + [name] == [name];
    } else {
      assert (names + [name])[1..] == names[1..] + [name];
      EnumeratedAppend(names[1..], fields, name);
    }
  }
}
