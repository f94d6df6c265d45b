/** The header field automaton of headers.hpp (class field_line), as values. */
module FieldLines {
  import opened Characters
  import opened Parsing

  datatype State = Name | ValueLs | Value | Lf | Valid | ErrorLength | ErrorCrlf | ErrorWs

  /** The member variables of a field_line. */
  datatype Field = Field(name: string, value: string, length: nat, ws: nat, state: State)

  const FRESH: Field := Field([], [], 0, 0, Name)

  predicate IsNameChar(c: char) { IsAlpha(c) || c == '-' }

  /** The VALUE case of parse_char, which VALUE_LS falls through to. */
  function ValueStep(l: Limits, f: Field, c: char): Stepped<Field> {
    if !IsEndOfLine(c) then Stepped(f.(value := f.value + [c], state := Value), true)
    else if c == '\r' then Stepped(f.(state := Lf), true)
    else if l.strictCrlf then Stepped(f.(state := ErrorCrlf), false)
    else Stepped(f.(state := State.Valid), true)
  }

  /** parse_char */
  function Step(l: Limits, f: Field, c: char): Stepped<Field> {
    var f := f.(length := f.length + 1);
    if f.length > l.maxLine then Stepped(f.(state := ErrorLength), false)
    else match f.state
      case Name =>
        if IsNameChar(c) then Stepped(f.(name := f.name + [ToLower(c)]), true)
        else if c == ':' then Stepped(f.(state := ValueLs), true)
        else Stepped(f, false)
      case ValueLs =>
        if IsBlank(c) then
          var f := f.(ws := f.ws + 1);
          if f.ws > l.maxWs then Stepped(f.(state := ErrorWs), false) else Stepped(f, true)
        else ValueStep(l, f, c)
      case Value => ValueStep(l, f, c)
      case Lf => if c == '\n' then Stepped(f.(state := State.Valid), true) else Stepped(f, false)
      case _ => Stepped(f, false)
  }

  /** A finished line goes on when the next character in the buffer is blank. */
  function Continued(f: Field, rest: string): Field {
    if f.state.Valid? && rest != [] && IsBlank(rest[0])
    then f.(value := f.value + " ", state := ValueLs)
    else f
  }

  /** parse */
  function Parse(l: Limits, f: Field, inp: string): (p: Parsed<Field>)
    ensures |p.rest| <= |inp|
    ensures inp != [] && !f.state.Valid? ==> |p.rest| < |inp|
    ensures p.out.Done? <==> p.s.state.Valid?
    ensures p.out.More? ==> p.rest == []
    ensures p.s.length >= f.length + if f.state.Valid? || inp == [] then 0 else 1
    decreases |inp|
  {
    if f.state.Valid? then Parsed(f, inp, Done)
    else if inp == [] then Parsed(f, inp, More)
    else
      var r := Step(l, f, inp[0]);
      if !r.ok then Parsed(r.s, inp[1..], Error)
      else Parse(l, Continued(r.s, inp[1..]), inp[1..])
  }

  /** The number of bytes a field holds (field_line::length). */
  function Size(f: Field): nat { |f.name| + |f.value| }

  /**
    A buffer may end anywhere in a field except right behind its last line end: there
    the next buffer decides nothing, although it may start with a continuation blank.
   */
  lemma {:induction false} ParseCut(l: Limits, f: Field, a: string, b: string)
    requires !f.state.Valid? && b != []
    ensures var p := Parse(l, f, a);
            (p.out.Done? && p.rest == [] ==> !IsBlank(b[0])) ==>
            Parse(l, f, a + b) ==
            if p.out.More? then Parse(l, p.s, b) else p.(rest := p.rest + b)
    decreases |a|
  {
    if a == [] {
      assert a + b == b;
    } else {
      assert (a + b)[1..] == a[1..] + b;
      var r := Step(l, f, a[0]);
      if r.ok {
        var f' := Continued(r.s, a[1..]);
        if a[1..] == [] {
          assert a[1..] + b == b;
        } else if !f'.state.Valid? {
          ParseCut(l, f', a[1..], b);
        }
      }
    }
  }

  /** A cut there loses the fold: the continuation is read as a new field, which it cannot be. */
  lemma {:induction false} ContinuationLost(l: Limits, b: string)
    requires b != [] && IsBlank(b[0])
    ensures Parse(l, FRESH, b).out.Error?
  {
  }
}
