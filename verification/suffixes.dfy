/** What a parser leaves unread is the end of what it was given. */
module Suffixes {
  import opened Characters
  import opened Parsing
  import opened Requests
  import RL = RequestLines
  import FL = FieldLines
  import Headers
  import Chunks

  predicate IsSuffix(rest: string, inp: string) {
    |rest| <= |inp| && inp[|inp| - |rest|..] == rest
  }

  lemma SuffixOfSuffix(a: string, b: string, c: string)
    requires IsSuffix(a, b) && IsSuffix(b, c)
    ensures IsSuffix(a, c)
  {
    assert c[|c| - |b|..][|b| - |a|..] == c[|c| - |a|..];
  }

  lemma SuffixBefore(rest: string, inp: string, more: string)
    requires IsSuffix(rest, inp)
    ensures IsSuffix(rest + more, inp + more)
  {
    assert (inp + more)[|inp| - |rest|..] == inp[|inp| - |rest|..] + more;
  }

  lemma {:induction false} LineIsRead(l: Limits, s: RL.Line, inp: string)
    ensures IsSuffix(RL.Parse(l, s, inp).rest, inp)
    decreases |inp|
  {
    if inp != [] && !s.state.Valid? {
      var r := RL.Step(l, s, inp[0]);
      if r.ok {
        LineIsRead(l, r.s.(fail := false), inp[1..]);
        hide RL.Step;
        SuffixOfSuffix(RL.Parse(l, r.s.(fail := false), inp[1..]).rest, inp[1..], inp);
      }
    }
  }

  lemma {:induction false} FieldIsRead(l: Limits, f: FL.Field, inp: string)
    ensures IsSuffix(FL.Parse(l, f, inp).rest, inp)
    decreases |inp|
  {
    if inp != [] && !f.state.Valid? {
      var r := FL.Step(l, f, inp[0]);
      if r.ok {
        FieldIsRead(l, FL.Continued(r.s, inp[1..]), inp[1..]);
        hide FL.Step;
        SuffixOfSuffix(FL.Parse(l, FL.Continued(r.s, inp[1..]), inp[1..]).rest, inp[1..], inp);
      }
    }
  }

  lemma {:induction false} HeadersAreRead(l: Limits, h: Headers.Block, inp: string)
    requires !h.field.state.Valid?
    ensures IsSuffix(Headers.Parse(l, h, inp).rest, inp)
    decreases |inp|
  {
    hide FL.Parse;
    if inp != [] && !IsEndOfLine(inp[0]) {
      FieldIsRead(l, h.field, inp);
      var p := FL.Parse(l, h.field, inp);
      if p.out.Done? {
        var h' := Headers.AddField(h, p.s);
        if !Headers.Exceeds(l, h') {
          HeadersAreRead(l, h', p.rest);
          SuffixOfSuffix(Headers.Parse(l, h', p.rest).rest, p.rest, inp);
        }
      }
    }
  }

  lemma RequestIsRead(l: Limits, r: Request, inp: string)
    requires RequestInvariant(r) && !r.valid
    ensures IsSuffix(ParseRequest(l, r, inp).rest, inp)
  {
    hide RL.Parse, Headers.Parse;
    if r.line.valid {
      HeadersAreRead(l, r.headers, inp);
    } else {
      LineIsRead(l, r.line, inp);
      var p := RL.Parse(l, r.line, inp);
      if p.out.Done? {
        HeadersAreRead(l, r.headers, p.rest);
        SuffixOfSuffix(Headers.Parse(l, r.headers, p.rest).rest, p.rest, inp);
      }
    }
  }

  lemma {:induction false} ChunkHeaderIsRead(l: Limits, h: Chunks.Header, inp: string)
    ensures IsSuffix(Chunks.ParseHeader(l, h, inp).rest, inp)
    decreases |inp|
  {
    if inp != [] && !h.state.Valid? {
      var r := Chunks.Step(l, h, inp[0]);
      if r.ok {
        ChunkHeaderIsRead(l, r.s, inp[1..]);
        hide Chunks.Step;
        SuffixOfSuffix(Chunks.ParseHeader(l, r.s, inp[1..]).rest, inp[1..], inp);
      }
    }
  }

  /** Whether a text ends in a CR. */
  predicate EndsInCr(a: string) { a != [] && a[|a| - 1] == '\r' }

  lemma SuffixEndsAlike(rest: string, inp: string)
    requires IsSuffix(rest, inp) && rest != []
    ensures EndsInCr(rest) == EndsInCr(inp)
  {
    assert rest[|rest| - 1] == inp[|inp| - 1];
  }
}
