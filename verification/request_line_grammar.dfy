/**
  The request line automaton accepts exactly the request-line grammar (section 3.1.1 of
  RFC 7230, with the library's limits): it is compared, on every input, with a decoder
  that splits the input into its parts and knows nothing of states or counters.
 */
module RequestLineGrammar {
  import opened Characters
  import opened Parsing
  import opened RequestLines

  datatype Parts = Parts(verb: string, uri: string, major: char, minor: char)

  datatype Decoded = Decoded(parts: Parts, rest: string)

  predicate IsUriChar(c: char) { !IsBlank(c) && !IsEndOfLine(c) }

  /** The length of the line end at the front of `s`, zero if there is none. */
  function EolLength(strict: bool, s: string): nat {
    if CRLF <= s then 2
    else if !strict && "\n" <= s then 1
    else 0
  }

  function DecodeVersion(strict: bool, parts: Parts, s: string): Option<Decoded> {
    if |s| >= 8 && s[..5] == "HTTP/" && IsDigit(s[5]) && s[6] == '.' && IsDigit(s[7])
       && EolLength(strict, s[8..]) > 0
    then Some(Decoded(parts.(major := s[5], minor := s[7]), s[8 + EolLength(strict, s[8..])..]))
    else None
  }

  /** The line from the URI on, after `ws` blanks. */
  function DecodeFromUri(l: Limits, verb: string, ws: nat, s: string): Option<Decoded> {
    var uri := TakeWhile(IsUriChar, s);
    var s' := s[|uri|..];
    var ws2 := TakeWhile(IsBlank, s');
    if 1 <= ws < l.maxWs && 1 <= |uri| <= l.maxUri && 1 <= |ws2| <= l.maxWs
    then DecodeVersion(l.strictCrlf, Parts(verb, uri, '\0', '\0'), s'[|ws2|..])
    else None
  }

  /** METHOD 1..MAX-1 blanks URI 1..MAX blanks HTTP/d.d end-of-line */
  function Decode(l: Limits, s: string): Option<Decoded> {
    var verb := TakeWhile(IsUpper, s);
    var s' := s[|verb|..];
    var ws := TakeWhile(IsBlank, s');
    if 1 <= |verb| <= l.maxMethod then DecodeFromUri(l, verb, |ws|, s'[|ws|..]) else None
  }

  /** Whether a parse result is the decoder's answer. */
  predicate Agrees(p: Parsed<Line>, d: Option<Decoded>) {
    if p.out.Done?
    then d == Some(Decoded(Parts(p.s.verb, p.s.uri, p.s.major, p.s.minor), p.rest))
    else d == None
  }

  /** One step of the automaton: the only lemma below that looks into its loop. */
  lemma Unroll(l: Limits, s: Line, inp: string)
    requires !s.fail && !s.state.Valid?
    ensures inp == [] ==> !Parse(l, s, inp).out.Done?
    ensures inp != [] ==>
              var r := Step(l, s, inp[0]);
              Parse(l, s, inp) == if r.ok then Parse(l, r.s.(fail := false), inp[1..])
                                  else Parsed(r.s.(fail := true), inp[1..], Error)
  {
  }

  lemma Finished(l: Limits, s: Line, inp: string)
    requires s.state.Valid?
    ensures Parse(l, s, inp) == Parsed(s.(valid := true), inp, Done)
  {
  }

  lemma MethodEnd(l: Limits, s: Line, inp: string)
    requires s.state == Method && !s.fail
    requires inp != [] ==> !IsUpper(inp[0])
    ensures if s.verb != [] && inp != [] && IsBlank(inp[0])
            then Parse(l, s, inp) == Parse(l, s.(ws := 1, state := Uri), inp[1..])
            else !Parse(l, s, inp).out.Done?
  {
    hide Parse;
    Unroll(l, s, inp);
  }

  lemma MethodCharacter(l: Limits, s: Line, inp: string)
    requires s.state == Method && !s.fail && inp != [] && IsUpper(inp[0])
    ensures var s' := s.(verb := s.verb + [inp[0]]);
            if |s'.verb| <= l.maxMethod then Parse(l, s, inp) == Parse(l, s', inp[1..])
            else !Parse(l, s, inp).out.Done?
  {
    hide Parse;
    Unroll(l, s, inp);
  }

  lemma {:induction false} MethodPart(l: Limits, s: Line, inp: string)
    requires s.state == Method && !s.fail && |s.verb| <= l.maxMethod
    ensures var m := TakeWhile(IsUpper, inp);
            var more := inp[|m|..];
            if s.verb + m != [] && |s.verb + m| <= l.maxMethod && more != [] && IsBlank(more[0])
            then Parse(l, s, inp) == Parse(l, s.(verb := s.verb + m, ws := 1, state := Uri), more[1..])
            else !Parse(l, s, inp).out.Done?
    decreases |inp|
  {
    hide Parse, Step;
    var m := TakeWhile(IsUpper, inp);
    if m != [] {
      MethodCharacter(l, s, inp);
      var s' := s.(verb := s.verb + [inp[0]]);
      assert s'.verb + m[1..] == s.verb + m;
      assert inp[1..][|m[1..]|..] == inp[|m|..];
      if |s'.verb| <= l.maxMethod {
        MethodPart(l, s', inp[1..]);
      }
    } else {
      MethodEnd(l, s, inp);
      assert s.verb + m == s.verb;
    }
  }

  lemma {:induction false} BlanksBeforeUri(l: Limits, s: Line, inp: string)
    requires s.state == Uri && s.uri == [] && !s.fail
    ensures var w := TakeWhile(IsBlank, inp);
            if s.ws + |w| <= l.maxWs || w == []
            then Parse(l, s, inp) == Parse(l, s.(ws := s.ws + |w|), inp[|w|..])
            else !Parse(l, s, inp).out.Done?
    decreases |inp|
  {
    hide Parse;
    Unroll(l, s, inp);
    var w := TakeWhile(IsBlank, inp);
    if w != [] {
      assert inp[1..][|w[1..]|..] == inp[|w|..];
      if s.ws + 1 <= l.maxWs {
        BlanksBeforeUri(l, s.(ws := s.ws + 1), inp[1..]);
      }
    }
  }

  lemma UriEnd(l: Limits, s: Line, inp: string)
    requires s.state == Uri && !s.fail
    requires inp != [] ==> !IsUriChar(inp[0])
    requires s.uri == [] && inp != [] ==> !IsBlank(inp[0])
    ensures if s.uri != [] && s.ws < l.maxWs && inp != [] && IsBlank(inp[0])
            then Parse(l, s, inp) == Parse(l, s.(ws := 1, state := HttpH), inp[1..])
            else !Parse(l, s, inp).out.Done?
  {
    hide Parse;
    Unroll(l, s, inp);
  }

  lemma {:induction false} UriPart(l: Limits, s: Line, inp: string)
    requires s.state == Uri && !s.fail && |s.uri| <= l.maxUri
    requires s.uri == [] && inp != [] ==> !IsBlank(inp[0])
    ensures var u := TakeWhile(IsUriChar, inp);
            var more := inp[|u|..];
            if s.uri + u != [] && |s.uri + u| <= l.maxUri && s.ws < l.maxWs && more != [] && IsBlank(more[0])
            then Parse(l, s, inp) == Parse(l, s.(uri := s.uri + u, ws := 1, state := HttpH), more[1..])
            else !Parse(l, s, inp).out.Done?
    decreases |inp|
  {
    hide Parse;
    var u := TakeWhile(IsUriChar, inp);
    if u != [] {
      var s' := s.(uri := s.uri + [inp[0]]);
      assert s'.uri + u[1..] == s.uri + u;
      assert inp[1..][|u[1..]|..] == inp[|u|..];
      Unroll(l, s, inp);
      if |s'.uri| <= l.maxUri {
        UriPart(l, s', inp[1..]);
      }
    } else {
      assert s.uri + u == s.uri;
      UriEnd(l, s, inp);
    }
  }

  lemma {:induction false} BlanksBeforeVersion(l: Limits, s: Line, inp: string)
    requires s.state == HttpH && !s.fail
    ensures var w := TakeWhile(IsBlank, inp);
            if s.ws + |w| <= l.maxWs || w == []
            then Parse(l, s, inp) == Parse(l, s.(ws := s.ws + |w|), inp[|w|..])
            else !Parse(l, s, inp).out.Done?
    decreases |inp|
  {
    hide Parse;
    Unroll(l, s, inp);
    var w := TakeWhile(IsBlank, inp);
    if w != [] {
      assert inp[1..][|w[1..]|..] == inp[|w|..];
      if s.ws + 1 <= l.maxWs {
        BlanksBeforeVersion(l, s.(ws := s.ws + 1), inp[1..]);
      }
    }
  }

  lemma LineEnd(l: Limits, s: Line, inp: string)
    requires s.state == Cr && !s.fail
    ensures var n := EolLength(l.strictCrlf, inp);
            if n > 0 then Parse(l, s, inp) == Parsed(s.(state := State.Valid, valid := true), inp[n..], Done)
            else !Parse(l, s, inp).out.Done?
  {
    hide Parse;
    Unroll(l, s, inp);
    if inp != [] && inp[0] == '\r' {
      var s' := s.(state := Lf);
      Unroll(l, s', inp[1..]);
      if |inp| > 1 {
        assert inp[1..][1..] == inp[2..];
        if inp[1] == '\n' { Finished(l, s.(state := State.Valid), inp[2..]); }
      }
    } else if !l.strictCrlf && inp != [] && inp[0] == '\n' {
      Finished(l, s.(state := State.Valid), inp[1..]);
    }
  }

  lemma VersionNumber(l: Limits, s: Line, inp: string)
    requires s.state == HttpMajor && !s.fail
    ensures if |inp| >= 3 && IsDigit(inp[0]) && inp[1] == '.' && IsDigit(inp[2])
            then Parse(l, s, inp) == Parse(l, s.(major := inp[0], minor := inp[2], state := Cr), inp[3..])
            else !Parse(l, s, inp).out.Done?
  {
    hide Parse;
    Unroll(l, s, inp);
    if inp != [] && IsDigit(inp[0]) {
      var s1 := s.(major := inp[0], state := HttpDot);
      Unroll(l, s1, inp[1..]);
      if |inp| > 1 && inp[1] == '.' {
        assert inp[1..][1..] == inp[2..];
        Unroll(l, s1.(state := HttpMinor), inp[2..]);
        if |inp| > 2 {
          assert inp[2..][1..] == inp[3..];
        }
      }
    }
  }

  /** The characters still expected of the word "HTTP/". */
  function Word(state: State): string
    requires state in {HttpH, HttpT1, HttpT2, HttpP, HttpSlash, HttpMajor}
  {
    match state
    case HttpH => "HTTP/"
    case HttpT1 => "TTP/"
    case HttpT2 => "TP/"
    case HttpP => "P/"
    case HttpSlash => "/"
    case _ => ""
  }

  lemma {:induction false} WordPart(l: Limits, s: Line, inp: string)
    requires s.state in {HttpH, HttpT1, HttpT2, HttpP, HttpSlash, HttpMajor} && !s.fail
    requires s.state == HttpH && inp != [] ==> !IsBlank(inp[0])
    ensures var w := Word(s.state);
            if w <= inp then Parse(l, s, inp) == Parse(l, s.(state := HttpMajor), inp[|w|..])
            else !Parse(l, s, inp).out.Done?
    decreases |Word(s.state)|
  {
    hide Parse;
    var w := Word(s.state);
    if s.state == HttpMajor {
      assert inp[0..] == inp;
    } else {
      Unroll(l, s, inp);
      if inp != [] && inp[0] == w[0] {
        var r := Step(l, s, inp[0]);
        assert Word(r.s.state) == w[1..];
        WordPart(l, r.s, inp[1..]);
        assert w <= inp <==> w[1..] <= inp[1..];
        if w <= inp {
          assert inp[1..][|w[1..]|..] == inp[|w|..];
        }
      }
    }
  }

  lemma VersionPart(l: Limits, s: Line, inp: string)
    requires s.state == HttpH && !s.fail
    requires inp != [] ==> !IsBlank(inp[0])
    ensures Agrees(Parse(l, s, inp), DecodeVersion(l.strictCrlf, Parts(s.verb, s.uri, '\0', '\0'), inp))
  {
    hide Parse;
    WordPart(l, s, inp);
    assert "HTTP/" <= inp <==> |inp| >= 5 && inp[..5] == "HTTP/";
    if "HTTP/" <= inp {
      var s5 := s.(state := HttpMajor);
      VersionNumber(l, s5, inp[5..]);
      if |inp| >= 8 {
        assert inp[5..][0] == inp[5] && inp[5..][1] == inp[6] && inp[5..][2] == inp[7];
        assert inp[5..][3..] == inp[8..];
        var s8 := s5.(major := inp[5], minor := inp[7], state := Cr);
        LineEnd(l, s8, inp[8..]);
        var n := EolLength(l.strictCrlf, inp[8..]);
        if n > 0 {
          assert inp[8..][n..] == inp[8 + n..];
        }
      }
    }
  }

  /** The line from the first blank behind the URI on. */
  lemma AfterUri(l: Limits, s: Line, more: string)
    requires s.state == HttpH && !s.fail && s.ws == 1 && l.maxWs >= 1
    requires more != [] && IsBlank(more[0])
    ensures var ws := TakeWhile(IsBlank, more);
            Agrees(Parse(l, s, more[1..]),
                   if |ws| <= l.maxWs
                   then DecodeVersion(l.strictCrlf, Parts(s.verb, s.uri, '\0', '\0'), more[|ws|..])
                   else None)
  {
    hide Parse, DecodeVersion;
    var ws := TakeWhile(IsBlank, more);
    var w := TakeWhile(IsBlank, more[1..]);
    assert ws == [more[0]] + w;
    assert more[1..][|w|..] == more[|ws|..];
    BlanksBeforeVersion(l, s, more[1..]);
    if |ws| <= l.maxWs {
      VersionPart(l, s.(ws := |ws|), more[|ws|..]);
    }
  }

  lemma FromUri(l: Limits, s: Line, inp: string)
    requires s.state == Uri && !s.fail && s.uri == [] && 1 <= s.ws
    requires inp != [] ==> !IsBlank(inp[0])
    ensures Agrees(Parse(l, s, inp), DecodeFromUri(l, s.verb, s.ws, inp))
  {
    hide Parse, DecodeVersion, Step;
    UriPart(l, s, inp);
    var uri := TakeWhile(IsUriChar, inp);
    assert s.uri + uri == uri;
    var more := inp[|uri|..];
    if s.ws < l.maxWs && 1 <= |uri| <= l.maxUri && more != [] && IsBlank(more[0]) {
      AfterUri(l, s.(uri := uri, ws := 1, state := HttpH), more);
    }
  }

  /** Main result: on every input the automaton and the grammar agree. */
  lemma ParseIsGrammar(l: Limits, inp: string)
    ensures Agrees(Parse(l, FRESH, inp), Decode(l, inp))
  {
    hide Parse, DecodeVersion;
    MethodPart(l, FRESH, inp);
    var verb := TakeWhile(IsUpper, inp);
    assert FRESH.verb + verb == verb;
    var more := inp[|verb|..];
    if 1 <= |verb| <= l.maxMethod && more != [] && IsBlank(more[0]) {
      AfterMethod(l, verb, more);
    }
  }

  lemma AfterMethod(l: Limits, verb: string, more: string)
    requires more != [] && IsBlank(more[0])
    ensures var s := FRESH.(verb := verb, ws := 1, state := Uri);
            var ws := TakeWhile(IsBlank, more);
            Agrees(Parse(l, s, more[1..]), DecodeFromUri(l, verb, |ws|, more[|ws|..]))
  {
    hide Parse, DecodeVersion;
    var s := FRESH.(verb := verb, ws := 1, state := Uri);
    var ws := TakeWhile(IsBlank, more);
    var w := TakeWhile(IsBlank, more[1..]);
    assert ws == [more[0]] + w;
    assert more[1..][|w|..] == more[|ws|..];
    BlanksBeforeUri(l, s, more[1..]);
    FromUri(l, s.(ws := |ws|), more[|ws|..]);
  }

  /** What a request line must be for the receiver with limits `l` to accept it. */
  ghost predicate WellFormed(l: Limits, s: Parts) {
    && 1 <= |s.verb| <= l.maxMethod && All(IsUpper, s.verb)
    && 1 <= |s.uri| <= l.maxUri && All(IsUriChar, s.uri)
    && IsDigit(s.major) && IsDigit(s.minor)
  }

  function Encode(s: Parts): string {
    ToText(Line(s.verb, s.uri, s.major, s.minor, State.Valid, 0, true, false))
  }

  lemma DecodeEncodedVersion(strict: bool, s: Parts, more: string)
    requires IsDigit(s.major) && IsDigit(s.minor)
    ensures DecodeVersion(strict, s.(major := '\0', minor := '\0'), HttpVersion(s.major, s.minor) + CRLF + more)
         == Some(Decoded(s, more))
  {
    var version := HttpVersion(s.major, s.minor) + CRLF + more;
    assert version[8..] == CRLF + more;
    assert version[10..] == more;
  }

  lemma DecodeEncodedUri(l: Limits, verb: string, uri: string, version: string)
    requires 1 <= |uri| <= l.maxUri && All(IsUriChar, uri) && l.maxWs >= 2
    requires version != [] && !IsBlank(version[0])
    ensures DecodeFromUri(l, verb, 1, uri + (" " + version))
         == DecodeVersion(l.strictCrlf, Parts(verb, uri, '\0', '\0'), version)
  {
    TakeWhileAll(IsUriChar, uri, " " + version);
    TakeWhileAll(IsBlank, " ", version);
  }

  lemma DecodeEncodedVerb(l: Limits, verb: string, more: string)
    requires 1 <= |verb| <= l.maxMethod && All(IsUpper, verb)
    requires more != [] && !IsBlank(more[0])
    ensures Decode(l, verb + (" " + more)) == DecodeFromUri(l, verb, 1, more)
  {
    TakeWhileAll(IsUpper, verb, " " + more);
    TakeWhileAll(IsBlank, " ", more);
  }

  lemma DecodeEncode(l: Limits, s: Parts, more: string)
    requires WellFormed(l, s) && l.maxWs >= 2
    ensures Decode(l, Encode(s) + more) == Some(Decoded(s, more))
  {
    var version := HttpVersion(s.major, s.minor) + CRLF + more;
    var target := s.uri + (" " + version);
    assert target[0] == s.uri[0];
    assert Encode(s) + more == s.verb + (" " + target);
    hide Decode, DecodeFromUri, DecodeVersion;
    DecodeEncodedVerb(l, s.verb, target);
    DecodeEncodedUri(l, s.verb, s.uri, version);
    DecodeEncodedVersion(l.strictCrlf, s, more);
  }

  /** Parsing what to_string wrote gives it back and stops right behind it. */
  lemma RoundTrip(l: Limits, s: Parts, more: string)
    requires WellFormed(l, s) && l.maxWs >= 2
    ensures var p := Parse(l, FRESH, Encode(s) + more);
            && p.out.Done? && p.rest == more
            && Parts(p.s.verb, p.s.uri, p.s.major, p.s.minor) == s
  {
    hide Parse, Decode;
    DecodeEncode(l, s, more);
    ParseIsGrammar(l, Encode(s) + more);
  }

  /**
    With room for a single blank no request line is ever accepted: the blank that ends
    the URI is counted against the limit for the blanks before it.
   */
  lemma OneBlankIsNotEnough(l: Limits, inp: string)
    requires l.maxWs < 2
    ensures !Parse(l, FRESH, inp).out.Done?
  {
    hide Parse;
    ParseIsGrammar(l, inp);
  }
}
