/** The response code of a request that cannot be parsed, read off its first line. */
module RefusalCodes {
  import opened Characters
  import opened Parsing
  import opened Requests
  import opened RequestLineGrammar
  import RL = RequestLines

  predicate TooLongMethod(l: Limits, inp: string) {
    |TakeWhile(IsUpper, inp)| > l.maxMethod
  }

  /** Behind a method and its blanks, more characters than a URI may have. */
  predicate TooLongUri(l: Limits, inp: string) {
    var verb := TakeWhile(IsUpper, inp);
    var more := inp[|verb|..];
    var ws := TakeWhile(IsBlank, more);
    && 1 <= |verb| <= l.maxMethod
    && (|ws| == 1 || 1 < |ws| <= l.maxWs)
    && |TakeWhile(IsUriChar, more[|ws|..])| > l.maxUri
  }

  /** Neither of the two errors that have a code of their own. */
  predicate IsPlain(s: RL.Line) { s.state != RL.ErrorMethodLength && s.state != RL.ErrorUriLength }

  lemma {:induction false} LaterStatesArePlain(l: Limits, s: RL.Line, inp: string)
    requires IsPlain(s) && s.state != RL.Method && s.state != RL.Uri
    ensures IsPlain(RL.Parse(l, s, inp).s)
    decreases |inp|
  {
    if !s.state.Valid? && inp != [] {
      var r := RL.Step(l, s, inp[0]);
      if r.ok {
        LaterStatesArePlain(l, r.s.(fail := false), inp[1..]);
      }
    }
  }

  lemma {:induction false} UriError(l: Limits, s: RL.Line, inp: string)
    requires s.state == RL.Uri && |s.uri| <= l.maxUri && (s.uri == [] && inp != [] ==> !IsBlank(inp[0]))
    ensures var p := RL.Parse(l, s, inp);
            if |s.uri| + |TakeWhile(IsUriChar, inp)| > l.maxUri then p.s.state == RL.ErrorUriLength && p.out.Error? else IsPlain(p.s)
    decreases |inp|
  {
    if inp != [] {
      var r := RL.Step(l, s, inp[0]);
      if IsUriChar(inp[0]) {
        if r.ok {
          UriError(l, r.s.(fail := false), inp[1..]);
        }
      } else if r.ok {
        LaterStatesArePlain(l, r.s.(fail := false), inp[1..]);
      }
    }
  }

  lemma {:induction false} BlanksError(l: Limits, s: RL.Line, inp: string)
    requires s.state == RL.Uri && s.uri == []
    ensures var ws := TakeWhile(IsBlank, inp);
            var p := RL.Parse(l, s, inp);
            if (ws == [] || s.ws + |ws| <= l.maxWs) && |TakeWhile(IsUriChar, inp[|ws|..])| > l.maxUri
            then p.s.state == RL.ErrorUriLength && p.out.Error?
            else IsPlain(p.s)
    decreases |inp|
  {
    var ws := TakeWhile(IsBlank, inp);
    if ws == [] {
      UriError(l, s, inp);
    } else {
      var r := RL.Step(l, s, inp[0]);
      assert inp[1..][|ws[1..]|..] == inp[|ws|..];
      if r.ok {
        BlanksError(l, r.s.(fail := false), inp[1..]);
      }
    }
  }

  /** The state of the automaton behind a method, of which `verb` has been read, and more. */
  predicate IsMethodVerdict(l: Limits, verb: string, inp: string, p: Parsed<RL.Line>) {
    var letters := TakeWhile(IsUpper, inp);
    var more := inp[|letters|..];
    var ws := TakeWhile(IsBlank, more);
    if |verb| + |letters| > l.maxMethod then p.s.state == RL.ErrorMethodLength && p.out.Error?
    else if |verb| + |letters| > 0 && (|ws| == 1 || 1 < |ws| <= l.maxWs)
            && |TakeWhile(IsUriChar, more[|ws|..])| > l.maxUri
    then p.s.state == RL.ErrorUriLength && p.out.Error?
    else IsPlain(p.s)
  }

  lemma OneMoreLetter(l: Limits, verb: string, inp: string, p: Parsed<RL.Line>)
    requires inp != [] && IsUpper(inp[0]) && IsMethodVerdict(l, verb + [inp[0]], inp[1..], p)
    ensures IsMethodVerdict(l, verb, inp, p)
  {
    var letters := TakeWhile(IsUpper, inp);
    assert inp[1..][|letters[1..]|..] == inp[|letters|..];
  }

  lemma {:induction false} MethodError(l: Limits, s: RL.Line, inp: string)
    requires s.state == RL.Method && |s.verb| <= l.maxMethod && s.uri == []
    ensures IsMethodVerdict(l, s.verb, inp, RL.Parse(l, s, inp))
    decreases |inp|
  {
    hide RL.Parse, RL.Step;
    if inp != [] && IsUpper(inp[0]) {
      MethodLetter(l, s, inp);
      var s' := s.(verb := s.verb + [inp[0]], fail := false);
      if |s'.verb| <= l.maxMethod {
        MethodError(l, s', inp[1..]);
        OneMoreLetter(l, s.verb, inp, RL.Parse(l, s, inp));
      }
    } else {
      MethodOther(l, s, inp);
      if inp != [] && IsBlank(inp[0]) && s.verb != [] {
        BlanksBehindMethod(l, s, inp);
      }
    }
  }

  lemma BlanksBehindMethod(l: Limits, s: RL.Line, inp: string)
    requires s.state == RL.Method && s.uri == [] && inp != [] && IsBlank(inp[0])
    ensures var ws := TakeWhile(IsBlank, inp);
            var p := RL.Parse(l, s.(ws := 1, state := RL.Uri, fail := false), inp[1..]);
            if (|ws| == 1 || 1 < |ws| <= l.maxWs) && |TakeWhile(IsUriChar, inp[|ws|..])| > l.maxUri
            then p.s.state == RL.ErrorUriLength && p.out.Error?
            else IsPlain(p.s)
  {
    hide RL.Parse, RL.Step;
    var ws := TakeWhile(IsBlank, inp);
    assert ws[1..] == TakeWhile(IsBlank, inp[1..]);
    assert inp[1..][|ws[1..]|..] == inp[|ws|..];
    BlanksError(l, s.(ws := 1, state := RL.Uri, fail := false), inp[1..]);
  }

  lemma MethodLetter(l: Limits, s: RL.Line, inp: string)
    requires s.state == RL.Method && inp != [] && IsUpper(inp[0])
    ensures var s' := s.(verb := s.verb + [inp[0]], fail := false);
            var p := RL.Parse(l, s, inp);
            if |s'.verb| <= l.maxMethod then p == RL.Parse(l, s', inp[1..])
            else p.s.state == RL.ErrorMethodLength && p.out.Error?
  {
  }

  lemma MethodOther(l: Limits, s: RL.Line, inp: string)
    requires s.state == RL.Method && (inp != [] ==> !IsUpper(inp[0]))
    ensures var p := RL.Parse(l, s, inp);
            if inp != [] && IsBlank(inp[0]) && s.verb != []
            then p == RL.Parse(l, s.(ws := 1, state := RL.Uri, fail := false), inp[1..])
            else IsPlain(p.s)
  {
  }

  /** The response code to a request line or headers that cannot be parsed. */
  function CodeFor(l: Limits, inp: string): Code {
    if TooLongMethod(l, inp) then NotImplemented else if TooLongUri(l, inp) then UriTooLong else BadRequest
  }

  /**
    Main result: a new request that is refused before its header is complete gets the
    code for a method or a URI that is too long exactly if that is what it starts with.
   */
  lemma RefusedWithCode(l: Limits, s: Receiver, inp: string)
    requires Invariant(l, s) && s.request == FRESH_REQUEST
    requires !ParseRequest(l, s.request, inp).out.Done? && Receive(l, s, inp).rx.Invalid?
    ensures var r := Receive(l, s, inp);
            r.s == s.(code := CodeFor(l, inp), body := "", continueSent := false, isHead := false)
  {
    MethodError(l, RL.FRESH, inp);
    hide RL.Parse, TakeWhile;
  }

  /** And a request that starts so is refused at once. */
  lemma TooLongIsRefused(l: Limits, s: Receiver, inp: string)
    requires Invariant(l, s) && s.request == FRESH_REQUEST && (TooLongMethod(l, inp) || TooLongUri(l, inp))
    ensures Receive(l, s, inp).rx.Invalid?
  {
    MethodError(l, RL.FRESH, inp);
    hide TakeWhile, RL.Parse;
  }
}
