/** Exactly when the receive loop of the client does not end. */
module ClientTermination {
  import opened Characters
  import opened Parsing
  import opened Numbers
  import opened Responses
  import opened Client
  import opened HeaderEncoding
  import opened MessageEncoding
  import opened ResponseRoundTrip
  import opened ResponseCuts
  import RL = ResponseLines
  import Lines = ResponseLineRoundTrip
  import Headers
  import Chunks
  import opened Framing

  /** A response whose header has been read and whose body has no announced length. */
  predicate IsOpen(s: Receiver) {
    s.response.valid && !s.response.IsChunked() && s.response.IsCloseDelimited()
  }

  /** What is left of such a response after `data`: all of it, up to the largest size. */
  function Open(l: Limits, s: Receiver, data: string): Receiver
    requires |s.body| <= l.maxContent
  {
    s.(body := Fill(s.body, l.maxContent, data).0)
  }

  lemma OpenCall(l: Limits, s: Receiver, data: string)
    requires IsOpen(s) && |s.body| <= l.maxContent && l.maxContent > 0 && data != []
    ensures ReceiveSized(l, s, data) == Received(Open(l, s, data), Fill(s.body, l.maxContent, data).1, Incomplete)
  {
    hide Headers.IsChunked, Headers.Find;
    assert FillLength(l, s.response) == l.maxContent;
    SizedFills(l, s, data);
  }

  lemma NothingLeft(l: Limits, h: Handler, k: nat, s: Receiver)
    requires Pending(l, s) && |s.body| <= l.maxContent
    ensures Run(l, h, k, s, "") == Ran([], s, false) && Open(l, s, "") == s
  {
    assert s.body + "" == s.body;
  }

  lemma OpenFacts(l: Limits, s: Receiver, data: string)
    requires Pending(l, s) && IsOpen(s)
    ensures 0 < |s.body| <= l.maxContent && Receive(l, s, data) == ReceiveSized(l, s, data)
    ensures IsStuck(l, s) <==> |s.body| == l.maxContent
    ensures IsOpen(Open(l, s, data))
  {
    hide Headers.IsChunked, Headers.ContentLength, Headers.Find, ReceiveSized, ResponseInvariant, Chunks.Invariant, Fill;
  }

  lemma FullTakesNothing(l: Limits, s: Receiver, data: string)
    requires |s.body| == l.maxContent
    ensures Open(l, s, data) == s
  {
    assert s.body + data[..0] == s.body;
  }

  /**
    Main result for the loop within such a body: it does not end exactly if the buffer
    holds more than the body may still grow by.
   */
  lemma OpenBodyDivergesExactly(l: Limits, h: Handler, k: nat, s: Receiver, data: string)
    requires Pending(l, s) && IsOpen(s)
    ensures |s.body| <= l.maxContent && Pending(l, Open(l, s, data))
    ensures Run(l, h, k, s, data) == Ran([], Open(l, s, data), |s.body| + |data| > l.maxContent)
  {
    hide Pending, IsOpen, IsStuck, Receive, ReceiveSized, Run;
    OpenFacts(l, s, data);
    if data == "" {
      NothingLeft(l, h, k, s);
    } else if IsStuck(l, s) {
      StuckRun(l, h, k, s, data);
      FullTakesNothing(l, s, data);
    } else {
      FirstCall(l, h, k, s, data);
      OpenCall(l, s, data);
      var s' := Open(l, s, data);
      var rest := Fill(s.body, l.maxContent, data).1;
      OpenFacts(l, s', rest);
      if rest == "" {
        NothingLeft(l, h, k, s');
      } else {
        StuckRun(l, h, k, s', rest);
      }
    }
  }

  // ---------------------------------------------------------------------------------
  // From the first byte
  // ---------------------------------------------------------------------------------

  /** The header of a response, as any server may send it. */
  function HeaderText(line: Lines.Parts, hs: seq<HeaderLine>): string {
    Lines.Encode(line) + (HeadersText(hs) + CRLF)
  }

  /** A header within limits that neither announces the length of a body nor chunks. */
  ghost predicate AnnouncesNothing(l: Limits, line: Lines.Parts, hs: seq<HeaderLine>) {
    && Lines.WellFormed(l, line) && HeadersFit(l, hs)
    && !InChunks(FoldOf(hs)) && ValueOf(FoldOf(hs), "content-length") == ""
  }

  lemma ReadHeader(l: Limits, line: Lines.Parts, hs: seq<HeaderLine>, more: string) returns (s: Receiver)
    requires AnnouncesNothing(l, line, hs)
    ensures s == FRESH.(response := s.response) && IsOpen(s) && Pending(l, FRESH)
    ensures HeadOf(s) == View(line, FoldOf(hs), "")
    ensures Receive(l, FRESH, HeaderText(line, hs) + more) == ReceiveSized(l, s, more)
  {
    hide RL.Parse, Headers.Parse, Lines.Encode, HeadersText, FoldOf, Lines.WellFormed, ReceiveSized, Headers.IsChunked,
      Headers.Find;
    FreshIsPending(l);
    var tail := HeadersText(hs) + (CRLF + more);
    assert HeaderText(line, hs) + more == Lines.Encode(line) + tail;
    Lines.RoundTrip(l, line, tail);
    HeadersRoundTrip(l, hs, more);
    s := FRESH.(response := ParseResponse(l, FRESH_RESPONSE, HeaderText(line, hs) + more).s);
    IsChunkedExactly(FoldOf(hs));
    NoLength(s.response);
  }

  lemma NoLength(r: Response)
    requires ValueOf(r.headers.fields, "content-length") == ""
    ensures r.IsCloseDelimited()
  {
  }

  lemma HeaderTextNonempty(line: Lines.Parts, hs: seq<HeaderLine>)
    ensures HeaderText(line, hs) != []
  {
    assert |HeaderText(line, hs)| >= |CRLF|;
  }

  /** The loop from a first call that reads such a header and `data` behind it. */
  lemma OpenRun(l: Limits, h: Handler, k: nat, s: Receiver, inp: string, data: string)
    requires s == FRESH.(response := s.response) && IsOpen(s) && l.maxContent > 0
    requires Pending(l, FRESH) && inp != [] && Receive(l, FRESH, inp) == ReceiveSized(l, s, data)
    ensures Run(l, h, k, FRESH, inp) ==
            if data == "" then Ran([Event(Rx.Valid, s)], FRESH, false)
            else Ran([], Open(l, s, data), |data| > l.maxContent)
  {
    hide Receive, ReceiveSized, Invariant, IsOpen, Run;
    FirstCall(l, h, k, FRESH, inp);
    OpenIsCloseDelimited(s);
    if data == "" {
      NothingRead(l, s);
      NothingToRun(l, h, k + 1);
    } else {
      OpenCall(l, s, data);
      var s' := Open(l, s, data);
      OpenStaysOpen(s, s'.body);
      var rest := Fill(s.body, l.maxContent, data).1;
      OpenBodyDivergesExactly(l, h, k, s', rest);
      assert Open(l, s', rest).body == s'.body;
    }
  }

  lemma OpenedBody(l: Limits, s: Receiver, data: string)
    requires s.body == ""
    ensures var n := if |data| > l.maxContent then l.maxContent else |data|;
            Fill(s.body, l.maxContent, data).0 == data[..n]
  {
  }

  /** The loop over such a response, of which `data` is all that the buffer holds of its body. */
  lemma OpenResponse(l: Limits, h: Handler, k: nat, line: Lines.Parts, hs: seq<HeaderLine>, data: string)
    requires AnnouncesNothing(l, line, hs) && l.maxContent > 0
    ensures Pending(l, FRESH)
    ensures var r := Run(l, h, k, FRESH, HeaderText(line, hs) + data);
            && (r.diverges <==> |data| > l.maxContent)
            && AllSeen(r.events) == (if data == "" then [Head(View(line, FoldOf(hs), ""))] else [])
            && Accepted(r.events)
            && (data != "" ==>
                  HeadOf(r.s) == View(line, FoldOf(hs), data[..if |data| > l.maxContent then l.maxContent else |data|]))
  {
    hide HeaderText, AnnouncesNothing, FoldOf, Receive, ReceiveSized, Invariant, IsOpen, Run, PartsOf, Fill;
    OpenedBody(l, FRESH, data);
    var s := ReadHeader(l, line, hs, data);
    HeaderTextNonempty(line, hs);
    OpenRun(l, h, k, s, HeaderText(line, hs) + data, data);
  }

  lemma OpenIsCloseDelimited(s: Receiver)
    requires IsOpen(s)
    ensures s.response.IsCloseDelimited() && !s.response.IsChunked()
  {
  }

  lemma OpenStaysOpen(s: Receiver, body: string)
    requires IsOpen(s)
    ensures IsOpen(s.(body := body))
  {
  }

  /**
    Main result: the loop over a list of responses of which the last announces no length
    does not end exactly if more of its body is in the buffer than may be received; the
    others are reported all the same.
   */
  lemma StreamDivergesExactly(l: Limits, h: Handler, k: nat, ms: seq<Message>, line: Lines.Parts, hs: seq<HeaderLine>, data: string)
    requires forall i :: 0 <= i < |ms| ==> WellFormed(l, ms[i]) && (ms[i].body.Sized? || SendsAtEnd(h))
    requires AnnouncesNothing(l, line, hs)
    ensures Pending(l, FRESH)
    ensures var r := Run(l, h, k, FRESH, Stream(ms) + (HeaderText(line, hs) + data));
            && (r.diverges ==> IsStuck(l, r.s))
            && (r.diverges <==> 0 < l.maxContent < |data|)
            && (l.maxContent > 0 ==>
                  && Accepted(r.events)
                  && AllSeen(r.events) ==
                     AllExpected(ms) + if data == "" then [Head(View(line, FoldOf(hs), ""))] else [])
  {
    hide WellFormed, AnnouncesNothing, HeaderText, Run, Invariant, AllSeen, Accepted, FoldOf, Stream, AllExpected;
    StreamRun(l, h, k, ms, HeaderText(line, hs) + data);
    DivergesOnlyWhenStuck(l, h, k, FRESH, Stream(ms) + (HeaderText(line, hs) + data));
    if l.maxContent > 0 {
      OpenResponse(l, h, k + |AllExpected(ms)|, line, hs, data);
    }
  }

  // ---------------------------------------------------------------------------------
  // An example
  // ---------------------------------------------------------------------------------

  const ONE_BYTE_BODY: Limits := Limits(0, 0, 999, 2, 0, 2, 2, 1, true, 0, 1)

  /** A buffer on which the loop of a new client does not end. */
  lemma TwoBytesTooMany(h: Handler, k: nat)
    ensures Pending(ONE_BYTE_BODY, FRESH)
    ensures Run(ONE_BYTE_BODY, h, k, FRESH, "HTTP/1.1 200 OK\r\n\r\nab").diverges
  {
    var l, line := ONE_BYTE_BODY, Lines.Parts(200, "OK", '1', '1');
    OkLine(l);
    assert HeadersText([]) == "";
    assert FoldOf([]) == map[];
    assert AnnouncesNothing(l, line, []);
    assert HeaderText(line, []) == "HTTP/1.1 200 OK\r\n" + CRLF;
    hide *;
    OpenResponse(l, h, k, line, [], "ab");
    assert "HTTP/1.1 200 OK\r\n" + CRLF + "ab" == "HTTP/1.1 200 OK\r\n\r\nab";
  }

  lemma OkLine(l: Limits)
    requires l == ONE_BYTE_BODY
    ensures var line := Lines.Parts(200, "OK", '1', '1');
            Lines.WellFormed(l, line) && Lines.Encode(line) == "HTTP/1.1 200 OK\r\n"
  {
    assert ToDec(200) == "200";
  }
}
