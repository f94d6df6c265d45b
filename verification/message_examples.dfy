/** Whole messages, byte by byte, and what is reported of them. */
module MessageExamples {
  import opened Characters
  import opened Parsing
  import opened Numbers
  import opened HeaderEncoding
  import opened ChunkRoundTrip
  import opened MessageEncoding
  import opened Framing
  import opened WireFormat
  import Grammar = RequestLineGrammar
  import Lines = ResponseLineRoundTrip
  import RequestRoundTrip
  import ResponseRoundTrip
  import Requests
  import RequestVerdicts
  import Responses
  import Server
  import Client
  import Headers
  import Chunks
  import ChunkHeaderGrammar
  import HeaderFold
  import FL = FieldLines

  const WIDE: Limits := Limits(100, 10, 999, 30, 10, 200, 100, 5, true, 100, 100)

  const HOST: HeaderLine := HeaderLine("Host", "h")
  const CHUNKED: HeaderLine := HeaderLine("Transfer-Encoding", "chunked")

  lemma NamesAreLowered()
    ensures Lowercase("Host") == "host" && Lowercase("Transfer-Encoding") == "transfer-encoding"
    ensures Lowercase("Content-Length") == "content-length" && Lowercase("chunked") == "chunked"
  {
  }

  lemma {:induction false} FieldOf(hs: seq<HeaderLine>, h: HeaderLine, b: Headers.Block)
    requires hs != [] && hs[0] == h
    ensures AsSources(hs) == [AsSource(h)] + AsSources(hs[1..])
    ensures HeaderFold.AddSources(b, AsSources(hs)) ==
            HeaderFold.AddSources(HeaderFold.AddSource(b, AsSource(h)), AsSources(hs[1..]))
    ensures HeaderFold.AddSource(b, AsSource(h)).fields == Headers.Add(b.fields, Lowercase(h.name), h.value)
  {
    assert ([AsSource(h)] + AsSources(hs[1..]))[1..] == AsSources(hs[1..]);
  }

  lemma Fields()
    ensures FoldOf([HOST, CHUNKED]) == map["host" := "h", "transfer-encoding" := "chunked"]
    ensures FoldOf([CHUNKED]) == map["transfer-encoding" := "chunked"]
    ensures FoldOf([]) == map[]
  {
    hide HeaderFold.AddSource, AsSource;
    NamesAreLowered();
    assert [HOST, CHUNKED][1..] == [CHUNKED] && [CHUNKED][1..] == [];
    FieldOf([HOST, CHUNKED], HOST, Headers.FRESH);
    var b := HeaderFold.AddSource(Headers.FRESH, AsSource(HOST));
    FieldOf([CHUNKED], CHUNKED, b);
    FieldOf([CHUNKED], CHUNKED, Headers.FRESH);
    assert "host" != "transfer-encoding" by { assert |"host"| == 4; }
  }

  lemma OneOrTwo(g: HeaderLine, h: HeaderLine)
    ensures HeadersText([h]) == ToHeader(h) && HeadersText([g, h]) == ToHeader(g) + ToHeader(h)
  {
    hide ToHeader;
    assert [g, h][1..] == [h] && [h][1..] == [];
    assert HeadersText([h]) == ToHeader(h) + "";
  }

  lemma HeaderTexts()
    ensures ToHeader(HOST) == "Host: h\r\n" && ToHeader(CHUNKED) == "Transfer-Encoding: chunked\r\n"
  {
    HeaderIsWritten(HOST);
    HeaderIsWritten(CHUNKED);
    hide ToHeader;
    assert "Host" + ": " + "h" + "\r\n" == "Host: h\r\n";
    assert "Transfer-Encoding" + ": " + "chunked" + "\r\n" == "Transfer-Encoding: chunked\r\n";
  }

  lemma HeadersAreWritten()
    ensures HeadersText([HOST, CHUNKED]) == "Host: h\r\n" + "Transfer-Encoding: chunked\r\n"
    ensures HeadersText([CHUNKED]) == "Transfer-Encoding: chunked\r\n"
    ensures HeadersText([HOST]) == "Host: h\r\n"
  {
    hide HeadersText, ToHeader;
    HeaderTexts();
    OneOrTwo(HOST, CHUNKED);
    OneOrTwo(CHUNKED, HOST);
  }

  lemma HeadersFitWide()
    ensures HeadersFit(WIDE, [HOST, CHUNKED]) && HeadersFit(WIDE, [CHUNKED]) && HeadersFit(WIDE, [])
  {
    Fields();
    hide FoldOf;
    assert TextSize([]) == 0;
    assert [HOST, CHUNKED][1..] == [CHUNKED] && [CHUNKED][1..] == [];
    assert TextSize([CHUNKED]) == 24 && TextSize([HOST, CHUNKED]) == 29;
    assert IsPlain(HOST) && IsPlain(CHUNKED);
    assert |ToHeader(HOST)| == 9 && |ToHeader(CHUNKED)| == 28;
    assert |map["host" := "h", "transfer-encoding" := "chunked"]| <= 2;
    assert |map["transfer-encoding" := "chunked"]| == 1;
  }

  /** The chunks of one word. */
  const HELLO: Body := Body.Chunked([Piece("hello", "")], "", [])

  lemma HelloIsWritten()
    ensures BodyText(HELLO) == "5\r\nhello\r\n0\r\n\r\n"
    ensures PiecesFit(WIDE, HELLO.pieces) && HeaderFits(WIDE, 0, "") && BodyData(HELLO) == "hello"
  {
    var p := Piece("hello", "");
    assert ToHex(5) == "5" && ToHex(0) == "0";
    ChunksAreWritten("hello", "", "");
    assert ToHex(5) + "" + "\r\n" + "hello" + "\r\n" == "5\r\nhello\r\n";
    assert "0" + "" + "\r\n" + "" + "\r\n" == "0\r\n\r\n";
    OnePiece(p);
    hide ToHex, ChunkText, LastChunkText, PiecesText, PiecesData;
    assert "5\r\nhello\r\n" + "0\r\n\r\n" == "5\r\nhello\r\n0\r\n\r\n";
    assert HeadersText([]) == "";
  }

  lemma OnePiece(p: Piece)
    ensures PiecesText([p]) == ChunkText(p.data, p.extension) && PiecesData([p]) == p.data
    ensures p.data != "" && HeaderFits(WIDE, |p.data|, p.extension) ==> PiecesFit(WIDE, [p])
  {
    hide ChunkText, HeaderFits;
    assert [p][1..] == [];
    assert ChunkText(p.data, p.extension) + "" == ChunkText(p.data, p.extension);
    assert p.data + "" == p.data;
  }

  lemma ChunksAreAnnounced(fields: Headers.Fields)
    requires fields == map["host" := "h", "transfer-encoding" := "chunked"] || fields == map["transfer-encoding" := "chunked"]
    ensures InChunks(fields) && ValueOf(fields, "expect") == ""
  {
    NamesAreLowered();
    assert "transfer-encoding" != "host" && "expect" != "host" && "expect" != "transfer-encoding" by {
      assert |"host"| == 4 && |"expect"| == 6 && |"transfer-encoding"| == 17;
    }
    assert |Lowercase("chunked")| == 7 && |"identity"| == 8;
  }

  /** The letters of the framing headers, as the encoders look for them. */
  lemma HeadersNameEncoding()
    ensures NamesFraming("Host: h\r\n" + "Transfer-Encoding: chunked\r\n")
    ensures NamesFraming("Transfer-Encoding: chunked\r\n")
  {
    var text := "Transfer-Encoding: chunked\r\n";
    assert text[0..0 + 17] == "Transfer-Encoding";
    assert ReadsAt(text, 0, "Transfer-Encoding");
    ReadsBehind("Host: h\r\n", text, 0, "Transfer-Encoding");
  }

  lemma ReadsBehind(before: string, s: string, i: int, word: string)
    requires ReadsAt(s, i, word)
    ensures ReadsAt(before + s, |before| + i, word)
  {
    assert (before + s)[|before| + i..|before| + i + |word|] == s[i..i + |word|];
  }

  // ---------------------------------------------------------------------------------
  // A request in chunks
  // ---------------------------------------------------------------------------------

  const POST: RequestRoundTrip.Message :=
    RequestRoundTrip.Message(Grammar.Parts("POST", "/", '1', '1'), [HOST, CHUNKED], HELLO)

  const POST_TEXT: string := POST_HEADER + "5\r\nhello\r\n0\r\n\r\n"

  const POST_FIELDS: Headers.Fields := map["host" := "h", "transfer-encoding" := "chunked"]

  lemma PostIsSent()
    ensures HeadersText(RequestRoundTrip.Sent(POST)) == HeadersText(POST.headers) && RequestRoundTrip.Sent(POST) == POST.headers
  {
    HeadersAreWritten();
    HeadersNameEncoding();
    ContainsExactly(HeadersText(POST.headers), "Content-Length");
    ContainsExactly(HeadersText(POST.headers), "Transfer-Encoding");
    hide HeadersText, Contains, ReadsAt;
  }

  const POST_HEADER: string := "POST / HTTP/1.1\r\n" + ("Host: h\r\n" + "Transfer-Encoding: chunked\r\n") + "\r\n"

  /** A header whose fields name the framing is written as it is. */
  lemma NothingIsAdded(line: Grammar.Parts, headers: string, n: nat, text: string)
    requires NamesFraming(headers) && Grammar.Encode(line) == text
    ensures RequestRoundTrip.MessageText(line, headers, n) == text + headers + "\r\n"
  {
    hide NamesFraming, Grammar.Encode, RequestRoundTrip.MessageText;
    RequestIsWritten(line, headers, n);
    assert text + headers + "" + "\r\n" == text + headers + "\r\n";
  }

  lemma PostHeaderIsWritten()
    ensures RequestRoundTrip.MessageText(POST.line, HeadersText(POST.headers), BodyLength(POST.body)) == POST_HEADER
  {
    hide HeadersText, NamesFraming, Grammar.Encode, RequestRoundTrip.MessageText, BodyLength;
    HeadersAreWritten();
    HeadersNameEncoding();
    PostLineIsWritten();
    NothingIsAdded(POST.line, HeadersText(POST.headers), BodyLength(POST.body), "POST / HTTP/1.1\r\n");
  }

  lemma PostLineIsWritten()
    ensures Grammar.Encode(POST.line) == "POST / HTTP/1.1\r\n"
  {
    RequestLineIsWritten(POST.line);
    hide Grammar.Encode;
    assert "POST" + " " + "/" + " HTTP/" + ['1', '.', '1'] + "\r\n" == "POST / HTTP/1.1\r\n";
  }

  lemma PostIsWritten()
    ensures RequestRoundTrip.Encode(POST) == POST_TEXT
  {
    PostHeaderIsWritten();
    HelloIsWritten();
    hide HeadersText, BodyText, RequestRoundTrip.MessageText;
  }

  lemma PostIsWellFormed(concatenate: bool)
    ensures RequestRoundTrip.WellFormed(WIDE, concatenate, POST) && !RequestRoundTrip.Expects(POST)
    ensures RequestRoundTrip.FieldsOf(POST) == POST_FIELDS
  {
    PostIsSent();
    Fields();
    HeadersFitWide();
    HelloIsWritten();
    ChunksAreAnnounced(POST_FIELDS);
    hide RequestRoundTrip.Sent, FoldOf, HeadersFit, PiecesFit, HeaderFits, InChunks, BodyData;
    assert Grammar.WellFormed(WIDE, POST.line);
    assert Lowercase("") == "";
  }

  /**
    A request in chunks, byte by byte: where chunks are concatenated it is reported once,
    with its word for a body.
   */
  lemma PostIsReported(h: Server.Handler, k: nat)
    requires RequestRoundTrip.AnswersAtEnd(h)
    ensures Requests.Pending(WIDE, Requests.FRESH_RECEIVER)
    ensures var r := Server.Run(WIDE, h, k, Requests.FRESH_RECEIVER, POST_TEXT);
            && |r.events| == 1 && !r.events[0].rx.Invalid?
            && r.events[0].seen.request.line.verb == "POST" && r.events[0].seen.request.line.uri == "/"
            && r.events[0].seen.request.headers.fields == map["host" := "h", "transfer-encoding" := "chunked"]
            && r.events[0].seen.body == "hello"
  {
    hide Server.Run, RequestRoundTrip.Encode, RequestRoundTrip.WellFormed, RequestRoundTrip.AnswersAtEnd, Requests.Pending,
      RequestRoundTrip.Expected, RequestRoundTrip.AllSeen, RequestRoundTrip.AllExpected, RequestRoundTrip.Stream;
    var s := Requests.FRESH_RECEIVER;
    PostIsWritten();
    PostIsWellFormed(true);
    OneMessage();
    RequestRoundTrip.PipelinedRoundTrip(WIDE, h, k, s, [POST]);
    PostIsExpected();
    OneReport(Server.Run(WIDE, h, k, s, POST_TEXT).events, RequestRoundTrip.View.Request(POST.line, POST_FIELDS, "hello", "", map[]));
  }

  lemma PostIsExpected()
    ensures RequestRoundTrip.Expected(POST, true, true) ==
            [Head(RequestRoundTrip.View.Request(POST.line, POST_FIELDS, "hello", "", map[]))]
  {
    PostIsWellFormed(true);
    HelloIsWritten();
    Fields();
    hide RequestRoundTrip.FieldsOf, RequestRoundTrip.Expects, FoldOf, BodyData, RequestRoundTrip.WellFormed;
  }

  lemma {:induction false} OneReport(events: seq<Server.Event>, view: RequestRoundTrip.View)
    requires RequestRoundTrip.AllSeen(events) == [Head(view)] && Server.Accepted(events) && view.Request?
    ensures |events| == 1 && !events[0].rx.Invalid? && RequestRoundTrip.RequestOf(events[0].seen) == view
  {
    hide RequestRoundTrip.RequestOf;
    assert events[0] in events;
    assert RequestRoundTrip.AllSeen(events)[0] == RequestRoundTrip.Seen(events[0]);
  }

  lemma OneMessage()
    ensures RequestRoundTrip.Stream([POST]) == RequestRoundTrip.Encode(POST)
    ensures RequestRoundTrip.AllExpected([POST], true, true) == RequestRoundTrip.Expected(POST, true, true)
  {
    hide RequestRoundTrip.Encode, RequestRoundTrip.Expected;
    assert [POST][1..] == [];
    assert RequestRoundTrip.Encode(POST) + "" == RequestRoundTrip.Encode(POST);
    var x := RequestRoundTrip.Expected(POST, true, true);
    assert x + [] == x;
  }

  // ---------------------------------------------------------------------------------
  // A response in chunks
  // ---------------------------------------------------------------------------------

  const OK: ResponseRoundTrip.Message :=
    ResponseRoundTrip.Message(Lines.Parts(200, "OK", '1', '1'), [CHUNKED], HELLO)

  const OK_TEXT: string :=
    "HTTP/1.1 200 OK\r\n" + "Transfer-Encoding: chunked\r\n" + "\r\n" + "5\r\nhello\r\n0\r\n\r\n"

  lemma OkLineIsWritten()
    ensures Lines.Encode(OK.line) == "HTTP/1.1 200 OK\r\n" && Lines.WellFormed(WIDE, OK.line)
  {
    ResponseLineIsWritten(OK.line);
    assert ToDec(2) == "2" && ToDec(20) == "20" && ToDec(200) == "200";
    hide Lines.Encode, ToDec;
    assert "HTTP/" + ['1', '.', '1'] + " " + "200" + " " + "OK" + "\r\n" == "HTTP/1.1 200 OK\r\n";
  }

  lemma OkIsSent()
    ensures ResponseRoundTrip.Sent(OK) == OK.headers
  {
    HeadersAreWritten();
    HeadersNameEncoding();
    ContainsExactly(HeadersText(OK.headers), "Content-Length");
    ContainsExactly(HeadersText(OK.headers), "Transfer-Encoding");
    hide HeadersText, Contains, ReadsAt;
  }

  lemma OkIsWritten()
    ensures ResponseRoundTrip.Encode(OK) == OK_TEXT
  {
    hide HeadersText, BodyText, NamesFraming, Lines.Encode, ResponseRoundTrip.MessageText;
    HeadersAreWritten();
    HeadersNameEncoding();
    OkLineIsWritten();
    HelloIsWritten();
    ResponseIsWritten(OK.line, HeadersText(OK.headers), 0);
    assert "HTTP/1.1 200 OK\r\n" + "Transfer-Encoding: chunked\r\n" + "" ==
           "HTTP/1.1 200 OK\r\n" + "Transfer-Encoding: chunked\r\n";
  }

  lemma OkIsWellFormed()
    ensures ResponseRoundTrip.WellFormed(WIDE, OK)
    ensures ResponseRoundTrip.FieldsOf(OK) == map["transfer-encoding" := "chunked"]
  {
    OkIsSent();
    OkLineIsWritten();
    Fields();
    HeadersFitWide();
    HelloIsWritten();
    ChunksAreAnnounced(map["transfer-encoding" := "chunked"]);
    hide ResponseRoundTrip.Sent, FoldOf, HeadersFit, PiecesFit, HeaderFits, InChunks, Lines.WellFormed;
  }

  /** A response in chunks, byte by byte: its header, its chunk and its end are reported. */
  lemma OkIsReported(h: Client.Handler, k: nat)
    requires ResponseRoundTrip.SendsAtEnd(h)
    ensures Responses.Pending(WIDE, Responses.FRESH)
    ensures ResponseRoundTrip.AllSeen(Client.Run(WIDE, h, k, Responses.FRESH, OK_TEXT).events) ==
            [Head(ResponseRoundTrip.View(Lines.Parts(200, "OK", '1', '1'), map["transfer-encoding" := "chunked"], "")),
             Part("hello", ""), End("", map[])]
  {
    hide Client.Run, ResponseRoundTrip.Encode, ResponseRoundTrip.WellFormed, ResponseRoundTrip.SendsAtEnd,
      Responses.Pending, ResponseRoundTrip.AllSeen, ResponseRoundTrip.FieldsOf, FoldOf,
      ResponseRoundTrip.Stream, ResponseRoundTrip.AllExpected, ResponseRoundTrip.Expected;
    OkIsWritten();
    OkIsWellFormed();
    OkIsExpected();
    OneResponse(OK);
    ResponseRoundTrip.StreamRoundTrip(WIDE, h, k, [OK]);
  }

  lemma OneResponse(m: ResponseRoundTrip.Message)
    ensures ResponseRoundTrip.Stream([m]) == ResponseRoundTrip.Encode(m)
    ensures ResponseRoundTrip.AllExpected([m]) == ResponseRoundTrip.Expected(m)
  {
    hide ResponseRoundTrip.Encode, ResponseRoundTrip.Expected;
    assert [m][1..] == [];
    assert ResponseRoundTrip.Encode(m) + "" == ResponseRoundTrip.Encode(m);
    assert ResponseRoundTrip.Expected(m) + [] == ResponseRoundTrip.Expected(m);
  }

  lemma OkIsExpected()
    ensures ResponseRoundTrip.Expected(OK) ==
            [Head(ResponseRoundTrip.View(OK.line, map["transfer-encoding" := "chunked"], "")),
             Part("hello", ""), End("", map[])]
  {
    OkIsWellFormed();
    Fields();
    hide ResponseRoundTrip.FieldsOf, FoldOf, ResponseRoundTrip.WellFormed;
    var pieces := [Piece("hello", "")];
    assert pieces[1..] == [];
    assert PieceReports<ResponseRoundTrip.View>(pieces[1..]) == [];
    assert PieceReports<ResponseRoundTrip.View>(pieces) == [Part("hello", "")];
    assert ChunkReports<ResponseRoundTrip.View>(HELLO) == [Part("hello", ""), End("", map[])];
  }

  // ---------------------------------------------------------------------------------
  // Refusals
  // ---------------------------------------------------------------------------------

  /** No size is the largest size, which is refused. */
  lemma EmptySizeIsRefused(l: Limits, more: string)
    requires l.maxChunk < 18446744073709551615
    ensures !Chunks.ParseHeader(l, Chunks.FRESH_HEADER, "\r\n" + more).out.Done?
  {
    ChunkHeaderGrammar.ParseIsGrammar(l, "\r\n" + more);
    var inp := "\r\n" + more;
    assert inp[0] == '\r' && inp[0..] == inp;
  }

  /** A request without a host, byte by byte. */
  lemma NoHostIsRefused()
    ensures var r := Requests.Receive(WIDE, Requests.FRESH_RECEIVER, "GET / HTTP/1.1\r\n" + "\r\n");
            r.rx.Invalid? && r.s.code == Requests.BadRequest && r.rest == ""
  {
    var line := Grammar.Parts("GET", "/", '1', '1');
    RequestLineIsWritten(line);
    assert "GET" + " " + "/" + " HTTP/" + ['1', '.', '1'] + "\r\n" == "GET / HTTP/1.1\r\n";
    Grammar.RoundTrip(WIDE, line, "\r\n");
    BlankLine();
    hide Requests.RL.Parse, Headers.Parse, Requests.Receive;
    RequestVerdicts.MissingHostIsRefused(WIDE, Requests.FRESH_RECEIVER, "GET / HTTP/1.1\r\n" + "\r\n");
  }

  lemma BlankLine()
    ensures Headers.Parse(WIDE, Headers.FRESH, "\r\n") == Parsed(Headers.FRESH.(valid := true), "", Done)
  {
    assert "\r\n"[1..][1..] == "";
  }
}
