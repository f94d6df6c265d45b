/** The classes rx_request and request_receiver and the server loop, run against their values. */
module RequestReceivers {
  import opened Parsing
  import opened LineParsers
  import opened HeaderParsers
  import opened ChunkParsers
  import opened Requests
  import opened Server
  import RL = RequestLines
  import Headers
  import Chunks

  class RxRequest {
    const limits: Limits
    const line: RequestLine
    const headers: MessageHeaders
    var valid: bool

    ghost predicate Valid()
      reads this, line, headers, headers.field
    {
      && line.limits == limits && headers.limits == limits
      && headers.Valid() && RequestInvariant(Value())
    }

    function Value(): Request
      reads this, line, headers, headers.field
    {
      Request(line.Value(), headers.Value(), valid)
    }

    constructor (limits: Limits)
      ensures this.limits == limits && Valid() && Value() == FRESH_REQUEST
      ensures fresh(line) && fresh(headers) && fresh(headers.field)
    {
      this.limits := limits;
      line := new RequestLine(limits);
      headers := new MessageHeaders(limits);
      valid := false;
    }

    method Clear()
      requires headers.Valid() && line.limits == limits && headers.limits == limits
      modifies this, line, headers, headers.field
      ensures Valid() && Value() == FRESH_REQUEST
    {
      line.Clear();
      headers.Clear();
      valid := false;
    }

    method Parse(buffer: string, iter: nat) returns (ok: bool, next: nat)
      requires Valid() && !valid && iter <= |buffer|
      modifies this, line, headers, headers.field
      ensures headers.Valid() && iter <= next <= |buffer|
      ensures var p := ParseRequest(limits, old(Value()), buffer[iter..]);
              Value() == p.s && buffer[next..] == p.rest && ok == p.out.Done?
    {
      hide RL.Parse, Headers.Parse;
      next := iter;
      if !line.valid {
        ok, next := line.Parse(buffer, next);
        if !ok { return false, next; }
      }
      if !headers.valid {
        ok, next := headers.Parse(buffer, next);
        if !ok { return false, next; }
      }
      valid := true;
      return true, next;
    }
  }

  class RequestReceiver {
    const limits: Limits
    const request: RxRequest
    const chunk: RxChunk
    var translateHead: bool
    var concatenate: bool
    var body: string
    var code: Code
    var continueSent: bool
    var isHead: bool

    ghost const Repr: set<object>

    /** The parts are this receiver's own. */
    ghost predicate Separate() {
      && request.limits == limits && chunk.limits == limits
      && request.headers != chunk.trailers && request.headers.field != chunk.trailers.field
      && Repr == {this, request, request.line, request.headers, request.headers.field,
                  chunk, chunk.header, chunk.trailers, chunk.trailers.field}
    }

    /** The parts are in order, each for itself. */
    ghost predicate InOrder()
      reads this, Repr
    {
      Separate() && request.Valid() && chunk.Valid()
    }

    ghost predicate Valid()
      reads this, Repr
    {
      InOrder() && Invariant(limits, Value())
    }

    /** What is left of validity when a request has been refused. */
    ghost predicate Clearable()
      reads this, Repr
    {
      && Separate() && request.headers.Valid() && chunk.Valid()
      && request.line.limits == limits && request.headers.limits == limits
    }

    function Value(): Receiver
      requires Separate()
      reads this, Repr
    {
      Receiver(translateHead, concatenate, request.Value(), chunk.Value(), body, code, continueSent, isHead)
    }

    constructor (limits: Limits)
      ensures this.limits == limits && Valid() && Value() == FRESH_RECEIVER && fresh(Repr)
    {
      this.limits := limits;
      var rx := new RxRequest(limits);
      var ch := new RxChunk(limits);
      request, chunk := rx, ch;
      translateHead, concatenate := true, true;
      body, code, continueSent, isHead := [], NoContent, false, false;
      Repr := {this, rx, rx.line, rx.headers, rx.headers.field, ch, ch.header, ch.trailers, ch.trailers.field};
    }

    method SetTranslateHead(enable: bool)
      requires Valid()
      modifies this`translateHead
      ensures Valid() && Value() == old(Value()).(translateHead := enable)
    {
      translateHead := enable;
    }

    method SetConcatenateChunks(enable: bool)
      requires Valid()
      modifies this`concatenate
      ensures Valid() && Value() == old(Value()).(concatenate := enable)
    {
      concatenate := enable;
    }

    method SetContinueSent()
      requires Valid()
      modifies this`continueSent
      ensures Valid() && Value() == old(Value()).(continueSent := true)
    {
      continueSent := true;
    }

    /** The response code is required for the response, so it is not cleared. */
    method Clear()
      requires Clearable()
      modifies Repr
      ensures Valid() && Value() == Requests.Clear(old(Value()))
    {
      request.Clear();
      chunk.Clear();
      body := [];
      continueSent := false;
      isHead := false;
      ClearKeepsInvariant(limits, old(Value()));
    }

    method Refuse(code: Code)
      requires Clearable()
      modifies Repr
      ensures Valid() && Value() == Requests.Refuse(old(Value()), code, []).s
    {
      this.code := code;
      Clear();
    }

    /** If enabled, a HEAD request is passed on as a GET request. */
    method Complete()
      requires InOrder()
      modifies this`isHead, request.line`verb
      ensures InOrder()
      ensures Value() == Requests.Complete(old(Value()))
    {
      isHead := request.line.verb == HEAD;
      if isHead && translateHead {
        request.line.verb := GET;
      }
    }

    /** Extend the body. */
    method Append(data: string)
      requires InOrder()
      modifies this`body
      ensures InOrder() && Value() == old(Value()).(body := old(body) + data)
    {
      body := body + data;
    }

    /** The part of the buffer that the body still lacks. */
    method ReadBody(buffer: string, iter: nat, length: nat) returns (rx: Rx, next: nat)
      requires InOrder() && |body| <= length && iter <= |buffer|
      modifies this`body, this`isHead, request.line`verb
      ensures InOrder() && iter <= next <= |buffer|
      ensures Received(Value(), buffer[next..], rx) == Requests.ReadBody(old(Value()), length, buffer[iter..])
    {
      hide Requests.Complete, InOrder, Value;
      ValueBody();
      var rxSize := |buffer| - iter;
      var required := length - |body|;
      next := if rxSize > required then iter + required else |buffer|;
      assert buffer[iter..][..next - iter] == buffer[iter..next];
      assert buffer[iter..][next - iter..] == buffer[next..];
      Append(buffer[iter..next]);
      ValueBody();
      if |body| == length {
        Complete();
        return Rx.Valid, next;
      }
      return Incomplete, next;
    }

    lemma ValueBody()
      requires InOrder()
      ensures Separate() && Value().body == body
    {
    }

    lemma ValueRequest()
      requires InOrder()
      ensures Separate() && Clearable() && Value().request == request.Value()
    {
    }

    method SetCode(code: Code)
      requires InOrder()
      modifies this`code
      ensures InOrder() && Value() == old(Value()).(code := code)
    {
      this.code := code;
    }

    /** The body of a request of a known length. */
    method ReceiveSized(buffer: string, iter: nat) returns (rx: Rx, next: nat)
      requires Valid() && request.valid && !request.Value().IsChunked() && iter <= |buffer|
      modifies Repr
      ensures Valid() && iter <= next <= |buffer|
      ensures Received(Value(), buffer[next..], rx) == Requests.ReceiveSized(limits, old(Value()), buffer[iter..])
    {
      hide Headers.IsChunked, Headers.ContentLength, Headers.Find, Requests.ReadBody, Requests.Clear,
        Value, InOrder, Clearable, Separate;
      ValueRequest();
      ValueBody();
      SizedKeepsInvariant(limits, Value(), buffer[iter..]);
      next := iter;
      var rxSize := |buffer| - iter;
      var length := request.Value().ContentLength();
      if request.Value().IsTrace() {
        if length == 0 {
          SetCode(MethodNotAllowed);
          ValueRequest();
        } else {
          Refuse(BadRequest);
          return Rx.Invalid, next;
        }
      }
      if length < 0 {
        Refuse(BadRequest);
        return Rx.Invalid, next;
      }
      if length > 0 {
        if length > limits.maxContent {
          Refuse(PayloadTooLarge);
          return Rx.Invalid, next;
        }
      } else if rxSize > 0 && Headers.Find(request.headers.fields, Headers.LC_CONTENT_LENGTH) == [] {
        Refuse(LengthRequired);
        return Rx.Invalid, next;
      }
      ValueBody();
      rx, next := ReadBody(buffer, next, length);
    }

    /** Make room for the next chunk. */
    method ClearChunk()
      requires InOrder()
      modifies chunk, chunk.header, chunk.trailers, chunk.trailers.field
      ensures InOrder() && Value() == old(Value()).(chunk := Chunks.FRESH)
    {
      chunk.Clear();
    }

    method ParseChunk(buffer: string, iter: nat) returns (ok: bool, next: nat)
      requires InOrder() && !chunk.valid && iter <= |buffer|
      modifies chunk, chunk.header, chunk.trailers, chunk.trailers.field
      ensures InOrder() && iter <= next <= |buffer|
      ensures Chunks.Invariant(limits, old(Value()).chunk) && !old(Value()).chunk.valid
      ensures var p := Chunks.Parse(limits, old(Value()).chunk, buffer[iter..]);
              Value() == old(Value()).(chunk := p.s) && buffer[next..] == p.rest && ok == p.out.Done?
    {
      hide Chunks.Parse;
      ok, next := chunk.Parse(buffer, iter);
    }

    lemma ValueChunk()
      requires InOrder()
      ensures Separate() && Clearable() && Value().chunk == chunk.Value() && Value().body == body
      ensures Chunks.Invariant(limits, chunk.Value())
      ensures Value().concatenate == concatenate && Value().continueSent == continueSent
    {
    }

    /** A chunk, and what becomes of its data. */
    method ReceiveChunk(buffer: string, iter: nat) returns (rx: Rx, next: nat)
      requires Valid() && request.valid && request.Value().IsChunked() && !chunk.valid && iter <= |buffer|
      modifies Repr
      ensures Valid() && iter <= next <= |buffer|
      ensures Received(Value(), buffer[next..], rx) == Requests.ReceiveChunk(limits, old(Value()), buffer[iter..])
    {
      hide Headers.IsChunked, Chunks.Parse, Chunks.Invariant, Requests.Clear, Value, InOrder, Clearable;
      ValueRequest();
      ValueChunk();
      ChunkKeepsInvariant(limits, Value(), buffer[iter..]);
      var ok;
      ok, next := ParseChunk(buffer, iter);
      ValueChunk();
      if !ok && next != |buffer| {
        Refuse(BadRequest);
        return Rx.Invalid, next;
      }
      if !chunk.valid {
        return Incomplete, next;
      }
      if !concatenate {
        return ChunkReceived, next;
      }
      if chunk.IsLast() {
        return Rx.Valid, next;
      }
      if |body| + |chunk.data| > limits.maxContent {
        Refuse(PayloadTooLarge);
        return Rx.Invalid, next;
      }
      Append(chunk.data);
      return Incomplete, next;
    }

    /** What follows the request header, which may just have been parsed. */
    method ReceiveBody(buffer: string, iter: nat, parsed: bool) returns (rx: Rx, next: nat)
      requires Valid() && request.valid && iter <= |buffer|
      modifies Repr
      ensures Valid() && iter <= next <= |buffer|
      ensures Received(Value(), buffer[next..], rx) == Requests.ReceiveBody(limits, old(Value()), buffer[iter..], parsed)
    {
      hide Headers.IsChunked, Headers.Find, Headers.ExpectsContinue, Chunks.Invariant, RequestInvariant,
        Requests.ReceiveSized, Requests.ReceiveChunk, Value, InOrder, Clearable;
      ValueRequest();
      ValueChunk();
      BodyMakesProgress(limits, Value(), buffer[iter..], parsed);
      next := iter;
      if request.Value().MissingHost() {
        SetCode(BadRequest);
        return Rx.Invalid, next;
      }
      if !request.Value().IsChunked() {
        rx, next := ReceiveSized(buffer, next);
        return;
      }
      if chunk.valid {
        ClearChunk();
        ValueRequest();
        ValueChunk();
      }
      if parsed {
        if request.Value().ExpectsContinue() && !continueSent {
          SetCode(Continue);
          return ExpectContinue, next;
        } else if !concatenate {
          return Rx.Valid, next;
        }
      }
      rx, next := ReceiveChunk(buffer, next);
    }

    method ParseHeader(buffer: string, iter: nat) returns (ok: bool, next: nat)
      requires InOrder() && !request.valid && iter <= |buffer|
      modifies request, request.line, request.headers, request.headers.field
      ensures Clearable() && iter <= next <= |buffer|
      ensures RequestInvariant(old(Value()).request) && !old(Value()).request.valid
      ensures var p := ParseRequest(limits, old(Value()).request, buffer[iter..]);
              Value() == old(Value()).(request := p.s) && buffer[next..] == p.rest && ok == p.out.Done?
      ensures RequestInvariant(Value().request) ==> InOrder()
    {
      hide ParseRequest;
      ok, next := request.Parse(buffer, iter);
    }

    lemma ValueLine()
      requires Clearable()
      ensures Value().request == request.Value() && Value().request.valid == request.valid
      ensures Value().request.line.state == request.line.state && Value().request.line.fail == request.line.fail
    {
    }

    /** The switch on how the header could not be parsed. */
    method RefuseHeader()
      requires Clearable()
      modifies Repr
      ensures Valid()
      ensures Value() == Requests.Refuse(old(Value()), RefusalCode(old(Value()).request.line.state), []).s
    {
      hide Requests.Clear, InOrder, Invariant;
      match request.line.state
      case ErrorMethodLength => Refuse(NotImplemented);
      case ErrorUriLength => Refuse(UriTooLong);
      case _ => Refuse(BadRequest);
    }

    method Receive(buffer: string, iter: nat) returns (rx: Rx, next: nat)
      requires Valid() && iter <= |buffer|
      modifies Repr
      ensures Valid() && iter <= next <= |buffer|
      ensures Received(Value(), buffer[next..], rx) == Requests.Receive(limits, old(Value()), buffer[iter..])
    {
      hide Headers.IsChunked, Headers.ContentLength, Chunks.Invariant, RequestInvariant, ParseRequest,
        Requests.ReceiveBody, Requests.Clear, Value, InOrder, Clearable;
      ValueRequest();
      ReceiveMakesProgress(limits, Value(), buffer[iter..]);
      next := iter;
      var requestParsed := !request.valid;
      if requestParsed {
        var ok;
        ok, next := ParseHeader(buffer, next);
        ValueLine();
        if !ok {
          // a parsing error, if the data did not just run out
          if next != |buffer| || request.line.fail {
            RefuseHeader();
            return Rx.Invalid, next;
          } else {
            return Incomplete, next;
          }
        }
      }
      rx, next := ReceiveBody(buffer, next, requestParsed);
    }
  }

  // ---------------------------------------------------------------------------------
  // http_server::receive_handler
  // ---------------------------------------------------------------------------------

  /** What a handler does to the receiver by sending responses. */
  method ReactTo(rx: RequestReceiver, reaction: Reaction)
    requires rx.Valid()
    modifies rx.Repr
    ensures rx.Valid() && rx.Value() == React(old(rx.Value()), reaction)
  {
    if reaction.clears { rx.Clear(); }
    if reaction.marksContinue { rx.SetContinueSent(); }
  }

  /** The switch on what a call has reported. */
  method HandleReport(rx: RequestReceiver, rxState: Rx, h: Handler, k: nat)
    requires rx.Valid()
    modifies rx.Repr
    ensures rx.Valid() && rx.Value() == Handle(h, k, rxState, old(rx.Value()))
  {
    hide Requests.Clear, Invariant;
    match rxState
    case Valid =>
      if !rx.request.Value().IsTrace() {
        ReactTo(rx, h(k, rxState, rx.Value()));
        if !rx.request.Value().IsChunked() {
          rx.Clear();
        }
      } else {
        rx.Clear();
      }
    case Invalid =>
      rx.Clear();
    case ExpectContinue =>
      ReactTo(rx, h(k, rxState, rx.Value()));
    case ChunkReceived =>
      ReactTo(rx, h(k, rxState, rx.Value()));
      if rx.chunk.IsLast() {
        rx.Clear();
      }
    case _ =>
  }

  /** One round of the loop. */
  method HandleCall(rx: RequestReceiver, buffer: string, iter: nat, h: Handler, k: nat)
      returns (rxState: Rx, next: nat, report: seq<Event>)
    requires rx.Valid() && Pending(rx.limits, rx.Value()) && iter < |buffer|
    modifies rx.Repr
    ensures rx.Valid() && Pending(rx.limits, rx.Value()) && next <= |buffer|
    ensures var all := Run(rx.limits, h, k, old(rx.Value()), buffer[iter..]);
            if rxState.Invalid? then all == Ran(report, rx.Value())
            else
              var t := Run(rx.limits, h, k + |report|, rx.Value(), buffer[next..]);
              iter < next && all == Ran(report + t.events, t.s)
  {
    hide Requests.Receive, Invariant, Handle, Run;
    FirstCall(rx.limits, h, k, rx.Value(), buffer[iter..]);
    ReceiveMakesProgress(rx.limits, rx.Value(), buffer[iter..]);
    rxState, next := rx.Receive(buffer, iter);
    HandleKeepsPending(rx.limits, h, k, Received(rx.Value(), buffer[next..], rxState));
    report := if rxState.Incomplete? then [] else [Event(rxState, rx.Value())];
    HandleReport(rx, rxState, h, k);
    ghost var t := Run(rx.limits, h, k, rx.Value(), buffer[next..]);
    assert [] + t.events == t.events;
  }

  lemma NothingLeft(l: Limits, h: Handler, k: nat, s: Receiver)
    requires Pending(l, s)
    ensures Run(l, h, k, s, []) == Ran([], s)
  {
  }

  /** The loop over a buffer. It ends on every input and with every handler. */
  method ReceiveHandler(rx: RequestReceiver, buffer: string, h: Handler, k: nat) returns (events: seq<Event>)
    requires rx.Valid() && Pending(rx.limits, rx.Value())
    modifies rx.Repr
    ensures rx.Valid() && Pending(rx.limits, rx.Value())
    ensures Ran(events, rx.Value()) == Run(rx.limits, h, k, old(rx.Value()), buffer)
  {
    hide Invariant, Handle, Run;
    events := [];
    var iter := 0;
    var rxState := Rx.Valid;
    assert buffer[0..] == buffer;
    ghost var all := Run(rx.limits, h, k, rx.Value(), buffer);
    assert [] + all.events == all.events;
    while iter != |buffer| && !rxState.Invalid?
      invariant rx.Valid() && Pending(rx.limits, rx.Value()) && iter <= |buffer|
      invariant if rxState.Invalid? then all == Ran(events, rx.Value())
                else var t := Run(rx.limits, h, k + |events|, rx.Value(), buffer[iter..]);
                     all == Ran(events + t.events, t.s)
      decreases !rxState.Invalid?, |buffer| - iter
    {
      var report;
      ghost var before := events;
      rxState, iter, report := HandleCall(rx, buffer, iter, h, k + |events|);
      events := events + report;
      if !rxState.Invalid? {
        ghost var t := Run(rx.limits, h, k + |events|, rx.Value(), buffer[iter..]);
        assert before + (report + t.events) == events + t.events;
      }
    }
    if !rxState.Invalid? {
      NothingLeft(rx.limits, h, k + |events|, rx.Value());
      assert buffer[iter..] == [];
      assert events + [] == events;
    }
  }
}
