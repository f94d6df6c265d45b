/** The classes rx_response and response_receiver and the client loop, run against their values. */
module ResponseReceivers {
  import opened Parsing
  import opened LineParsers
  import opened HeaderParsers
  import opened ChunkParsers
  import opened Responses
  import opened Client
  import RL = ResponseLines
  import Headers
  import Chunks

  class RxResponse {
    const limits: Limits
    const line: ResponseLine
    const headers: MessageHeaders
    var valid: bool

    ghost predicate Valid()
      reads this, line, headers, headers.field
    {
      && line.limits == limits && headers.limits == limits
      && headers.Valid() && ResponseInvariant(Value())
    }

    function Value(): Response
      reads this, line, headers, headers.field
    {
      Response(line.Value(), headers.Value(), valid)
    }

    constructor (limits: Limits)
      ensures this.limits == limits && Valid() && Value() == FRESH_RESPONSE
      ensures fresh(line) && fresh(headers) && fresh(headers.field)
    {
      this.limits := limits;
      line := new ResponseLine(limits);
      headers := new MessageHeaders(limits);
      valid := false;
    }

    method Clear()
      requires headers.Valid() && line.limits == limits && headers.limits == limits
      modifies this, line, headers, headers.field
      ensures Valid() && Value() == FRESH_RESPONSE
    {
      line.Clear();
      headers.Clear();
      valid := false;
    }

    method Parse(buffer: string, iter: nat) returns (ok: bool, next: nat)
      requires Valid() && !valid && iter <= |buffer|
      modifies this, line, headers, headers.field
      ensures headers.Valid() && iter <= next <= |buffer|
      ensures var p := ParseResponse(limits, old(Value()), buffer[iter..]);
              Value() == p.s && buffer[next..] == p.rest && ok == p.out.Done?
    {
      hide RL.Parse, Headers.Parse;
      next := iter;
      if !line.valid {
        ok, next := line.Parse(buffer, next);
        if !ok { return false, next; }
      }
      if !headers.valid {
        ok, next := headers.Parse(buffer, next);
        if !ok { return false, next; }
      }
      valid := true;
      return true, next;
    }
  }

  class ResponseReceiver {
    const limits: Limits
    const response: RxResponse
    const chunk: RxChunk
    var body: string

    ghost const Repr: set<object>

    /** The parts are this receiver's own. */
    ghost predicate Separate() {
      && response.limits == limits && chunk.limits == limits
      && response.headers != chunk.trailers && response.headers.field != chunk.trailers.field
      && Repr == {this, response, response.line, response.headers, response.headers.field,
                  chunk, chunk.header, chunk.trailers, chunk.trailers.field}
    }

    /** The parts are in order, each for itself. */
    ghost predicate InOrder()
      reads this, Repr
    {
      Separate() && response.Valid() && chunk.Valid()
    }

    ghost predicate Valid()
      reads this, Repr
    {
      InOrder() && Invariant(limits, Value())
    }

    /** What is left of validity when a response has been refused. */
    ghost predicate Clearable()
      reads this, Repr
    {
      && Separate() && response.headers.Valid() && chunk.Valid()
      && response.line.limits == limits && response.headers.limits == limits
    }

    function Value(): Receiver
      requires Separate()
      reads this, Repr
    {
      Receiver(response.Value(), chunk.Value(), body)
    }

    constructor (limits: Limits)
      ensures this.limits == limits && Valid() && Value() == FRESH && fresh(Repr)
    {
      this.limits := limits;
      var rx := new RxResponse(limits);
      var ch := new RxChunk(limits);
      response, chunk := rx, ch;
      body := [];
      Repr := {this, rx, rx.line, rx.headers, rx.headers.field, ch, ch.header, ch.trailers, ch.trailers.field};
    }

    method Clear()
      requires Clearable()
      modifies Repr
      ensures Valid() && Value() == FRESH
    {
      response.Clear();
      chunk.Clear();
      body := [];
      FreshIsPending(limits);
    }

    lemma ValueParts()
      requires InOrder()
      ensures Separate() && Clearable() && Value().body == body
      ensures Value().response == response.Value() && Value().response.valid == response.valid
      ensures Value().chunk == chunk.Value() && Chunks.Invariant(limits, chunk.Value())
    {
    }

    lemma ValueLine()
      requires Clearable()
      ensures Value().response == response.Value() && Value().response.valid == response.valid
      ensures Value().response.line.fail == response.line.fail
    {
    }

    method Append(data: string)
      requires InOrder()
      modifies this`body
      ensures InOrder() && Value() == old(Value()).(body := old(body) + data)
    {
      body := body + data;
    }

    /** A body that is not chunked. */
    method ReceiveSized(buffer: string, iter: nat) returns (rx: Rx, next: nat)
      requires Valid() && response.valid && !response.Value().IsChunked() && iter <= |buffer|
      requires iter < |buffer| || !response.Value().IsCloseDelimited() || body == []
      modifies Repr
      ensures iter <= next <= |buffer| && InOrder()
      ensures Received(Value(), buffer[next..], rx) == Responses.ReceiveSized(limits, old(Value()), buffer[iter..])
    {
      hide Headers.IsChunked, Headers.ContentLength, Headers.Find, Value, InOrder, Clearable;
      ValueParts();
      var contentLength := response.Value().ContentLength();
      if contentLength < 0 {
        Clear();
        return Rx.Invalid, iter;
      }
      var rxSize := |buffer| - iter;
      var length := contentLength;
      if rxSize > 0 && contentLength == 0 && Headers.Find(response.headers.fields, Headers.LC_CONTENT_LENGTH) == [] {
        length := limits.maxContent;
      }
      var required := length - |body|;
      next := if rxSize > required then iter + required else |buffer|;
      assert buffer[iter..][..next - iter] == buffer[iter..next];
      assert buffer[iter..][next - iter..] == buffer[next..];
      Append(buffer[iter..next]);
      ValueParts();
      rx := if |body| == contentLength then Rx.Valid else Incomplete;
    }

    method ClearChunk()
      requires InOrder()
      modifies chunk, chunk.header, chunk.trailers, chunk.trailers.field
      ensures InOrder() && Value() == old(Value()).(chunk := Chunks.FRESH)
    {
      chunk.Clear();
    }

    method ParseChunk(buffer: string, iter: nat) returns (ok: bool, next: nat)
      requires InOrder() && !chunk.valid && iter <= |buffer|
      modifies chunk, chunk.header, chunk.trailers, chunk.trailers.field
      ensures InOrder() && iter <= next <= |buffer|
      ensures Chunks.Invariant(limits, old(Value()).chunk) && !old(Value()).chunk.valid
      ensures var p := Chunks.Parse(limits, old(Value()).chunk, buffer[iter..]);
              Value() == old(Value()).(chunk := p.s) && buffer[next..] == p.rest && ok == p.out.Done?
    {
      hide Chunks.Parse;
      ok, next := chunk.Parse(buffer, iter);
    }

    method ReceiveChunk(buffer: string, iter: nat) returns (rx: Rx, next: nat)
      requires InOrder() && !chunk.valid && iter <= |buffer|
      modifies Repr
      ensures InOrder() && iter <= next <= |buffer|
      ensures Chunks.Invariant(limits, old(Value()).chunk) && !old(Value()).chunk.valid
      ensures Received(Value(), buffer[next..], rx) == Responses.ReceiveChunk(limits, old(Value()), buffer[iter..])
    {
      hide Chunks.Parse, Value, InOrder, Clearable;
      ValueParts();
      var ok;
      ok, next := ParseChunk(buffer, iter);
      ValueParts();
      if !ok && next != |buffer| {
        Clear();
        return Rx.Invalid, next;
      }
      rx := if chunk.valid then ChunkReceived else Incomplete;
    }

    /** What follows the response header, which may just have been parsed. */
    method ReceiveBody(buffer: string, iter: nat, parsed: bool) returns (rx: Rx, next: nat)
      requires Valid() && response.valid && iter <= |buffer|
      requires iter < |buffer| || response.Value().IsChunked() || !response.Value().IsCloseDelimited() || body == []
      modifies Repr
      ensures InOrder() && iter <= next <= |buffer|
      ensures Received(Value(), buffer[next..], rx) == Responses.ReceiveBody(limits, old(Value()), buffer[iter..], parsed)
    {
      hide Headers.IsChunked, Chunks.Invariant, ResponseInvariant, Responses.ReceiveSized, Responses.ReceiveChunk,
        Value, InOrder, Clearable;
      ValueParts();
      next := iter;
      if !response.Value().IsChunked() {
        rx, next := ReceiveSized(buffer, next);
        return;
      }
      if chunk.valid {
        ClearChunk();
        ValueParts();
      }
      if parsed {
        return Rx.Valid, next;
      }
      rx, next := ReceiveChunk(buffer, next);
    }

    method ParseHeader(buffer: string, iter: nat) returns (ok: bool, next: nat)
      requires InOrder() && !response.valid && iter <= |buffer|
      modifies response, response.line, response.headers, response.headers.field
      ensures Clearable() && iter <= next <= |buffer|
      ensures ResponseInvariant(old(Value()).response) && !old(Value()).response.valid
      ensures var p := ParseResponse(limits, old(Value()).response, buffer[iter..]);
              Value() == old(Value()).(response := p.s) && buffer[next..] == p.rest && ok == p.out.Done?
      ensures ResponseInvariant(Value().response) ==> InOrder()
    {
      hide ParseResponse;
      ok, next := response.Parse(buffer, iter);
    }

    /** Not to be called without data in the middle of a body of no announced length. */
    method Receive(buffer: string, iter: nat) returns (rx: Rx, next: nat)
      requires Valid() && iter <= |buffer|
      requires iter < |buffer| || response.Value().IsChunked() || !response.Value().IsCloseDelimited() || body == []
      modifies Repr
      ensures Valid() && iter <= next <= |buffer|
      ensures Received(Value(), buffer[next..], rx) == Responses.Receive(limits, old(Value()), buffer[iter..])
    {
      hide Headers.IsChunked, Headers.ContentLength, Headers.Find, Chunks.Invariant, ResponseInvariant, ParseResponse,
        Responses.ReceiveBody, Value, InOrder, Clearable;
      ValueParts();
      ReceiveKeepsInvariant(limits, Value(), buffer[iter..]);
      next := iter;
      var responseParsed := !response.valid;
      if responseParsed {
        var ok;
        ok, next := ParseHeader(buffer, next);
        ValueLine();
        if !ok {
          // a parsing error, if the data did not just run out
          if next != |buffer| || response.line.fail {
            Clear();
            return Rx.Invalid, next;
          } else {
            return Incomplete, next;
          }
        }
      }
      rx, next := ReceiveBody(buffer, next, responseParsed);
    }
  }

  // ---------------------------------------------------------------------------------
  // http_client::receive_handler
  // ---------------------------------------------------------------------------------

  /** What a handler does to the receiver by sending a request. */
  method ReactTo(rx: ResponseReceiver, sends: bool)
    requires rx.Valid()
    modifies rx.Repr
    ensures rx.Valid() && rx.Value() == React(old(rx.Value()), sends)
  {
    if sends {
      rx.Clear();
    }
  }

  /** The switch on what a call has reported. */
  method HandleReport(rx: ResponseReceiver, rxState: Rx, h: Handler, k: nat)
    requires rx.Valid()
    modifies rx.Repr
    ensures rx.Valid() && rx.Value() == Handle(h, k, rxState, old(rx.Value()))
  {
    hide Invariant;
    match rxState
    case Valid =>
      ReactTo(rx, h(k, rxState, rx.Value()));
      if !rx.response.Value().IsChunked() {
        rx.Clear();
      }
    case ChunkReceived =>
      ReactTo(rx, h(k, rxState, rx.Value()));
      if rx.chunk.IsLast() {
        rx.Clear();
      }
    case Invalid =>
      rx.Clear();
    case _ =>
  }

  /** One round of the loop, after which nothing has changed if it will be repeated forever. */
  method HandleCall(rx: ResponseReceiver, buffer: string, iter: nat, h: Handler, k: nat)
      returns (rxState: Rx, next: nat, report: seq<Event>)
    requires rx.Valid() && Pending(rx.limits, rx.Value()) && iter < |buffer|
    modifies rx.Repr
    ensures rx.Valid() && Pending(rx.limits, rx.Value()) && next <= |buffer|
    ensures var all := Run(rx.limits, h, k, old(rx.Value()), buffer[iter..]);
            if rxState.Invalid? then all == Ran(report, rx.Value(), false)
            else if rxState.Incomplete? && next == iter then
              report == [] && rx.Value() == old(rx.Value()) && all == Ran([], rx.Value(), true)
            else
              var t := Run(rx.limits, h, k + |report|, rx.Value(), buffer[next..]);
              iter < next && all == t.(events := report + t.events)
  {
    hide Responses.Receive, Invariant, Handle, Run, IsStuck;
    ghost var s := rx.Value();
    ghost var r := Responses.Receive(rx.limits, s, buffer[iter..]);
    ReceiveMakesProgress(rx.limits, s, buffer[iter..]);
    if IsStuck(rx.limits, s) {
      StuckRun(rx.limits, h, k, s, buffer[iter..]);
    } else {
      FirstCall(rx.limits, h, k, s, buffer[iter..]);
    }
    rxState, next := rx.Receive(buffer, iter);
    HandleKeepsPending(rx.limits, h, k, r);
    report := if rxState.Incomplete? then [] else [Event(rxState, rx.Value())];
    HandleReport(rx, rxState, h, k);
    HandleIncomplete(h, k, r);
    ghost var t := Run(rx.limits, h, k + |report|, rx.Value(), buffer[next..]);
    assert [] + t.events == t.events;
  }

  lemma HandleIncomplete(h: Handler, k: nat, r: Received)
    ensures r.rx.Incomplete? ==> Handle(h, k, r.rx, r.s) == r.s
  {
  }

  lemma NothingLeft(l: Limits, h: Handler, k: nat, s: Receiver)
    requires Pending(l, s)
    ensures Run(l, h, k, s, []) == Ran([], s, false)
  {
  }

  /**
    The loop over a buffer. A round that changes nothing would be repeated forever: there
    the method stops and says so.
   */
  method ReceiveHandler(rx: ResponseReceiver, buffer: string, h: Handler, k: nat) returns (events: seq<Event>, diverges: bool)
    requires rx.Valid() && Pending(rx.limits, rx.Value())
    modifies rx.Repr
    ensures rx.Valid() && Pending(rx.limits, rx.Value())
    ensures Ran(events, rx.Value(), diverges) == Run(rx.limits, h, k, old(rx.Value()), buffer)
  {
    hide Invariant, Handle, Run, IsStuck;
    events, diverges := [], false;
    var iter := 0;
    var rxState := Rx.Valid;
    assert buffer[0..] == buffer;
    ghost var all := Run(rx.limits, h, k, rx.Value(), buffer);
    assert [] + all.events == all.events;
    while iter != |buffer| && !rxState.Invalid? && !diverges
      invariant rx.Valid() && Pending(rx.limits, rx.Value()) && iter <= |buffer|
      invariant if rxState.Invalid? || diverges then all == Ran(events, rx.Value(), diverges)
                else var t := Run(rx.limits, h, k + |events|, rx.Value(), buffer[iter..]);
                     all == t.(events := events + t.events)
      decreases !rxState.Invalid? && !diverges, |buffer| - iter
    {
      var next, report;
      ghost var before := events;
      rxState, next, report := HandleCall(rx, buffer, iter, h, k + |events|);
      events := events + report;
      diverges := rxState.Incomplete? && next == iter;
      iter := next;
      if !rxState.Invalid? && !diverges {
        ghost var t := Run(rx.limits, h, k + |events|, rx.Value(), buffer[iter..]);
        assert before + (report + t.events) == events + t.events;
      }
    }
    if !rxState.Invalid? && !diverges {
      NothingLeft(rx.limits, h, k + |events|, rx.Value());
      assert buffer[iter..] == [];
      assert events + [] == events;
    }
  }
}
