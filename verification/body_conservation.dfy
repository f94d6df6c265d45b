/** The body of a request is exactly the announced number of bytes behind its header. */
module BodyConservation {
  import opened Parsing
  import opened Requests
  import opened BufferIndependence
  import opened Suffixes
  import Headers
  import Chunks

  /**
    Calls of the receiver on one buffer after the other, up to the first report: the
    receiver then, and all bytes that it has not read.
   */
  function Feed(l: Limits, s: Receiver, buffers: seq<string>): (r: Received)
    requires Invariant(l, s)
    decreases |buffers|
  {
    if buffers == [] then Received(s, [], Incomplete)
    else
      var r := Receive(l, s, buffers[0]);
      ReceiveMakesProgress(l, s, buffers[0]);
      if r.rx.Incomplete? && r.rest == [] then Feed(l, r.s, buffers[1..])
      else r.(rest := r.rest + Flatten(buffers[1..]))
  }

  /** A request whose header has been read and that may have a body. */
  predicate AwaitsBody(l: Limits, s: Receiver) {
    && Invariant(l, s)
    && s.request.valid && !s.request.IsChunked() && !s.request.MissingHost() && !s.request.IsTrace()
    && |s.body| <= s.request.ContentLength() <= l.maxContent
    && (s.request.ContentLength() == 0 ==> Headers.Find(s.request.headers.fields, Headers.LC_CONTENT_LENGTH) != [])
  }

  /** The request is complete once `all` holds the `n` bytes that its body still lacks. */
  function Filled(s: Receiver, n: nat, all: string): Received {
    if |all| < n then Received(s.(body := s.body + all), [], Incomplete)
    else Received(Complete(s.(body := s.body + all[..n])), all[n..], Rx.Valid)
  }

  lemma FilledInTwo(s: Receiver, n: nat, first: string, others: string)
    ensures Filled(s, n, first + others) ==
            if |first| < n then Filled(s.(body := s.body + first), n - |first|, others)
            else var r := Filled(s, n, first); r.(rest := r.rest + others)
  {
    if |first| < n {
      assert s.body + (first + others) == s.body + first + others;
      if |first + others| >= n {
        assert s.body + first + others[..n - |first|] == s.body + (first + others)[..n];
        assert (first + others)[n..] == others[n - |first|..];
      }
    } else {
      assert (first + others)[..n] == first[..n];
      assert (first + others)[n..] == first[n..] + others;
    }
  }

  lemma OneCall(l: Limits, s: Receiver, inp: string)
    requires AwaitsBody(l, s)
    ensures var n := s.request.ContentLength() - |s.body|;
            var r := Receive(l, s, inp);
            r == Filled(s, n, inp) && (r.rx.Incomplete? ==> AwaitsBody(l, r.s))
  {
    hide Headers.IsChunked, Headers.ContentLength, Complete, Chunks.Invariant;
    var n := s.request.ContentLength() - |s.body|;
    assert inp[..|inp|] == inp;
    assert Receive(l, s, inp) == ReceiveSized(l, s, inp);
  }

  /**
    Main result: from the end of the header on, the request is reported as soon as the
    buffers together hold the rest of its body, with exactly those bytes in the body and
    every later byte left unread; and not before.
   */
  lemma {:induction false} BodyIsTheNextBytes(l: Limits, s: Receiver, buffers: seq<string>)
    requires AwaitsBody(l, s) && buffers != []
    ensures Feed(l, s, buffers) == Filled(s, s.request.ContentLength() - |s.body|, Flatten(buffers))
    decreases |buffers|
  {
    hide AwaitsBody, Receive, Complete;
    var n := s.request.ContentLength() - |s.body|;
    var first, others := buffers[0], Flatten(buffers[1..]);
    OneCall(l, s, first);
    Bounded(l, s);
    FilledInTwo(s, n, first, others);
    if |first| < n {
      if buffers[1..] == [] {
        assert s.body + first + [] == s.body + first;
      } else {
        BodyIsTheNextBytes(l, s.(body := s.body + first), buffers[1..]);
      }
    }
  }

  lemma Bounded(l: Limits, s: Receiver)
    requires AwaitsBody(l, s)
    ensures Invariant(l, s) && |s.body| <= s.request.ContentLength()
  {
  }

  /**
    The call that completes a header goes on as if the rest of its buffer had arrived
    separately, so the result above counts from the blank line.
   */
  lemma HeaderThenBody(l: Limits, s: Receiver, inp: string)
    requires Invariant(l, s) && !s.request.valid
    requires var p := ParseRequest(l, s.request, inp); p.out.Done? && !p.s.IsChunked()
    ensures var p := ParseRequest(l, s.request, inp);
            && Invariant(l, s.(request := p.s))
            && Receive(l, s, inp) == Receive(l, s.(request := p.s), p.rest)
  {
    hide ParseRequest, ReceiveSized, Headers.IsChunked, Headers.ContentLength;
  }

  // ---------------------------------------------------------------------------------
  // From the first byte
  // ---------------------------------------------------------------------------------

  /** The header of a request, read from one buffer after the other; its rest is all that follows. */
  function ReadHeader(l: Limits, r: Request, buffers: seq<string>): (p: Parsed<Request>)
    requires RequestInvariant(r) && !r.valid
    ensures RequestInvariant(p.s) && (p.out.Done? ==> p.s.valid)
    decreases |buffers|
  {
    if buffers == [] then Parsed(r, "", More)
    else
      var p := ParseRequest(l, r, buffers[0]);
      if !p.out.Done? && p.rest == [] && !p.s.line.fail then ReadHeader(l, p.s, buffers[1..])
      else p.(rest := p.rest + Flatten(buffers[1..]))
  }

  lemma {:induction false} HeaderIsRead(l: Limits, r: Request, buffers: seq<string>)
    requires RequestInvariant(r) && !r.valid
    ensures IsSuffix(ReadHeader(l, r, buffers).rest, Flatten(buffers))
    decreases |buffers|
  {
    hide ParseRequest;
    if buffers != [] {
      RequestIsRead(l, r, buffers[0]);
      var p := ParseRequest(l, r, buffers[0]);
      var others := Flatten(buffers[1..]);
      if !p.out.Done? && p.rest == [] && !p.s.line.fail {
        HeaderIsRead(l, p.s, buffers[1..]);
        SuffixOfSuffix(ReadHeader(l, p.s, buffers[1..]).rest, others, buffers[0] + others);
      } else {
        SuffixBefore(p.rest, buffers[0], others);
      }
    }
  }

  /** The buffer that completes the header may as well arrive in two. */
  lemma HeaderAlone(l: Limits, s: Receiver, buffers: seq<string>)
    requires Invariant(l, s) && !s.request.valid && buffers != []
    requires var p := ParseRequest(l, s.request, buffers[0]); p.out.Done? && !p.s.IsChunked()
    ensures var p := ParseRequest(l, s.request, buffers[0]);
            var s' := s.(request := p.s);
            var others := [p.rest] + buffers[1..];
            && Invariant(l, s') && s'.request.valid
            && ReadHeader(l, s.request, buffers) == Parsed(p.s, Flatten(others), Done)
            && Feed(l, s, buffers) == Feed(l, s', others)
  {
    var p := ParseRequest(l, s.request, buffers[0]);
    hide ParseRequest, Receive, Invariant, Headers.IsChunked;
    HeaderThenBody(l, s, buffers[0]);
    assert ([p.rest] + buffers[1..])[1..] == buffers[1..];
  }

  /** A buffer that does not complete the header. */
  lemma HeaderGoesOn(l: Limits, s: Receiver, inp: string)
    requires Invariant(l, s) && !s.request.valid
    requires var p := ParseRequest(l, s.request, inp); !p.out.Done? && p.rest == [] && !p.s.line.fail
    ensures var s' := s.(request := ParseRequest(l, s.request, inp).s);
            && Receive(l, s, inp) == Received(s', [], Incomplete)
            && Invariant(l, s') && !s'.request.valid
  {
    hide ParseRequest;
  }

  /**
    Main result from the first byte on: a request that may have a body is reported as
    soon as the buffers hold its header and the announced bytes, and not before, whatever
    the buffers.
   */
  lemma {:induction false} BodyFollowsHeader(l: Limits, s: Receiver, buffers: seq<string>)
    requires Invariant(l, s) && !s.request.valid
    requires var p := ReadHeader(l, s.request, buffers);
             p.out.Done? && AwaitsBody(l, s.(request := p.s))
    ensures var p := ReadHeader(l, s.request, buffers);
            && IsSuffix(p.rest, Flatten(buffers))
            && Feed(l, s, buffers) == Filled(s.(request := p.s), p.s.ContentLength(), p.rest)
    decreases |buffers|
  {
    HeaderIsRead(l, s.request, buffers);
    assert s.body == [];
    var p := ParseRequest(l, s.request, buffers[0]);
    hide ParseRequest, Receive, Invariant, RequestInvariant, Filled, Headers.IsChunked, Headers.ContentLength;
    if p.out.Done? {
      HeaderAlone(l, s, buffers);
      BodyIsTheNextBytes(l, s.(request := p.s), [p.rest] + buffers[1..]);
    } else {
      HeaderGoesOn(l, s, buffers[0]);
      BodyFollowsHeader(l, s.(request := p.s), buffers[1..]);
    }
  }

  // ---------------------------------------------------------------------------------
  // Every byte
  // ---------------------------------------------------------------------------------

  lemma ReadBodyConserves(s: Receiver, length: nat, inp: string)
    requires |s.body| <= length
    ensures var r := ReadBody(s, length, inp);
            && r.s.body + r.rest == s.body + inp
            && r.s.request.headers == s.request.headers
            && (r.rx.Incomplete? ==> r.s.request == s.request)
  {
    var required := length - |s.body|;
    var n := if |inp| > required then required else |inp|;
    assert s.body + inp == s.body + inp[..n] + inp[n..];
  }

  /** A call behind the header moves bytes to the body and drops none. */
  lemma CallConserves(l: Limits, s: Receiver, inp: string)
    requires Invariant(l, s) && s.request.valid && !s.request.IsChunked() && !Receive(l, s, inp).rx.Invalid?
    ensures var r := Receive(l, s, inp);
            && r.s.body + r.rest == s.body + inp
            && r.s.request.headers == s.request.headers
            && (r.rx.Incomplete? ==> Invariant(l, r.s) && r.s.request == s.request)
            && (r.rx.Valid? ==> |r.s.body| == r.s.request.ContentLength())
  {
    hide Headers.IsChunked, Headers.ContentLength, Headers.Find, Chunks.Invariant, ReadBody, RequestInvariant;
    ReceiveMakesProgress(l, s, inp);
    var length := s.request.ContentLength();
    if 0 <= length <= l.maxContent {
      ReadBodyConserves(s, length, inp);
      ReadBodyConserves(s.(code := MethodNotAllowed), length, inp);
    }
  }

  /** What is left of a body and what is not read, together, over any number of buffers. */
  lemma {:induction false} BodyAndRest(l: Limits, s: Receiver, buffers: seq<string>)
    requires Invariant(l, s) && s.request.valid && !s.request.IsChunked()
    requires Feed(l, s, buffers).rx.Valid?
    ensures var r := Feed(l, s, buffers);
            && r.s.body + r.rest == s.body + Flatten(buffers)
            && r.s.request.headers == s.request.headers
            && |r.s.body| == r.s.request.ContentLength()
    decreases |buffers|
  {
    hide Receive, Invariant, Headers.IsChunked, Headers.ContentLength;
    var first, others := buffers[0], Flatten(buffers[1..]);
    var r := Receive(l, s, first);
    CallConserves(l, s, first);
    assert s.body + (first + others) == s.body + first + others;
    if r.rx.Incomplete? && r.rest == [] {
      BodyAndRest(l, r.s, buffers[1..]);
    } else {
      assert r.s.body + (r.rest + others) == r.s.body + r.rest + others;
    }
  }

  /**
    Main result for every byte: whenever a request without chunks is reported, by any
    number of calls, the bytes that arrived are its header, its body and those not read,
    in this order, and the body has the announced length.
   */
  lemma {:induction false} EveryByteIsAccountedFor(l: Limits, s: Receiver, buffers: seq<string>)
      returns (header: string)
    requires Invariant(l, s) && !s.request.valid
    requires var r := Feed(l, s, buffers); r.rx.Valid? && !r.s.request.IsChunked()
    ensures var r := Feed(l, s, buffers);
            var p := ReadHeader(l, s.request, buffers);
            && Flatten(buffers) == header + r.s.body + r.rest
            && |r.s.body| == r.s.request.ContentLength()
            && p.out.Done? && p.rest == r.s.body + r.rest && r.s.request.headers == p.s.headers
  {
    HeaderThenReport(l, s, buffers);
    HeaderIsRead(l, s.request, buffers);
    hide *;
    var all, p := Flatten(buffers), ReadHeader(l, s.request, buffers);
    header := all[..|all| - |p.rest|];
    IsSplit(all, p.rest);
    var r := Feed(l, s, buffers);
    assert header + (r.s.body + r.rest) == header + r.s.body + r.rest;
  }

  lemma IsSplit(all: string, rest: string)
    requires IsSuffix(rest, all)
    ensures all == all[..|all| - |rest|] + rest
  {
  }

  /** The call that completes or refuses a header. */
  lemma HeaderCall(l: Limits, s: Receiver, inp: string)
    requires Invariant(l, s) && !s.request.valid
    ensures var p := ParseRequest(l, s.request, inp);
            var r := Receive(l, s, inp);
            && Invariant(l, r.s)
            && (!p.out.Done? ==> r.rx.Invalid? || (p.rest == [] && !p.s.line.fail))
            && (p.out.Done? && p.s.IsChunked() && !r.rx.Invalid? ==> r.s.request.valid && r.s.request.IsChunked())
  {
    hide ParseRequest, ReceiveChunk, Headers.IsChunked, Headers.ContentLength;
    ReceiveMakesProgress(l, s, inp);
    var p := ParseRequest(l, s.request, inp);
    if p.out.Done? && p.s.IsChunked() {
      ChunkKeepsInvariant(l, s.(request := p.s), p.rest);
    }
  }

  lemma {:induction false} ChunkedStays(l: Limits, s: Receiver, buffers: seq<string>)
    requires Invariant(l, s) && s.request.valid && s.request.IsChunked() && Feed(l, s, buffers).rx.Valid?
    ensures Feed(l, s, buffers).s.request.IsChunked()
    decreases |buffers|
  {
    hide ReceiveChunk, Invariant, Headers.IsChunked, Headers.ContentLength;
    var r := Receive(l, s, buffers[0]);
    ReceiveMakesProgress(l, s, buffers[0]);
    SameRequest(l, s, buffers[0]);
    if r.rx.Incomplete? && r.rest == [] {
      ChunkedStays(l, r.s, buffers[1..]);
    }
  }

  lemma SameRequest(l: Limits, s: Receiver, inp: string)
    requires Invariant(l, s) && s.request.valid && s.request.IsChunked()
    ensures var r := Receive(l, s, inp); !r.rx.Invalid? ==> r.s.request == s.request
  {
    hide Headers.IsChunked, Headers.ContentLength, ReceiveChunk;
    ChunkKeepsInvariant(l, if s.chunk.valid then s.(chunk := Chunks.FRESH) else s, inp);
  }

  lemma {:induction false} HeaderThenReport(l: Limits, s: Receiver, buffers: seq<string>)
    requires Invariant(l, s) && !s.request.valid
    requires var r := Feed(l, s, buffers); r.rx.Valid? && !r.s.request.IsChunked()
    ensures var r := Feed(l, s, buffers);
            var p := ReadHeader(l, s.request, buffers);
            && |r.s.body| == r.s.request.ContentLength()
            && p.out.Done? && p.rest == r.s.body + r.rest && r.s.request.headers == p.s.headers
    decreases |buffers|
  {
    assert s.body == [];
    var p := ParseRequest(l, s.request, buffers[0]);
    hide ParseRequest, Receive, Invariant, RequestInvariant, Headers.IsChunked, Headers.ContentLength;
    HeaderCall(l, s, buffers[0]);
    if p.out.Done? {
      if p.s.IsChunked() && Receive(l, s, buffers[0]).rx.Incomplete? {
        ChunkedStays(l, Receive(l, s, buffers[0]).s, buffers[1..]);
      }
      HeaderAlone(l, s, buffers);
      BodyAndRest(l, s.(request := p.s), [p.rest] + buffers[1..]);
    } else {
      HeaderGoesOn(l, s, buffers[0]);
      HeaderThenReport(l, s.(request := p.s), buffers[1..]);
    }
  }
}
