/**
  A chunked request may be passed on chunk by chunk or with its chunks concatenated into
  its body: both ways read the same bytes and deliver the same data.
 */
module ChunkModes {
  import opened Parsing
  import opened Requests
  import opened BufferIndependence
  import Headers
  import Chunks

  /** A chunked request whose header has been read. */
  predicate ReadsChunks(l: Limits, s: Receiver) {
    Pending(l, s) && s.request.valid && s.request.IsChunked()
  }

  /** The data delivered up to the end of a request, and where and how it ended. */
  datatype Delivered = Delivered(data: string, rest: string, rx: Rx)

  /** The calls made with concatenation off, on a buffer and those after it, up to the last chunk. */
  function ChunkByChunk(l: Limits, s: Receiver, inp: string, buffers: seq<string>): Delivered
    requires ReadsChunks(l, s) && !s.concatenate
    decreases |buffers|, |inp|
  {
    if inp == [] then
      if buffers == [] then Delivered([], [], Incomplete) else ChunkByChunk(l, s, buffers[0], buffers[1..])
    else
      OneCall(l, s, inp, []);
      var r := Receive(l, s, inp);
      match r.rx
      case Incomplete => ChunkByChunk(l, r.s, r.rest, buffers)
      case ChunkReceived =>
        if r.s.chunk.IsLast() then Delivered([], r.rest + Flatten(buffers), ChunkReceived)
        else
          var t := ChunkByChunk(l, r.s, r.rest, buffers);
          t.(data := r.s.chunk.data + t.data)
      case _ => Delivered([], r.rest + Flatten(buffers), r.rx)
  }

  /** The calls made with concatenation on, on the same buffers, up to the complete request. */
  function Concatenated(l: Limits, s: Receiver, inp: string, buffers: seq<string>): Delivered
    requires ReadsChunks(l, s) && s.concatenate
    decreases |buffers|, |inp|
  {
    if inp == [] then
      if buffers == [] then Delivered(s.body, [], Incomplete) else Concatenated(l, s, buffers[0], buffers[1..])
    else
      OneCall(l, s.(concatenate := false), inp, s.body);
      assert s.(concatenate := false).(concatenate := true, body := s.body) == s;
      var r := Receive(l, s, inp);
      if r.rx.Incomplete? then Concatenated(l, r.s, r.rest, buffers)
      else Delivered(r.s.body, r.rest + Flatten(buffers), r.rx)
  }

  /** The same receiver in the other mode. */
  function Concatenating(s: Receiver, body: string): Receiver {
    s.(concatenate := true, body := body)
  }

  /** One call in each mode. */
  lemma OneCall(l: Limits, s: Receiver, inp: string, body: string)
    requires ReadsChunks(l, s) && !s.concatenate && inp != [] && |body| <= l.maxContent
    ensures var off := Receive(l, s, inp);
            var on := Receive(l, Concatenating(s, body), inp);
            && ReadsChunks(l, Concatenating(s, body))
            && (off.rx.Incomplete? || off.rx.ChunkReceived? || off.rx.Invalid?)
            && (!off.rx.Invalid? ==> ReadsChunks(l, off.s) && !off.s.concatenate && |off.rest| < |inp|)
            && (if off.rx.ChunkReceived? && !off.s.chunk.IsLast() then
                  if |body| + |off.s.chunk.data| <= l.maxContent
                  then on == Received(Concatenating(off.s, body + off.s.chunk.data), off.rest, Incomplete)
                  else on.rx.Invalid?
                else if off.rx.ChunkReceived? then on == Received(Concatenating(off.s, body), off.rest, Rx.Valid)
                else if off.rx.Incomplete? then on == Received(Concatenating(off.s, body), off.rest, Incomplete)
                else on.rx.Invalid?)
  {
    hide Headers.IsChunked, Headers.ContentLength, Chunks.Parse, Chunks.Invariant, RequestInvariant;
    ReceiveMakesProgress(l, s, inp);
    assert Receive(l, s, inp) == ReceiveBody(l, s, inp, false);
    var s' := if s.chunk.valid then s.(chunk := Chunks.FRESH) else s;
    FreshChunk(l);
    assert Receive(l, s, inp) == ReceiveChunk(l, s', inp);
    assert Receive(l, Concatenating(s, body), inp) == ReceiveChunk(l, Concatenating(s', body), inp);
  }

  lemma FreshChunk(l: Limits)
    ensures Chunks.Invariant(l, Chunks.FRESH)
  {
  }

  /**
    Main result: concatenation delivers a request exactly when its chunks arrive
    completely and their data is within the content limit, and then the body is the data
    of the chunks and both modes end at the same byte; over any sequence of buffers.
   */
  lemma {:induction false} ModesAgree(l: Limits, s: Receiver, inp: string, buffers: seq<string>, body: string)
    requires ReadsChunks(l, s) && !s.concatenate && |body| <= l.maxContent
    ensures ReadsChunks(l, Concatenating(s, body))
    ensures var off := ChunkByChunk(l, s, inp, buffers);
            var on := Concatenated(l, Concatenating(s, body), inp, buffers);
            if off.rx.ChunkReceived? && |body| + |off.data| <= l.maxContent
            then on == Delivered(body + off.data, off.rest, Rx.Valid)
            else !on.rx.Valid?
    decreases |buffers|, |inp|
  {
    hide Receive, Invariant;
    if inp == [] {
      SameInOtherMode(l, s, body);
      if buffers != [] {
        ModesAgree(l, s, buffers[0], buffers[1..], body);
      }
    } else {
      OneCall(l, s, inp, body);
      var off := Receive(l, s, inp);
      if off.rx.Incomplete? {
        ModesAgree(l, off.s, off.rest, buffers, body);
      } else if off.rx.ChunkReceived? && !off.s.chunk.IsLast() {
        var data := off.s.chunk.data;
        if |body| + |data| <= l.maxContent {
          ModesAgree(l, off.s, off.rest, buffers, body + data);
          var t := ChunkByChunk(l, off.s, off.rest, buffers);
          assert body + data + t.data == body + (data + t.data);
        }
      } else {
        assert body + [] == body;
      }
    }
  }

  lemma SameInOtherMode(l: Limits, s: Receiver, body: string)
    requires ReadsChunks(l, s) && |body| <= l.maxContent
    ensures ReadsChunks(l, Concatenating(s, body))
  {
  }

  /**
    From the first byte of the request: with concatenation off the header is reported
    first, with it on the call that read the header goes straight on with the chunks.
   */
  lemma HeaderInBothModes(l: Limits, s: Receiver, inp: string)
    requires Pending(l, s) && !s.request.valid && !s.concatenate
    requires var p := ParseRequest(l, s.request, inp);
             p.out.Done? && p.s.IsChunked() && !p.s.MissingHost() && !p.s.ExpectsContinue()
    ensures var p := ParseRequest(l, s.request, inp);
            var off := s.(request := p.s);
            && ReadsChunks(l, off)
            && Receive(l, s, inp) == Received(off, p.rest, Rx.Valid)
            && Receive(l, Concatenating(s, s.body), inp) == Receive(l, Concatenating(off, s.body), p.rest)
  {
    hide ParseRequest, ReceiveChunk, Headers.IsChunked, Headers.ContentLength;
    FreshChunk(l);
  }
}
