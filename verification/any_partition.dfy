/** Any stream, also one that is refused, is read the same up to its first refusal however it is cut. */
module AnyPartition {
  import opened Parsing
  import opened Requests
  import opened Server
  import opened BufferIndependence
  import opened AnyCuts
  import opened RequestAnyCuts
  import RL = RequestLines
  import Headers
  import Chunks
  import RequestCuts

  /** Whether cutting between `a` and `b` changes nothing for the loop over `a`. */
  predicate RunHarmless(l: Limits, h: Handler, k: nat, s: Receiver, a: string, b: string)
    requires Pending(l, s) && b != []
    decreases |a|
  {
    hide Receive, Handle, Invariant, Harmless;
    if a == [] then true
    else
      ReceiveMakesProgress(l, s, a);
      var r := Receive(l, s, a);
      HandleKeepsPending(l, h, k, r);
      var k' := if r.rx.Incomplete? then k else k + 1;
      Harmless(l, s, a, b) && (r.rx.Invalid? || TakesAll(r) || RunHarmless(l, h, k', Handle(h, k, r.rx, r.s), r.rest, b))
  }

  /** A call that goes on with the next buffer. */
  predicate TakesAll(r: Received) { r.rx.Incomplete? && r.rest == [] && !r.s.chunk.valid }

  predicate Refuses(events: seq<Event>) { events != [] && events[|events| - 1].rx.Invalid? }

  /** Behind a report the receiver is not in the middle of headers or trailers. */
  lemma StartsWellBehindReport(l: Limits, h: Handler, k: nat, s: Receiver, a: string, more: string)
    requires Invariant(l, s)
    requires var r := Receive(l, s, a); !r.rx.Invalid? && !TakesAll(r)
    ensures var r := Receive(l, s, a); ReceiverStartsWell(Handle(h, k, r.rx, r.s), more)
  {
    hide Receive, Invariant, IsSettled, Handle, ReceiverStartsWell;
    ReportIsSettled(l, s, a);
    var r := Receive(l, s, a);
    SettledStartsWell(h, k, r.rx, r.s, more);
  }

  lemma SettledStartsWell(h: Handler, k: nat, rx: Rx, s: Receiver, more: string)
    requires IsSettled(s) && !rx.Invalid?
    ensures ReceiverStartsWell(Handle(h, k, rx, s), more)
  {
    hide Headers.IsChunked;
  }

  predicate IsSettled(s: Receiver) { s.request.valid && (s.chunk.valid || s.chunk == Chunks.FRESH) }

  lemma ReadBodyReports(s: Receiver, length: nat, inp: string)
    requires |s.body| <= length
    ensures var r := ReadBody(s, length, inp);
            && r.s.chunk == s.chunk && r.s.request.valid == s.request.valid && (r.rx.Incomplete? ==> r.rest == [])
  {
  }

  lemma SizedReports(l: Limits, s: Receiver, a: string)
    requires Invariant(l, s) && s.request.valid && !s.request.IsChunked()
    ensures var r := ReceiveSized(l, s, a); r.rx.Invalid? || TakesAll(r) || IsSettled(r.s)
  {
    hide ReadBody, Headers.IsChunked, Headers.ContentLength, Headers.Find, RequestInvariant;
    var length := s.request.ContentLength();
    if 0 <= length <= l.maxContent {
      ReadBodyReports(s, length, a);
      ReadBodyReports(s.(code := MethodNotAllowed), length, a);
    }
  }

  lemma ChunkReports(l: Limits, s: Receiver, a: string)
    requires Invariant(l, s) && s.request.valid && s.request.IsChunked() && !s.chunk.valid
    ensures var r := ReceiveChunk(l, s, a); r.rx.Invalid? || TakesAll(r) || IsSettled(r.s)
  {
    hide Chunks.Parse, Headers.IsChunked;
  }

  lemma BodyReports(l: Limits, s: Receiver, a: string, parsed: bool)
    requires Invariant(l, s) && s.request.valid && (parsed ==> s.chunk == Chunks.FRESH)
    ensures var r := ReceiveBody(l, s, a, parsed); r.rx.Invalid? || TakesAll(r) || IsSettled(r.s)
  {
    hide ReceiveSized, ReceiveChunk, Headers.IsChunked, TakesAll;
    if !s.request.IsChunked() {
      SizedReports(l, s, a);
    } else {
      var s' := if s.chunk.valid then s.(chunk := Chunks.FRESH) else s;
      ChunkKeepsInvariant(l, s', a);
      ChunkReports(l, s', a);
    }
  }

  lemma ReportIsSettled(l: Limits, s: Receiver, a: string)
    requires Invariant(l, s)
    requires var r := Receive(l, s, a); !r.rx.Invalid? && !TakesAll(r)
    ensures IsSettled(Receive(l, s, a).s)
  {
    hide ReceiveBody, ParseRequest, IsSettled;
    if s.request.valid {
      BodyReports(l, s, a, false);
    } else {
      var p := ParseRequest(l, s.request, a);
      if p.out.Done? {
        BodyReports(l, s.(request := p.s), p.rest, true);
      }
    }
  }

  /**
    Main result for the loop, on every input: the loop over two buffers that are cut at a
    place that does not matter is the loop over the whole, which ends with a refusal in
    the first.
   */
  lemma {:induction false} RunInTwo(l: Limits, h: Handler, k: nat, s: Receiver, a: string, b: string)
    requires Pending(l, s) && b != [] && ReceiverStartsWell(s, a) && RunHarmless(l, h, k, s, a, b)
    ensures var ra := Run(l, h, k, s, a);
            var rb := Run(l, h, k + |ra.events|, ra.s, b);
            Run(l, h, k, s, a + b) == if Refuses(ra.events) then ra else Ran(ra.events + rb.events, rb.s)
    decreases |a|
  {
    hide Receive, Handle, Invariant, Harmless, ReceiverStartsWell;
    var rab := Run(l, h, k, s, a + b);
    var ra := Run(l, h, k, s, a);
    if a == [] {
      assert a + b == b && [] + rab.events == rab.events;
    } else {
      FirstCall(l, h, k, s, a);
      FirstCall(l, h, k, s, a + b);
      var p := Receive(l, s, a);
      ReceiveInTwo(l, s, a, b);
      if TakesAll(p) {
        FirstCall(l, h, k, p.s, b);
        assert [] + rab.events == rab.events;
      } else if !p.rx.Invalid? {
        var s' := Handle(h, k, p.rx, p.s);
        StartsWellBehindReport(l, h, k, s, a, p.rest);
        RunInTwo(l, h, if p.rx.Incomplete? then k else k + 1, s', p.rest, b);
      }
    }
  }

  // ---------------------------------------------------------------------------------
  // Any number of buffers
  // ---------------------------------------------------------------------------------

  /** The events up to and including the first refusal. */
  function UpToRefusal(events: seq<Event>): seq<Event> {
    if events == [] then []
    else if events[0].rx.Invalid? then [events[0]]
    else [events[0]] + UpToRefusal(events[1..])
  }

  predicate OnlyTheLastRefuses(events: seq<Event>) {
    forall i :: 0 <= i < |events| - 1 ==> !events[i].rx.Invalid?
  }

  lemma {:induction false} UpToRefusalOfBoth(a: seq<Event>, b: seq<Event>)
    requires OnlyTheLastRefuses(a)
    ensures UpToRefusal(a + b) == if Refuses(a) then a else a + UpToRefusal(b)
  {
    if a == [] {
      assert a + b == b;
    } else {
      assert (a + b)[1..] == a[1..] + b;
      UpToRefusalOfBoth(a[1..], b);
      assert a == [a[0]] + a[1..];
    }
  }

  /** The loop over one buffer ends with its first refusal. */
  lemma {:induction false} RefusalIsLast(l: Limits, h: Handler, k: nat, s: Receiver, inp: string)
    requires Pending(l, s)
    ensures OnlyTheLastRefuses(Run(l, h, k, s, inp).events)
    decreases |inp|
  {
    hide Receive, Handle, Invariant;
    if inp != [] {
      FirstCall(l, h, k, s, inp);
      var r := Receive(l, s, inp);
      if !r.rx.Invalid? {
        RefusalIsLast(l, h, if r.rx.Incomplete? then k else k + 1, Handle(h, k, r.rx, r.s), r.rest);
      }
    }
  }

  lemma HarmlessLooksAtOneByte(l: Limits, s: Receiver, a: string, b: string, c: string)
    requires Invariant(l, s) && b != [] && c != [] && b[0] == c[0]
    ensures Harmless(l, s, a, b) == Harmless(l, s, a, c)
  {
    hide RL.Parse, Headers.Parse, Chunks.ParseHeader, Receive, ReceiveBody, ParseRequest, Headers.IsChunked;
  }

  lemma {:induction false} RunHarmlessLooksAtOneByte(l: Limits, h: Handler, k: nat, s: Receiver, a: string, b: string, c: string)
    requires Pending(l, s) && b != [] && c != [] && b[0] == c[0]
    ensures RunHarmless(l, h, k, s, a, b) == RunHarmless(l, h, k, s, a, c)
    decreases |a|
  {
    hide Receive, Handle, Invariant, Harmless;
    if a != [] {
      HarmlessLooksAtOneByte(l, s, a, b, c);
      ReceiveMakesProgress(l, s, a);
      var r := Receive(l, s, a);
      HandleKeepsPending(l, h, k, r);
      if !r.rx.Invalid? && !TakesAll(r) {
        RunHarmlessLooksAtOneByte(l, h, if r.rx.Incomplete? then k else k + 1, Handle(h, k, r.rx, r.s), r.rest, b, c);
      }
    }
  }

  /** Whether no cut in front of a refusal is at a place that matters. */
  predicate HarmlessCuts(l: Limits, h: Handler, k: nat, s: Receiver, buffers: seq<string>)
    requires Pending(l, s) && forall i :: 0 <= i < |buffers| ==> buffers[i] != []
    decreases |buffers|
  {
    |buffers| > 1 ==>
      var first := Run(l, h, k, s, buffers[0]);
      && RunHarmless(l, h, k, s, buffers[0], buffers[1])
      && (Refuses(first.events) ||
          (ReceiverStartsWell(first.s, buffers[1]) && HarmlessCuts(l, h, k + |first.events|, first.s, buffers[1..])))
  }

  /**
    Main result: every stream gives, up to its first refusal, the same reports for every
    partition into non-empty buffers that avoids the places that matter; and the same
    receiver behind it, if it is not refused.
   */
  lemma {:induction false} EveryPartitionUpToRefusal(l: Limits, h: Handler, k: nat, s: Receiver, buffers: seq<string>)
    requires Pending(l, s) && forall i :: 0 <= i < |buffers| ==> buffers[i] != []
    requires (buffers != [] ==> ReceiverStartsWell(s, buffers[0])) && HarmlessCuts(l, h, k, s, buffers)
    ensures var w := Run(l, h, k, s, Flatten(buffers));
            var r := RunAll(l, h, k, s, buffers);
            && w.events == UpToRefusal(r.events)
            && (Refuses(w.events) || r == w)
    decreases |buffers|
  {
    hide Run, Pending, ReceiverStartsWell, RunHarmless;
    if buffers == [] {
      NothingToRun(l, h, k, s);
    } else {
      var first := Run(l, h, k, s, buffers[0]);
      var rest := Flatten(buffers[1..]);
      var others := RunAll(l, h, k + |first.events|, first.s, buffers[1..]);
      RefusalIsLast(l, h, k, s, buffers[0]);
      UpToRefusalOfBoth(first.events, others.events);
      if |buffers| == 1 {
        assert rest == "" && buffers[0] + "" == buffers[0] && others.events == [];
        assert first.events + [] == first.events && UpToRefusal([]) == [];
      } else {
        assert buffers[1..][0] == buffers[1];
        FlattenNonempty(buffers[1..]);
        RunHarmlessLooksAtOneByte(l, h, k, s, buffers[0], buffers[1], rest);
        RunInTwo(l, h, k, s, buffers[0], rest);
        if !Refuses(first.events) {
          EveryPartitionUpToRefusal(l, h, k + |first.events|, first.s, buffers[1..]);
          LastOfBoth(first.events, Run(l, h, k + |first.events|, first.s, rest).events);
        }
      }
    }
  }

  lemma LastOfBoth(a: seq<Event>, b: seq<Event>)
    ensures Refuses(b) ==> Refuses(a + b)
  {
  }
}
