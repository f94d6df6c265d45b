/** The receive loop of http_server.hpp and what it reports, as values. */
module Server {
  import opened Parsing
  import opened Requests
  import RequestCuts

  /**
    What an application's handler did to the receiver: sending a final response clears
    it, sending a 100 Continue response marks that.
   */
  datatype Reaction = Reaction(clears: bool, marksContinue: bool)

  /** Any handler: its reaction to the k-th report, of kind `rx`, with the receiver as seen. */
  type Handler = (nat, Rx, Receiver) -> Reaction

  /** A report to the application: its kind and the receiver it can look at. */
  datatype Event = Event(rx: Rx, seen: Receiver)

  function React(s: Receiver, r: Reaction): Receiver {
    var s := if r.clears then Clear(s) else s;
    if r.marksContinue then s.(continueSent := true) else s
  }

  /** The body of the switch: the state of the receiver behind it. */
  function Handle(h: Handler, k: nat, rx: Rx, s: Receiver): Receiver {
    match rx
    case Incomplete => s
    case Invalid => Clear(s)
    case ExpectContinue => React(s, h(k, rx, s))
    case ChunkReceived =>
      var s := React(s, h(k, rx, s));
      if s.chunk.IsLast() then Clear(s) else s
    case Valid =>
      if s.request.IsTrace() then Clear(s)
      else
        var s := React(s, h(k, rx, s));
        if s.request.IsChunked() then s else Clear(s)
  }

  lemma HandleKeepsPending(l: Limits, h: Handler, k: nat, r: Received)
    requires Outcomes(l, r)
    ensures Pending(l, Handle(h, k, r.rx, r.s))
  {
    hide Invariant;
    ClearKeepsInvariant(l, r.s);
    MarkKeepsPending(l, r.s);
    MarkKeepsPending(l, Clear(r.s));
    ClearKeepsInvariant(l, React(r.s, h(k, r.rx, r.s)));
  }

  lemma MarkKeepsPending(l: Limits, s: Receiver)
    ensures Pending(l, s) ==> Pending(l, s.(continueSent := true))
  {
  }

  /** The reports made for a buffer and the state of the receiver afterwards. */
  datatype Ran = Ran(events: seq<Event>, s: Receiver)

  /** The loop over one buffer, of which nothing is read after a refusal. */
  function Run(l: Limits, h: Handler, k: nat, s: Receiver, inp: string): (r: Ran)
    requires Pending(l, s)
    ensures Pending(l, r.s)
    decreases |inp|
  {
    hide Receive, Handle, Invariant;
    if inp == [] then Ran([], s)
    else
      ReceiveMakesProgress(l, s, inp);
      var r := Receive(l, s, inp);
      HandleKeepsPending(l, h, k, r);
      var s' := Handle(h, k, r.rx, r.s);
      if r.rx.Invalid? then Ran([Event(r.rx, r.s)], s')
      else if r.rx.Incomplete? then Run(l, h, k, s', r.rest)
      else
        var t := Run(l, h, k + 1, s', r.rest);
        Ran([Event(r.rx, r.s)] + t.events, t.s)
  }

  /** Each report costs at least one byte, whatever arrives and whatever the handlers do. */
  lemma {:induction false} ReportsAreBounded(l: Limits, h: Handler, k: nat, s: Receiver, inp: string)
    requires Pending(l, s)
    ensures |Run(l, h, k, s, inp).events| <= |inp|
    decreases |inp|
  {
    hide Receive, Handle, Invariant;
    if inp != [] {
      ReceiveMakesProgress(l, s, inp);
      var r := Receive(l, s, inp);
      HandleKeepsPending(l, h, k, r);
      if !r.rx.Invalid? {
        ReportsAreBounded(l, h, if r.rx.Incomplete? then k else k + 1, Handle(h, k, r.rx, r.s), r.rest);
      }
    }
  }

  // ---------------------------------------------------------------------------------
  // Cutting a stream into buffers
  // ---------------------------------------------------------------------------------

  predicate Accepted(events: seq<Event>) {
    forall e :: e in events ==> !e.rx.Invalid?
  }

  /** The loop up to the end of the first call. */
  lemma FirstCall(l: Limits, h: Handler, k: nat, s: Receiver, inp: string)
    requires Pending(l, s) && inp != []
    ensures var r := Receive(l, s, inp);
            var s' := Handle(h, k, r.rx, r.s);
            && Pending(l, s')
            && (r.rx.Invalid? || |r.rest| < |inp|)
            && (r.rx.Incomplete? ==> s' == r.s)
            && Run(l, h, k, s, inp) ==
               if r.rx.Invalid? then Ran([Event(r.rx, r.s)], s')
               else if r.rx.Incomplete? then Run(l, h, k, s', r.rest)
               else var t := Run(l, h, k + 1, s', r.rest); Ran([Event(r.rx, r.s)] + t.events, t.s)
  {
    hide Receive, Invariant;
    ReceiveMakesProgress(l, s, inp);
    HandleKeepsPending(l, h, k, Receive(l, s, inp));
  }

  /** The loop over a buffer, as the loop over its first part and then its second. */
  lemma {:induction false} RunCut(l: Limits, h: Handler, k: nat, s: Receiver, a: string, b: string)
    requires Pending(l, s) && b != []
    requires Accepted(Run(l, h, k, s, a + b).events)
    requires RequestCuts.GoodCut(l, Run(l, h, k, s, a).s, b)
    ensures var ra := Run(l, h, k, s, a);
            var rb := Run(l, h, k + |ra.events|, ra.s, b);
            Run(l, h, k, s, a + b) == Ran(ra.events + rb.events, rb.s)
    decreases |a|
  {
    hide Receive, Handle, Invariant, RequestCuts.GoodCut;
    var rab := Run(l, h, k, s, a + b);
    var ra := Run(l, h, k, s, a);
    if a == [] {
      assert a + b == b;
      assert [] + rab.events == rab.events;
    } else {
      FirstCall(l, h, k, s, a);
      FirstCall(l, h, k, s, a + b);
      var p := Receive(l, s, a);
      var w := Receive(l, s, a + b);
      assert w.rx.Invalid? ==> Event(w.rx, w.s) in rab.events;
      assert p.rx.Incomplete? && p.rest == [] ==> ra.s == p.s && ra.events == [];
      RequestCuts.ReceiveCut(l, s, a, b);
      if p.rx.Incomplete? && p.rest == [] && !p.s.chunk.valid {
        FirstCall(l, h, k, p.s, b);
        assert [] + rab.events == rab.events;
      } else {
        var k' := if p.rx.Incomplete? then k else k + 1;
        RunCut(l, h, k', Handle(h, k, p.rx, p.s), p.rest, b);
      }
    }
  }
}
