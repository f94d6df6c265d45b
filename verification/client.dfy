/** The receive loop of http_client.hpp and what it reports, as values. */
module Client {
  import opened Parsing
  import opened Responses

  /** A report to the application: its kind and the receiver it can look at. */
  datatype Event = Event(rx: Rx, seen: Receiver)

  /**
    Any handler: whether it sends a request when given the k-th report, of kind `rx`, with
    the receiver as seen. Sending clears the receiver.
   */
  type Handler = (nat, Rx, Receiver) -> bool

  function React(s: Receiver, sends: bool): Receiver {
    if sends then FRESH else s
  }

  /** The body of the switch: the state of the receiver behind it. */
  function Handle(h: Handler, k: nat, rx: Rx, s: Receiver): Receiver {
    match rx
    case Valid =>
      var s := React(s, h(k, rx, s));
      if s.response.IsChunked() then s else FRESH
    case ChunkReceived =>
      var s := React(s, h(k, rx, s));
      if s.chunk.IsLast() then FRESH else s
    case Invalid => FRESH
    case _ => s
  }

  /** The reports made for a buffer, the receiver afterwards, and whether the loop never ends. */
  datatype Ran = Ran(events: seq<Event>, s: Receiver, diverges: bool)

  lemma HandleKeepsPending(l: Limits, h: Handler, k: nat, r: Received)
    requires Outcomes(l, r)
    ensures Pending(l, Handle(h, k, r.rx, r.s))
  {
    hide Invariant;
    FreshIsPending(l);
  }

  /** The loop over one buffer; a call that changes nothing is repeated forever. */
  function Run(l: Limits, h: Handler, k: nat, s: Receiver, inp: string): (r: Ran)
    requires Pending(l, s)
    ensures Pending(l, r.s)
    decreases |inp|
  {
    hide Receive, Handle, Invariant;
    if inp == [] then Ran([], s, false)
    else
      ReceiveMakesProgress(l, s, inp);
      var r := Receive(l, s, inp);
      HandleKeepsPending(l, h, k, r);
      var s' := Handle(h, k, r.rx, r.s);
      if r.rx.Invalid? then Ran([Event(r.rx, r.s)], s', false)
      else if r == Received(s, inp, Incomplete) then Ran([], s, true)
      else
        var t := Run(l, h, if r.rx.Incomplete? then k else k + 1, s', r.rest);
        if r.rx.Incomplete? then t else t.(events := [Event(r.rx, r.s)] + t.events)
  }

  /** The loop up to the end of the first call. */
  lemma FirstCall(l: Limits, h: Handler, k: nat, s: Receiver, inp: string)
    requires Pending(l, s) && inp != [] && !IsStuck(l, s)
    ensures var r := Receive(l, s, inp);
            var s' := Handle(h, k, r.rx, r.s);
            && Pending(l, s')
            && (r.rx.Invalid? || |r.rest| < |inp|)
            && (r.rx.Incomplete? ==> s' == r.s)
            && Run(l, h, k, s, inp) ==
               if r.rx.Invalid? then Ran([Event(r.rx, r.s)], s', false)
               else if r.rx.Incomplete? then Run(l, h, k, s', r.rest)
               else var t := Run(l, h, k + 1, s', r.rest); t.(events := [Event(r.rx, r.s)] + t.events)
  {
    hide Receive, Invariant;
    ReceiveMakesProgress(l, s, inp);
    HandleKeepsPending(l, h, k, Receive(l, s, inp));
  }

  /** A loop that does not end. */
  lemma StuckRun(l: Limits, h: Handler, k: nat, s: Receiver, inp: string)
    requires Pending(l, s) && IsStuck(l, s) && inp != []
    ensures Run(l, h, k, s, inp) == Ran([], s, true)
  {
    hide Receive, Invariant, IsStuck;
    ReceiveMakesProgress(l, s, inp);
  }

  /**
    The loop ends unless it comes to a body without an announced length that has reached
    the largest size allowed; from there it does not.
   */
  lemma {:induction false} DivergesOnlyWhenStuck(l: Limits, h: Handler, k: nat, s: Receiver, inp: string)
    requires Pending(l, s)
    ensures var r := Run(l, h, k, s, inp);
            && (r.diverges ==> IsStuck(l, r.s))
            && (IsStuck(l, s) && inp != [] ==> r.diverges && r.events == [])
    decreases |inp|
  {
    hide Receive, Handle, Invariant;
    if inp != [] {
      ReceiveMakesProgress(l, s, inp);
      var r := Receive(l, s, inp);
      HandleKeepsPending(l, h, k, r);
      if !r.rx.Invalid? && r != Received(s, inp, Incomplete) {
        DivergesOnlyWhenStuck(l, h, if r.rx.Incomplete? then k else k + 1, Handle(h, k, r.rx, r.s), r.rest);
      }
    }
  }
}
