/** A stream of responses is read the same however it is cut into buffers. */
module ClientBuffers {
  import opened Parsing
  import opened Responses
  import opened Client
  import opened ResponseRoundTrip
  import opened BufferIndependence
  import ResponseCuts

  /** Whether the client may be given `a` and `b` in two buffers. */
  predicate MayCut(l: Limits, ra: Client.Ran, b: string) {
    && ResponseCuts.GoodCut(l, ra.s, b)
    && forall e :: e in ra.events ==> !ResponseCuts.EndsOpen(l, e.rx, e.seen)
  }

  /** One run after another, unless the first never ends. */
  function Then(ra: Client.Ran, rb: Client.Ran): Client.Ran {
    if ra.diverges then ra else rb.(events := ra.events + rb.events)
  }

  lemma NothingLeft(l: Limits, h: Client.Handler, k: nat, s: Receiver)
    requires Pending(l, s)
    ensures Client.Run(l, h, k, s, "") == Client.Ran([], s, false)
  {
  }

  /** Two inputs for which the first call does the same. */
  lemma TakenIn(l: Limits, h: Client.Handler, k: nat, s: Receiver, s': Receiver, inp: string, inp': string)
    requires Pending(l, s) && Pending(l, s') && inp != [] && inp' != [] && !IsStuck(l, s)
    requires Receive(l, s, inp) == Receive(l, s', inp')
    ensures Client.Run(l, h, k, s, inp) == Client.Run(l, h, k, s', inp')
  {
    hide Receive, Handle, Invariant, IsStuck, Client.Run;
    FirstCall(l, h, k, s, inp);
    if IsStuck(l, s') {
      StuckRun(l, h, k, s', inp');
      ReceiveMakesProgress(l, s', inp');
    } else {
      FirstCall(l, h, k, s', inp');
    }
  }

  lemma OneMoreEvent(r: Client.Ran, e: Client.Event, t: Client.Ran, rb: Client.Ran)
    requires r == t.(events := [e] + t.events)
    ensures Then(r, rb) == Then(t, rb).(events := [e] + Then(t, rb).events)
  {
    assert [e] + t.events + rb.events == [e] + (t.events + rb.events);
  }

  /** The loop over a buffer, as the loop over its first part and then its second. */
  lemma {:induction false} RunCut(l: Limits, h: Client.Handler, k: nat, s: Receiver, a: string, b: string)
    requires Pending(l, s) && b != []
    requires Accepted(Client.Run(l, h, k, s, a + b).events)
    requires MayCut(l, Client.Run(l, h, k, s, a), b)
    ensures var ra := Client.Run(l, h, k, s, a);
            Client.Run(l, h, k, s, a + b) == Then(ra, Client.Run(l, h, k + |ra.events|, ra.s, b))
    decreases |a|
  {
    hide Receive, Handle, Invariant, IsStuck, ResponseCuts.GoodCut, ResponseCuts.EndsOpen;
    var rab := Client.Run(l, h, k, s, a + b);
    var ra := Client.Run(l, h, k, s, a);
    if a == [] {
      assert a + b == b;
      assert [] + rab.events == rab.events;
    } else if IsStuck(l, s) {
      StuckRun(l, h, k, s, a);
      StuckRun(l, h, k, s, a + b);
    } else {
      RunCutBehindCall(l, h, k, s, a, b);
    }
  }

  lemma {:induction false} RunCutBehindCall(l: Limits, h: Client.Handler, k: nat, s: Receiver, a: string, b: string)
    requires Pending(l, s) && b != [] && a != [] && !IsStuck(l, s)
    requires Accepted(Client.Run(l, h, k, s, a + b).events)
    requires MayCut(l, Client.Run(l, h, k, s, a), b)
    ensures var ra := Client.Run(l, h, k, s, a);
            Client.Run(l, h, k, s, a + b) == Then(ra, Client.Run(l, h, k + |ra.events|, ra.s, b))
    decreases |a|, 0
  {
    hide Receive, Handle, Invariant, IsStuck, ResponseCuts.GoodCut;
    var rab := Client.Run(l, h, k, s, a + b);
    var ra := Client.Run(l, h, k, s, a);
    var p := Receive(l, s, a);
    var w := Receive(l, s, a + b);
    FirstCall(l, h, k, s, a);
    FirstCall(l, h, k, s, a + b);
    hide Client.Run;
    assert w.rx.Invalid? ==> Event(w.rx, w.s) in rab.events;
    assert ResponseCuts.EndsOpen(l, p.rx, p.s) ==> Event(p.rx, p.s) in ra.events;
    if p.rx.Incomplete? {
      NothingLeft(l, h, k, p.s);
    }
    ResponseCuts.ReceiveCut(l, s, a, b);
    var s' := Handle(h, k, p.rx, p.s);
    if p.rx.Incomplete? {
      if p.rest == [] {
        TakenIn(l, h, k, s, p.s, a + b, b);
        assert [] + rab.events == rab.events;
      } else {
        RunCut(l, h, k, s', p.rest, b);
      }
    } else {
      var t := Client.Run(l, h, k + 1, s', p.rest);
      assert forall e :: e in t.events ==> e in ra.events;
      assert forall e :: e in Client.Run(l, h, k + 1, s', p.rest + b).events ==> e in rab.events;
      RunCut(l, h, k + 1, s', p.rest, b);
      OneMoreEvent(ra, Event(p.rx, p.s), t, Client.Run(l, h, k + |ra.events|, ra.s, b));
    }
  }

  // ---------------------------------------------------------------------------------
  // Any number of buffers
  // ---------------------------------------------------------------------------------

  /** The loop over each of the buffers that arrive on a connection, in turn. */
  function RunBuffers(l: Limits, h: Client.Handler, k: nat, s: Receiver, buffers: seq<string>): (r: Client.Ran)
    requires Pending(l, s)
    ensures Pending(l, r.s)
    decreases |buffers|
  {
    if buffers == [] then Client.Ran([], s, false)
    else
      var first := Client.Run(l, h, k, s, buffers[0]);
      Then(first, RunBuffers(l, h, k + |first.events|, first.s, buffers[1..]))
  }

  /** Whether no buffer ends in a bad place. */
  predicate MayCutAll(l: Limits, h: Client.Handler, k: nat, s: Receiver, buffers: seq<string>)
    requires Pending(l, s)
    decreases |buffers|
  {
    |buffers| > 1 ==>
      var first := Client.Run(l, h, k, s, buffers[0]);
      MayCut(l, first, buffers[1]) && MayCutAll(l, h, k + |first.events|, first.s, buffers[1..])
  }

  lemma MayCutLooksAtOneByte(l: Limits, r: Client.Ran, b: string, c: string)
    requires b != [] && c != [] && b[0] == c[0]
    ensures MayCut(l, r, b) == MayCut(l, r, c)
  {
  }

  lemma AcceptedLater(ra: Client.Ran, rb: Client.Ran)
    requires Accepted(Then(ra, rb).events) && !ra.diverges
    ensures Accepted(rb.events)
  {
    assert forall e :: e in rb.events ==> e in (ra.events + rb.events);
  }

  /**
    Main result: a stream of responses that is accepted when it arrives in one buffer
    gives the same reports, leaves the same receiver behind, and ends or not, for every
    partition into non-empty buffers that avoids the bad places.
   */
  lemma {:induction false} EveryPartitionReportsTheSame(l: Limits, h: Client.Handler, k: nat, s: Receiver, buffers: seq<string>)
    requires Pending(l, s)
    requires forall i :: 0 <= i < |buffers| ==> buffers[i] != []
    requires MayCutAll(l, h, k, s, buffers)
    requires Accepted(Client.Run(l, h, k, s, Flatten(buffers)).events)
    ensures RunBuffers(l, h, k, s, buffers) == Client.Run(l, h, k, s, Flatten(buffers))
    decreases |buffers|
  {
    hide Client.Run, Pending, MayCut;
    if buffers == [] {
      NothingLeft(l, h, k, s);
    } else if |buffers| == 1 {
      assert Flatten(buffers[1..]) == "";
      assert Flatten(buffers) == buffers[0];
      var first := Client.Run(l, h, k, s, buffers[0]);
      assert RunBuffers(l, h, k + |first.events|, first.s, buffers[1..]) == Client.Ran([], first.s, false);
      assert first.events + [] == first.events;
    } else {
      var rest := Flatten(buffers[1..]);
      assert buffers[1..][0] == buffers[1];
      FlattenNonempty(buffers[1..]);
      var first := Client.Run(l, h, k, s, buffers[0]);
      MayCutLooksAtOneByte(l, first, buffers[1], rest);
      RunCut(l, h, k, s, buffers[0], rest);
      if !first.diverges {
        AcceptedLater(first, Client.Run(l, h, k + |first.events|, first.s, rest));
        EveryPartitionReportsTheSame(l, h, k + |first.events|, first.s, buffers[1..]);
      }
    }
  }

  /** A list of well-formed responses is reported in order, in buffers without a bad cut. */
  lemma RoundTripInBuffers(l: Limits, h: Client.Handler, k: nat, ms: seq<Message>, buffers: seq<string>)
    requires forall i :: 0 <= i < |ms| ==> ResponseRoundTrip.WellFormed(l, ms[i]) && (ms[i].body.Sized? || SendsAtEnd(h))
    requires Flatten(buffers) == Stream(ms)
    requires forall i :: 0 <= i < |buffers| ==> buffers[i] != []
    requires Pending(l, FRESH) && MayCutAll(l, h, k, FRESH, buffers)
    ensures var r := RunBuffers(l, h, k, FRESH, buffers);
            && !r.diverges && r.s == FRESH && Accepted(r.events)
            && AllSeen(r.events) == AllExpected(ms)
  {
    hide Client.Run, MayCutAll, Invariant, Stream, Flatten, RunBuffers, AllSeen, SendsAtEnd;
    StreamRoundTrip(l, h, k, ms);
    EveryPartitionReportsTheSame(l, h, k, FRESH, buffers);
  }
}
