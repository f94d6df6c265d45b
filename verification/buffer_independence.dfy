/** A stream of requests is read the same however it is cut into buffers. */
module BufferIndependence {
  import opened Parsing
  import opened Requests
  import opened Server
  import RequestCuts

  function Flatten(buffers: seq<string>): string {
    if buffers == [] then "" else buffers[0] + Flatten(buffers[1..])
  }

  /** The loop over each of the buffers that arrive on a connection, in turn. */
  function RunAll(l: Limits, h: Handler, k: nat, s: Receiver, buffers: seq<string>): (r: Ran)
    requires Pending(l, s)
    ensures Pending(l, r.s)
    decreases |buffers|
  {
    if buffers == [] then Ran([], s)
    else
      var first := Run(l, h, k, s, buffers[0]);
      var others := RunAll(l, h, k + |first.events|, first.s, buffers[1..]);
      Ran(first.events + others.events, others.s)
  }

  /** Whether no buffer ends in a bad place. */
  predicate GoodCuts(l: Limits, h: Handler, k: nat, s: Receiver, buffers: seq<string>)
    requires Pending(l, s)
    decreases |buffers|
  {
    |buffers| > 1 ==>
      var first := Run(l, h, k, s, buffers[0]);
      && RequestCuts.GoodCut(l, first.s, buffers[1])
      && GoodCuts(l, h, k + |first.events|, first.s, buffers[1..])
  }

  lemma FlattenNonempty(buffers: seq<string>)
    requires |buffers| > 0 && buffers[0] != []
    ensures Flatten(buffers) != [] && Flatten(buffers)[0] == buffers[0][0]
  {
  }

  /**
    Main result: a stream that is accepted when it arrives in one buffer gives the same
    reports, with the same receiver to look at in each, and leaves the same receiver
    behind, for every partition into non-empty buffers that avoids the bad places.
   */
  lemma {:induction false} EveryPartitionReportsTheSame(l: Limits, h: Handler, k: nat, s: Receiver, buffers: seq<string>)
    requires Pending(l, s)
    requires forall i :: 0 <= i < |buffers| ==> buffers[i] != []
    requires GoodCuts(l, h, k, s, buffers)
    requires Accepted(Run(l, h, k, s, Flatten(buffers)).events)
    ensures RunAll(l, h, k, s, buffers) == Run(l, h, k, s, Flatten(buffers))
    decreases |buffers|
  {
    hide Run, Pending, RequestCuts.GoodCut;
    if buffers == [] {
      NothingToRun(l, h, k, s);
    } else if |buffers| == 1 {
      assert Flatten(buffers[1..]) == "";
      assert Flatten(buffers) == buffers[0];
      var first := Run(l, h, k, s, buffers[0]);
      assert RunAll(l, h, k + |first.events|, first.s, buffers[1..]) == Ran([], first.s);
      assert first.events + [] == first.events;
    } else {
      var rest := Flatten(buffers[1..]);
      assert buffers[1..][0] == buffers[1];
      FlattenNonempty(buffers[1..]);
      var first := Run(l, h, k, s, buffers[0]);
      GoodCutLooksAtOneByte(l, first.s, buffers[1], rest);
      RunCut(l, h, k, s, buffers[0], rest);
      var others := Run(l, h, k + |first.events|, first.s, rest);
      assert forall e :: e in others.events ==> e in (first.events + others.events);
      EveryPartitionReportsTheSame(l, h, k + |first.events|, first.s, buffers[1..]);
    }
  }

  lemma NothingToRun(l: Limits, h: Handler, k: nat, s: Receiver)
    requires Pending(l, s)
    ensures Run(l, h, k, s, "") == Ran([], s)
  {
  }

  lemma GoodCutLooksAtOneByte(l: Limits, s: Receiver, b: string, c: string)
    requires b != [] && c != [] && b[0] == c[0]
    ensures RequestCuts.GoodCut(l, s, b) == RequestCuts.GoodCut(l, s, c)
  {
  }
}
