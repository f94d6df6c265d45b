/**
  Which event every call and completion of a connection raises, and what it does to the
  flags, for every state; and how often DISCONNECTED is raised over a run.
 */
module ConnectionEvents {
  import opened Connections

  /** Whether an error tells a connection over SSL that the other side is shutting down. */
  predicate IsSslShutdown(s: State, e: Error) {
    !s.isTcp && e.Failed? && e.isSsl && e.isSslShutdown
  }

  /** Whether an error means that the other side has gone. */
  predicate IsGone(s: State, e: Error) {
    e.Failed? && (e.isDisconnect || (!s.isTcp && e.isSsl))
  }

  /** The event of a failed read or write. */
  function FailureEvents(s: State, e: Error): seq<Event> {
    if IsSslShutdown(s, e) && !s.shutdownSent then []
    else if IsGone(s, e) then [Disconnected]
    else [ErrorRaised]
  }

  /** Whether an action asks the socket adaptor for a shutdown. */
  predicate AsksShutdown(s: State, a: Action) {
    match a
    case CallShutdown => true
    case CallDisconnect => !s.transmitting
    case ReadFailed(e) => IsSslShutdown(s, e) && !s.shutdownSent
    case WriteDone(e) => !s.shutdownSent && (IsSslShutdown(s, e) || (e == NoError && s.disconnectPending))
    case _ => false
  }

  /** The events of an action; TCP reports a shutdown at once. */
  function Raises(s: State, a: Action): seq<Event> {
    match a
    case Handshaken => [Connected]
    case ReadFailed(e) => FailureEvents(s, e)
    case ShutdownDone(e) => if e == Aborted then [] else [Disconnected]
    case WriteDone(e) =>
      if e == Aborted then []
      else if s.shutdownSent then [Disconnected]
      else if e != NoError then FailureEvents(s, e)
      else if !s.disconnectPending then [Sent]
      else if s.isTcp then [Disconnected]
      else []
    case _ => if AsksShutdown(s, a) && s.isTcp then [Disconnected] else []
  }

  /** The flag for a write in progress after an action. */
  predicate Transmits(s: State, a: Action) {
    match a
    case SendData(_) => s.transmitting || s.connected
    case WriteDone(e) => s.transmitting && (e != NoError || s.shutdownSent || s.disconnectPending)
    case _ => s.transmitting
  }

  lemma ShutDownRaises(s: State)
    ensures var s' := ShutDown(s);
            s' == s.(shutdownSent := true, raised := s.raised + (if s.isTcp then [Disconnected] else []),
                     shutdowns := if s.isTcp then s.shutdowns else s.shutdowns + 1)
  {
    assert s.raised + [] == s.raised;
  }

  lemma SignalRaises(s: State, e: Error)
    requires e.Failed?
    ensures var s' := Signal(s, e);
            var asks := IsSslShutdown(s, e) && !s.shutdownSent;
            s' == s.(shutdownSent := s.shutdownSent || asks, raised := s.raised + FailureEvents(s, e),
                     shutdowns := if asks then s.shutdowns + 1 else s.shutdowns)
  {
    ShutDownRaises(s);
    assert s.raised + [] == s.raised;
  }

  /** The callback of a write or a shutdown. */
  lemma CompletedRaises(s: State, e: Error)
    ensures var s' := Completed(s, e);
            var asks := !s.shutdownSent && (IsSslShutdown(s, e) || (e == NoError && s.disconnectPending));
            s' == s.(shutdownSent := s.shutdownSent || asks,
                     transmitting := s.transmitting && (e != NoError || s.shutdownSent || s.disconnectPending),
                     raised := s.raised + (if e == Aborted then []
                                           else if s.shutdownSent then [Disconnected]
                                           else if e != NoError then FailureEvents(s, e)
                                           else if !s.disconnectPending then [Sent]
                                           else if s.isTcp then [Disconnected]
                                           else []),
                     shutdowns := if asks && !s.isTcp then s.shutdowns + 1 else s.shutdowns)
  {
    assert s.raised + [] == s.raised;
    ShutDownRaises(s);
    if e.Failed? {
      SignalRaises(s, e);
    }
    hide ShutDown, Signal;
  }

  /** The state behind an action. */
  ghost predicate IsExactly(s: State, a: Action, s': State) {
    && s'.raised == s.raised + Raises(s, a)
    && s'.shutdownSent == (s.shutdownSent || AsksShutdown(s, a))
    && s'.shutdowns + One(a.ShutdownDone?) == s.shutdowns + One(AsksShutdown(s, a) && !s.isTcp)
    && s'.disconnectPending == (s.disconnectPending || (a == CallDisconnect && s.transmitting))
    && s'.connected == (if a.SetConnected? then a.enable else s.connected || a.Handshaken?)
    && s'.transmitting == Transmits(s, a)
    && s'.isTcp == s.isTcp
    && KeepsMessages(s, a, s')
  }

  /** Where the messages are behind an action: a send takes the transmit buffers, also if it is not accepted. */
  ghost predicate KeepsMessages(s: State, a: Action, s': State) {
    var takes := a.SendData? && !s.transmitting;
    && s'.txBuffers == (if takes then a.buffers else s.txBuffers)
    && s'.accepted == (if takes && s.connected then s.accepted + [a.buffers] else s.accepted)
    && s'.writing == (if takes && s.connected then s.writing + [a.buffers]
                      else if a.WriteDone? && s.writing != [] then s.writing[1..]
                      else s.writing)
    && s'.written == (if a == WriteDone(NoError) && s.writing != [] then s.written + [s.writing[0]] else s.written)
    && s'.lost == (if a.WriteDone? && a.error != NoError && s.writing != [] then s.lost + [s.writing[0]] else s.lost)
  }

  lemma WriteDoneExactly(s: State, e: Error)
    requires s.writing != []
    ensures IsExactly(s, WriteDone(e), Act(s, WriteDone(e)))
  {
    CompletedRaises(EndWrite(s, e), e);
    EndWriteFlags(s, e);
    hide Completed, EndWrite, FailureEvents, IsSslShutdown;
  }

  lemma ShutdownDoneExactly(s: State, e: Error)
    requires s.shutdowns > 0 && s.shutdownSent
    ensures IsExactly(s, ShutdownDone(e), Act(s, ShutdownDone(e)))
  {
    CompletedRaises(s.(shutdowns := s.shutdowns - 1), e);
    hide Completed, FailureEvents, IsSslShutdown;
  }

  lemma ReadFailedExactly(s: State, e: Error)
    requires e.Failed?
    ensures IsExactly(s, ReadFailed(e), Act(s, ReadFailed(e)))
  {
    SignalRaises(s, e);
    hide Signal, FailureEvents;
  }

  lemma CallExactly(s: State, a: Action)
    requires a.SendData? || a.CallDisconnect? || a.CallShutdown? || a.SetConnected? || a.Handshaken?
    ensures IsExactly(s, a, Act(s, a))
  {
    ShutDownRaises(s);
    assert s.raised + [] == s.raised;
    hide ShutDown;
  }

  /**
    Main result for one action, from any state between actions: the events it raises,
    the flags behind it, and the shutdowns that the adaptor has yet to call back for.
   */
  lemma ActRaisesExactly(s: State, a: Action)
    requires CanHappen(s, a) && (s.shutdowns > 0 ==> s.shutdownSent)
    ensures IsExactly(s, a, Act(s, a))
  {
    hide IsExactly, Act;
    match a
    case WriteDone(e) => WriteDoneExactly(s, e);
    case ShutdownDone(e) => ShutdownDoneExactly(s, e);
    case ReadFailed(e) => ReadFailedExactly(s, e);
    case _ => CallExactly(s, a);
  }

  // ---------------------------------------------------------------------------------
  // Runs
  // ---------------------------------------------------------------------------------

  function Count(e: Event, raised: seq<Event>): nat {
    if raised == [] then 0 else Count(e, raised[..|raised| - 1]) + One(raised[|raised| - 1] == e)
  }

  lemma {:induction false} CountOfBoth(e: Event, a: seq<Event>, b: seq<Event>)
    ensures Count(e, a + b) == Count(e, a) + Count(e, b)
    decreases |b|
  {
    if b == [] {
      assert a + b == a;
    } else {
      assert (a + b)[..|a + b| - 1] == a + b[..|b| - 1];
      CountOfBoth(e, a, b[..|b| - 1]);
    }
  }

  /** The shutdowns that a run asks for. */
  function Asked(s: State, actions: seq<Action>): nat
    requires Possible(s, actions)
    decreases |actions|
  {
    if actions == [] then 0 else One(AsksShutdown(s, actions[0])) + Asked(Act(s, actions[0]), actions[1..])
  }

  /** The callbacks of shutdowns that were aborted. */
  function AbortedShutdowns(actions: seq<Action>): nat {
    if actions == [] then 0 else One(actions[0] == ShutdownDone(Aborted)) + AbortedShutdowns(actions[1..])
  }

  /** Whether a read or a write that ends tells that the other side has gone. */
  predicate TellsGone(s: State, a: Action) {
    match a
    case ReadFailed(e) => IsGone(s, e) && !AsksShutdown(s, a)
    case WriteDone(e) => e != Aborted && !AsksShutdown(s, a) && (s.shutdownSent || IsGone(s, e))
    case _ => false
  }

  function Told(s: State, actions: seq<Action>): nat
    requires Possible(s, actions)
    decreases |actions|
  {
    if actions == [] then 0 else One(TellsGone(s, actions[0])) + Told(Act(s, actions[0]), actions[1..])
  }

  lemma OneAction(s: State, a: Action)
    requires CanHappen(s, a) && (s.shutdowns > 0 ==> s.shutdownSent)
    ensures var s' := Act(s, a);
            && Count(Disconnected, s'.raised) + s'.shutdowns + One(a == ShutdownDone(Aborted))
               == Count(Disconnected, s.raised) + s.shutdowns + One(AsksShutdown(s, a)) + One(TellsGone(s, a))
            && (s'.shutdowns > 0 ==> s'.shutdownSent)
  {
    ActRaisesExactly(s, a);
    CountOfBoth(Disconnected, s.raised, Raises(s, a));
    SmallCounts();
    hide Act;
  }

  lemma SmallCounts()
    ensures Count(Disconnected, []) == 0
    ensures forall e: Event :: Count(Disconnected, [e]) == One(e == Disconnected)
  {
    forall e: Event
      ensures Count(Disconnected, [e]) == One(e == Disconnected)
    {
      assert [e][..0] == [];
    }
  }

  /**
    Main result over runs: DISCONNECTED is raised once for each shutdown asked for that
    has been called back and not aborted, and once for each read or write that tells that
    the other side has gone.
   */
  lemma {:induction false} DisconnectsAreCounted(s: State, actions: seq<Action>)
    requires Possible(s, actions) && (s.shutdowns > 0 ==> s.shutdownSent)
    ensures var s' := After(s, actions);
            Count(Disconnected, s'.raised) + s'.shutdowns + AbortedShutdowns(actions)
            == Count(Disconnected, s.raised) + s.shutdowns + Asked(s, actions) + Told(s, actions)
    decreases |actions|
  {
    if actions != [] {
      OneAction(s, actions[0]);
      hide Act, AsksShutdown, TellsGone, Count;
      DisconnectsAreCounted(Act(s, actions[0]), actions[1..]);
    }
  }

  /** A connection over TCP that a peer closes: the pending read fails with eof. */
  lemma PeerCloses()
    ensures var actions := [Handshaken, ReadFailed(Failed(true, false, false))];
            Possible(NewState(true), actions) && After(NewState(true), actions).raised == [Connected, Disconnected]
  {
    var actions := [Handshaken, ReadFailed(Failed(true, false, false))];
    var s := Act(NewState(true), Handshaken);
    assert actions[1..] == [ReadFailed(Failed(true, false, false))] && actions[1..][1..] == [];
    ActRaisesExactly(NewState(true), Handshaken);
    ActRaisesExactly(s, actions[1]);
    assert After(s, actions[1..]) == Act(s, actions[1]);
  }
}
