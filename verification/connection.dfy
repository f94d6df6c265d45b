/**
  The sending side of comms::connection: its flags, the write that it may have outstanding
  with the socket adaptor, and the events that it raises.
 */
module Connections {
  /** The buffers of one message. */
  type Buffers = seq<string>

  /** An asio error: its value may be a socket disconnect, its category may be SSL. */
  datatype Error =
    | NoError
    | Aborted
    | Failed(isDisconnect: bool, isSsl: bool, isSslShutdown: bool)

  datatype Event = Connected | Sent | Disconnected | ErrorRaised

  /**
    A connection, with what has happened to it: the messages accepted by send_data, those
    written, the ones whose write failed, those being written, the number of shutdowns
    that the adaptor has yet to call back for, and the events raised.
   */
  datatype State = State(
    isTcp: bool,
    connected: bool,
    transmitting: bool,
    disconnectPending: bool,
    shutdownSent: bool,
    txBuffers: Buffers,
    accepted: seq<Buffers>,
    written: seq<Buffers>,
    lost: seq<Buffers>,
    writing: seq<Buffers>,
    shutdowns: nat,
    raised: seq<Event>)

  function NewState(isTcp: bool): State {
    State(isTcp, false, false, false, false, [], [], [], [], [], 0, [])
  }

  function Raise(s: State, e: Event): State {
    s.(raised := s.raised + [e])
  }

  /** shutdown: the TCP adaptor calls back at once, the SSL adaptor later. */
  function ShutDown(s: State): State {
    var s := s.(shutdownSent := true);
    if s.isTcp then Raise(s, Disconnected) else s.(shutdowns := s.shutdowns + 1)
  }

  /** signal_error_or_disconnect */
  function Signal(s: State, e: Error): State
    requires e.Failed?
  {
    var isSslDisconnect := !s.isTcp && e.isSsl;
    if !s.shutdownSent && isSslDisconnect && e.isSslShutdown then ShutDown(s)
    else Raise(s, if isSslDisconnect || e.isDisconnect then Disconnected else ErrorRaised)
  }

  /** write_callback, which serves writes and shutdowns alike. */
  function Completed(s: State, e: Error): State {
    if e.Aborted? then s
    else if s.shutdownSent then Raise(s, Disconnected)
    else if e.Failed? then Signal(s, e)
    else if s.disconnectPending then ShutDown(s)
    else Raise(s.(transmitting := false), Sent)
  }

  /** send_data */
  function Send(s: State, buffers: Buffers): State {
    if s.transmitting then s
    else if s.connected then
      s.(txBuffers := buffers, transmitting := true, accepted := s.accepted + [buffers], writing := s.writing + [buffers])
    else s.(txBuffers := buffers)
  }

  function Disconnect(s: State): State {
    if s.transmitting then s.(disconnectPending := true) else ShutDown(s)
  }

  // ---------------------------------------------------------------------------------
  // Runs
  // ---------------------------------------------------------------------------------

  /** The calls of the application, and the callbacks of the socket adaptor. */
  datatype Action =
    | SendData(buffers: Buffers)
    | CallDisconnect
    | CallShutdown
    | SetConnected(enable: bool)
    | Handshaken
    | WriteDone(error: Error)
    | ShutdownDone(error: Error)
    | ReadFailed(error: Error)

  /** The adaptor calls back for what it was asked to do, once. */
  predicate CanHappen(s: State, a: Action) {
    match a
    case WriteDone(_) => s.writing != []
    case ShutdownDone(_) => s.shutdowns > 0
    case ReadFailed(e) => e.Failed?
    case _ => true
  }

  /** The bookkeeping of a write that ends. */
  function EndWrite(s: State, e: Error): State
    requires s.writing != []
  {
    var s' := s.(writing := s.writing[1..]);
    if e.NoError? then s'.(written := s.written + [s.writing[0]]) else s'.(lost := s.lost + [s.writing[0]])
  }

  function Act(s: State, a: Action): State
    requires CanHappen(s, a)
  {
    match a
    case SendData(buffers) => Send(s, buffers)
    case CallDisconnect => Disconnect(s)
    case CallShutdown => ShutDown(s)
    case SetConnected(enable) => s.(connected := enable)
    case Handshaken => Raise(s.(connected := true), Connected)
    case WriteDone(e) => Completed(EndWrite(s, e), e)
    case ShutdownDone(e) => Completed(s.(shutdowns := s.shutdowns - 1), e)
    case ReadFailed(e) => Signal(s, e)
  }

  predicate Possible(s: State, actions: seq<Action>)
    decreases |actions|
  {
    actions == [] || (CanHappen(s, actions[0]) && Possible(Act(s, actions[0]), actions[1..]))
  }

  function After(s: State, actions: seq<Action>): State
    requires Possible(s, actions)
    decreases |actions|
  {
    if actions == [] then s else After(Act(s, actions[0]), actions[1..])
  }

  function SentCount(raised: seq<Event>): nat {
    if raised == [] then 0
    else SentCount(raised[..|raised| - 1]) + if raised[|raised| - 1] == Sent then 1 else 0
  }

  // ---------------------------------------------------------------------------------
  // The invariant
  // ---------------------------------------------------------------------------------

  function One(b: bool): nat { if b then 1 else 0 }

  /** What holds between any two actions, and inside a callback. */
  ghost predicate Conserved(s: State) {
    && |s.accepted| == SentCount(s.raised) + One(s.transmitting)
    && s.accepted == s.written + s.lost + s.writing
    && |s.lost| + |s.writing| <= One(s.transmitting)
    && (s.writing != [] ==> s.writing == [s.txBuffers])
    && (s.disconnectPending ==> s.transmitting)
    && (s.shutdowns > 0 ==> s.shutdownSent)
  }

  /** Whether a write has ended well, and its flag is still set. */
  predicate JustWritten(s: State) {
    s.transmitting && s.lost == [] && s.writing == []
  }

  /** What holds between any two actions. */
  ghost predicate Invariant(s: State) {
    Conserved(s) && (JustWritten(s) ==> s.shutdownSent)
  }

  lemma RaisedCount(raised: seq<Event>, e: Event)
    ensures SentCount(raised + [e]) == SentCount(raised) + One(e == Sent)
  {
    assert (raised + [e])[..|raised|] == raised;
  }

  lemma RaiseKeeps(s: State, e: Event)
    requires Conserved(s) && e != Sent
    ensures Conserved(Raise(s, e)) && (s.shutdownSent || !JustWritten(s) ==> Invariant(Raise(s, e)))
    ensures SentCount(Raise(s, e).raised) == SentCount(s.raised)
  {
    RaisedCount(s.raised, e);
    hide SentCount;
  }

  lemma ShutDownKeeps(s: State)
    requires Conserved(s)
    ensures Invariant(ShutDown(s))
    ensures SentCount(ShutDown(s).raised) == SentCount(s.raised)
  {
    hide SentCount;
    assert Conserved(s.(shutdownSent := true));
    RaiseKeeps(s.(shutdownSent := true), Disconnected);
  }

  lemma SignalKeeps(s: State, e: Error)
    requires Conserved(s) && e.Failed? && (s.shutdownSent || !JustWritten(s))
    ensures Invariant(Signal(s, e))
    ensures SentCount(Signal(s, e).raised) == SentCount(s.raised)
  {
    RaiseKeeps(s, Disconnected);
    RaiseKeeps(s, ErrorRaised);
    ShutDownKeeps(s);
    hide SentCount, Conserved, ShutDown, Raise, Invariant;
  }

  lemma WriteHandlerKeeps(s: State)
    requires Conserved(s) && JustWritten(s) && !s.disconnectPending
    ensures Invariant(Raise(s.(transmitting := false), Sent))
  {
    RaisedCount(s.raised, Sent);
    hide SentCount;
  }

  /** The callback of a write, or of a shutdown. */
  lemma CompletedKeeps(s: State, e: Error)
    requires Conserved(s)
    requires !s.shutdownSent ==> (e.NoError? <==> JustWritten(s))
    ensures Invariant(Completed(s, e))
    ensures s.shutdownSent || s.disconnectPending || !e.NoError? ==>
              SentCount(Completed(s, e).raised) == SentCount(s.raised)
  {
    assert s.shutdownSent || !JustWritten(s) ==> Invariant(s);
    hide SentCount, Conserved, ShutDown, Raise, Signal, Invariant;
    if e.Aborted? || s.shutdownSent {
      RaiseKeeps(s, Disconnected);
    } else if e.Failed? {
      SignalKeeps(s, e);
    } else if s.disconnectPending {
      ShutDownKeeps(s);
    } else {
      WriteHandlerKeeps(s);
    }
  }

  lemma EndWriteKeeps(s: State, e: Error)
    requires Invariant(s) && s.writing != []
    ensures Conserved(EndWrite(s, e)) && (e.NoError? <==> JustWritten(EndWrite(s, e)))
  {
    hide SentCount;
    assert s.accepted == s.written + s.writing;
  }

  lemma ActKeepsInvariant(s: State, a: Action)
    requires Invariant(s) && CanHappen(s, a)
    ensures Invariant(Act(s, a))
  {
    ActEffects(s, a);
  }

  /** What every action keeps, and when it can raise SENT. */
  lemma ActEffects(s: State, a: Action)
    requires Invariant(s) && CanHappen(s, a)
    ensures Invariant(Act(s, a))
    ensures s.shutdownSent || s.disconnectPending ==> SentCount(Act(s, a).raised) == SentCount(s.raised)
  {
    hide SentCount, Completed, Signal, ShutDown, EndWrite;
    match a
    case WriteDone(e) =>
      EndWriteKeeps(s, e);
      EndWriteFlags(s, e);
      CompletedKeeps(EndWrite(s, e), e);
    case ShutdownDone(e) => CompletedKeeps(s.(shutdowns := s.shutdowns - 1), e);
    case ReadFailed(e) => SignalKeeps(s, e);
    case Handshaken => RaisedCount(s.raised, Connected);
    case CallDisconnect => ShutDownKeeps(s);
    case CallShutdown => ShutDownKeeps(s);
    case _ =>
  }

  lemma EndWriteFlags(s: State, e: Error)
    requires s.writing != []
    ensures EndWrite(s, e) == s.(writing := EndWrite(s, e).writing, written := EndWrite(s, e).written,
                                 lost := EndWrite(s, e).lost)
  {
  }

  /**
    Main result: over every run, the sends accepted are the SENT events raised and the one
    in progress; every message accepted has been written, in order, but for at most one
    that is being written or whose write failed; and a write in progress has the transmit
    buffers for its own.
   */
  lemma {:induction false} EveryRunKeepsInvariant(s: State, actions: seq<Action>)
    requires Invariant(s) && Possible(s, actions)
    ensures Invariant(After(s, actions))
    decreases |actions|
  {
    if actions != [] {
      ActKeepsInvariant(s, actions[0]);
      hide Act, Invariant;
      EveryRunKeepsInvariant(Act(s, actions[0]), actions[1..]);
    }
  }

  lemma WritesAreConserved(isTcp: bool, actions: seq<Action>)
    requires Possible(NewState(isTcp), actions)
    ensures var s := After(NewState(isTcp), actions);
            && |s.accepted| == SentCount(s.raised) + One(s.transmitting)
            && |s.writing| <= 1 && (s.writing != [] ==> s.writing == [s.txBuffers])
            && SentCount(s.raised) <= |s.written| <= |s.accepted| && s.written == s.accepted[..|s.written|]
  {
    EveryRunKeepsInvariant(NewState(isTcp), actions);
  }

  // ---------------------------------------------------------------------------------
  // After disconnect and after shutdown
  // ---------------------------------------------------------------------------------

  lemma CompletedFlags(s: State, e: Error)
    ensures var s' := Completed(s, e);
            && (s.shutdownSent ==> s'.shutdownSent)
            && s'.disconnectPending == s.disconnectPending
            && (s.transmitting && (s.disconnectPending || s.shutdownSent) ==> s'.transmitting)
            && s'.accepted == s.accepted && s'.txBuffers == s.txBuffers && s'.lost == s.lost
  {
  }

  lemma SignalFlags(s: State, e: Error)
    requires e.Failed?
    ensures var s' := Signal(s, e);
            && s' == s.(shutdownSent := s'.shutdownSent, shutdowns := s'.shutdowns, raised := s'.raised)
            && (s.shutdownSent ==> s'.shutdownSent)
  {
  }

  /** Flags that are set stay set, and a write in progress stays the one accepted. */
  lemma FlagsStay(s: State, a: Action)
    requires CanHappen(s, a)
    ensures var s' := Act(s, a);
            && (s.shutdownSent ==> s'.shutdownSent)
            && (s.disconnectPending ==> s'.disconnectPending)
            && (s.transmitting && (s.disconnectPending || s.shutdownSent) ==> s'.transmitting)
            && (s.transmitting ==> s'.accepted == s.accepted && s'.txBuffers == s.txBuffers)
  {
    hide Completed, Signal;
    match a
    case WriteDone(e) => CompletedFlags(EndWrite(s, e), e);
    case ShutdownDone(e) => CompletedFlags(s.(shutdowns := s.shutdowns - 1), e);
    case ReadFailed(e) => SignalFlags(s, e);
    case _ =>
  }

  /** Main result: once disconnect has been called during a write, no send is accepted and no SENT raised. */
  lemma {:induction false} NothingAfterDisconnect(s: State, actions: seq<Action>)
    requires Invariant(s) && s.disconnectPending && Possible(s, actions)
    ensures var s' := After(s, actions);
            && s'.transmitting && s'.accepted == s.accepted && s'.txBuffers == s.txBuffers
            && SentCount(s'.raised) == SentCount(s.raised)
    decreases |actions|
  {
    hide SentCount, Act;
    if actions != [] {
      ActEffects(s, actions[0]);
      FlagsStay(s, actions[0]);
      NothingAfterDisconnect(Act(s, actions[0]), actions[1..]);
    }
  }

  /** Once a shutdown has been sent, no SENT is raised, and at most one more send is accepted. */
  lemma {:induction false} AtMostOneAfterShutdown(s: State, actions: seq<Action>)
    requires Invariant(s) && s.shutdownSent && Possible(s, actions)
    ensures var s' := After(s, actions);
            && s'.shutdownSent && SentCount(s'.raised) == SentCount(s.raised)
            && |s'.accepted| + One(s.transmitting) == |s.accepted| + One(s'.transmitting)
    decreases |actions|
  {
    hide SentCount, Act;
    if actions != [] {
      ActEffects(s, actions[0]);
      FlagsStay(s, actions[0]);
      AtMostOneAfterShutdown(Act(s, actions[0]), actions[1..]);
    }
  }

  // ---------------------------------------------------------------------------------
  // When disconnect takes effect
  // ---------------------------------------------------------------------------------

  /** Whether no action asks for a shutdown but by disconnect. */
  predicate OnlyDisconnects(actions: seq<Action>) {
    forall i :: 0 <= i < |actions| ==>
      && !actions[i].CallShutdown? && !actions[i].ReadFailed?
      && (actions[i].WriteDone? ==> !actions[i].error.Failed?)
  }

  /** Whether the write in progress goes on during the actions. */
  predicate StillWriting(actions: seq<Action>) {
    forall i :: 0 <= i < |actions| ==> !actions[i].WriteDone?
  }

  lemma {:induction false} WaitsForWrite(s: State, actions: seq<Action>)
    requires Invariant(s) && s.writing != [] && !s.shutdownSent && s.disconnectPending
    requires Possible(s, actions) && OnlyDisconnects(actions) && StillWriting(actions)
    ensures var s' := After(s, actions);
            s' == s.(connected := s'.connected, raised := s'.raised)
    decreases |actions|
  {
    if actions != [] {
      ActKeepsInvariant(s, actions[0]);
      WaitsForWrite(Act(s, actions[0]), actions[1..]);
    }
  }

  /**
    Main result for disconnect during a write: the socket is shut down after the message
    has been written, not before, and by then every message accepted has been written.
   */
  lemma DisconnectWaitsForWrite(s: State, actions: seq<Action>)
    requires Invariant(s) && s.writing != [] && !s.shutdownSent
    requires Possible(Disconnect(s), actions) && OnlyDisconnects(actions) && StillWriting(actions)
    ensures var s' := After(Disconnect(s), actions);
            && !s'.shutdownSent && s'.writing == s.writing && CanHappen(s', WriteDone(NoError))
            && var done := Act(s', WriteDone(NoError));
               done.shutdownSent && done.written == done.accepted == s.accepted
  {
    ActKeepsInvariant(s, CallDisconnect);
    WaitsForWrite(Disconnect(s), actions);
  }

  /** A transmission without a write: nothing but a failed read or a call of shutdown can end it. */
  lemma {:induction false} NoWriteNoShutdown(s: State, actions: seq<Action>)
    requires Invariant(s) && s.transmitting && s.writing == [] && !s.shutdownSent
    requires Possible(s, actions) && OnlyDisconnects(actions)
    ensures !After(s, actions).shutdownSent && After(s, actions).transmitting
    decreases |actions|
  {
    if actions != [] {
      ActKeepsInvariant(s, actions[0]);
      NoWriteNoShutdown(Act(s, actions[0]), actions[1..]);
    }
  }

  /**
    Exactly when disconnect can still shut the socket down: unless the last write has
    failed, for then its flag stays set and no write is left to call back.
   */
  lemma DisconnectTakesEffectExactly(s: State)
    requires Invariant(s) && !s.shutdownSent
    ensures s.lost == [] <==>
            exists actions :: Possible(Disconnect(s), actions) && OnlyDisconnects(actions)
                              && After(Disconnect(s), actions).shutdownSent
  {
    ActKeepsInvariant(s, CallDisconnect);
    if s.lost == [] {
      var actions := if s.transmitting then [WriteDone(NoError)] else [];
      assert actions != [] ==> actions[1..] == [] && Act(Disconnect(s), actions[0]).shutdownSent;
      assert actions != [] ==> Possible(Act(Disconnect(s), actions[0]), actions[1..]);
      assert actions != [] ==> After(Disconnect(s), actions) == Act(Disconnect(s), actions[0]);
      assert Possible(Disconnect(s), actions) && OnlyDisconnects(actions) && After(Disconnect(s), actions).shutdownSent;
    }
    if actions :| Possible(Disconnect(s), actions) && OnlyDisconnects(actions)
                  && After(Disconnect(s), actions).shutdownSent {
      if s.lost != [] {
        NoWriteNoShutdown(Disconnect(s), actions);
      }
    }
  }

  /** Such a connection can be reached: a send whose write fails. */
  lemma FailedWriteBlocksDisconnect()
    ensures var actions := [Handshaken, SendData([""]), WriteDone(Failed(false, false, false))];
            && Possible(NewState(true), actions)
            && var s := After(NewState(true), actions); s.lost != [] && !s.shutdownSent && s.transmitting
  {
  }

  lemma NothingSentAfterLoss(s: State, a: Action)
    requires Invariant(s) && s.lost != [] && CanHappen(s, a)
    ensures var s' := Act(s, a);
            s'.lost == s.lost && s'.accepted == s.accepted && SentCount(s'.raised) == SentCount(s.raised)
  {
    assert s.transmitting && s.writing == [];
    hide SentCount, Completed, Signal, ShutDown;
    match a
    case ShutdownDone(e) =>
      CompletedKeeps(s.(shutdowns := s.shutdowns - 1), e);
      CompletedFlags(s.(shutdowns := s.shutdowns - 1), e);
    case ReadFailed(e) =>
      SignalKeeps(s, e);
      SignalFlags(s, e);
    case Handshaken => RaisedCount(s.raised, Connected);
    case CallShutdown =>
      ShutDownKeeps(s);
      ShutDownFlags(s);
    case _ =>
  }

  lemma ShutDownFlags(s: State)
    ensures var s' := ShutDown(s); s'.lost == s.lost && s'.accepted == s.accepted
  {
  }

  /** Main result for a failed write: the connection never accepts a send or raises SENT again. */
  lemma {:induction false} FailedWriteIsFinal(s: State, actions: seq<Action>)
    requires Invariant(s) && s.lost != [] && Possible(s, actions)
    ensures var s' := After(s, actions);
            s'.transmitting && s'.accepted == s.accepted && SentCount(s'.raised) == SentCount(s.raised)
    decreases |actions|
  {
    hide SentCount, Act;
    if actions != [] {
      ActKeepsInvariant(s, actions[0]);
      NothingSentAfterLoss(s, actions[0]);
      FailedWriteIsFinal(Act(s, actions[0]), actions[1..]);
    }
  }

  // ---------------------------------------------------------------------------------
  // The class
  // ---------------------------------------------------------------------------------

  /** The connection; what the adaptor does and the events raised are ghost. */
  class Connection {
    const isTcp: bool
    var connected: bool
    var transmitting: bool
    var disconnectPending: bool
    var shutdownSent: bool
    var txBuffers: Buffers
    ghost var accepted: seq<Buffers>
    ghost var written: seq<Buffers>
    ghost var lost: seq<Buffers>
    ghost var writing: seq<Buffers>
    ghost var shutdowns: nat
    ghost var raised: seq<Event>

    ghost function Value(): State
      reads this
    {
      State(isTcp, connected, transmitting, disconnectPending, shutdownSent, txBuffers,
            accepted, written, lost, writing, shutdowns, raised)
    }

    constructor (isTcp: bool)
      ensures Value() == NewState(isTcp) && Invariant(Value())
    {
      this.isTcp := isTcp;
      connected, transmitting, disconnectPending, shutdownSent, txBuffers := false, false, false, false, [];
      accepted, written, lost, writing, shutdowns, raised := [], [], [], [], 0, [];
    }

    /** Hands the transmit buffers to the adaptor if connected. */
    method WriteData(buffers: Buffers) returns (sending: bool)
      modifies this`txBuffers, this`writing
      ensures sending == connected && txBuffers == buffers
      ensures writing == old(writing) + if sending then [txBuffers] else []
    {
      txBuffers := buffers;
      if connected {
        writing := writing + [txBuffers];
      }
      return connected;
    }

    method SendData(buffers: Buffers) returns (sending: bool)
      requires Invariant(Value())
      modifies this
      ensures Value() == Act(old(Value()), Action.SendData(buffers)) && Invariant(Value())
      ensures sending <==> old(!transmitting && connected)
      ensures accepted == old(accepted) + if sending then [buffers] else []
      ensures !sending ==> writing == old(writing)
    {
      ActKeepsInvariant(Value(), Action.SendData(buffers));
      hide Invariant, Completed, Signal, ShutDown, SentCount;
      if !transmitting {
        transmitting := WriteData(buffers);
        if transmitting {
          accepted := accepted + [buffers];
        }
        return transmitting;
      } else {
        return false;
      }
    }

    method Disconnect()
      requires Invariant(Value())
      modifies this
      ensures Value() == Act(old(Value()), CallDisconnect) && Invariant(Value())
      ensures shutdownSent == (old(shutdownSent) || old(!transmitting))
    {
      ActKeepsInvariant(Value(), CallDisconnect);
      hide Invariant, ShutDown, SentCount;
      if !transmitting {
        Shutdown();
      } else {
        disconnectPending := true;
      }
    }

    method Shutdown()
      modifies this
      ensures Value() == ShutDown(old(Value()))
      decreases 1
    {
      shutdownSent := true;
      if isTcp {
        WriteCallback(Failed(true, false, false));
      } else {
        shutdowns := shutdowns + 1;
      }
    }

    method SignalErrorOrDisconnect(error: Error)
      requires error.Failed?
      modifies this
      ensures Value() == Signal(old(Value()), error)
      decreases 2
    {
      var isAnSslDisconnect := !isTcp && error.isSsl;
      var isAnSslShutdown := isAnSslDisconnect && error.isSslShutdown;
      if !shutdownSent && isAnSslShutdown {
        Shutdown();
      } else {
        if isAnSslDisconnect || error.isDisconnect {
          raised := raised + [Disconnected];
        } else {
          raised := raised + [ErrorRaised];
        }
      }
    }

    method WriteCallback(error: Error)
      modifies this
      ensures Value() == Completed(old(Value()), error)
      decreases if shutdownSent then 0 else 3
    {
      if error != Aborted {
        if shutdownSent {
          raised := raised + [Disconnected];
        } else if error != NoError {
          SignalErrorOrDisconnect(error);
        } else {
          if disconnectPending {
            Shutdown();
          } else {
            WriteHandler();
          }
        }
      }
    }

    method WriteHandler()
      modifies this`transmitting, this`raised
      ensures !transmitting && raised == old(raised) + [Sent]
    {
      transmitting := false;
      raised := raised + [Sent];
    }

    /** The adaptor ends the write in progress. */
    method WriteCompleted(error: Error)
      requires Invariant(Value()) && writing != []
      modifies this
      ensures Value() == Act(old(Value()), WriteDone(error)) && Invariant(Value())
    {
      ActKeepsInvariant(Value(), WriteDone(error));
      hide Invariant, Completed, Signal, ShutDown, SentCount;
      if error == NoError {
        written := written + [writing[0]];
      } else {
        lost := lost + [writing[0]];
      }
      writing := writing[1..];
      WriteCallback(error);
    }

    /** The adaptor ends a shutdown. */
    method ShutdownCompleted(error: Error)
      requires Invariant(Value()) && shutdowns > 0
      modifies this
      ensures Value() == Act(old(Value()), ShutdownDone(error)) && Invariant(Value())
    {
      ActKeepsInvariant(Value(), ShutdownDone(error));
      hide Invariant, Completed, Signal, ShutDown, SentCount;
      shutdowns := shutdowns - 1;
      WriteCallback(error);
    }

    /** The error branch of read_callback. */
    method ReadFailure(error: Error)
      requires Invariant(Value()) && error.Failed?
      modifies this
      ensures Value() == Act(old(Value()), ReadFailed(error)) && Invariant(Value())
    {
      ActKeepsInvariant(Value(), ReadFailed(error));
      hide Invariant, Completed, Signal, ShutDown, SentCount;
      SignalErrorOrDisconnect(error);
    }
  }
}
