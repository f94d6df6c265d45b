/**
  Whole runs of the concurrent map: what whole-map operations return, and that the
  operations always go on to their end.
 */
module ConcurrentRuns {
  import opened HashMaps
  import opened ConcurrentMaps
  import opened ConcurrentSafety

  // ---------------------------------------------------------------------------------
  // Runs
  // ---------------------------------------------------------------------------------

  datatype Move<+V> = Move(thread: nat, choice: Choice<V>)

  function Initial<V>(bucketCount: nat, threadCount: nat): State<V> {
    State(seq(bucketCount, _ => []), seq(threadCount, _ => Idle), [])
  }

  /** Whether a list of moves can be made, one after the other. */
  predicate Possible<V>(writersFirst: bool, h: int -> nat, s: State<V>, moves: seq<Move<V>>)
    requires |s.buckets| > 0
    decreases |moves|
  {
    moves == [] ||
    (&& Allowed(writersFirst, s, moves[0].thread, moves[0].choice)
     && Possible(writersFirst, h, Step(h, s, moves[0].thread, moves[0].choice), moves[1..]))
  }

  function After<V>(writersFirst: bool, h: int -> nat, s: State<V>, moves: seq<Move<V>>): State<V>
    requires |s.buckets| > 0 && Possible(writersFirst, h, s, moves)
    decreases |moves|
  {
    if moves == [] then s else After(writersFirst, h, Step(h, s, moves[0].thread, moves[0].choice), moves[1..])
  }

  lemma InitialInvariant<V>(h: int -> nat, bucketCount: nat, threadCount: nat)
    requires bucketCount > 0
    ensures Invariant<V>(h, Initial(bucketCount, threadCount))
  {
    var s := Initial<V>(bucketCount, threadCount);
    forall i | 0 <= i < bucketCount
      ensures s.buckets[i] == [] && View(s)[i] == []
    {
    }
    EmptyIsEmpty(View(s));
  }

  lemma {:induction false} InvariantAfter<V>(writersFirst: bool, h: int -> nat, s: State<V>, moves: seq<Move<V>>)
    requires |s.buckets| > 0 && Invariant(h, s) && Possible(writersFirst, h, s, moves)
    ensures Invariant(h, After(writersFirst, h, s, moves))
    decreases |moves|
  {
    hide Invariant, Step;
    if moves != [] {
      StepKeepsInvariant(h, s, moves[0].thread, moves[0].choice);
      InvariantAfter(writersFirst, h, Step(h, s, moves[0].thread, moves[0].choice), moves[1..]);
    }
  }

  /** Main result: whatever the threads do, in any order, the invariant holds. */
  lemma EveryRunKeepsInvariant<V>(writersFirst: bool, h: int -> nat, bucketCount: nat, threadCount: nat,
                                  moves: seq<Move<V>>)
    requires bucketCount > 0
    requires Possible(writersFirst, h, Initial(bucketCount, threadCount), moves)
    ensures Invariant(h, After(writersFirst, h, Initial(bucketCount, threadCount), moves))
  {
    InitialInvariant<V>(h, bucketCount, threadCount);
    InvariantAfter(writersFirst, h, Initial(bucketCount, threadCount), moves);
  }

  // ---------------------------------------------------------------------------------
  // Snapshots
  // ---------------------------------------------------------------------------------

  /** A thread with an operation that has taken effect at `at`, and not returned since. */
  ghost predicate Since<V>(s: State<V>, t: nat, op: Op<V>, at: nat) {
    && t < |s.threads| && TookEffect(s.threads[t])
    && s.threads[t].op == op && s.threads[t].at == at
  }

  predicate StartsNothing<V>(moves: seq<Move<V>>, t: nat) {
    forall i :: 0 <= i < |moves| ==> !(moves[i].thread == t && moves[i].choice.Start?)
  }

  lemma IdleStaysIdle<V>(h: int -> nat, s: State<V>, t: nat, m: Move<V>)
    requires |s.buckets| > 0 && t < |s.threads| && s.threads[t].Idle?
    requires Enabled(s, m.thread, m.choice) && !(m.thread == t && m.choice.Start?)
    ensures var s' := Step(h, s, m.thread, m.choice); |s'.threads| == |s.threads| && s'.threads[t].Idle?
  {
    StepFrame(h, s, m.thread, m.choice);
  }

  /** From the instant an operation takes effect until it returns, its log entry stays. */
  lemma {:induction false} EntryStays<V>(writersFirst: bool, h: int -> nat, s: State<V>, moves: seq<Move<V>>,
                                         t: nat, op: Op<V>, at: nat)
    requires |s.buckets| > 0 && Possible(writersFirst, h, s, moves) && StartsNothing(moves, t)
    requires t < |s.threads| && at < |s.log| && (s.threads[t].Idle? || Since(s, t, op, at))
    ensures var s' := After(writersFirst, h, s, moves);
            && t < |s'.threads| && at < |s'.log| && s'.log[at] == s.log[at]
            && (s'.threads[t].Idle? || Since(s', t, op, at))
    decreases |moves|
  {
    if moves != [] {
      var m := moves[0];
      var s' := Step(h, s, m.thread, m.choice);
      StepFrame(h, s, m.thread, m.choice);
      assert s'.log[at] == s'.log[..|s.log|][at];
      if s.threads[t].Idle? {
        IdleStaysIdle(h, s, t, m);
      } else if m.thread == t {
        EffectIsLoggedOnce(h, s, t, m.choice);
      }
      hide Step, Enabled, StartsNothing;
      RestStartsNothing(moves, t);
      EntryStays(writersFirst, h, s', moves[1..], t, op, at);
    }
  }

  lemma RestStartsNothing<V>(moves: seq<Move<V>>, t: nat)
    requires moves != [] && StartsNothing(moves, t)
    ensures StartsNothing(moves[1..], t)
  {
  }

  /** At its last lock a whole-map operation logs the map that the buckets then stand for. */
  lemma LastLockLogs<V>(h: int -> nat, s: State<V>, t: nat)
    requires Invariant(h, s) && |s.buckets| > 0 && Enabled(s, t, Go) && IsLastLock(s, t, Go)
    ensures var s' := Step(h, s, t, Go);
            && Since(s', t, s.threads[t].op, |s.log|) && |s'.log| > |s.log|
            && s'.log[|s.log|].before == AllContents(s.buckets)
            && s'.buckets == s.buckets
  {
    hide Ordered, KnowsEffect, AllContents, View, MutualExclusion, CanLock, LocksInOrder, IsHistory;
    NothingToClearAtLastLock(h, s, t);
    StepFrame(h, s, t, Go);
  }

  /**
    Main result for snapshots: whatever the other threads do meanwhile, what data returns
    lists exactly the map at the instant its last lock was taken, each mapping once, and
    what empty returns is whether that map was empty.
   */
  lemma WholeMapReadsAreSnapshots<V>(writersFirst: bool, h: int -> nat, s: State<V>, t: nat, moves: seq<Move<V>>)
    requires Invariant(h, s) && |s.buckets| > 0 && Enabled(s, t, Go) && IsLastLock(s, t, Go)
    requires Possible(writersFirst, h, Step(h, s, t, Go), moves) && StartsNothing(moves, t)
    ensures var s' := After(writersFirst, h, Step(h, s, t, Go), moves);
            && t < |s'.threads|
            && (s'.threads[t].Running? && s'.threads[t].phase.Unlocking? ==>
                  var th := s'.threads[t];
                  && th.op == s.threads[t].op
                  && (th.op.Data? ==> th.result.Pairs? && Lists(th.result.pairs, AllContents(s.buckets)))
                  && (th.op.Empty? ==> th.result == Answer(AllContents(s.buckets) == map[])))
  {
    var op := s.threads[t].op;
    var s1 := Step(h, s, t, Go);
    var s' := After(writersFirst, h, s1, moves);
    LastLockLogs(h, s, t);
    StepKeepsInvariant(h, s, t, Go);
    InvariantAfter(writersFirst, h, s1, moves);
    StepFrame(h, s, t, Go);
    EntryStays(writersFirst, h, s1, moves, t, op, |s.log|);
    hide Step, After, Possible, Ordered, MutualExclusion, View, AllContents, LocksInOrder, IsHistory, Enabled, Lists;
    assert KnowsEffect(s', t);
  }

  // ---------------------------------------------------------------------------------
  // Every operation
  // ---------------------------------------------------------------------------------

  /** The entries of thread `t` since `from`: one once its operation has taken effect, none before. */
  ghost predicate HasOneEntry<V>(s: State<V>, t: nat, from: nat) {
    && t < |s.threads| && from <= |s.log|
    && var th := s.threads[t];
       if TookEffect(th) then
         && from <= th.at < |s.log|
         && forall i :: from <= i < |s.log| ==> (s.log[i].thread == t <==> i == th.at)
       else forall i :: from <= i < |s.log| ==> s.log[i].thread != t
  }

  lemma StepKeepsOneEntry<V>(h: int -> nat, s: State<V>, t: nat, from: nat, u: nat, c: Choice<V>)
    requires |s.buckets| > 0 && Enabled(s, u, c) && HasOneEntry(s, t, from) && s.threads[t].Running?
    ensures var s' := Step(h, s, u, c);
            && s.log <= s'.log && |s'.threads| == |s.threads|
            && (s'.threads[t].Running? ==> HasOneEntry(s', t, from) && s'.threads[t].op == s.threads[t].op)
  {
    StepFrame(h, s, u, c);
    EffectIsLoggedOnce(h, s, u, c);
    hide Step, Enabled, TookEffect;
    var s' := Step(h, s, u, c);
    assert forall i :: 0 <= i < |s.log| ==> s'.log[i] == s'.log[..|s.log|][i];
  }

  lemma {:induction false} RunKeepsOneEntry<V>(writersFirst: bool, h: int -> nat, s: State<V>, t: nat, from: nat,
                                               moves: seq<Move<V>>)
    requires |s.buckets| > 0 && HasOneEntry(s, t, from) && s.threads[t].Running?
    requires Possible(writersFirst, h, s, moves) && StartsNothing(moves, t)
    ensures var s' := After(writersFirst, h, s, moves);
            && s.log <= s'.log && |s'.threads| == |s.threads|
            && (s'.threads[t].Running? ==> HasOneEntry(s', t, from) && s'.threads[t].op == s.threads[t].op)
    decreases |moves|
  {
    hide Step, StartsNothing, HasOneEntry;
    if moves != [] {
      var m := moves[0];
      var s1 := Step(h, s, m.thread, m.choice);
      InRange(s, t, from);
      StepKeepsOneEntry(h, s, t, from, m.thread, m.choice);
      RestStartsNothing(moves, t);
      if s1.threads[t].Running? {
        RunKeepsOneEntry(writersFirst, h, s1, t, from, moves[1..]);
      } else {
        IdleForTheRun(writersFirst, h, s1, t, moves[1..]);
      }
    }
  }

  lemma InRange<V>(s: State<V>, t: nat, from: nat)
    requires HasOneEntry(s, t, from)
    ensures t < |s.threads|
  {
  }

  lemma {:induction false} IdleForTheRun<V>(writersFirst: bool, h: int -> nat, s: State<V>, t: nat, moves: seq<Move<V>>)
    requires |s.buckets| > 0 && t < |s.threads| && s.threads[t].Idle?
    requires Possible(writersFirst, h, s, moves) && StartsNothing(moves, t)
    ensures var s' := After(writersFirst, h, s, moves);
            |s'.threads| == |s.threads| && s'.threads[t].Idle? && s.log <= s'.log
    decreases |moves|
  {
    if moves != [] {
      var m := moves[0];
      IdleStaysIdle(h, s, t, m);
      StepFrame(h, s, m.thread, m.choice);
      RestStartsNothing(moves, t);
      hide Step, Enabled, StartsNothing;
      IdleForTheRun(writersFirst, h, Step(h, s, m.thread, m.choice), t, moves[1..]);
    }
  }

  /**
    Main result for every operation: from its start to its return, however the threads
    interleave, it has exactly one entry in the log, which has its effect there, and what
    it returns is its result on the map that the log had before that entry.
   */
  lemma OperationHasOneEntry<V>(writersFirst: bool, h: int -> nat, s: State<V>, t: nat, op: Op<V>, moves: seq<Move<V>>)
    requires Invariant(h, s) && |s.buckets| > 0 && Enabled(s, t, Start(op))
    requires Possible(writersFirst, h, Step(h, s, t, Start(op)), moves) && StartsNothing(moves, t)
    requires var s' := After(writersFirst, h, Step(h, s, t, Start(op)), moves);
             t < |s'.threads| && s'.threads[t].Running? && s'.threads[t].phase.Unlocking?
    ensures var s' := After(writersFirst, h, Step(h, s, t, Start(op)), moves);
            var th := s'.threads[t];
            && s.log <= s'.log && |s.log| <= th.at < |s'.log|
            && (forall i :: |s.log| <= i < |s'.log| ==> (s'.log[i].thread == t <==> i == th.at))
            && s'.log[th.at].op == op
            && |s'.buckets| > 0 && HasEffect(h, |s'.buckets|, s'.log[th.at])
            && s'.log[th.at].before == MapAfter(s'.log, th.at)
            && IsResult(op, s'.log[th.at].before, th.result)
  {
    var s1 := Step(h, s, t, Start(op));
    StepKeepsInvariant(h, s, t, Start(op));
    assert HasOneEntry(s1, t, |s.log|) && s1.threads[t].op == op && s1.log == s.log;
    hide Step, Possible, After, StartsNothing, Enabled, Ordered, MutualExclusion, View, AllContents, LocksInOrder,
      HasEffect, IsResult;
    RunKeepsOneEntry(writersFirst, h, s1, t, |s.log|, moves);
    InvariantAfter(writersFirst, h, s1, moves);
    var s' := After(writersFirst, h, s1, moves);
    SomeBuckets(h, s'.buckets);
    assert KnowsEffect(s', t);
  }

  // ---------------------------------------------------------------------------------
  // Clearing
  // ---------------------------------------------------------------------------------

  /** A clear that has all its locks and has buckets left to empty. */
  predicate IsClearing<V>(th: Thread<V>) { th.Running? && th.op.Clear? && th.phase.Working? }

  /** A thread whose operation is over, up to the locks that it holds. */
  predicate IsDone<V>(th: Thread<V>) { th.Idle? || th.phase.Unlocking? }

  /** While a thread is clearing, a step of another takes no effect and changes no bucket. */
  lemma OthersWaitForClear<V>(h: int -> nat, s: State<V>, t: nat, u: nat, c: Choice<V>)
    requires Invariant(h, s) && |s.buckets| > 0 && Enabled(s, u, c)
    requires t < |s.threads| && u != t && IsClearing(s.threads[t])
    ensures var s' := Step(h, s, u, c);
            && s'.buckets == s.buckets && s'.log == s.log
            && |s'.threads| == |s.threads| && s'.threads[t] == s.threads[t]
  {
    hide Ordered, KnowsEffect, AllContents, View, IsHistory, MutualExclusion, CanLock, LocksInOrder;
    ClearHoldsAll(h, s, t);
    BucketsStay(h, s, u, c, t);
    OthersAreStopped(h, s, t, u, c);
    StepFrame(h, s, u, c);
  }

  lemma ClearHoldsAll<V>(h: int -> nat, s: State<V>, t: nat)
    requires Invariant(h, s) && |s.buckets| > 0 && t < |s.threads| && IsClearing(s.threads[t])
    ensures forall i: nat :: i < |s.buckets| ==> Holds(s.threads[t], i)
  {
    hide Ordered, KnowsEffect, AllContents, View, IsHistory, MutualExclusion;
    assert LocksInOrder(h, |s.buckets|, s.threads[t]);
  }

  /** Another thread can then neither take a lock nor work on a bucket. */
  lemma OthersAreStopped<V>(h: int -> nat, s: State<V>, t: nat, u: nat, c: Choice<V>)
    requires Invariant(h, s) && |s.buckets| > 0 && Enabled(s, u, c)
    requires t < |s.threads| && u != t && IsClearing(s.threads[t])
    ensures c.Go? ==> s.threads[u].phase.Unlocking?
  {
    hide Ordered, KnowsEffect, AllContents, View, IsHistory;
    ClearHoldsAll(h, s, t);
    assert LocksInOrder(h, |s.buckets|, s.threads[u]);
    var i := if c.Go? && !s.threads[u].phase.Unlocking? then s.threads[u].phase.next else 0;
    assert Holds(s.threads[t], i);
  }

  /** The buckets when the clear of thread `t` has gone on from bucket `from` to bucket `to`. */
  ghost predicate ClearedBetween<V>(s: State<V>, s': State<V>, from: nat, to: nat) {
    && s'.log == s.log && |s'.buckets| == |s.buckets|
    && forall i :: 0 <= i < |s.buckets| ==> s'.buckets[i] == if from <= i < to then [] else s.buckets[i]
  }

  /** One step, by any thread, while a thread is clearing. */
  lemma ClearingStep<V>(h: int -> nat, s: State<V>, t: nat, u: nat, c: Choice<V>)
    requires Invariant(h, s) && |s.buckets| > 0 && Enabled(s, u, c)
    requires t < |s.threads| && IsClearing(s.threads[t])
    ensures var s' := Step(h, s, u, c);
            var from := s.threads[t].phase.next;
            && |s'.threads| == |s.threads| && from < |s.buckets|
            && if IsClearing(s'.threads[t])
               then from <= s'.threads[t].phase.next && ClearedBetween(s, s', from, s'.threads[t].phase.next)
               else IsDone(s'.threads[t]) && ClearedBetween(s, s', from, |s.buckets|)
  {
    hide Ordered, KnowsEffect, AllContents, View, IsHistory, MutualExclusion, CanLock;
    assert LocksInOrder(h, |s.buckets|, s.threads[t]);
    if u != t {
      OthersWaitForClear(h, s, t, u, c);
    }
  }

  lemma DoneStaysDone<V>(h: int -> nat, s: State<V>, t: nat, m: Move<V>)
    requires |s.buckets| > 0 && t < |s.threads| && IsDone(s.threads[t])
    requires Enabled(s, m.thread, m.choice) && !(m.thread == t && m.choice.Start?)
    ensures var s' := Step(h, s, m.thread, m.choice); |s'.threads| == |s.threads| && IsDone(s'.threads[t])
  {
    StepFrame(h, s, m.thread, m.choice);
  }

  lemma {:induction false} DoneForTheRun<V>(writersFirst: bool, h: int -> nat, s: State<V>, t: nat, moves: seq<Move<V>>)
    requires |s.buckets| > 0 && t < |s.threads| && IsDone(s.threads[t])
    requires Possible(writersFirst, h, s, moves) && StartsNothing(moves, t)
    ensures var s' := After(writersFirst, h, s, moves); |s'.threads| == |s.threads| && IsDone(s'.threads[t])
    decreases |moves|
  {
    if moves != [] {
      DoneStaysDone(h, s, t, moves[0]);
      RestStartsNothing(moves, t);
      hide Step, Enabled, StartsNothing;
      DoneForTheRun(writersFirst, h, Step(h, s, moves[0].thread, moves[0].choice), t, moves[1..]);
    }
  }

  /** A run during which a thread is clearing: only that thread changes anything. */
  lemma {:induction false} ClearingRun<V>(writersFirst: bool, h: int -> nat, s: State<V>, t: nat, moves: seq<Move<V>>)
    requires Invariant(h, s) && |s.buckets| > 0 && t < |s.threads| && IsClearing(s.threads[t])
    requires Possible(writersFirst, h, s, moves) && StartsNothing(moves, t)
    ensures var s' := After(writersFirst, h, s, moves);
            && |s'.threads| == |s.threads|
            && (IsClearing(s'.threads[t]) ==>
                  && s.threads[t].phase.next <= s'.threads[t].phase.next
                  && ClearedBetween(s, s', s.threads[t].phase.next, s'.threads[t].phase.next))
    decreases |moves|
  {
    hide Invariant, Step, StartsNothing, IsClearing, IsDone, ClearedBetween;
    ClearedNothing(s, s.threads[t]);
    if moves != [] {
      var m := moves[0];
      var s1 := Step(h, s, m.thread, m.choice);
      ClearingStep(h, s, t, m.thread, m.choice);
      StepKeepsInvariant(h, s, m.thread, m.choice);
      RestStartsNothing(moves, t);
      var s' := After(writersFirst, h, s, moves);
      if IsClearing(s1.threads[t]) {
        ClearingRun(writersFirst, h, s1, t, moves[1..]);
        if IsClearing(s'.threads[t]) {
          ClearedTwice(s, s1, s', s.threads[t], s1.threads[t], s'.threads[t]);
        }
      } else {
        DoneForTheRun(writersFirst, h, s1, t, moves[1..]);
        NotBothDoneAndClearing(s'.threads[t]);
      }
    }
  }

  lemma NotBothDoneAndClearing<V>(th: Thread<V>)
    ensures !(IsDone(th) && IsClearing(th))
    ensures IsClearing(th) ==> th.Running? && th.phase.Working?
  {
  }

  lemma ClearedNothing<V>(s: State<V>, th: Thread<V>)
    requires IsClearing(th)
    ensures ClearedBetween(s, s, th.phase.next, th.phase.next)
  {
  }

  lemma ClearedTwice<V>(s: State<V>, s1: State<V>, s2: State<V>, th: Thread<V>, th1: Thread<V>, th2: Thread<V>)
    requires IsClearing(th) && IsClearing(th1) && IsClearing(th2)
    requires th.phase.next <= th1.phase.next <= th2.phase.next
    requires ClearedBetween(s, s1, th.phase.next, th1.phase.next)
    requires ClearedBetween(s1, s2, th1.phase.next, th2.phase.next)
    ensures ClearedBetween(s, s2, th.phase.next, th2.phase.next)
  {
  }

  /**
    Main result for clear: it is atomic. From the instant its last lock is taken, and
    whatever the other threads do, none of their operations takes effect and no bucket
    changes but by the clear, until the clear has emptied its last bucket; the log has
    then grown by the clear alone, from the map that the buckets stood for when the last
    lock was taken to the map that they stand for now, which is empty.
   */
  lemma ClearIsAtomic<V>(writersFirst: bool, h: int -> nat, s: State<V>, t: nat, moves: seq<Move<V>>, u: nat, c: Choice<V>)
    requires Invariant(h, s) && |s.buckets| > 0 && Enabled(s, t, Go) && IsLastLock(s, t, Go)
    requires s.threads[t].op.Clear?
    requires Possible(writersFirst, h, Step(h, s, t, Go), moves) && StartsNothing(moves, t)
    requires var s' := After(writersFirst, h, Step(h, s, t, Go), moves);
             t < |s'.threads| && IsClearing(s'.threads[t]) && |s'.buckets| > 0 && Enabled(s', u, c)
    ensures var s' := After(writersFirst, h, Step(h, s, t, Go), moves);
            var e := Step(h, s', u, c);
            && s'.log == e.log == s.log + [Entry(t, Op.Clear, AllContents(s.buckets), map[])]
            && |s'.buckets| == |s.buckets|
            && (forall i :: 0 <= i < |s.buckets| ==>
                  s'.buckets[i] == if i < s'.threads[t].phase.next then [] else s.buckets[i])
            && (u != t ==> e.buckets == s'.buckets)
            && t < |e.threads|
            && (!IsClearing(e.threads[t]) ==>
                  AllContents(e.buckets) == map[] && forall i :: 0 <= i < |e.buckets| ==> e.buckets[i] == [])
  {
    hide Invariant, Enabled, Step, After, Possible, StartsNothing, AllContents, CanLock, Waits, Conflicts, Holds;
    var s1 := Step(h, s, t, Go);
    var s' := After(writersFirst, h, s1, moves);
    ClearStarts(h, s, t);
    StepKeepsInvariant(h, s, t, Go);
    ClearingRun(writersFirst, h, s1, t, moves);
    InvariantAfter(writersFirst, h, s1, moves);
    ClearingStep(h, s', t, u, c);
    if u != t {
      OthersWaitForClear(h, s', t, u, c);
    }
    EmptyIsEmpty(Step(h, s', u, c).buckets);
  }

  lemma ClearStarts<V>(h: int -> nat, s: State<V>, t: nat)
    requires Invariant(h, s) && |s.buckets| > 0 && Enabled(s, t, Go) && IsLastLock(s, t, Go)
    requires s.threads[t].op.Clear?
    ensures var s' := Step(h, s, t, Go);
            && |s'.threads| == |s.threads| && s'.threads[t].Running? && s'.threads[t].op.Clear?
            && s'.threads[t].phase == Working(0)
            && s'.buckets == s.buckets
            && s'.log == s.log + [Entry(t, Op.Clear, AllContents(s.buckets), map[])]
  {
    hide Ordered, KnowsEffect, AllContents, View, MutualExclusion, CanLock, LocksInOrder, IsHistory;
    NothingToClearAtLastLock(h, s, t);
  }

  // ---------------------------------------------------------------------------------
  // Progress
  // ---------------------------------------------------------------------------------

  /** Whether a thread can go on with its operation. */
  ghost predicate GoesOn<V>(writersFirst: bool, s: State<V>, t: nat) {
    Allowed(writersFirst, s, t, Go) || exists i: nat :: Allowed(writersFirst, s, t, Release(i))
  }

  /** A thread that waits for the highest lock, if all unfinished operations wait. */
  lemma {:induction false} HighestWaiting<V>(threads: seq<Thread<V>>) returns (t: nat)
    requires exists u :: 0 <= u < |threads| && threads[u].Running?
    requires forall u :: 0 <= u < |threads| && threads[u].Running? ==> threads[u].phase.Locking?
    ensures t < |threads| && threads[t].Running?
    ensures forall u :: 0 <= u < |threads| && threads[u].Running? ==> threads[u].phase.next <= threads[t].phase.next
  {
    t :| 0 <= t < |threads| && threads[t].Running?;
    for i := 0 to |threads|
      invariant t < |threads| && threads[t].Running?
      invariant forall u :: 0 <= u < i && threads[u].Running? ==> threads[u].phase.next <= threads[t].phase.next
    {
      if threads[i].Running? && threads[i].phase.next > threads[t].phase.next {
        t := i;
      }
    }
  }

  /** Nobody holds the highest lock that is waited for. */
  lemma HighestIsFree<V>(h: int -> nat, s: State<V>, i: nat, u: nat)
    requires Invariant(h, s) && u < |s.threads|
    requires s.threads[u].Running? ==> s.threads[u].phase.Locking? && s.threads[u].phase.next <= i
    ensures !Holds(s.threads[u], i)
  {
    hide Ordered, KnowsEffect, AllContents, View, MutualExclusion, IsHistory;
    SomeBuckets(h, s.buckets);
    assert LocksInOrder(h, |s.buckets|, s.threads[u]);
  }

  /** An operation that waits for no lock can go on. */
  lemma NotWaitingGoesOn<V>(h: int -> nat, writersFirst: bool, s: State<V>, t: nat)
    requires Invariant(h, s) && t < |s.threads| && s.threads[t].Running? && !s.threads[t].phase.Locking?
    ensures GoesOn(writersFirst, s, t)
  {
    hide Ordered, KnowsEffect, AllContents, View, MutualExclusion, IsHistory;
    SomeBuckets(h, s.buckets);
    assert LocksInOrder(h, |s.buckets|, s.threads[t]);
    if s.threads[t].phase.Unlocking? && s.threads[t].held != {} {
      var i :| i in s.threads[t].held;
      assert Allowed(writersFirst, s, t, Release(i));
    }
  }

  /**
    Main result for locking: in every reachable state with an unfinished operation, some
    unfinished operation can go on, whether or not waiting writers have priority.
   */
  lemma NoDeadlock<V>(h: int -> nat, writersFirst: bool, s: State<V>, unfinished: nat)
    requires Invariant(h, s) && unfinished < |s.threads| && s.threads[unfinished].Running?
    ensures exists t: nat :: GoesOn(writersFirst, s, t)
  {
    hide Invariant, GoesOn;
    if t :| 0 <= t < |s.threads| && s.threads[t].Running? && !s.threads[t].phase.Locking? {
      NotWaitingGoesOn(h, writersFirst, s, t);
    } else {
      var t := HighestWaiting(s.threads);
      var i := s.threads[t].phase.next;
      forall u | 0 <= u < |s.threads|
        ensures !Holds(s.threads[u], i)
      {
        HighestIsFree(h, s, i, u);
      }
      hide Holds;
      if u :| 0 <= u < |s.threads| && Waits(s.threads[u], i) && s.threads[u].op.IsExclusive() {
        WaiterGoesOn(writersFirst, s, u, i);
      } else {
        WaiterGoesOn(writersFirst, s, t, i);
      }
    }
  }

  lemma WaiterGoesOn<V>(writersFirst: bool, s: State<V>, t: nat, i: nat)
    requires t < |s.threads| && Waits(s.threads[t], i)
    requires forall u :: 0 <= u < |s.threads| ==> !Holds(s.threads[u], i)
    requires !WriterWaits(s, t, i)
    ensures GoesOn(writersFirst, s, t)
  {
  }

  // ---------------------------------------------------------------------------------
  // Termination
  // ---------------------------------------------------------------------------------

  /** A bound on the steps that an operation has left. */
  function StepsLeft<V>(th: Thread<V>, n: nat): nat {
    if th.Idle? then 0
    else
      match th.phase
      case Locking(i) => if i <= n then 3 * n - i + 2 else 0
      case Working(i) => if i <= n then 2 * n - i + 1 else 0
      case Unlocking => |th.held| + 1
  }

  function AllStepsLeft<V>(threads: seq<Thread<V>>, n: nat): nat {
    if threads == [] then 0 else StepsLeft(threads[0], n) + AllStepsLeft(threads[1..], n)
  }

  lemma {:induction false} OneThreadsSteps<V>(threads: seq<Thread<V>>, n: nat, t: nat, th: Thread<V>)
    requires t < |threads|
    ensures AllStepsLeft(threads[t := th], n) == AllStepsLeft(threads, n) - StepsLeft(threads[t], n) + StepsLeft(th, n)
  {
    if t == 0 {
      assert threads[t := th][1..] == threads[1..];
    } else {
      OneThreadsSteps(threads[1..], n, t - 1, th);
      assert threads[t := th][1..] == threads[1..][t - 1 := th];
    }
  }

  /** Locks are few. */
  lemma {:induction false} BoundedLocks(held: set<nat>, n: nat)
    requires forall i: nat :: i in held ==> i < n
    ensures |held| <= n
  {
    if n == 0 {
      assert held == {};
    } else {
      BoundedLocks(held - {n - 1}, n - 1);
    }
  }

  lemma HeldLocks<V>(h: int -> nat, s: State<V>, t: nat)
    requires Invariant(h, s) && t < |s.threads| && s.threads[t].Running?
    ensures |s.threads[t].held| <= |s.buckets|
  {
    hide Ordered, KnowsEffect, AllContents, View, MutualExclusion, IsHistory;
    SomeBuckets(h, s.buckets);
    forall i: nat | i in s.threads[t].held
      ensures i < |s.buckets|
    {
      LocksAreBuckets(h, s, t, i);
    }
    BoundedLocks(s.threads[t].held, |s.buckets|);
  }

  /** Going on brings an operation nearer to its end. */
  lemma GoingOnUsesSteps<V>(h: int -> nat, s: State<V>, t: nat, c: Choice<V>)
    requires Invariant(h, s) && |s.buckets| > 0 && Enabled(s, t, c) && !c.Start?
    ensures var s' := Step(h, s, t, c);
            AllStepsLeft(s'.threads, |s.buckets|) < AllStepsLeft(s.threads, |s.buckets|)
  {
    hide Ordered, KnowsEffect, AllContents, View, MutualExclusion, IsHistory, AllStepsLeft, CanLock;
    var s' := Step(h, s, t, c);
    var n := |s.buckets|;
    assert LocksInOrder(h, n, s.threads[t]);
    HeldLocks(h, s, t);
    StepFrame(h, s, t, c);
    assert s'.threads == s.threads[t := s'.threads[t]];
    OneThreadsSteps(s.threads, n, t, s'.threads[t]);
  }

  /** No thread can do anything but start an operation. */
  ghost predicate NothingGoesOn<V>(writersFirst: bool, s: State<V>) {
    forall t: nat :: !GoesOn(writersFirst, s, t)
  }

  predicate NoStart<V>(moves: seq<Move<V>>) {
    forall i :: 0 <= i < |moves| ==> !moves[i].choice.Start?
  }

  /**
    Main result for progress: once no more operations are started, the threads make no
    more than a known number of moves, and when they can make no more, all have returned.
   */
  lemma {:induction false} OperationsEnd<V>(writersFirst: bool, h: int -> nat, s: State<V>, moves: seq<Move<V>>)
    requires Invariant(h, s) && |s.buckets| > 0 && Possible(writersFirst, h, s, moves) && NoStart(moves)
    ensures |moves| <= AllStepsLeft(s.threads, |s.buckets|)
    ensures var s' := After(writersFirst, h, s, moves);
            NothingGoesOn(writersFirst, s') ==> forall t :: 0 <= t < |s'.threads| ==> s'.threads[t].Idle?
    decreases |moves|
  {
    hide Invariant, Enabled, Step, AllStepsLeft;
    if moves == [] {
      if t :| 0 <= t < |s.threads| && s.threads[t].Running? {
        NoDeadlock(h, writersFirst, s, t);
      }
    } else {
      var m := moves[0];
      StepKeepsInvariant(h, s, m.thread, m.choice);
      GoingOnUsesSteps(h, s, m.thread, m.choice);
      StepFrame(h, s, m.thread, m.choice);
      OperationsEnd(writersFirst, h, Step(h, s, m.thread, m.choice), moves[1..]);
      hide NothingGoesOn;
    }
  }
}
