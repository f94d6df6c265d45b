/**
  Every step of the concurrent map keeps its invariant: the locks exclude each other, the
  buckets stay ordered, the log stays a sequential history that ends in the map the
  buckets stand for, and every operation has the result of the instant it took effect.
 */
module ConcurrentSafety {
  import opened HashMaps
  import opened ConcurrentMaps

  /** What a step leaves alone, and what it may add to the log. */
  lemma StepFrame<V>(h: int -> nat, s: State<V>, t: nat, c: Choice<V>)
    requires |s.buckets| > 0 && Enabled(s, t, c)
    ensures var s' := Step(h, s, t, c);
            && |s'.buckets| == |s.buckets| && |s'.threads| == |s.threads|
            && (forall u :: 0 <= u < |s.threads| && u != t ==> s'.threads[u] == s.threads[u])
            && |s.log| <= |s'.log| <= |s.log| + 1 && s'.log[..|s.log|] == s.log
  {
  }

  /** An operation enters the log once: with the step that makes it take effect. */
  lemma EffectIsLoggedOnce<V>(h: int -> nat, s: State<V>, t: nat, c: Choice<V>)
    requires |s.buckets| > 0 && Enabled(s, t, c)
    ensures var s' := Step(h, s, t, c);
            var th := s.threads[t];
            var th' := s'.threads[t];
            && (|s'.log| == |s.log| + 1 <==> TookEffect(th') && !TookEffect(th))
            && (|s'.log| == |s.log| + 1 ==>
                  && th.Running? && th'.at == |s.log|
                  && s'.log[|s.log|].thread == t && s'.log[|s.log|].op == th.op && s'.log[|s.log|].before == Current(s))
            && (th'.Running? && th.Running? ==> th'.op == th.op && (TookEffect(th) ==> TookEffect(th') && th'.at == th.at))
            && (th.Running? && th'.Idle? ==> TookEffect(th))
  {
  }

  // ---------------------------------------------------------------------------------
  // Locks
  // ---------------------------------------------------------------------------------

  lemma SomeBuckets<V>(h: int -> nat, buckets: seq<Bucket<V>>)
    requires Ordered(h, buckets)
    ensures |buckets| > 0
  {
  }

  lemma LocksAreBuckets<V>(h: int -> nat, s: State<V>, t: nat, k: nat)
    requires Invariant(h, s) && t < |s.threads| && Holds(s.threads[t], k)
    ensures k < |s.buckets|
  {
    hide Ordered, KnowsEffect, IsHistory, AllContents, View, MutualExclusion;
    SomeBuckets(h, s.buckets);
    assert LocksInOrder(h, |s.buckets|, s.threads[t]);
  }

  /** While a thread that is not clearing holds any lock, nothing is left to be cleared. */
  lemma NoClearBeside<V>(h: int -> nat, s: State<V>, t: nat, k: nat)
    requires Invariant(h, s) && t < |s.threads| && Holds(s.threads[t], k) && !s.threads[t].op.Clear?
    ensures forall i :: 0 <= i < |s.buckets| ==> !ToBeCleared(s, i)
  {
    hide Ordered, KnowsEffect, IsHistory, AllContents, View;
    SomeBuckets(h, s.buckets);
    LocksAreBuckets(h, s, t, k);
    forall u, i | 0 <= u < |s.threads| && 0 <= i < |s.buckets|
      ensures !Clears(s.threads[u], i)
    {
      assert LocksInOrder(h, |s.buckets|, s.threads[u]);
    }
  }

  predicate IsReader<V>(op: Op<V>) { op.Find? || op.Empty? || op.Data? }

  /** A lock is free exactly if only readers hold it and a reader asks for it, or nobody else holds it. */
  lemma LockIsFreeExactly<V>(s: State<V>, t: nat, i: nat)
    requires t < |s.threads| && Waits(s.threads[t], i)
    ensures Enabled(s, t, Go) <==>
            forall u :: 0 <= u < |s.threads| && u != t && Holds(s.threads[u], i) ==>
              IsReader(s.threads[t].op) && IsReader(s.threads[u].op)
  {
  }

  lemma LocksKept<V>(h: int -> nat, s: State<V>, t: nat, c: Choice<V>)
    requires Invariant(h, s) && |s.buckets| > 0 && Enabled(s, t, c)
    ensures LocksInOrder(h, |s.buckets|, Step(h, s, t, c).threads[t])
  {
    hide Ordered, KnowsEffect, IsHistory, AllContents, View, MutualExclusion, CanLock;
    assert LocksInOrder(h, |s.buckets|, s.threads[t]);
  }

  lemma ExclusionKept<V>(h: int -> nat, s: State<V>, t: nat, c: Choice<V>)
    requires Invariant(h, s) && |s.buckets| > 0 && Enabled(s, t, c)
    ensures MutualExclusion(Step(h, s, t, c))
  {
    hide Ordered, KnowsEffect, IsHistory, AllContents, View, LocksInOrder;
    StepFrame(h, s, t, c);
    NewLock(h, s, t, c);
    hide Step;
  }

  /** A step adds at most the lock that its thread waits for. */
  lemma NewLock<V>(h: int -> nat, s: State<V>, t: nat, c: Choice<V>)
    requires |s.buckets| > 0 && Enabled(s, t, c)
    ensures var th := s.threads[t];
            var th' := Step(h, s, t, c).threads[t];
            forall i :: Holds(th', i) ==>
                          && th.Running? && th'.op == th.op
                          && (Holds(th, i) || (Waits(th, i) && c.Go? && CanLock(s, t, i)))
  {
    hide CanLock;
  }

  // ---------------------------------------------------------------------------------
  // Buckets
  // ---------------------------------------------------------------------------------

  /** A step changes a bucket only while its thread holds it for writing. */
  lemma OnlyWritersChange<V>(h: int -> nat, s: State<V>, t: nat, c: Choice<V>, i: nat)
    requires Invariant(h, s) && |s.buckets| > 0 && Enabled(s, t, c) && i < |s.buckets|
    ensures Step(h, s, t, c).buckets[i] != s.buckets[i] ==>
              Holds(s.threads[t], i) && s.threads[t].op.IsExclusive()
  {
    hide Ordered, KnowsEffect, IsHistory, AllContents, View, MutualExclusion, CanLock, AddOrUpdate, Remove;
    assert LocksInOrder(h, |s.buckets|, s.threads[t]);
  }

  /** While another thread holds all the locks, no step changes a bucket. */
  lemma BucketsStay<V>(h: int -> nat, s: State<V>, t: nat, c: Choice<V>, u: nat)
    requires Invariant(h, s) && |s.buckets| > 0 && Enabled(s, t, c)
    requires u < |s.threads| && u != t && forall i: nat :: i < |s.buckets| ==> Holds(s.threads[u], i)
    ensures Step(h, s, t, c).buckets == s.buckets
  {
    StepFrame(h, s, t, c);
    var s' := Step(h, s, t, c);
    hide *;
    assert MutualExclusion(s) by { ExclusionOf(h, s); }
    forall i | 0 <= i < |s.buckets|
      ensures s'.buckets[i] == s.buckets[i]
    {
      OnlyWritersChange(h, s, t, c, i);
      NotBoth(s, t, u, i);
    }
  }

  lemma ExclusionOf<V>(h: int -> nat, s: State<V>)
    requires Invariant(h, s)
    ensures MutualExclusion(s) && Ordered(h, s.buckets)
  {
  }

  lemma NotBoth<V>(s: State<V>, t: nat, u: nat, i: nat)
    requires MutualExclusion(s) && t < |s.threads| && u < |s.threads| && u != t && Holds(s.threads[u], i)
    ensures !(Holds(s.threads[t], i) && s.threads[t].op.IsExclusive())
  {
  }

  lemma OrderedKept<V>(h: int -> nat, s: State<V>, t: nat, c: Choice<V>)
    requires Invariant(h, s) && |s.buckets| > 0 && Enabled(s, t, c)
    ensures Ordered(h, Step(h, s, t, c).buckets)
  {
    hide KnowsEffect, IsHistory, AllContents, View, MutualExclusion, CanLock, AddOrUpdate, Remove, Position, Ordered;
    assert LocksInOrder(h, |s.buckets|, s.threads[t]);
    if c.Go? && s.threads[t].phase.Working? {
      var i := s.threads[t].phase.next;
      match s.threads[t].op
      case Insert(pair) => InsertUpdates(h, s.buckets, pair);
      case Erase(key) => EraseRemovesPosition(h, s.buckets, key);
      case Clear => UpdateBucket(h, s.buckets, i, []);
      case _ =>
    }
  }

  // ---------------------------------------------------------------------------------
  // The map
  // ---------------------------------------------------------------------------------

  lemma NothingToClear<V>(s: State<V>)
    requires forall i :: 0 <= i < |s.buckets| ==> !ToBeCleared(s, i)
    ensures View(s) == s.buckets
  {
  }

  /** A thread that neither starts nor goes on with emptying buckets leaves what is to be cleared. */
  lemma ClearsUnchanged<V>(s: State<V>, s': State<V>, t: nat, i: nat)
    requires t < |s.threads| == |s'.threads|
    requires forall u :: 0 <= u < |s.threads| && u != t ==> s'.threads[u] == s.threads[u]
    requires Clears(s'.threads[t], i) <==> Clears(s.threads[t], i)
    ensures ToBeCleared(s', i) <==> ToBeCleared(s, i)
  {
    hide Clears;
    if u :| 0 <= u < |s.threads| && Clears(s.threads[u], i) {
      assert Clears(s'.threads[u], i);
    }
    if u :| 0 <= u < |s.threads| && Clears(s'.threads[u], i) {
      assert Clears(s.threads[u], i);
    }
  }

  /** The work of a single-key operation that holds its bucket, on the map. */
  lemma WorkOnKeyTakesEffect<V>(h: int -> nat, s: State<V>, t: nat)
    requires Invariant(h, s) && |s.buckets| > 0 && Enabled(s, t, Go)
    requires s.threads[t].Running? && s.threads[t].phase.Working? && !s.threads[t].op.IsWhole()
    ensures var s' := Step(h, s, t, Go);
            && Current(s) == AllContents(s.buckets)
            && Current(s') == AllContents(s'.buckets) == AllContents(View(s'))
            && HasEffect(h, |s.buckets|, s'.log[|s.log|])
            && IsResult(s.threads[t].op, Current(s), s'.threads[t].result)
  {
    hide KnowsEffect, IsHistory, AllContents, View, MutualExclusion, CanLock, AddOrUpdate, Remove, Position, Ordered;
    var th := s.threads[t];
    var i := th.phase.next;
    assert LocksInOrder(h, |s.buckets|, th);
    NoClearBeside(h, s, t, i);
    NothingToClear(s);
    NothingToClearAfter(h, s, t);
    match th.op
    case Find(key, default) =>
      KeyIsInItsBucket(h, s.buckets, key);
      SortedBucket(h, s.buckets, i);
      FoundIsContained(s.buckets[i], key);
    case Insert(pair) =>
      InsertUpdates(h, s.buckets, pair);
    case Erase(key) =>
      EraseRemovesPosition(h, s.buckets, key);
      PositionIsNext(h, s.buckets, key);
  }

  lemma SortedBucket<V>(h: int -> nat, buckets: seq<Bucket<V>>, i: nat)
    requires Ordered(h, buckets) && i < |buckets|
    ensures Sorted(buckets[i])
  {
  }

  lemma NothingToClearAfter<V>(h: int -> nat, s: State<V>, t: nat)
    requires |s.buckets| > 0 && Enabled(s, t, Go)
    requires s.threads[t].Running? && s.threads[t].phase.Working? && !s.threads[t].op.IsWhole()
    requires forall i :: 0 <= i < |s.buckets| ==> !ToBeCleared(s, i)
    ensures View(Step(h, s, t, Go)) == Step(h, s, t, Go).buckets
  {
    var s' := Step(h, s, t, Go);
    StepFrame(h, s, t, Go);
    forall i | 0 <= i < |s.buckets|
      ensures !ToBeCleared(s', i)
    {
      ClearsUnchanged(s, s', t, i);
    }
    NothingToClear(s');
  }

  /** What lies at the position of a key: the next key of its bucket. */
  lemma PositionIsNext<V>(h: int -> nat, buckets: seq<Bucket<V>>, key: int)
    requires Ordered(h, buckets)
    ensures var b := buckets[IndexOf(h, |buckets|, key)];
            var p := Position(b, key);
            var m := AllContents(buckets);
            && (p < |b| ==> IsNext(h, |buckets|, m, key, b[p].key))
            && (p == |b| ==> forall k :: !IsNext(h, |buckets|, m, key, k))
  {
    hide Position, AllContents, Contents;
    var n := |buckets|;
    var i := IndexOf(h, n, key);
    var b := buckets[i];
    var p := Position(b, key);
    if p < |b| {
      ContentsAt(b, p);
      KeyIsInItsBucket(h, buckets, b[p].key);
    }
    forall k | k in AllContents(buckets) && k >= key && IndexOf(h, n, k) == i
      ensures p < |b| && b[p].key <= k
    {
      KeyIsInItsBucket(h, buckets, k);
      ContentsHas(b, k);
    }
  }

  /** Erasing a key that is present has the effect of removing it. */
  lemma EraseOfPresentKey<V>(h: int -> nat, n: nat, e: Entry<V>)
    requires n > 0 && e.op.Erase? && HasEffect(h, n, e) && e.op.key in e.before
    ensures e.after == e.before - {e.op.key}
  {
    assert IsNext(h, n, e.before, e.op.key, e.op.key);
  }

  /** Taking its last lock, a whole-map operation finds that nothing is left to be cleared. */
  lemma NothingToClearAtLastLock<V>(h: int -> nat, s: State<V>, t: nat)
    requires Invariant(h, s) && |s.buckets| > 0 && Enabled(s, t, Go)
    requires Waits(s.threads[t], |s.buckets| - 1)
    ensures View(s) == s.buckets
  {
    hide Ordered, KnowsEffect, IsHistory, AllContents, View, MutualExclusion;
    forall u, i | 0 <= u < |s.threads| && 0 <= i < |s.buckets|
      ensures !Clears(s.threads[u], i)
    {
      assert LocksInOrder(h, |s.buckets|, s.threads[u]);
    }
    NothingToClear(s);
  }

  /** Whether a step is the one in which a whole-map operation takes its last lock. */
  predicate IsLastLock<V>(s: State<V>, t: nat, c: Choice<V>) {
    && t < |s.threads| && c.Go? && |s.buckets| > 0
    && Waits(s.threads[t], |s.buckets| - 1) && s.threads[t].op.IsWhole()
  }

  predicate IsWorkOnKey<V>(s: State<V>, t: nat, c: Choice<V>) {
    && t < |s.threads| && c.Go? && s.threads[t].Running? && s.threads[t].phase.Working? && !s.threads[t].op.IsWhole()
  }

  /** Any other step than the two kinds that take effect leaves the map. */
  lemma OtherStepsKeepMap<V>(h: int -> nat, s: State<V>, t: nat, c: Choice<V>)
    requires Invariant(h, s) && |s.buckets| > 0 && Enabled(s, t, c)
    requires !IsLastLock(s, t, c) && !IsWorkOnKey(s, t, c)
    ensures var s' := Step(h, s, t, c); s'.log == s.log && View(s') == View(s)
  {
    hide Ordered, KnowsEffect, IsHistory, AllContents, View, MutualExclusion, CanLock;
    var s' := Step(h, s, t, c);
    assert LocksInOrder(h, |s.buckets|, s.threads[t]);
    StepFrame(h, s, t, c);
    forall i | 0 <= i < |s.buckets|
      ensures View(s')[i] == View(s)[i]
    {
      if c.Go? && Clears(s.threads[t], i) && s.threads[t].phase.next == i {
        assert ToBeCleared(s, i);
        assert s'.buckets[i] == [];
      } else {
        ClearsUnchanged(s, s', t, i);
      }
    }
  }

  /** A clear empties the map with its last lock. */
  lemma ClearTakesEffect<V>(h: int -> nat, s: State<V>, t: nat)
    requires Invariant(h, s) && |s.buckets| > 0 && Enabled(s, t, Go)
    requires IsLastLock(s, t, Go) && s.threads[t].op.Clear?
    ensures AllContents(View(Step(h, s, t, Go))) == map[]
  {
    hide Ordered, KnowsEffect, IsHistory, AllContents, MutualExclusion, CanLock, LocksInOrder;
    var s' := Step(h, s, t, Go);
    forall i | 0 <= i < |s.buckets|
      ensures View(s')[i] == []
    {
      assert Clears(s'.threads[t], i);
      assert ToBeCleared(s', i);
    }
    EmptyIsEmpty(View(s'));
  }

  /** A reader of the whole map changes nothing with its last lock. */
  lemma ReaderKeepsView<V>(h: int -> nat, s: State<V>, t: nat)
    requires Invariant(h, s) && |s.buckets| > 0 && Enabled(s, t, Go)
    requires IsLastLock(s, t, Go) && !s.threads[t].op.Clear?
    ensures View(Step(h, s, t, Go)) == View(s)
  {
    hide Ordered, KnowsEffect, IsHistory, AllContents, View, MutualExclusion, CanLock, LocksInOrder;
    var s' := Step(h, s, t, Go);
    StepFrame(h, s, t, Go);
    forall i | 0 <= i < |s.buckets|
      ensures View(s')[i] == View(s)[i]
    {
      ClearsUnchanged(s, s', t, i);
    }
  }

  lemma CurrentKept<V>(h: int -> nat, s: State<V>, t: nat, c: Choice<V>)
    requires Invariant(h, s) && |s.buckets| > 0 && Enabled(s, t, c)
    ensures var s' := Step(h, s, t, c); Current(s') == AllContents(View(s'))
  {
    hide Ordered, KnowsEffect, IsHistory, AllContents, View, MutualExclusion, CanLock, LocksInOrder;
    if IsWorkOnKey(s, t, c) {
      WorkOnKeyTakesEffect(h, s, t);
    } else if !IsLastLock(s, t, c) {
      OtherStepsKeepMap(h, s, t, c);
    } else if s.threads[t].op.Clear? {
      ClearTakesEffect(h, s, t);
    } else {
      ReaderKeepsView(h, s, t);
    }
  }

  lemma HistoryGrows<V>(h: int -> nat, n: nat, log: seq<Entry<V>>, e: Entry<V>)
    requires n > 0 && IsHistory(h, n, log) && HasEffect(h, n, e)
    requires e.before == MapAfter(log, |log|)
    ensures IsHistory(h, n, log + [e])
  {
    hide HasEffect;
    var all := log + [e];
    forall i | 0 <= i < |all|
      ensures HasEffect(h, n, all[i]) && all[i].before == MapAfter(all, i)
    {
      assert i < |log| ==> all[i] == log[i];
    }
  }

  lemma HistoryKept<V>(h: int -> nat, s: State<V>, t: nat, c: Choice<V>)
    requires Invariant(h, s) && |s.buckets| > 0 && Enabled(s, t, c)
    ensures IsHistory(h, |s.buckets|, Step(h, s, t, c).log)
  {
    hide Ordered, KnowsEffect, AllContents, View, MutualExclusion, CanLock, LocksInOrder;
    var s' := Step(h, s, t, c);
    StepFrame(h, s, t, c);
    EffectIsLoggedOnce(h, s, t, c);
    if IsWorkOnKey(s, t, c) {
      WorkOnKeyTakesEffect(h, s, t);
    } else if !IsLastLock(s, t, c) {
      OtherStepsKeepMap(h, s, t, c);
    }
    if |s'.log| > |s.log| {
      HistoryGrows(h, |s.buckets|, s.log, s'.log[|s.log|]);
      assert s'.log == s.log + [s'.log[|s.log|]];
    } else {
      assert s'.log == s.log;
    }
  }

  // ---------------------------------------------------------------------------------
  // Results
  // ---------------------------------------------------------------------------------

  /** The other threads know what they knew. */
  lemma OthersKnow<V>(h: int -> nat, s: State<V>, t: nat, c: Choice<V>, u: nat)
    requires Invariant(h, s) && |s.buckets| > 0 && Enabled(s, t, c)
    requires u < |s.threads| && u != t
    ensures var s' := Step(h, s, t, c); |s'.threads| == |s.threads| && KnowsEffect(s', u)
  {
    hide Ordered, AllContents, View, MutualExclusion, CanLock, IsHistory, Lists, AllPairs;
    var s' := Step(h, s, t, c);
    StepFrame(h, s, t, c);
    var th := s.threads[u];
    assert KnowsEffect(s, u);
    assert LocksInOrder(h, |s.buckets|, th);
    if TookEffect(th) {
      assert s'.log[th.at] == s'.log[..|s.log|][th.at];
      if th.phase.Working? {
        BucketsStay(h, s, t, c, u);
      }
    }
  }

  /** A reader of the whole map goes on to the next bucket, or is done. */
  lemma ReaderKnows<V>(h: int -> nat, s: State<V>, t: nat)
    requires Invariant(h, s) && |s.buckets| > 0 && Enabled(s, t, Go)
    requires s.threads[t].Running? && s.threads[t].phase.Working? && s.threads[t].op.IsWhole()
    ensures KnowsEffect(Step(h, s, t, Go), t)
  {
    hide Ordered, AllContents, View, MutualExclusion, CanLock, IsHistory, Lists, AllPairs;
    var th := s.threads[t];
    var i := th.phase.next;
    assert KnowsEffect(s, t);
    assert HasCollected(s, th);
    match th.op
    case Data =>
      AllPairsNext(s.buckets, i);
      if i + 1 == |s.buckets| {
        assert s.buckets[..i + 1] == s.buckets;
        OrderedIsDisjoint(h, s.buckets);
        DataListsContents(s.buckets);
      }
    case Empty =>
      EmptyIsEmpty(s.buckets);
    case Clear =>
  }

  lemma AllPairsNext<V>(buckets: seq<Bucket<V>>, i: nat)
    requires i < |buckets|
    ensures AllPairs(buckets[..i]) + buckets[i] == AllPairs(buckets[..i + 1])
    ensures i == 0 ==> AllPairs(buckets[..i]) == []
  {
    assert buckets[..i + 1][..i] == buckets[..i];
  }

  lemma ThreadKnows<V>(h: int -> nat, s: State<V>, t: nat, c: Choice<V>)
    requires Invariant(h, s) && |s.buckets| > 0 && Enabled(s, t, c)
    ensures KnowsEffect(Step(h, s, t, c), t)
  {
    hide Ordered, AllContents, View, MutualExclusion, CanLock, IsHistory, Lists, AllPairs;
    var th := s.threads[t];
    StepFrame(h, s, t, c);
    assert KnowsEffect(s, t);
    assert LocksInOrder(h, |s.buckets|, th);
    if c.Go? && th.phase.Working? {
      if th.op.IsWhole() {
        ReaderKnows(h, s, t);
      } else {
        WorkOnKeyTakesEffect(h, s, t);
      }
    } else if IsLastLock(s, t, c) {
      NothingToClearAtLastLock(h, s, t);
      AllPairsNext(s.buckets, 0);
    }
  }

  // ---------------------------------------------------------------------------------
  // Main results
  // ---------------------------------------------------------------------------------

  /** Main result: every step of every thread keeps the invariant. */
  lemma StepKeepsInvariant<V>(h: int -> nat, s: State<V>, t: nat, c: Choice<V>)
    requires Invariant(h, s) && |s.buckets| > 0 && Enabled(s, t, c)
    ensures Invariant(h, Step(h, s, t, c))
  {
    var s' := Step(h, s, t, c);
    StepFrame(h, s, t, c);
    OrderedKept(h, s, t, c);
    ExclusionKept(h, s, t, c);
    CurrentKept(h, s, t, c);
    HistoryKept(h, s, t, c);
    LocksKept(h, s, t, c);
    ThreadKnows(h, s, t, c);
    hide Step, Enabled, Ordered, MutualExclusion, IsHistory, LocksInOrder, KnowsEffect, Current, View;
    forall u | 0 <= u < |s.threads| && u != t
      ensures LocksInOrder(h, |s'.buckets|, s'.threads[u]) && KnowsEffect(s', u)
    {
      OthersKnow(h, s, t, c, u);
      assert LocksInOrder(h, |s.buckets|, s.threads[u]);
    }
  }
}
