/**
  The map of threadsafe_hash_map.hpp used by many threads: a transition system in which
  each step takes one lock, works on one bucket, or releases one lock. A log records each
  operation at the instant it takes effect.
 */
module ConcurrentMaps {
  import opened HashMaps

  datatype Op<+V> =
    | Find(key: int, default: Pair<V>)
    | Insert(pair: Pair<V>)
    | Erase(key: int)
    | Empty
    | Data
    | Clear
  {
    predicate IsWhole() { Empty? || Data? || Clear? }

    /** Whether the operation locks for writing. */
    predicate IsExclusive() { Insert? || Erase? || Clear? }

    function Key(): int
      requires !IsWhole()
    {
      match this
      case Find(key, _) => key
      case Insert(pair) => pair.key
      case Erase(key) => key
    }
  }

  /** What an operation returns; also what it has collected so far. */
  datatype Result<+V> = Nothing | OnePair(pair: Pair<V>) | Pairs(pairs: seq<Pair<V>>) | Answer(empty: bool)

  /** Locking or working on bucket `next`, or done and releasing locks. */
  datatype Phase = Locking(next: nat) | Working(next: nat) | Unlocking

  /** A thread: `at` is the place of its operation in the log once it has taken effect. */
  datatype Thread<+V> =
    | Idle
    | Running(op: Op<V>, phase: Phase, held: set<nat>, result: Result<V>, at: nat)

  /** An operation that has taken effect, with the map before and after it. */
  datatype Entry<+V> = Entry(thread: nat, op: Op<V>, before: map<int, V>, after: map<int, V>)

  datatype State<+V> = State(buckets: seq<Bucket<V>>, threads: seq<Thread<V>>, log: seq<Entry<V>>)

  /** The map that the first `i` operations of a log have made. */
  function MapAfter<V>(log: seq<Entry<V>>, i: nat): map<int, V>
    requires i <= |log|
  {
    if i == 0 then map[] else log[i - 1].after
  }

  /** The map that the operations logged so far have made. */
  function Current<V>(s: State<V>): map<int, V> {
    MapAfter(s.log, |s.log|)
  }

  function SetThread<V>(s: State<V>, t: nat, thread: Thread<V>): State<V>
    requires t < |s.threads|
  {
    s.(threads := s.threads[t := thread])
  }

  function Logged<V>(s: State<V>, t: nat, op: Op<V>, after: map<int, V>): State<V> {
    s.(log := s.log + [Entry(t, op, Current(s), after)])
  }

  // ---------------------------------------------------------------------------------
  // Steps
  // ---------------------------------------------------------------------------------

  /** A thread starts an operation, goes on with it, or releases a lock when it is done. */
  datatype Choice<+V> = Start(op: Op<V>) | Go | Release(bucket: nat)

  predicate Waits<V>(th: Thread<V>, i: nat) { th.Running? && th.phase == Locking(i) }

  predicate Holds<V>(th: Thread<V>, i: nat) { th.Running? && i in th.held }

  predicate Conflicts<V>(a: Op<V>, b: Op<V>) { a.IsExclusive() || b.IsExclusive() }

  /** Whether the lock of bucket `i` can be taken: nobody holds it in a conflicting mode. */
  predicate CanLock<V>(s: State<V>, t: nat, i: nat)
    requires t < |s.threads| && s.threads[t].Running?
  {
    forall u :: 0 <= u < |s.threads| && u != t && Holds(s.threads[u], i) ==>
      !Conflicts(s.threads[t].op, s.threads[u].op)
  }

  /** A lock may also make readers wait while a writer waits. */
  predicate WriterWaits<V>(s: State<V>, t: nat, i: nat)
    requires t < |s.threads| && s.threads[t].Running?
  {
    && !s.threads[t].op.IsExclusive()
    && exists u :: 0 <= u < |s.threads| && Waits(s.threads[u], i) && s.threads[u].op.IsExclusive()
  }

  predicate Enabled<V>(s: State<V>, t: nat, c: Choice<V>) {
    && t < |s.threads|
    && match c
       case Start(_) => s.threads[t].Idle?
       case Release(i) => s.threads[t].Running? && s.threads[t].phase.Unlocking? && i in s.threads[t].held
       case Go =>
         && s.threads[t].Running?
         && match s.threads[t].phase
            case Locking(i) => CanLock(s, t, i)
            case Working(i) => i < |s.buckets|
            case Unlocking => s.threads[t].held == {}
  }

  /** A step that is enabled, and allowed where waiting writers may have priority. */
  predicate Allowed<V>(writersFirst: bool, s: State<V>, t: nat, c: Choice<V>) {
    && Enabled(s, t, c)
    && (writersFirst && c.Go? && s.threads[t].phase.Locking? ==> !WriterWaits(s, t, s.threads[t].phase.next))
  }

  /** The bucket that an operation locks first. */
  function FirstLock<V>(h: int -> nat, n: nat, op: Op<V>): nat
    requires n > 0
  {
    if op.IsWhole() then 0 else IndexOf(h, n, op.Key())
  }

  /** A lock is taken. With the last one, a whole-map operation takes effect. */
  function Lock<V>(s: State<V>, t: nat, i: nat): State<V>
    requires t < |s.threads| && s.threads[t].Running?
  {
    var th := s.threads[t].(held := s.threads[t].held + {i});
    if !th.op.IsWhole() then SetThread(s, t, th.(phase := Working(i)))
    else if i + 1 < |s.buckets| then SetThread(s, t, th.(phase := Locking(i + 1)))
    else
      var after := if th.op.Clear? then map[] else Current(s);
      SetThread(Logged(s, t, th.op, after), t, th.(phase := Working(0), at := |s.log|))
  }

  /** The map that a bucket update leaves behind. */
  function WithBucket<V>(s: State<V>, i: nat, b: Bucket<V>): State<V>
    requires i < |s.buckets|
  {
    s.(buckets := s.buckets[i := b])
  }

  /** A single-key operation works, and takes effect, while it holds its bucket. */
  function WorkOnKey<V>(s: State<V>, t: nat, i: nat): State<V>
    requires t < |s.threads| && s.threads[t].Running? && !s.threads[t].op.IsWhole() && i < |s.buckets|
  {
    var th := s.threads[t].(phase := Unlocking, at := |s.log|);
    match th.op
    case Find(key, default) =>
      SetThread(Logged(s, t, th.op, Current(s)), t,
                th.(result := OnePair(ValueFor(s.buckets[i], key, default))))
    case Insert(pair) =>
      SetThread(Logged(WithBucket(s, i, AddOrUpdate(s.buckets[i], pair)), t, th.op,
                       Current(s)[pair.key := pair.value]), t, th.(result := Nothing))
    case Erase(key) =>
      var b := s.buckets[i];
      var p := Position(b, key);
      SetThread(Logged(WithBucket(s, i, Remove(b, key)), t, th.op,
                       if p < |b| then Current(s) - {b[p].key} else Current(s)), t, th.(result := Nothing))
  }

  function NextPhase(i: nat, n: nat): Phase {
    if i + 1 < n then Working(i + 1) else Unlocking
  }

  /** A whole-map operation works on one bucket after the other. */
  function WorkOnAll<V>(s: State<V>, t: nat, i: nat): State<V>
    requires t < |s.threads| && s.threads[t].Running? && s.threads[t].op.IsWhole() && i < |s.buckets|
  {
    var th := s.threads[t].(phase := NextPhase(i, |s.buckets|));
    match th.op
    case Clear => SetThread(WithBucket(s, i, []), t, th)
    case Data =>
      var pairs := if th.result.Pairs? then th.result.pairs else [];
      SetThread(s, t, th.(result := Pairs(pairs + s.buckets[i])))
    case Empty =>
      if s.buckets[i] != [] then SetThread(s, t, th.(phase := Unlocking, result := Answer(false)))
      else SetThread(s, t, th.(result := Answer(true)))
  }

  function Step<V>(h: int -> nat, s: State<V>, t: nat, c: Choice<V>): (s': State<V>)
    requires |s.buckets| > 0 && Enabled(s, t, c)
    ensures |s'.buckets| == |s.buckets|
  {
    var th := s.threads[t];
    match c
    case Start(op) =>
      SetThread(s, t, Running(op, Locking(FirstLock(h, |s.buckets|, op)), {}, Nothing, 0))
    case Release(i) => SetThread(s, t, th.(held := th.held - {i}))
    case Go =>
      match th.phase
      case Locking(i) => Lock(s, t, i)
      case Working(i) => if th.op.IsWhole() then WorkOnAll(s, t, i) else WorkOnKey(s, t, i)
      case Unlocking => SetThread(s, t, Idle)
  }

  // ---------------------------------------------------------------------------------
  // The invariant
  // ---------------------------------------------------------------------------------

  /** The locks that a thread holds in each phase. */
  ghost predicate LocksInOrder<V>(h: int -> nat, n: nat, th: Thread<V>)
    requires n > 0
  {
    th.Running? ==>
      if th.op.IsWhole() then
        match th.phase
        case Locking(i) => i < n && forall j: nat :: j in th.held <==> j < i
        case Working(i) => i < n && forall j: nat :: j in th.held <==> j < n
        case Unlocking => forall j: nat :: j in th.held ==> j < n
      else
        var k := IndexOf(h, n, th.op.Key());
        match th.phase
        case Locking(i) => i == k && th.held == {}
        case Working(i) => i == k && th.held == {k}
        case Unlocking => th.held <= {k}
  }

  /** No two threads hold a bucket in conflicting modes. */
  ghost predicate MutualExclusion<V>(s: State<V>) {
    forall t, u, i :: 0 <= t < |s.threads| && 0 <= u < |s.threads| && t != u ==>
      (Holds(s.threads[t], i) && Holds(s.threads[u], i) ==> !Conflicts(s.threads[t].op, s.threads[u].op))
  }

  /** Whether a clear that has taken effect has yet to empty bucket `i`. */
  ghost predicate ToBeCleared<V>(s: State<V>, i: nat) {
    exists t :: 0 <= t < |s.threads| && Clears(s.threads[t], i)
  }

  predicate Clears<V>(th: Thread<V>, i: nat) {
    th.Running? && th.op.Clear? && th.phase.Working? && th.phase.next <= i
  }

  /** The buckets as the log has them. */
  ghost function View<V>(s: State<V>): (v: seq<Bucket<V>>)
    ensures |v| == |s.buckets|
    ensures forall i :: 0 <= i < |v| ==> v[i] == if ToBeCleared(s, i) then [] else s.buckets[i]
  {
    seq(|s.buckets|, i requires 0 <= i < |s.buckets| => if ToBeCleared(s, i) then [] else s.buckets[i])
  }

  /** Whether `k` is the least key in the map, of those in the bucket of `key`, that is not below it. */
  ghost predicate IsNext<V>(h: int -> nat, n: nat, m: map<int, V>, key: int, k: int)
    requires n > 0
  {
    && k in m && k >= key && IndexOf(h, n, k) == IndexOf(h, n, key)
    && forall k' :: k' in m && k' >= key && IndexOf(h, n, k') == IndexOf(h, n, key) ==> k <= k'
  }

  /** The effect that an operation has on the map. */
  ghost predicate HasEffect<V>(h: int -> nat, n: nat, e: Entry<V>)
    requires n > 0
  {
    match e.op
    case Find(_, _) => e.after == e.before
    case Empty => e.after == e.before
    case Data => e.after == e.before
    case Clear => e.after == map[]
    case Insert(pair) => e.after == e.before[pair.key := pair.value]
    case Erase(key) =>
      || (exists k :: IsNext(h, n, e.before, key, k) && e.after == e.before - {k})
      || ((forall k :: !IsNext(h, n, e.before, key, k)) && e.after == e.before)
  }

  /** The log is a sequential history that starts with the empty map. */
  ghost predicate IsHistory<V>(h: int -> nat, n: nat, log: seq<Entry<V>>)
    requires n > 0
  {
    forall i :: 0 <= i < |log| ==>
      && HasEffect(h, n, log[i])
      && log[i].before == MapAfter(log, i)
  }

  /** The result that an operation must return when it takes effect on the map `m`. */
  ghost predicate IsResult<V>(op: Op<V>, m: map<int, V>, result: Result<V>) {
    match op
    case Find(key, default) => result == OnePair(if key in m then Pair(key, m[key]) else default)
    case Data => result.Pairs? && Lists(result.pairs, m)
    case Empty => result == Answer(m == map[])
    case _ => true
  }

  /** What a whole-map reader has collected from the buckets before `i`. */
  ghost predicate HasCollected<V>(s: State<V>, th: Thread<V>)
    requires th.Running? && th.phase.Working? && th.phase.next < |s.buckets| && th.at < |s.log|
  {
    var i := th.phase.next;
    match th.op
    case Data =>
      && s.log[th.at].before == AllContents(s.buckets)
      && AllPairs(s.buckets[..i]) == (if th.result.Pairs? then th.result.pairs else [])
      && (i > 0 ==> th.result.Pairs?)
    case Empty =>
      && s.log[th.at].before == AllContents(s.buckets)
      && (forall j :: 0 <= j < i ==> s.buckets[j] == [])
      && (i > 0 ==> th.result == Answer(true))
    case _ => true
  }

  /** Whether the operation of a thread has taken effect. */
  predicate TookEffect<V>(th: Thread<V>) {
    th.Running? && (th.phase.Unlocking? || (th.phase.Working? && th.op.IsWhole()))
  }

  /** A thread whose operation has taken effect knows it from the log. */
  ghost predicate KnowsEffect<V>(s: State<V>, t: nat)
    requires t < |s.threads|
  {
    var th := s.threads[t];
    && (th.Running? && th.phase.Locking? ==> th.result == Nothing)
    && (TookEffect(th) ==>
          && th.at < |s.log|
          && s.log[th.at].thread == t && s.log[th.at].op == th.op
          && (th.phase.Unlocking? ==> IsResult(th.op, s.log[th.at].before, th.result))
          && (th.phase.Working? && th.phase.next < |s.buckets| ==> HasCollected(s, th)))
  }

  ghost predicate Invariant<V>(h: int -> nat, s: State<V>) {
    && Ordered(h, s.buckets)
    && (forall t :: 0 <= t < |s.threads| ==> LocksInOrder(h, |s.buckets|, s.threads[t]))
    && MutualExclusion(s)
    && Current(s) == AllContents(View(s))
    && IsHistory(h, |s.buckets|, s.log)
    && (forall t :: 0 <= t < |s.threads| ==> KnowsEffect(s, t))
  }
}
