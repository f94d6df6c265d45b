/**
  The bucketed map of threadsafe_hash_map.hpp, one operation at a time: sorted vectors of
  key, value pairs, and the mathematical map that they stand for. Keys are integers, with
  any hash function; values are of any type.
 */
module HashMaps {
  datatype Pair<+V> = Pair(key: int, value: V)

  /** The data of a bucket. */
  type Bucket<+V> = seq<Pair<V>>

  ghost predicate Sorted<V>(b: Bucket<V>) {
    forall i, j :: 0 <= i < j < |b| ==> b[i].key < b[j].key
  }

  /** std::lower_bound: where a key is, or where it would be inserted. */
  function Position<V>(b: Bucket<V>, key: int): (p: nat)
    ensures p <= |b|
    ensures forall i :: 0 <= i < p ==> b[i].key < key
    ensures p < |b| ==> b[p].key >= key
  {
    if b == [] || b[0].key >= key then 0
    else
      var p := Position(b[1..], key) + 1;
      assert forall i :: 1 <= i < p ==> b[i] == b[1..][i - 1];
      p
  }

  predicate Found<V>(b: Bucket<V>, key: int) {
    var p := Position(b, key);
    p < |b| && b[p].key == key
  }

  /** value_for */
  function ValueFor<V>(b: Bucket<V>, key: int, default: Pair<V>): Pair<V> {
    if Found(b, key) then b[Position(b, key)] else default
  }

  /** add_or_update_mapping */
  function AddOrUpdate<V>(b: Bucket<V>, pair: Pair<V>): Bucket<V> {
    var p := Position(b, pair.key);
    if Found(b, pair.key) then b[p := pair] else b[..p] + [pair] + b[p..]
  }

  /** remove_mapping, which removes whatever is at the position of the key. */
  function Remove<V>(b: Bucket<V>, key: int): Bucket<V> {
    var p := Position(b, key);
    if p < |b| then b[..p] + b[p + 1..] else b
  }

  /** The map that a bucket stands for. */
  function Contents<V>(b: Bucket<V>): map<int, V> {
    if b == [] then map[] else Contents(b[1..])[b[0].key := b[0].value]
  }

  lemma {:induction false} ContentsHas<V>(b: Bucket<V>, key: int)
    ensures key in Contents(b) <==> exists i :: 0 <= i < |b| && b[i].key == key
  {
    if b != [] {
      ContentsHas(b[1..], key);
      if key in Contents(b) && key != b[0].key {
        var i :| 0 <= i < |b[1..]| && b[1..][i].key == key;
        assert b[i + 1].key == key;
      }
      if i :| 0 <= i < |b| && b[i].key == key {
        assert i > 0 ==> b[1..][i - 1].key == key;
      }
    }
  }

  lemma {:induction false} ContentsAt<V>(b: Bucket<V>, i: nat)
    requires Sorted(b) && i < |b|
    ensures b[i].key in Contents(b) && Contents(b)[b[i].key] == b[i].value
  {
    if i > 0 {
      ContentsAt(b[1..], i - 1);
    }
  }

  /** The position of a key in a sorted bucket is where the map has it. */
  lemma FoundIsContained<V>(b: Bucket<V>, key: int)
    requires Sorted(b)
    ensures Found(b, key) <==> key in Contents(b)
    ensures Found(b, key) ==> b[Position(b, key)] == Pair(key, Contents(b)[key])
  {
    ContentsHas(b, key);
    if Found(b, key) {
      ContentsAt(b, Position(b, key));
    }
  }

  /** Equality of a bucket's map with another, key by key. */
  ghost predicate StandsFor<V>(b: Bucket<V>, m: map<int, V>) {
    && (forall i :: 0 <= i < |b| ==> b[i].key in m && m[b[i].key] == b[i].value)
    && (forall key :: key in m ==> exists i :: 0 <= i < |b| && b[i].key == key)
  }

  lemma StandsForContents<V>(b: Bucket<V>, m: map<int, V>)
    requires Sorted(b) && StandsFor(b, m)
    ensures Contents(b) == m
  {
    var c := Contents(b);
    forall key: int
      ensures key in c <==> key in m
      ensures key in c ==> c[key] == m[key]
    {
      ContentsHas(b, key);
      if key in c {
        var i :| 0 <= i < |b| && b[i].key == key;
        ContentsAt(b, i);
      }
    }
  }

  lemma ContentsStandsFor<V>(b: Bucket<V>)
    requires Sorted(b)
    ensures StandsFor(b, Contents(b))
  {
    forall i | 0 <= i < |b|
      ensures b[i].key in Contents(b) && Contents(b)[b[i].key] == b[i].value
    {
      ContentsAt(b, i);
    }
    forall key | key in Contents(b)
      ensures exists i :: 0 <= i < |b| && b[i].key == key
    {
      ContentsHas(b, key);
    }
  }

  lemma AddToSorted<V>(b: Bucket<V>, pair: Pair<V>)
    requires Sorted(b)
    ensures Sorted(AddOrUpdate(b, pair))
    ensures AddOrUpdate(b, pair)[Position(b, pair.key)] == pair
  {
    hide Position;
  }

  /** Where a pair of the bucket is found after another has been added. */
  lemma AddMoves<V>(b: Bucket<V>, pair: Pair<V>, i: nat)
    requires Sorted(b) && i < |b| && b[i].key != pair.key
    ensures exists j :: 0 <= j < |AddOrUpdate(b, pair)| && AddOrUpdate(b, pair)[j] == b[i]
  {
    hide Position;
    var p := Position(b, pair.key);
    var j := if Found(b, pair.key) || i < p then i else i + 1;
    assert AddOrUpdate(b, pair)[j] == b[i];
  }

  /** Adding a pair updates the map, for every key. */
  lemma AddUpdates<V>(b: Bucket<V>, pair: Pair<V>)
    requires Sorted(b)
    ensures Sorted(AddOrUpdate(b, pair))
    ensures Contents(AddOrUpdate(b, pair)) == Contents(b)[pair.key := pair.value]
  {
    hide Position, Contents;
    var r := AddOrUpdate(b, pair);
    var m := Contents(b)[pair.key := pair.value];
    AddToSorted(b, pair);
    ContentsStandsFor(b);
    forall i | 0 <= i < |r|
      ensures r[i].key in m && m[r[i].key] == r[i].value
    {
      var p := Position(b, pair.key);
      if i != p {
        assert r[i] == b[if Found(b, pair.key) || i < p then i else i - 1];
        assert r[i].key != r[p].key;
      }
    }
    hide AddOrUpdate;
    forall key | key in m
      ensures exists i :: 0 <= i < |r| && r[i].key == key
    {
      if key == pair.key {
        assert r[Position(b, pair.key)].key == key;
      } else {
        var i :| 0 <= i < |b| && b[i].key == key;
        AddMoves(b, pair, i);
      }
    }
    StandsForContents(r, m);
  }

  lemma RemoveKeepsSorted<V>(b: Bucket<V>, key: int)
    requires Sorted(b)
    ensures Sorted(Remove(b, key))
  {
    hide Position;
  }

  /** A bucket `r` that is `b` without the pair at `p`. */
  ghost predicate IsWithout<V>(b: Bucket<V>, p: nat, r: Bucket<V>) {
    && p < |b| && |r| == |b| - 1
    && (forall i :: 0 <= i < p ==> r[i] == b[i])
    && (forall i :: p < i < |b| ==> b[i] == r[i - 1])
  }

  lemma RemovedPairs<V>(b: Bucket<V>, p: nat, r: Bucket<V>, m: map<int, V>, i: nat)
    requires Sorted(b) && StandsFor(b, m) && IsWithout(b, p, r) && i < |r|
    ensures r[i].key in m - {b[p].key} && m[r[i].key] == r[i].value
  {
    var j := if i < p then i else i + 1;
    assert r[i] == b[j];
  }

  lemma RemovedKeys<V>(b: Bucket<V>, p: nat, r: Bucket<V>, m: map<int, V>, k: int)
    requires StandsFor(b, m) && IsWithout(b, p, r) && k in m - {b[p].key}
    ensures exists i :: 0 <= i < |r| && r[i].key == k
  {
    var i :| 0 <= i < |b| && b[i].key == k;
    assert r[if i < p then i else i - 1] == b[i];
  }

  /** The map of a bucket without the pair at `p`. */
  lemma StandsForRemoved<V>(b: Bucket<V>, p: nat, r: Bucket<V>, m: map<int, V>)
    requires Sorted(b) && StandsFor(b, m) && IsWithout(b, p, r)
    ensures StandsFor(r, m - {b[p].key})
  {
    forall i | 0 <= i < |r|
      ensures r[i].key in m - {b[p].key} && m[r[i].key] == r[i].value
    {
      RemovedPairs(b, p, r, m, i);
    }
    forall k | k in m - {b[p].key}
      ensures exists i :: 0 <= i < |r| && r[i].key == k
    {
      RemovedKeys(b, p, r, m, k);
    }
  }

  lemma RemoveIsWithout<V>(b: Bucket<V>, key: int)
    ensures var p := Position(b, key); if p < |b| then IsWithout(b, p, Remove(b, key)) else Remove(b, key) == b
  {
    hide Position;
  }

  /** Removing a key removes the first pair that is not below it. */
  lemma RemoveRemovesPosition<V>(b: Bucket<V>, key: int)
    requires Sorted(b)
    ensures Sorted(Remove(b, key))
    ensures var p := Position(b, key);
            Contents(Remove(b, key)) == if p < |b| then Contents(b) - {b[p].key} else Contents(b)
  {
    hide Position, Contents, Remove, Sorted, StandsFor, IsWithout;
    RemoveKeepsSorted(b, key);
    RemoveIsWithout(b, key);
    var p := Position(b, key);
    if p < |b| {
      ContentsStandsFor(b);
      StandsForRemoved(b, p, Remove(b, key), Contents(b));
      StandsForContents(Remove(b, key), Contents(b) - {b[p].key});
    }
  }

  // ---------------------------------------------------------------------------------
  // All buckets
  // ---------------------------------------------------------------------------------

  function IndexOf(hasher: int -> nat, n: nat, key: int): (i: nat)
    requires n > 0
    ensures i < n
  {
    hasher(key) % n
  }

  /** What every operation keeps: sorted buckets, with every key where it hashes to. */
  ghost predicate Ordered<V>(hasher: int -> nat, buckets: seq<Bucket<V>>) {
    && |buckets| > 0
    && (forall i :: 0 <= i < |buckets| ==> Sorted(buckets[i]))
    && (forall i, key :: 0 <= i < |buckets| && key in Contents(buckets[i]) ==> IndexOf(hasher, |buckets|, key) == i)
  }

  /** The map that the buckets stand for. */
  function AllContents<V>(buckets: seq<Bucket<V>>): map<int, V> {
    if buckets == [] then map[] else AllContents(buckets[..|buckets| - 1]) + Contents(buckets[|buckets| - 1])
  }

  lemma {:induction false} AllContentsHas<V>(buckets: seq<Bucket<V>>, key: int, at: nat)
    requires forall i :: 0 <= i < |buckets| && key in Contents(buckets[i]) ==> i == at
    ensures key in AllContents(buckets) <==> at < |buckets| && key in Contents(buckets[at])
    ensures key in AllContents(buckets) ==> AllContents(buckets)[key] == Contents(buckets[at])[key]
  {
    if buckets != [] {
      AllContentsHas(buckets[..|buckets| - 1], key, at);
    }
  }

  /** A key is in the map exactly if it is in its bucket. */
  lemma KeyIsInItsBucket<V>(hasher: int -> nat, buckets: seq<Bucket<V>>, key: int)
    requires Ordered(hasher, buckets)
    ensures var b := buckets[IndexOf(hasher, |buckets|, key)];
            var m := AllContents(buckets);
            && (key in m <==> key in Contents(b))
            && (key in m ==> m[key] == Contents(b)[key])
  {
    AllContentsHas(buckets, key, IndexOf(hasher, |buckets|, key));
  }

  /** Replacing the bucket of a key changes the map in that bucket's keys only. */
  lemma UpdateBucket<V>(hasher: int -> nat, buckets: seq<Bucket<V>>, i: nat, b: Bucket<V>)
    requires Ordered(hasher, buckets) && i < |buckets| && Sorted(b)
    requires forall key :: key in Contents(b) ==> IndexOf(hasher, |buckets|, key) == i
    ensures Ordered(hasher, buckets[i := b])
    ensures AllContents(buckets[i := b]) == (AllContents(buckets) - Contents(buckets[i]).Keys) + Contents(b)
  {
    var after := buckets[i := b];
    var m := (AllContents(buckets) - Contents(buckets[i]).Keys) + Contents(b);
    var m' := AllContents(after);
    forall key: int
      ensures key in m' <==> key in m
      ensures key in m' ==> m'[key] == m[key]
    {
      KeyIsInItsBucket(hasher, buckets, key);
      KeyIsInItsBucket(hasher, after, key);
    }
  }

  /** insert updates the map, for every key. */
  lemma InsertUpdates<V>(hasher: int -> nat, buckets: seq<Bucket<V>>, pair: Pair<V>)
    requires Ordered(hasher, buckets)
    ensures var i := IndexOf(hasher, |buckets|, pair.key);
            var after := buckets[i := AddOrUpdate(buckets[i], pair)];
            Ordered(hasher, after) && AllContents(after) == AllContents(buckets)[pair.key := pair.value]
  {
    var i := IndexOf(hasher, |buckets|, pair.key);
    var b := AddOrUpdate(buckets[i], pair);
    AddUpdates(buckets[i], pair);
    UpdateBucket(hasher, buckets, i, b);
    var m := AllContents(buckets[i := b]);
    var m' := AllContents(buckets)[pair.key := pair.value];
    forall key: int
      ensures key in m <==> key in m'
      ensures key in m ==> m[key] == m'[key]
    {
      KeyIsInItsBucket(hasher, buckets, key);
    }
  }

  /** What erase does for any key: the pair at its position goes, whatever its key. */
  lemma EraseRemovesPosition<V>(hasher: int -> nat, buckets: seq<Bucket<V>>, key: int)
    requires Ordered(hasher, buckets)
    ensures var i := IndexOf(hasher, |buckets|, key);
            var p := Position(buckets[i], key);
            var after := buckets[i := Remove(buckets[i], key)];
            && Ordered(hasher, after)
            && AllContents(after) ==
               if p < |buckets[i]| then AllContents(buckets) - {buckets[i][p].key} else AllContents(buckets)
  {
    hide Position, Contents, AllContents, Remove;
    var i := IndexOf(hasher, |buckets|, key);
    var b := Remove(buckets[i], key);
    RemoveRemovesPosition(buckets[i], key);
    UpdateBucket(hasher, buckets, i, b);
    var p := Position(buckets[i], key);
    var m := AllContents(buckets[i := b]);
    var m' := if p < |buckets[i]| then AllContents(buckets) - {buckets[i][p].key} else AllContents(buckets);
    if p < |buckets[i]| {
      ContentsAt(buckets[i], p);
    }
    forall k: int
      ensures k in m <==> k in m'
      ensures k in m ==> m[k] == m'[k]
    {
      KeyIsInItsBucket(hasher, buckets, k);
    }
  }

  /**
    Main result for erase: it is removal from the map if and only if the key is present
    or its bucket holds no larger key; otherwise another key is lost.
   */
  lemma EraseIsRemovalExactly<V>(hasher: int -> nat, buckets: seq<Bucket<V>>, key: int)
    requires Ordered(hasher, buckets)
    ensures var i := IndexOf(hasher, |buckets|, key);
            AllContents(buckets[i := Remove(buckets[i], key)]) == AllContents(buckets) - {key}
            <==> key in AllContents(buckets) || Position(buckets[i], key) == |buckets[i]|
  {
    var i := IndexOf(hasher, |buckets|, key);
    var p := Position(buckets[i], key);
    EraseRemovesPosition(hasher, buckets, key);
    KeyIsInItsBucket(hasher, buckets, key);
    FoundIsContained(buckets[i], key);
    if p < |buckets[i]| {
      ContentsAt(buckets[i], p);
      KeyIsInItsBucket(hasher, buckets, buckets[i][p].key);
      if key !in AllContents(buckets) {
        assert buckets[i][p].key in AllContents(buckets) - {key};
      }
    }
  }

  /** Erasing an absent key may lose another: here 5, when 3 is erased. */
  lemma ErasingLosesAnotherKey<V>(hasher: int -> nat, v: V)
    ensures var buckets := [AddOrUpdate([], Pair(5, v))];
            && Ordered(hasher, buckets)
            && AllContents(buckets) == map[5 := v]
            && AllContents(buckets[0 := Remove(buckets[0], 3)]) == map[]
  {
    var b: Bucket<V> := [Pair(5, v)];
    assert AddOrUpdate([], Pair(5, v)) == b;
    assert Contents(b) == map[5 := v];
    assert [b][..0] == [];
    assert Remove(b, 3) == [];
    var after: seq<Bucket<V>> := [[]];
    assert [b][0 := []] == after && after[..0] == [];
  }

  // ---------------------------------------------------------------------------------
  // Whole-map operations
  // ---------------------------------------------------------------------------------

  /** The pairs of all buckets, in bucket order. */
  function AllPairs<V>(buckets: seq<Bucket<V>>): seq<Pair<V>> {
    if buckets == [] then [] else AllPairs(buckets[..|buckets| - 1]) + buckets[|buckets| - 1]
  }

  /** A list of the mappings of `m`, with each of them listed once. */
  ghost predicate Lists<V>(pairs: seq<Pair<V>>, m: map<int, V>) {
    && (forall i, j :: 0 <= i < j < |pairs| ==> pairs[i].key != pairs[j].key)
    && StandsFor(pairs, m)
  }

  ghost predicate DisjointKeys<V>(buckets: seq<Bucket<V>>) {
    && (forall i :: 0 <= i < |buckets| ==> Sorted(buckets[i]))
    && (forall i, j, key :: 0 <= i < j < |buckets| && key in Contents(buckets[i]) ==> key !in Contents(buckets[j]))
  }

  lemma {:induction false} KeyFromSomeBucket<V>(buckets: seq<Bucket<V>>, key: int)
    ensures key in AllContents(buckets) <==> exists i :: 0 <= i < |buckets| && key in Contents(buckets[i])
  {
    if buckets != [] {
      var n := |buckets| - 1;
      KeyFromSomeBucket(buckets[..n], key);
      if key in AllContents(buckets[..n]) {
        var i :| 0 <= i < n && key in Contents(buckets[..n][i]);
        assert key in Contents(buckets[i]);
      } else if key in Contents(buckets[n]) {
        assert key in Contents(buckets[n]);
      }
      if i :| 0 <= i < |buckets| && key in Contents(buckets[i]) {
        assert i < n ==> key in Contents(buckets[..n][i]);
      }
    }
  }

  /** data lists the map. */
  lemma {:induction false} DataListsContents<V>(buckets: seq<Bucket<V>>)
    requires DisjointKeys(buckets)
    ensures Lists(AllPairs(buckets), AllContents(buckets))
  {
    if buckets != [] {
      var n := |buckets| - 1;
      DataListsContents(buckets[..n]);
      ContentsStandsFor(buckets[n]);
      forall key | key in AllContents(buckets[..n])
        ensures key !in Contents(buckets[n])
      {
        KeyFromSomeBucket(buckets[..n], key);
        var i :| 0 <= i < n && key in Contents(buckets[..n][i]);
        assert key in Contents(buckets[i]);
      }
      ListsConcatenated(AllPairs(buckets[..n]), AllContents(buckets[..n]), buckets[n], Contents(buckets[n]));
    }
  }

  lemma ListsConcatenated<V>(a: seq<Pair<V>>, m: map<int, V>, b: Bucket<V>, m': map<int, V>)
    requires Lists(a, m) && Sorted(b) && StandsFor(b, m') && m.Keys !! m'.Keys
    ensures Lists(a + b, m + m')
  {
    var all := a + b;
    forall i, j | 0 <= i < j < |all|
      ensures all[i].key != all[j].key
    {
      if i < |a| <= j {
        assert a[i].key in m && b[j - |a|].key in m';
      }
    }
    forall key | key in m + m'
      ensures exists i :: 0 <= i < |all| && all[i].key == key
    {
      if key in m' {
        var i :| 0 <= i < |b| && b[i].key == key;
        assert all[|a| + i].key == key;
      } else {
        var i :| 0 <= i < |a| && a[i].key == key;
        assert all[i].key == key;
      }
    }
  }

  lemma OrderedIsDisjoint<V>(hasher: int -> nat, buckets: seq<Bucket<V>>)
    requires Ordered(hasher, buckets)
    ensures DisjointKeys(buckets)
  {
    forall i, j, key | 0 <= i < j < |buckets| && key in Contents(buckets[i])
      ensures key !in Contents(buckets[j])
    {
      assert IndexOf(hasher, |buckets|, key) == i;
    }
  }

  /** empty answers for the map. */
  lemma EmptyIsEmpty<V>(buckets: seq<Bucket<V>>)
    ensures (forall i :: 0 <= i < |buckets| ==> buckets[i] == []) <==> AllContents(buckets) == map[]
  {
    if i :| 0 <= i < |buckets| && buckets[i] != [] {
      var key := buckets[i][0].key;
      ContentsHas(buckets[i], key);
      KeyFromSomeBucket(buckets, key);
    }
    if key :| key in AllContents(buckets) {
      KeyFromSomeBucket(buckets, key);
      var i :| 0 <= i < |buckets| && key in Contents(buckets[i]);
      ContentsHas(buckets[i], key);
    }
  }

  // ---------------------------------------------------------------------------------
  // The class, used by one thread
  // ---------------------------------------------------------------------------------

  class ThreadsafeHashMap<V> {
    const hasher: int -> nat
    const buckets: array<Bucket<V>>

    ghost predicate Valid()
      reads this, buckets
    {
      Ordered(hasher, buckets[..])
    }

    ghost function Map(): map<int, V>
      reads this, buckets
    {
      AllContents(buckets[..])
    }

    constructor (hasher: int -> nat, bucketCount: nat)
      requires bucketCount > 0
      ensures this.hasher == hasher && buckets.Length == bucketCount && fresh(buckets)
      ensures Valid() && Map() == map[]
    {
      this.hasher := hasher;
      buckets := new Bucket<V>[bucketCount](_ => []);
      new;
      assert forall i :: 0 <= i < |buckets[..]| ==> buckets[..][i] == [];
      EmptyIsEmpty(buckets[..]);
    }

    method Find(key: int, default: Pair<V>) returns (pair: Pair<V>)
      requires Valid()
      ensures pair == if key in Map() then Pair(key, Map()[key]) else default
    {
      var index := IndexOf(hasher, buckets.Length, key);
      pair := ValueFor(buckets[index], key, default);
      KeyIsInItsBucket(hasher, buckets[..], key);
      FoundIsContained(buckets[index], key);
    }

    method Insert(pair: Pair<V>)
      requires Valid()
      modifies buckets
      ensures Valid() && Map() == old(Map())[pair.key := pair.value]
    {
      var index := IndexOf(hasher, buckets.Length, pair.key);
      InsertUpdates(hasher, buckets[..], pair);
      ghost var before := buckets[..];
      buckets[index] := AddOrUpdate(buckets[index], pair);
      assert buckets[..] == before[index := AddOrUpdate(before[index], pair)];
    }

    method Erase(key: int)
      requires Valid()
      modifies buckets
      ensures Valid()
      ensures var b := old(buckets[IndexOf(hasher, buckets.Length, key)]);
              var p := Position(b, key);
              Map() == if p < |b| then old(Map()) - {b[p].key} else old(Map())
      ensures Map() == old(Map()) - {key} <==>
              key in old(Map()) || old(var i := IndexOf(hasher, buckets.Length, key);
                                       Position(buckets[i], key) == |buckets[i]|)
    {
      var index := IndexOf(hasher, buckets.Length, key);
      EraseIsRemovalExactly(hasher, buckets[..], key);
      EraseRemovesPosition(hasher, buckets[..], key);
      ghost var before := buckets[..];
      buckets[index] := Remove(buckets[index], key);
      assert buckets[..] == before[index := Remove(before[index], key)];
    }

    method Empty() returns (empty: bool)
      requires Valid()
      ensures empty <==> Map() == map[]
    {
      EmptyIsEmpty(buckets[..]);
      for i := 0 to buckets.Length
        invariant forall j :: 0 <= j < i ==> buckets[j] == []
      {
        if buckets[i] != [] {
          assert buckets[..][i] != [];
          return false;
        }
      }
      return true;
    }

    method Data() returns (pairs: seq<Pair<V>>)
      requires Valid()
      ensures Lists(pairs, Map())
    {
      pairs := [];
      for i := 0 to buckets.Length
        invariant pairs == AllPairs(buckets[..i])
      {
        var collected := pairs;
        for j := 0 to |buckets[i]|
          invariant pairs == collected + buckets[i][..j]
        {
          pairs := pairs + [buckets[i][j]];
        }
        assert buckets[..i + 1][..i] == buckets[..i];
      }
      assert buckets[..buckets.Length] == buckets[..];
      OrderedIsDisjoint(hasher, buckets[..]);
      DataListsContents(buckets[..]);
    }

    method Clear()
      requires Valid()
      modifies buckets
      ensures Valid() && Map() == map[]
    {
      for i := 0 to buckets.Length
        invariant forall j :: 0 <= j < i ==> buckets[j] == []
      {
        buckets[i] := [];
      }
      assert forall i :: 0 <= i < |buckets[..]| ==> buckets[..][i] == [];
      EmptyIsEmpty(buckets[..]);
    }
  }
}
