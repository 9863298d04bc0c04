/**
 * The sharded hash map: an array of shards, each an independent map guarded by its
 * own lock. A key lives only in the shard its hash selects. Locks are not modelled:
 * each operation is the sequential step it runs while holding its shard's lock.
 * The hash function is a parameter of the map.
 */
module ShardedHashMap {

  /** The number of shards for a requested concurrency level: 0 gives one shard. */
  function ShardCount(concurrencyLevel: nat): (n: nat)
    ensures n >= 1
    ensures concurrencyLevel > 0 ==> n == concurrencyLevel
    ensures concurrencyLevel == 0 ==> n == 1
  {
    if concurrencyLevel == 0 then 1 else concurrencyLevel
  }

  /** Every key of shard i hashes to i modulo the shard count n. */
  ghost predicate Placed<K, V>(s: seq<map<K, V>>, hash: K -> nat, n: nat)
    requires n > 0
  {
    forall i, k :: 0 <= i < |s| && k in s[i] ==> hash(k) % n == i
  }

  /** The keys of all the shards. */
  function KeysOf<K(!new), V>(s: seq<map<K, V>>): (keys: set<K>)
    ensures forall i, k :: 0 <= i < |s| && k in s[i] ==> k in keys
  {
    if s == [] then {} else KeysOf(s[..|s| - 1]) + s[|s| - 1].Keys
  }

  /** The sum of the shard sizes, in shard order. */
  function SumSizes<K, V>(s: seq<map<K, V>>): nat
  {
    if s == [] then 0 else SumSizes(s[..|s| - 1]) + |s[|s| - 1]|
  }

  /** With the keys placed, a key is among the keys of the shards exactly when it is in the shard it hashes to. */
  lemma {:induction false} KeysOfPlaced<K(!new), V>(s: seq<map<K, V>>, hash: K -> nat, n: nat)
    requires n > 0 && Placed(s, hash, n)
    ensures forall k :: k in KeysOf(s) <==> hash(k) % n < |s| && k in s[hash(k) % n]
  {
    if s != [] {
      var front := s[..|s| - 1];
      assert Placed(front, hash, n);
      KeysOfPlaced(front, hash, n);
    }
  }

  /** Since no key sits in two shards, the sum of the shard sizes is the number of distinct keys. */
  lemma {:induction false} SumSizesCountsKeys<K(!new), V>(s: seq<map<K, V>>, hash: K -> nat, n: nat)
    requires n > 0 && Placed(s, hash, n)
    ensures SumSizes(s) == |KeysOf(s)|
  {
    if s != [] {
      var front := s[..|s| - 1];
      var last := s[|s| - 1];
      assert Placed(front, hash, n);
      SumSizesCountsKeys(front, hash, n);
      KeysOfPlaced(front, hash, n);
      assert KeysOf(front) * last.Keys == {};
    }
  }

  /** The map the shards hold together: each key with its value in the shard it hashes to. */
  ghost function Flatten<K(!new), V>(s: seq<map<K, V>>, hash: K -> nat): (m: map<K, V>)
    requires |s| > 0 && Placed(s, hash, |s|)
    ensures m.Keys == KeysOf(s)
    ensures forall k :: k in m <==> k in s[hash(k) % |s|]
    ensures forall k :: k in m ==> m[k] == s[hash(k) % |s|][k]
  {
    KeysOfPlaced(s, hash, |s|);
    map k | k in KeysOf(s) :: s[hash(k) % |s|][k]
  }

  /** Replacing shard i by one whose keys all hash to i keeps the placement. */
  lemma PlacedReplace<K, V>(s: seq<map<K, V>>, hash: K -> nat, i: nat, shard: map<K, V>)
    requires |s| > 0 && Placed(s, hash, |s|) && i < |s|
    requires forall k :: k in shard ==> hash(k) % |s| == i
    ensures Placed(s[i := shard], hash, |s|)
  {
  }

  /** Replacing shard i changes the flattened map only at keys that hash to i. */
  lemma FlattenOutside<K(!new), V>(s: seq<map<K, V>>, s': seq<map<K, V>>, hash: K -> nat, i: nat)
    requires |s| > 0 && |s'| == |s| && i < |s| && Placed(s, hash, |s|) && Placed(s', hash, |s|)
    requires forall j :: 0 <= j < |s| && j != i ==> s'[j] == s[j]
    ensures forall k :: hash(k) % |s| != i ==>
              (k in Flatten(s', hash) <==> k in Flatten(s, hash))
              && (k in Flatten(s, hash) ==> Flatten(s', hash)[k] == Flatten(s, hash)[k])
  {
  }

  /** Updating a key in the shard it hashes to keeps the placement and updates the flattened map. */
  lemma UpdateInShard<K(!new), V>(s: seq<map<K, V>>, hash: K -> nat, key: K, value: V)
    requires |s| > 0 && Placed(s, hash, |s|)
    ensures var i := hash(key) % |s|;
            var s' := s[i := s[i][key := value]];
            Placed(s', hash, |s|) && Flatten(s', hash) == Flatten(s, hash)[key := value]
  {
    var i := hash(key) % |s|;
    var s' := s[i := s[i][key := value]];
    PlacedReplace(s, hash, i, s[i][key := value]);
    FlattenOutside(s, s', hash, i);
    var m, m' := Flatten(s, hash), Flatten(s', hash);
    forall k | hash(k) % |s| == i
      ensures (k in m' <==> k in m[key := value]) && (k in m' ==> m'[k] == m[key := value][k])
    {
      assert s'[i] == s[i][key := value];
    }
    assert m' == m[key := value];
  }

  /** Removing a key from the shard it hashes to keeps the placement and removes it from the flattened map. */
  lemma RemoveFromShard<K(!new), V>(s: seq<map<K, V>>, hash: K -> nat, key: K)
    requires |s| > 0 && Placed(s, hash, |s|)
    ensures var i := hash(key) % |s|;
            var s' := s[i := s[i] - {key}];
            Placed(s', hash, |s|) && Flatten(s', hash) == Flatten(s, hash) - {key}
            && (key in s[i] <==> key in Flatten(s, hash))
  {
    var i := hash(key) % |s|;
    var s' := s[i := s[i] - {key}];
    PlacedReplace(s, hash, i, s[i] - {key});
    FlattenOutside(s, s', hash, i);
    var m, m' := Flatten(s, hash), Flatten(s', hash);
    forall k | hash(k) % |s| == i
      ensures (k in m' <==> k in m && k != key) && (k in m' ==> m'[k] == m[k])
    {
    }
    assert m' == m - {key};
  }

  class ConcurrentHashMap<K(==, !new), V> {
    const hash: K -> nat
    const numShards: nat
    const shards: array<map<K, V>>

    ghost predicate Valid()
      reads this, shards
    {
      shards.Length == numShards >= 1 && Placed(shards[..], hash, numShards)
    }

    /** The abstract content: every key of every shard, with its value. */
    ghost function Contents(): map<K, V>
      reads this, shards
      requires Valid()
    {
      Flatten(shards[..], hash)
    }

    /** A map with ShardCount(concurrencyLevel) empty shards. */
    constructor (concurrencyLevel: nat, hash: K -> nat)
      ensures Valid() && fresh(shards)
      ensures numShards == ShardCount(concurrencyLevel) && this.hash == hash
      ensures Contents() == map[]
    {
      this.hash := hash;
      numShards := ShardCount(concurrencyLevel);
      shards := new map<K, V>[ShardCount(concurrencyLevel)](_ => map[]);
      new;
      assert forall i :: 0 <= i < shards.Length ==> shards[i] == map[];
    }

    /** get_shard: the index of the shard that holds key. */
    function ShardOf(key: K): (i: nat)
      reads this, shards
      requires Valid()
      ensures i < numShards
      ensures key in Contents() <==> key in shards[i]
    {
      hash(key) % numShards
    }

    /** insert: insert-or-update in the key's shard; no other key's mapping changes. */
    method Insert(key: K, value: V)
      requires Valid()
      modifies shards
      ensures Valid()
      ensures Contents() == old(Contents())[key := value]
    {
      UpdateInShard(shards[..], hash, key, value);
      var i := hash(key) % numShards;
      shards[i] := shards[i][key := value];
    }

    /**
     * find: true with the stored value when key is present; otherwise false, with
     * the caller's value left as it was. The map is not changed.
     */
    method Find(key: K, valueIn: V) returns (found: bool, valueOut: V)
      requires Valid()
      ensures found <==> key in Contents()
      ensures found ==> valueOut == Contents()[key]
      ensures !found ==> valueOut == valueIn
    {
      var shard := shards[hash(key) % numShards];
      if key in shard {
        found, valueOut := true, shard[key];
      } else {
        found, valueOut := false, valueIn;
      }
    }

    /** erase: true exactly when key was present; afterwards it is absent and nothing else changed. */
    method Erase(key: K) returns (erased: bool)
      requires Valid()
      modifies shards
      ensures Valid()
      ensures erased <==> key in old(Contents())
      ensures Contents() == old(Contents()) - {key}
    {
      RemoveFromShard(shards[..], hash, key);
      var i := hash(key) % numShards;
      erased := key in shards[i];
      shards[i] := shards[i] - {key};
    }

    /** clear: every shard is emptied, one after the other. */
    method Clear()
      requires Valid()
      modifies shards
      ensures Valid() && Contents() == map[]
    {
      var i := 0;
      while i < numShards
        invariant 0 <= i <= numShards
        invariant forall j :: 0 <= j < i ==> shards[j] == map[]
        invariant forall j :: i <= j < numShards ==> shards[j] == old(shards[j])
        invariant Valid()
      {
        shards[i] := map[];
        i := i + 1;
      }
      assert forall j :: 0 <= j < shards.Length ==> shards[..][j] == map[];
    }

    /** size: the shard sizes summed in shard order, which is the number of keys. */
    method Size() returns (total: nat)
      requires Valid()
      ensures total == |Contents()|
    {
      total := 0;
      var i := 0;
      while i < numShards
        invariant 0 <= i <= numShards
        invariant total == SumSizes(shards[..i])
      {
        assert shards[..i + 1][..i] == shards[..i];
        total := total + |shards[i]|;
        i := i + 1;
      }
      assert shards[..i] == shards[..];
      SumSizesCountsKeys(shards[..], hash, numShards);
    }
  }
}
