/** The sharded cache: a fixed sequence of shards, a power-of-two-minus-one mask,
    and the operations that route a key to its shard by hashing and masking. Each
    operation touches one shard, or visits all of them in order. */
module ShardedCache {
  import opened Entries
  import opened Recency
  import opened Partition

  /** The figures Stats reports: the total size, the shard count and each shard's size. */
  datatype CacheStats = CacheStats(totalSize: int, numShards: int, shardSizes: seq<int>)

  /** The sum of a sequence of sizes. */
  function Sum(xs: seq<int>): int {
    if xs == [] then 0 else Sum(xs[..|xs| - 1]) + xs[|xs| - 1]
  }

  /** The number of entries held by a sequence of shard contents. */
  function Count<V>(cs: seq<seq<Entry<V>>>): (n: nat) {
    if cs == [] then 0 else Count(cs[..|cs| - 1]) + |cs[|cs| - 1]|
  }

  /** A sequence of empty shards holds nothing. */
  lemma {:induction false} CountEmpty<V>(cs: seq<seq<Entry<V>>>)
    requires forall i :: 0 <= i < |cs| ==> cs[i] == []
    ensures Count(cs) == 0
  {
    if cs != [] {
      CountEmpty(cs[..|cs| - 1]);
    }
  }

  /** Changing one shard's contents changes the count by the difference in its length. */
  lemma {:induction false} CountUpdate<V>(cs: seq<seq<Entry<V>>>, i: nat, c: seq<Entry<V>>)
    requires i < |cs|
    ensures Count(cs[i := c]) == Count(cs) - |cs[i]| + |c|
    decreases |cs|
  {
    var n := |cs| - 1;
    if i < n {
      assert cs[i := c][..n] == cs[..n][i := c];
      CountUpdate(cs[..n], i, c);
    } else {
      assert cs[i := c][..n] == cs[..n];
    }
  }

  /** Summing the sizes of the shards counts their entries. */
  lemma {:induction false} SumCount<V>(xs: seq<int>, cs: seq<seq<Entry<V>>>)
    requires |xs| == |cs| && forall i :: 0 <= i < |xs| ==> xs[i] == |cs[i]|
    ensures Sum(xs) == Count(cs)
  {
    if xs != [] {
      SumCount(xs[..|xs| - 1], cs[..|cs| - 1]);
    }
  }

  /** A put as written adds one entry to the cache's count for a new key and none
      for a present one. */
  lemma UpsertCount<V>(cs: seq<seq<Entry<V>>>, i: nat, k: Key, v: V)
    requires i < |cs| && UniqueKeys(cs[i])
    ensures Count(cs[i := Upsert(cs[i], k, v)]) == Count(cs) + (if k in KeySet(cs[i]) then 0 else 1)
  {
    CountUpdate(cs, i, Upsert(cs[i], k, v));
    UpsertSpec(cs[i], k, v);
  }

  class LRUCache<V(0)> {
    const shards: seq<Shard<V>>
    const shardMask: U32
    ghost var Repr: set<object>

    /** The representation invariant: one shard per mask value, at least 1024 of them,
        each valid and owning objects no other shard and not the cache itself owns. */
    ghost predicate Valid()
      reads this, Repr
      ensures Valid() ==> this in Repr
    {
      && this in Repr
      && |shards| == shardMask + 1 >= 1024
      && (forall i :: 0 <= i < |shards| ==>
            && shards[i] in Repr && shards[i].Repr <= Repr && this !in shards[i].Repr
            && shards[i].Valid() && shards[i].capacity >= 1)
      && (forall i, j :: 0 <= i < j < |shards| ==> shards[i].Repr !! shards[j].Repr)
      && (forall i, k :: 0 <= i < |shards| && k in KeySet(shards[i].contents) ==> ShardOf(k) == i)
    }

    /** The entries of every shard, shard by shard. */
    ghost function Contents(): (cs: seq<seq<Entry<V>>>)
      reads this, shards
      ensures |cs| == |shards|
    {
      seq(|shards|, i requires 0 <= i < |shards| reads shards => shards[i].contents)
    }

    /** getShard: the index of the shard a key belongs to, its hash masked by the
        shard mask. It is always the index of an existing shard. */
    function ShardOf(key: Key): (i: nat)
      requires |shards| == shardMask + 1
      ensures i < |shards| && i <= shardMask
    {
      ShardIndex(Hash(key), shardMask)
    }

    /** NewLRUCache: the shard count derived from the CPU count, each shard with the
        capacity share of `ShardCapacity`, all empty. */
    constructor (capacity: int, numCPU: int)
      ensures Valid() && fresh(Repr)
      ensures |shards| == ShardCount(numCPU) && shardMask == ShardCount(numCPU) - 1
      ensures forall i :: 0 <= i < |shards| ==>
        shards[i].capacity == ShardCapacity(capacity, ShardCount(numCPU)) && shards[i].contents == []
    {
      var numShards := ShardCount(numCPU);
      var shardCapacity := ShardCapacity(capacity, numShards);
      var s;
      ghost var R;
      s, R := NewShards(numShards, shardCapacity);
      shards, shardMask := s, numShards - 1;
      Repr := R + {this};
    }

    /** NewLRUCache with the shard count rounded up to a power of two, so that every
        shard is the target of some hash. */
    constructor Rounded(capacity: int, numCPU: int)
      requires 1 <= numCPU <= 0x2000_0000
      ensures Valid() && fresh(Repr)
      ensures |shards| == RoundedShardCount(numCPU) && IsPowerOf2(|shards|)
      ensures shardMask == |shards| - 1
      ensures forall i :: 0 <= i < |shards| ==> ShardIndex(i, shardMask) == i
      ensures forall i :: 0 <= i < |shards| ==>
        shards[i].capacity == ShardCapacity(capacity, |shards|) && shards[i].contents == []
    {
      var numShards := RoundedShardCount(numCPU);
      var shardCapacity := ShardCapacity(capacity, numShards);
      var s;
      ghost var R;
      s, R := NewShards(numShards, shardCapacity);
      shards, shardMask := s, numShards - 1;
      Repr := R + {this};
      new;
      forall i | 0 <= i < numShards ensures ShardIndex(i, shardMask) == i {
        EveryShardReachable(numShards, i);
      }
    }

    /** The loop of NewLRUCache: `n` fresh empty shards of capacity `capacity`, each
        owning its own objects. */
    static method NewShards(n: nat, capacity: int) returns (s: seq<Shard<V>>, ghost R: set<object>)
      requires capacity >= 1
      ensures |s| == n && fresh(R)
      ensures forall i :: 0 <= i < n ==>
        s[i] in R && s[i].Repr <= R && s[i].Valid() && s[i].capacity == capacity && s[i].contents == []
      ensures forall i, j :: 0 <= i < j < n ==> s[i].Repr !! s[j].Repr
    {
      s, R := [], {};
      while |s| < n
        invariant |s| <= n && fresh(R)
        invariant forall i :: 0 <= i < |s| ==>
          s[i] in R && s[i].Repr <= R && s[i].Valid() && s[i].capacity == capacity && s[i].contents == []
        invariant forall i, j :: 0 <= i < j < |s| ==> s[i].Repr !! s[j].Repr
      {
        var shard := new Shard(capacity);
        s := s + [shard];
        R := R + shard.Repr;
      }
    }

    /** Get: look the key up in its shard, which moves a present key to the front of
        that shard; no other shard changes. */
    method Get(key: Key) returns (r: Option<V>)
      requires Valid()
      modifies Repr
      ensures Valid() && Repr == old(Repr)
      ensures r == Lookup(old(Contents())[ShardOf(key)], key)
      ensures Contents() == old(Contents())[ShardOf(key) := Touch(old(Contents())[ShardOf(key)], key)]
    {
      var i := ShardOf(key);
      var shard := shards[i];
      TouchSpec(shard.contents, key);
      r := shard.Get(key);
      Framed(i);
    }

    /** Put, as written: upsert in the key's shard, with no eviction. */
    method Put(key: Key, value: V)
      requires Valid()
      modifies Repr
      ensures Valid() && fresh(Repr - old(Repr))
      ensures Contents() ==
        old(Contents())[ShardOf(key) := Upsert(old(Contents())[ShardOf(key)], key, value)]
    {
      var i := ShardOf(key);
      var shard := shards[i];
      ghost var before := shard.contents;
      assert before == Contents()[i];
      RoutedUpsert(i, before, key, value);
      shard.Put(key, value);
      Repr := Repr + shard.Repr;
      Framed(i);
    }

    /** Put with eviction: upsert in the key's shard, then shrink that shard to its
        capacity. */
    method PutEvicting(key: Key, value: V)
      requires Valid()
      modifies Repr
      ensures Valid() && fresh(Repr - old(Repr))
      ensures Contents() == old(Contents())[ShardOf(key) :=
        Shrink(Upsert(old(Contents())[ShardOf(key)], key, value), shards[ShardOf(key)].capacity)]
      ensures shards[ShardOf(key)].size <= shards[ShardOf(key)].capacity
    {
      var i := ShardOf(key);
      var shard := shards[i];
      RoutedUpsert(i, shard.contents, key, value);
      RoutedShrink(i, Upsert(shard.contents, key, value), shard.capacity);
      shard.PutEvicting(key, value);
      Repr := Repr + shard.Repr;
      Framed(i);
    }

    /** Clear: every shard in turn is emptied; the shards themselves remain. */
    method Clear()
      requires Valid()
      modifies Repr
      ensures Valid() && Repr == old(Repr)
      ensures forall i :: 0 <= i < |shards| ==> Contents()[i] == [] && shards[i].size == 0
      ensures Count(Contents()) == 0
    {
      for i := 0 to |shards|
        invariant Valid() && Repr == old(Repr)
        invariant forall j :: 0 <= j < i ==> shards[j].contents == [] && shards[j].size == 0
      {
        label Before:
        shards[i].Clear();
        Framed@Before(i);
      }
      CountEmpty(Contents());
    }

    /** Size: the sum of the shard sizes, which is the number of entries held. */
    method Size() returns (total: int)
      requires Valid()
      ensures total == Count(Contents())
    {
      SizesAgree();
      ghost var cs := Contents();
      total := 0;
      for i := 0 to |shards|
        invariant total == Count(cs[..i])
      {
        assert cs[..i + 1][..i] == cs[..i];
        total := total + shards[i].size;
      }
      assert cs[..|shards|] == cs;
    }

    /** Stats: each shard's size in shard order, their total and the shard count. The
        total is the number of entries held. */
    method Stats() returns (st: CacheStats)
      requires Valid()
      ensures st.numShards == |shards| && |st.shardSizes| == |shards|
      ensures forall i :: 0 <= i < |shards| ==> st.shardSizes[i] == shards[i].size == |Contents()[i]|
      ensures st.totalSize == Sum(st.shardSizes) == Count(Contents())
    {
      SizesAgree();
      st := Tally();
      SumCount(st.shardSizes, Contents());
    }

    /** The loop of Stats: read each shard's `size` into its slot of a fresh array
        and add it to the running total. */
    method Tally() returns (st: CacheStats)
      ensures st.numShards == |shards| && |st.shardSizes| == |shards|
      ensures forall i :: 0 <= i < |shards| ==> st.shardSizes[i] == shards[i].size
      ensures st.totalSize == Sum(st.shardSizes)
    {
      var totalSize := 0;
      var shardSizes := new int[|shards|];
      for i := 0 to |shards|
        invariant forall j :: 0 <= j < i ==> shardSizes[j] == shards[j].size
        invariant totalSize == Sum(shardSizes[..i])
      {
        shardSizes[i] := shards[i].size;
        assert shardSizes[..i + 1][..i] == shardSizes[..i];
        totalSize := totalSize + shards[i].size;
      }
      assert shardSizes[..|shards|] == shardSizes[..];
      st := CacheStats(totalSize, |shards|, shardSizes[..]);
    }

    /** Each shard's `size` is the number of its entries. */
    lemma SizesAgree()
      requires Valid()
      ensures forall i :: 0 <= i < |shards| ==> shards[i].size == |Contents()[i]|
    {
      forall i | 0 <= i < |shards| ensures shards[i].size == |Contents()[i]| {
        shards[i].SizeAgrees();
      }
    }

    /** A key is held only by the shard it routes to, so looking in that shard alone
        misses nothing. */
    lemma OnlyInItsShard(key: Key)
      requires Valid()
      ensures forall j :: 0 <= j < |shards| && j != ShardOf(key) ==> Lookup(Contents()[j], key) == None
    {
      forall j | 0 <= j < |shards| && j != ShardOf(key)
        ensures Lookup(Contents()[j], key) == None
      {
        assert Contents()[j] == shards[j].contents;
      }
    }

    /** A put keeps every key of the shard routed to that shard. */
    lemma RoutedUpsert(i: nat, c: seq<Entry<V>>, key: Key, value: V)
      requires |shards| == shardMask + 1 && ShardOf(key) == i && UniqueKeys(c)
      requires forall k :: k in KeySet(c) ==> ShardOf(k) == i
      ensures UniqueKeys(Upsert(c, key, value))
      ensures forall k :: k in KeySet(Upsert(c, key, value)) ==> ShardOf(k) == i
    {
      UpsertSpec(c, key, value);
    }

    /** So does shrinking the shard. */
    lemma RoutedShrink(i: nat, c: seq<Entry<V>>, cap: nat)
      requires |shards| == shardMask + 1 && UniqueKeys(c)
      requires forall k :: k in KeySet(c) ==> ShardOf(k) == i
      ensures forall k :: k in KeySet(Shrink(c, cap)) ==> ShardOf(k) == i
    {
      ShrinkSpec(c, cap);
    }

    /** After an operation on shard `i` alone, the other shards are as they were and
        the cache is valid again. */
    twostate lemma Framed(new i: nat)
      requires old(Valid()) && i < |shards|
      requires shards[i].Valid() && fresh(shards[i].Repr - old(shards[i].Repr))
      requires this !in shards[i].Repr
      requires forall k :: k in KeySet(shards[i].contents) ==> ShardOf(k) == i
      requires Repr == old(Repr) + shards[i].Repr
      requires forall o :: o in old(Repr) && o != this && o !in old(shards[i].Repr) ==> unchanged(o)
      ensures Valid()
      ensures Contents() == old(Contents())[i := shards[i].contents]
    {
      forall j | 0 <= j < |shards| && j != i
        ensures unchanged(shards[j]) && shards[j].Repr == old(shards[j].Repr)
        ensures shards[j].Valid()
      {
        assert shards[j] in old(shards[j].Repr);
        assert shards[j] !in old(shards[i].Repr);
      }
    }
  }
}
