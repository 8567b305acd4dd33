/** How a key is routed to a shard, and how many shards there are and how much each
    may hold: the FNV-1a hash of the key's bytes, masked by `numShards - 1`; the shard
    count derived from the number of CPUs; the per-shard capacity. */
module Partition {

  const OffsetBasis: bv32 := 2166136261
  const Prime: bv32 := 16777619

  /** One step of FNV-1a: xor the byte in, then multiply by the prime, modulo 2^32. */
  function Mix(h: bv32, b: bv8): bv32 {
    (h ^ (b as bv32)) * Prime
  }

  /** The FNV-1a state after feeding `data`, one byte at a time, to the state `h`. */
  function Feed(h: bv32, data: seq<bv8>): bv32
    decreases |data|
  {
    if data == [] then h else Feed(Mix(h, data[0]), data[1..])
  }

  /** The 32-bit FNV-1a hash of a key's bytes: the offset basis for no bytes, and
      each further byte one more mixing step on the hash of the bytes before it. */
  function Fnv1a(data: seq<bv8>): (r: bv32)
    ensures data == [] ==> r == OffsetBasis
    ensures data != [] ==> r == Mix(Fnv1a(data[..|data| - 1]), data[|data| - 1])
    decreases |data|
  {
    if data != [] then
      var init, last := data[..|data| - 1], data[|data| - 1];
      assert data == init + [last];
      FeedAppend(OffsetBasis, init, [last]);
      Feed(OffsetBasis, data)
    else
      Feed(OffsetBasis, data)
  }

  /** Feeding the bytes in two writes gives the same state as feeding them in one. */
  lemma {:induction false} FeedAppend(h: bv32, a: seq<bv8>, b: seq<bv8>)
    ensures Feed(h, a + b) == Feed(Feed(h, a), b)
    decreases |a|
  {
    if a == [] {
      assert a + b == b;
    } else {
      assert (a + b)[0] == a[0] && (a + b)[1..] == a[1..] + b;
      FeedAppend(Mix(h, a[0]), a[1..], b);
    }
  }

  /** The published FNV-1a test vectors for "", "a" and "foobar". */
  lemma Fnv1aVectors()
    ensures Fnv1a([]) == 0x811c9dc5
    ensures Fnv1a([0x61]) == 0xe40c292c
    ensures Fnv1a([0x66, 0x6f, 0x6f, 0x62, 0x61, 0x72]) == 0xbf9cf968
  {
    var foobar: seq<bv8> := [0x66, 0x6f, 0x6f, 0x62, 0x61, 0x72];
    assert foobar[1..][1..][1..][1..][1..][1..] == [];
  }

  /** Go's `uint32`: the integers from 0 to 2^32 - 1. The hash is computed on `bv32`;
      shard counts, masks and indices are these integers. */
  type U32 = x: int | 0 <= x < 0x1_0000_0000

  /** The hash of a key, as an unsigned 32-bit integer. */
  function Hash(key: seq<bv8>): (r: U32)
    ensures r as bv32 == Fnv1a(key)
  {
    Fnv1a(key) as int
  }

  /** Bitwise and of two non-negative integers, bit by bit from the lowest. */
  function BitAnd(a: nat, b: nat): nat {
    if a == 0 || b == 0 then 0
    else 2 * BitAnd(a / 2, b / 2) + (if a % 2 == 1 && b % 2 == 1 then 1 else 0)
  }

  /** A bitwise and never exceeds either operand. */
  lemma {:induction false} BitAndBound(a: nat, b: nat)
    ensures BitAnd(a, b) <= a && BitAnd(a, b) <= b
  {
    if a != 0 && b != 0 {
      BitAndBound(a / 2, b / 2);
    }
  }

  /** The shard a hash selects: the hash masked by `mask`. The index never exceeds
      the mask, so with `mask + 1` shards it always names one of them. */
  function ShardIndex(h: U32, mask: U32): (r: U32)
    ensures r <= mask && r <= h
  {
    BitAndBound(h, mask);
    BitAnd(h, mask)
  }

  /** `nextPowerOf2`, as written: 0 becomes 1 and every other value is returned
      unchanged, whether or not it is a power of two. */
  function NextPowerOf2(n: U32): (r: U32)
    ensures r != 0
    ensures n == 0 ==> r == 1
    ensures n != 0 ==> r == n
  {
    if n == 0 then 1 else n
  }

  /** The conversion `uint32(x)` of a Go `int`: its low 32 bits, the one 32-bit value
      congruent to `x` modulo 2^32, which is `x` itself when `x` already fits. */
  function ToUint32(x: int): (r: U32)
    ensures (x - r) % 0x1_0000_0000 == 0
    ensures 0 <= x < 0x1_0000_0000 ==> r == x
  {
    x % 0x1_0000_0000
  }

  /** The raw shard count before clamping, `nextPowerOf2(uint32(NumCPU() * 4))`.
      The product cannot wrap the 64-bit `int` in a way that changes the low
      32 bits, so it is taken on unbounded integers. */
  function RequestedShards(numCPU: int): (r: U32)
    ensures r >= 1
    ensures 1 <= numCPU < 0x4000_0000 ==> r == 4 * numCPU
    ensures (4 * numCPU) % 0x1_0000_0000 == 0 ==> r == 1
  {
    NextPowerOf2(ToUint32(numCPU * 4))
  }

  /** The two clamps of NewLRUCache: below 16 becomes 16, then below 1024 becomes 1024.
      The clamp to 16 never decides anything: the result is that of the clamp to 1024 alone. */
  function Clamp(n: U32): (r: U32)
    ensures n < 1024 ==> r == 1024
    ensures n >= 1024 ==> r == n
  {
    var n1 := if n < 16 then 16 else n;
    if n1 < 1024 then 1024 else n1
  }

  /** The shard count NewLRUCache settles on: at least 1024, and exactly the requested
      count when that is 1024 or more. */
  function ShardCount(numCPU: int): (r: U32)
    ensures r >= 1024
    ensures RequestedShards(numCPU) >= 1024 ==> r == RequestedShards(numCPU)
    ensures RequestedShards(numCPU) < 1024 ==> r == 1024
  {
    Clamp(RequestedShards(numCPU))
  }

  /** Go's integer division, which truncates toward zero. */
  function GoDiv(a: int, b: int): (q: int)
    requires b > 0
    ensures a >= 0 ==> q * b <= a < (q + 1) * b
    ensures a < 0 ==> q <= 0 && -q * b <= -a < (-q + 1) * b
  {
    if a >= 0 then a / b else -((-a) / b)
  }

  /** The capacity of each shard, `capacity / numShards`, raised to 1 when that is
      smaller. When the total covers every shard, each shard gets the largest share
      that keeps the shards together within the total; otherwise each gets 1. */
  function ShardCapacity(capacity: int, numShards: U32): (c: int)
    requires numShards >= 1
    ensures c >= 1
    ensures capacity >= numShards ==> c * numShards <= capacity < (c + 1) * numShards
    ensures capacity < numShards ==> c == 1
  {
    var q := GoDiv(capacity, numShards);
    if q < 1 then 1 else q
  }

  // ---------------------------------------------------------------------------
  // Rounding to a power of two, as `nextPowerOf2` evidently intends

  /** 1, 2, 4, 8, ... */
  predicate IsPowerOf2(p: nat) {
    p == 1 || (p >= 2 && p % 2 == 0 && IsPowerOf2(p / 2))
  }

  /** As written, 257 CPUs give 1028 shards and the mask 1027 (binary 10000000011):
      no hash reaches shard 4, although it exists. */
  lemma UnreachableShard(h: U32)
    ensures ShardCount(257) == 1028 && !IsPowerOf2(ShardCount(257))
    ensures ShardIndex(h, ShardCount(257) - 1) != 4
  {
    assert !IsPowerOf2(1028) by {
      assert !IsPowerOf2(257);
    }
    var x := BitAnd(h / 4, 256);
    assert x % 2 == 0;
    assert BitAnd(h / 2, 513) == 2 * x + (h / 2) % 2;
    assert BitAnd(h, 1027) == 4 * x + 2 * ((h / 2) % 2) + h % 2;
  }

  /** Doubling `p` until it reaches `n`. */
  function Grow(p: nat, n: nat): (r: nat)
    requires IsPowerOf2(p)
    requires p == 1 || p / 2 < n
    ensures IsPowerOf2(r) && r >= n && r >= p
    ensures r == 1 || r / 2 < n
    decreases n - p
  {
    if p >= n then p else Grow(p * 2, n)
  }

  /** The smallest power of two that is at least `n` (1 for 0). Beyond 2^31 no such
      32-bit value exists, so those inputs are excluded. */
  function RoundUpPowerOf2(n: U32): (r: U32)
    requires n <= 0x8000_0000
    ensures IsPowerOf2(r) && r >= n
    ensures r == 1 || r / 2 < n
  {
    Grow(1, n)
  }

  /** The shard count with the rounding done: at least 1024, a power of two, and
      no smaller than the requested count. */
  function RoundedShardCount(numCPU: int): (r: U32)
    requires 1 <= numCPU <= 0x2000_0000
    ensures r >= 1024 && IsPowerOf2(r)
    ensures r >= numCPU * 4
  {
    var r := RoundUpPowerOf2(numCPU * 4);
    if r < 1024 then 1024 else r
  }

  /** With a power-of-two shard count, every shard is the target of some hash: the
      hash equal to the shard's own index. */
  lemma {:induction false} EveryShardReachable(p: U32, i: U32)
    requires IsPowerOf2(p) && i < p
    ensures ShardIndex(i, p - 1) == i
    decreases p
  {
    if i != 0 && p != 1 {
      EveryShardReachable(p / 2, i / 2);
    }
  }
}
