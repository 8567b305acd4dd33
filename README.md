# Sharded LRU cache, modelled in Dafny

This project models the engine of an in-memory, sharded LRU cache written in Go (`main.go`).
A cache owns a fixed sequence of shards. A key goes to the shard its 32-bit FNV-1a hash
selects once masked with `shardMask`. Each shard keeps two structures:

- a lookup table from key to node;
- an intrusive doubly-linked recency list between a `head` and a `tail` sentinel node,
  ordered from most recently used (front) to least recently used (back).

The model has four modules:

- `Entries` (entries.dfy) is the abstract view of one shard. It is the sequence of its
  entries from front to back, together with the effect of each operation on that
  sequence: `Touch` for a get, `Upsert` for a put as written, `DropLast` for an eviction
  and `Shrink` for eviction down to a capacity. Its lemmas say what these mean in terms
  of `Lookup`, the key set and the reference filter `Without`.
- `Recency` (recency.dfy) holds the `Node` and `Shard` classes. The shard's pointer
  operations are imperative methods that change the nodes' `prev`/`next` fields, the
  table and `size` in place:
  - `removeNode` and `addToFront` are proved to relink a given ghost list of nodes:
    the list without the node, or with the node right after the head, is linked both ways.
  - `moveToFront`, get, put and `evictLRU` are proved to keep the representation
    invariant `Valid()` and to change the ghost `contents` exactly as the matching
    `Entries` function does (`Promote`, `Touch`, `Upsert`, `DropLast`).
  - clear is proved to keep `Valid()` and to leave `contents` empty.
- `Partition` (partition.dfy) covers hashing, masking, `nextPowerOf2`, the shard-count
  clamps and the per-shard capacity.
- `ShardedCache` (cache.dfy) is the `LRUCache` class: construction, delegation of get and
  put to the key's shard, and the `Clear`, `Size` and `Stats` loops over all shards.

The shard invariant says these things:

- the real nodes between the sentinels are distinct and linked both ways;
- they are exactly the table's values;
- each table entry points at the node holding its key;
- no key occurs twice;
- `size` equals both the list length and the table size.

The cache invariant says these things:

- there are `shardMask + 1 >= 1024` shards;
- each shard is valid and has capacity at least 1;
- no two shards share an object;
- every key a shard holds is routed to that shard.

Routing is deterministic because `ShardOf` is a function of the key and of the cache's
constant mask.

The model follows the code as written, including where it departs from what a sharded
LRU cache needs:

- `Put` never evicts (main.go:131-133). A bounded LRU cache evicts its least recently
  used entries until it is back within capacity.
- The shard count is `nextPowerOf2(4 * NumCPU)` without any rounding, raised to at least
  1024 (main.go:66-72). Masking the hash with `numShards - 1` reaches every shard only
  when the shard count is a power of two.
- A zero or negative total capacity is accepted, and each shard still gets capacity 1
  (main.go:73-76).

Go's `uint32` values other than the hash are integers in `[0, 2^32)` (`Partition.U32`).
The conversion `uint32(x)` is written out as `x % 2^32`. Integer division truncates
toward zero (`Partition.GoDiv`). The bitwise `&` of the index computation is
`Partition.BitAnd`, defined bit by bit.

## Model

| member | source | states |
|---|---|---|
| Recency.Node.constructor | main.go:123-126 | a new node holds the given key and value and is not linked to anything |
| Recency.Shard.Valid | main.go:18-25 | the shard's representation invariant: distinct real nodes linked both ways between the sentinels, which are exactly the table's values, one per key, each table entry pointing at its key's node, and `size` counting them |
| Recency.Shard.constructor | main.go:39-52 | newShard: a valid, empty shard with the given capacity, `size` 0, an empty table and `head.next == tail`, `tail.prev == head` |
| Recency.Shard.SizeAgrees | main.go:20-22 | in a valid shard, `size`, the number of table entries and the number of list entries are equal |
| Recency.Shard.RemoveNode | main.go:98-101 | removeNode: after relinking the two neighbours, the list without the node is linked both ways |
| Recency.Shard.AddToFront | main.go:92-97 | addToFront: the node is linked right after the head sentinel, in front of the former first node, both ways |
| Recency.Shard.MoveToFront | main.go:88-91 | moveToFront keeps the invariant, moves the node's entry from position i to the front with the others in order, and changes no table entry, size or value |
| Recency.Shard.Get | main.go:102-112 | returns the value stored under the key, or None when absent; a present key moves to the front; a missing key changes nothing; size and table unchanged |
| Recency.Shard.Put | main.go:113-134 | the entries become `Upsert` of the old ones; for a present key, size, table and owned objects are unchanged; for a new key, size grows by one and the table gains exactly that key; nothing is evicted |
| Recency.Shard.Overwrite | main.go:118-122 | an existing key's node gets the new value and moves to the front; nothing else changes |
| Recency.Shard.Insert | main.go:123-133 | a fresh node with the key and value goes to the front, the table gains the key, size grows by one, even past capacity |
| Recency.Shard.EvictLRU | main.go:149-156 | evictLRU: the back entry is dropped, its key leaves the table and size drops by one; on an empty shard nothing changes |
| Recency.Shard.DropBack | main.go:151-155 | on a non-empty shard, unlinking `tail.prev` removes exactly the last entry and its table key, and decrements size |
| Recency.Shard.PutEvicting | main.go:113-134 | corrected put: the entries become `Shrink(Upsert(old, key, value), capacity)` and size ends at most capacity |
| Recency.Shard.Trim | main.go:149-156 | evicting from the back while size exceeds capacity leaves exactly the first `capacity` entries |
| Recency.Shard.Clear | main.go:140-143 | one shard of Clear: empty table and list, size 0, sentinels linked to each other, invariant kept |
| Entries.Lookup | main.go:107-111 | the lookup result is present exactly when the key is held, and is the value of the entry holding it |
| Entries.Touch | main.go:107-110 | a get keeps the length, puts a present key first, and leaves the list alone for a missing key |
| Entries.Upsert | main.go:118-129 | a put as written puts the key's entry with the new value first, and grows the list by one exactly when the key was new |
| Entries.DropLast | main.go:149-156 | an eviction keeps the entries in order minus the back one, and leaves an empty list empty |
| Entries.UniqueKeysCount | main.go:21-22 | with no duplicate keys, the number of keys equals the number of entries |
| Entries.WithoutSpec | main.go:153 | removing a key removes it from the key set, keeps every other lookup, and shortens the list by one exactly when the key was held |
| Entries.TouchSpec | main.go:107-110 | a get leaves a missing key's list alone; for a present key, the key's entry goes first and the others keep their order; no lookup, key or length changes |
| Entries.UpsertSpec | main.go:118-129 | a put stores the value under the key, changes no other lookup, puts the key first and the rest in order, adds exactly that key, and grows the list by one exactly when the key was new |
| Entries.OverwriteTwice | main.go:118-121 | putting `v1` then `v2` under one key is the same as putting `v2` once |
| Entries.DropLastSpec | main.go:149-156 | eviction removes exactly the least recently used key and keeps every other lookup |
| Entries.ShrinkSpec | main.go:131-133 | shrinking keeps the most recent `min(|s|, cap)` entries in order, with unique keys, so it evicts only the overflow |
| Entries.EvictsLeastRecent | main.go:131-133 | a put followed by shrinking to capacity changes nothing beyond the put as written when the key is held or there is room; a new key at a full shard evicts exactly the least recently used entry |
| Entries.UpsertOverflowsCapacity | main.go:131-133 | as written, putting two different keys into a capacity-1 shard leaves two entries |
| Entries.RecencyExample | main.go:113-134 | with eviction, capacity 2 and put A, put B, get A, put C leave C and A and evict B |
| Partition.FeedAppend | main.go:54-58 | FNV-1a over two writes equals FNV-1a over the concatenated bytes |
| Partition.Fnv1a | main.go:54-58 | FNV-1a of no bytes is the offset basis, and each further byte is one more xor-and-multiply step on the hash of the bytes before it |
| Partition.Hash | main.go:54-58 | hash: the 32-bit FNV-1a value, seen as an unsigned integer without losing a bit |
| Partition.Fnv1aVectors | main.go:54-58 | FNV-1a matches the published 32-bit test vectors for "", "a" and "foobar" |
| Partition.BitAndBound | main.go:62 | a bitwise and is at most each operand |
| Partition.ShardIndex | main.go:62 | `hash & shardMask` never exceeds the mask, so it always names an existing shard |
| Partition.NextPowerOf2 | main.go:32-37 | nextPowerOf2 as written: 1 for 0, otherwise `n` itself |
| Partition.ShardCount | main.go:66-72 | the shard count is at least 1024, and equals the requested count whenever that is at least 1024 |
| Partition.ToUint32 | main.go:66 | `uint32(x)` is the 32-bit value congruent to `x` modulo 2^32, and `x` itself when it fits |
| Partition.RequestedShards | main.go:66 | the requested count is at least 1; it is `4 * NumCPU` for 1 to 2^30 - 1 CPUs, and 1 when that product is a multiple of 2^32 |
| Partition.Clamp | main.go:67-72 | the two clamps give 1024 below 1024 and the value itself otherwise, so the clamp to 16 never changes the outcome |
| Partition.GoDiv | main.go:73 | Go's `/` truncates toward zero: the quotient times the divisor stays within one divisor of the dividend |
| Partition.ShardCapacity | main.go:73-76 | each shard's capacity is at least 1; when the total is at least the shard count, it is the largest share whose sum stays within the total; otherwise it is 1 |
| Partition.UnreachableShard | main.go:32-37 | as written, 257 CPUs give 1028 shards, not a power of two, and no hash selects shard 4 |
| Partition.RoundUpPowerOf2 | main.go:32-37 | corrected: the smallest power of two at least `n` |
| Partition.RoundedShardCount | main.go:66-72 | corrected shard count: a power of two, at least 1024, at least the requested count |
| Partition.EveryShardReachable | main.go:62 | with a power-of-two shard count, masking a shard's own index gives that shard |
| ShardedCache.LRUCache.Valid | main.go:27-30 | the cache invariant: `shardMask + 1 >= 1024` valid shards with disjoint objects and capacity at least 1, each key held only by the shard it routes to |
| ShardedCache.LRUCache.ShardOf | main.go:61-63 | getShard: the index `hash(key) & shardMask` is within the shards |
| ShardedCache.LRUCache.constructor | main.go:65-86 | NewLRUCache: `ShardCount(numCPU)` empty valid shards, each of capacity `ShardCapacity`, and `shardMask == numShards - 1` |
| ShardedCache.LRUCache.Rounded | main.go:65-86 | corrected construction: a power-of-two shard count, and every shard is the target of some hash |
| ShardedCache.LRUCache.NewShards | main.go:82-84 | the construction loop yields `n` fresh, valid, empty shards with disjoint objects |
| ShardedCache.LRUCache.Get | main.go:102-112 | the result is the lookup in the key's shard, that shard changes as `Touch`, and no other shard changes |
| ShardedCache.LRUCache.Put | main.go:113-134 | the key's shard changes as `Upsert`, with no eviction, and no other shard changes |
| ShardedCache.LRUCache.PutEvicting | main.go:113-134 | corrected put: the key's shard changes as `Shrink(Upsert(...), capacity)` and ends within capacity; no other shard changes |
| ShardedCache.LRUCache.OnlyInItsShard | main.go:61-63 | a key is held by no shard other than the one it routes to, so looking in that shard alone misses nothing |
| ShardedCache.LRUCache.Clear | main.go:137-146 | every shard ends empty with size 0, the invariant holds, and the entry count is 0; the end state does not depend on the start state, so a second Clear changes nothing |
| ShardedCache.LRUCache.Size | main.go:159-167 | the sum of the shard sizes is the number of entries in the cache |
| ShardedCache.LRUCache.Stats | main.go:169-185 | `shard_sizes[i]` is shard i's size and entry count, `total_size` is their sum and the number of entries, and `num_shards` is the shard count |
| ShardedCache.LRUCache.Tally | main.go:170-178 | the Stats loop fills slot i with shard i's size and accumulates their sum |
| ShardedCache.SumCount | main.go:159-167 | summing per-shard sizes that match the shard lengths gives the total entry count |
| ShardedCache.CountEmpty | main.go:137-146 | a cache whose shards are all empty holds no entries |
| ShardedCache.UpsertCount | main.go:123-129 | as written, a put adds one to the entry count for a new key and nothing for a present one |

## Left out

- Locking (`sync.RWMutex`): every operation is sequential and atomic. The weak consistency of `Size` and `Stats` across concurrent writers cannot be stated sequentially.
- The `main()` demo and benchmark: goroutines, timing, printing and the floating-point throughput figure.
- `runtime.NumCPU()` is a foreign call. The CPU count is a constructor parameter.
- `int` overflow: `size`, capacities and `NumCPU() * 4` are unbounded integers. Only the `uint32` conversion and the 32-bit hash arithmetic are modelled with wrap-around.
- `interface{}` values are a type parameter `V`. The `map[string]interface{}` returned by `Stats` is the record `CacheStats`.
- The shard slice is an immutable sequence, since nothing changes it after construction. The construction loop builds it by appending.
- Nodes unlinked by eviction or clear stay in the shard's ghost `Repr`, where Go's collector would free them.
- The shard's `Put`, `evictLRU` and the Stats loop are split into helper methods (`Overwrite`/`Insert`, `DropBack`, `Tally`). Each helper models one branch or loop of the original function.
- Recency.Shard.PutEvicting: requires a non-negative capacity. With a negative one, an empty shard would keep satisfying `size > capacity` and the loop would not end.
- Partition.RoundedShardCount: requires 1 to 2^29 CPUs, so that `4 * NumCPU` rounds up to a power of two that fits in 32 bits.

## Findings

| source | as written | input that shows it | evidently intended | confidence | as-written member | corrected member |
|---|---|---|---|---|---|---|
| main.go:131-133 | a put of a new key into a full shard only returns, so `size` grows past `capacity` and `evictLRU` is never called | a shard of capacity 1 given two different keys holds both | evict the least recently used entry while `size > capacity` | not executed | Entries.UpsertOverflowsCapacity | Recency.Shard.PutEvicting |
| main.go:32-37 | `nextPowerOf2` returns any non-zero `n` unchanged, so the shard count need not be a power of two and masking leaves shards unreachable | 257 CPUs: 1028 shards, mask 1027, no hash selects shard 4 | round up to the next power of two | not executed | Partition.UnreachableShard | Partition.RoundedShardCount |
