/** One shard of the cache: a lookup table from key to node plus an intrusive
    doubly-linked recency list between two sentinel nodes, most recently used
    first. The ghost fields give the abstract view: `nodes` is the list of real
    nodes from front to back, `contents` their keys and values, `Repr` the
    objects the shard owns. */
module Recency {
  import opened Entries

  class Node<V> {
    const key: Key
    var value: V
    var prev: Node?<V>
    var next: Node?<V>

    constructor (key: Key, value: V)
      ensures this.key == key && this.value == value
      ensures prev == null && next == null
    {
      this.key := key;
      this.value := value;
      prev := null;
      next := null;
    }
  }

  /** Each node of `L` links forward to its successor and its successor links back. */
  ghost predicate Linked<V>(L: seq<Node<V>>)
    reads L
  {
    forall i, j {:trigger L[i], L[j]} :: 0 <= i && j == i + 1 && j < |L| ==> L[i].next == L[j] && L[j].prev == L[i]
  }

  class Shard<V(0)> {
    const capacity: int
    var size: int
    var cache: map<Key, Node<V>>
    const head: Node<V>
    const tail: Node<V>

    ghost var nodes: seq<Node<V>>
    ghost var contents: seq<Entry<V>>
    ghost var Repr: set<object>

    /** The whole list for the real nodes `ns`, sentinels included. */
    ghost function Between(ns: seq<Node<V>>): seq<Node<V>> {
      [head] + ns + [tail]
    }

    /** The table half of the invariant, for the real nodes `ns` in list order and
        their entries `cs`: each node carries its entry, no key occurs twice, the
        lookup table maps exactly those keys to their nodes, and `size` counts the
        nodes. It depends on no link of the list. */
    ghost predicate Table(ns: seq<Node<V>>, cs: seq<Entry<V>>)
      reads this`cache, this`size, ns
    {
      && |cs| == |ns|
      && (forall i :: 0 <= i < |ns| ==> cs[i] == Entry(ns[i].key, ns[i].value))
      && UniqueKeys(cs)
      && cache.Keys == KeySet(cs)
      && (forall i :: 0 <= i < |ns| ==> ns[i].key in cache && cache[ns[i].key] == ns[i])
      && size == |ns|
    }

    /** The representation invariant: the real nodes, linked in both directions
        between the sentinels, are exactly the nodes of the lookup table. */
    ghost predicate Valid()
      reads this, Repr
      ensures Valid() ==> this in Repr
    {
      && this in Repr && head in Repr && tail in Repr
      && (forall i :: 0 <= i < |nodes| ==> nodes[i] in Repr)
      && Distinct(Between(nodes))
      && Linked(Between(nodes))
      && Table(nodes, contents)
    }

    /** newShard: an empty shard whose sentinels point at each other. */
    constructor (capacity: int)
      ensures Valid() && fresh(Repr)
      ensures this.capacity == capacity && contents == [] && size == 0 && cache == map[]
      ensures head.next == tail && tail.prev == head
    {
      this.capacity := capacity;
      size := 0;
      cache := map[];
      var zero: V := *;
      head := new Node([], zero);
      tail := new Node([], zero);
      nodes := [];
      contents := [];
      new;
      head.next := tail;
      tail.prev := head;
      Repr := {this, head, tail};
    }

    /** The table holds as many keys as the list holds nodes, and both are `size`. */
    lemma SizeAgrees()
      requires Valid()
      ensures |cache| == size == |contents|
    {
      UniqueKeysCount(contents);
      assert cache.Keys == KeySet(contents);
    }

    /** removeNode: unlink `node`, which sits at position `i` of the list `L`. The
        node's own links are left as they were. */
    method RemoveNode(node: Node<V>, ghost L: seq<Node<V>>, ghost i: nat)
      requires 0 < i < |L| - 1 && L[i] == node
      requires Linked(L) && Distinct(L)
      modifies (L[i - 1] as Node<V>)`next, (L[i + 1] as Node<V>)`prev
      ensures Linked(L[..i] + L[i + 1..])
    {
      assert L[i - 1].next == L[i] && node.prev == L[i - 1];
      assert node.next == L[i + 1] && L[i + 1].prev == node;
      node.prev.next := node.next;
      node.next.prev := node.prev;
      ghost var L' := L[..i] + L[i + 1..];
      forall j | 0 <= j < |L'| - 1
        ensures L'[j].next == L'[j + 1] && L'[j + 1].prev == L'[j]
      {
        if j < i - 1 {
          assert L'[j] == L[j] && L'[j + 1] == L[j + 1];
          assert L[j] != L[i - 1] && L[j + 1] != L[i + 1];
          assert old(L[j].next) == L[j + 1] && old(L[j + 1].prev) == L[j];
        } else if j == i - 1 {
          assert L'[j] == L[i - 1] && L'[j + 1] == L[i + 1];
        } else {
          assert L'[j] == L[j + 1] && L'[j + 1] == L[j + 2];
          assert L[j + 1] != L[i - 1] && L[j + 2] != L[i + 1];
          assert old(L[j + 1].next) == L[j + 2] && old(L[j + 2].prev) == L[j + 1];
        }
      }
    }

    /** addToFront: link `node`, which is not in the list `L`, right after the head sentinel. */
    method AddToFront(node: Node<V>, ghost L: seq<Node<V>>)
      requires 2 <= |L| && L[0] == head && node !in L
      requires Linked(L) && Distinct(L)
      modifies node`prev, node`next, head`next, (L[1] as Node<V>)`prev
      ensures Linked([head, node] + L[1..])
    {
      node.prev := head;
      node.next := head.next;
      head.next.prev := node;
      head.next := node;
      ghost var L' := [head, node] + L[1..];
      forall j | 0 <= j < |L'| - 1
        ensures L'[j].next == L'[j + 1] && L'[j + 1].prev == L'[j]
      {
        if j >= 2 {
          assert L'[j] == L[j - 1] && L'[j + 1] == L[j];
        }
      }
    }

    /** moveToFront: unlink the node at position `i` of the list and relink it right
        after the head sentinel; the ghost view moves its entry to the front. */
    method MoveToFront(node: Node<V>, ghost i: nat)
      requires Valid() && i < |nodes| && nodes[i] == node
      modifies this`nodes, this`contents
      modifies (Between(nodes)[i] as Node<V>)`next, (Between(nodes)[i + 2] as Node<V>)`prev
      modifies node`prev, node`next, head`next, (Between(nodes)[1] as Node<V>)`prev
      ensures Valid() && Repr == old(Repr) && cache == old(cache) && size == old(size)
      ensures nodes == Promote(old(nodes), i) && contents == Promote(old(contents), i)
      ensures node.value == old(node.value)
    {
      ghost var L := Between(nodes);
      UnlinkRelink(head, nodes, tail, i);
      nodes, contents := Promote(nodes, i), Promote(contents, i);
      RemoveNode(node, L, i + 1);
      AddToFront(node, L[..i + 1] + L[i + 2..]);
      Relinked(i);
    }

    /** After the node at position `i` has been relinked at the front and the ghost
        view reordered to match, the invariant holds again: relinking changes no
        value and no table entry. */
    twostate lemma Relinked(new i: nat)
      requires old(Valid()) && i < |old(nodes)|
      requires nodes == Promote(old(nodes), i) && contents == Promote(old(contents), i)
      requires cache == old(cache) && size == old(size) && Repr == old(Repr)
      requires Linked(Between(nodes))
      requires forall j :: 0 <= j < |old(nodes)| ==> old(nodes)[j].value == old(nodes[j].value)
      ensures Valid()
    {
      var ns, cs := old(nodes), old(contents);
      PromotePermutes(ns, i);
      assert Table(ns, cs);
      Promoted(ns, cs, i);
    }

    /** Overwriting the value of the node at position `i`, and of its entry, keeps
        the invariant: no link and no other value has changed. */
    twostate lemma ValueSet(new i: nat, new v: V)
      requires old(Valid()) && i < |nodes| && nodes == old(nodes)
      requires cache == old(cache) && size == old(size) && Repr == old(Repr)
      requires contents == old(contents)[i := Entry(old(contents)[i].key, v)] && nodes[i].value == v
      requires forall j :: 0 <= j < |nodes| && j != i ==> nodes[j].value == old(nodes[j].value)
      requires forall j :: 0 <= j < |nodes| ==> nodes[j].prev == old(nodes[j].prev) && nodes[j].next == old(nodes[j].next)
      requires head.next == old(head.next) && tail.prev == old(tail.prev)
      ensures Valid()
    {
      ReplaceValue(old(contents), i, v);
      var L := Between(nodes);
      forall a, b {:trigger L[a], L[b]} | 0 <= a && b == a + 1 && b < |L|
        ensures L[a].next == L[b] && L[b].prev == L[a]
      {
        assert old(L[a].next) == L[b] && old(L[b].prev) == L[a];
        if 0 < a {
          assert L[a] == nodes[a - 1];
        }
        if b < |L| - 1 {
          assert L[b] == nodes[b - 1];
        }
      }
    }

    /** After a fresh node for a new key has been linked at the front, entered in the
        table and counted, and the ghost view extended to match, the invariant
        holds again. */
    twostate lemma Inserted(new n: Node<V>)
      requires old(Valid()) && n !in old(Repr) && n.key !in old(cache)
      requires nodes == [n] + old(nodes) && contents == [Entry(n.key, n.value)] + old(contents)
      requires cache == old(cache)[n.key := n] && size == old(size) + 1 && Repr == old(Repr) + {n}
      requires Linked(Between(nodes))
      requires forall j :: 0 <= j < |old(nodes)| ==> old(nodes)[j].value == old(nodes[j].value)
      ensures Valid()
    {
      var ns, cs := old(nodes), old(contents);
      assert n !in Between(ns);
      ConsBetween(head, n, ns, tail);
      KeySetCons(Entry(n.key, n.value), cs);
      forall j | 0 <= j < |nodes|
        ensures contents[j] == Entry(nodes[j].key, nodes[j].value)
        ensures nodes[j].key in cache && cache[nodes[j].key] == nodes[j]
      {
        if j > 0 {
          assert nodes[j] == ns[j - 1] && contents[j] == cs[j - 1];
        }
      }
    }

    /** After the back node has been unlinked, its key deleted from the table and
        `size` decremented, and the ghost view shortened to match, the invariant
        holds again. */
    twostate lemma Evicted()
      requires old(Valid()) && old(nodes) != []
      requires nodes == old(nodes)[..|old(nodes)| - 1] && contents == old(contents)[..|old(contents)| - 1]
      requires cache == old(cache) - {old(nodes)[|old(nodes)| - 1].key}
      requires size == old(size) - 1 && Repr == old(Repr)
      requires Linked(Between(nodes))
      requires forall j :: 0 <= j < |old(nodes)| ==> old(nodes)[j].value == old(nodes[j].value)
      ensures Valid()
    {
      var ns, cs := old(nodes), old(contents);
      DropLastBetween(head, ns, tail);
      DropLastSpec(cs);
      var last := |ns| - 1;
      forall j | 0 <= j < last
        ensures contents[j] == Entry(nodes[j].key, nodes[j].value)
        ensures nodes[j].key in cache && cache[nodes[j].key] == nodes[j]
      {
        assert cs[j].key != cs[last].key;
      }
    }

    /** Moving the node at position `i` to the front, in both the nodes and the
        entries, keeps the table half of the invariant and the list distinct. */
    lemma Promoted(ns: seq<Node<V>>, cs: seq<Entry<V>>, i: nat)
      requires i < |ns| && Table(ns, cs) && Distinct(Between(ns))
      ensures Table(Promote(ns, i), Promote(cs, i)) && Distinct(Between(Promote(ns, i)))
      ensures forall x :: x in Promote(ns, i) <==> x in ns
    {
      PromotePermutes(ns, i);
      PromoteBetween(head, ns, tail, i);
      PromoteEntries(cs, i);
      var ns', cs' := Promote(ns, i), Promote(cs, i);
      forall j | 0 <= j < |ns'|
        ensures cs'[j] == Entry(ns'[j].key, ns'[j].value)
        ensures ns'[j].key in cache && cache[ns'[j].key] == ns'[j]
      {
        if j == 0 {
          assert ns'[j] == ns[i] && cs'[j] == cs[i];
        } else if j <= i {
          assert ns'[j] == ns[j - 1] && cs'[j] == cs[j - 1];
        } else {
          assert ns'[j] == ns[j] && cs'[j] == cs[j];
        }
      }
    }

    /** Get on the shard: a present key's node moves to the front and its value is
        returned; a missing key changes nothing. */
    method Get(key: Key) returns (r: Option<V>)
      requires Valid()
      modifies Repr
      ensures Valid() && Repr == old(Repr)
      ensures r == Lookup(old(contents), key)
      ensures contents == Touch(old(contents), key)
      ensures size == old(size) && cache == old(cache)
      ensures key !in old(cache) ==> nodes == old(nodes)
    {
      if key in cache {
        var node := cache[key];
        ghost var i := IndexOf(contents, key);
        assert node == nodes[i];
        TouchAt(contents, key);
        assert contents[i].value == node.value;
        MoveToFront(node, i);
        r := Some(node.value);
      } else {
        r := None;
      }
    }

    /** Put on the shard, as written: an existing key gets the new value and moves to
        the front; a new key gets a fresh node at the front and `size` grows by one.
        Nothing is evicted, so `size` may end above `capacity`. */
    method Put(key: Key, value: V)
      requires Valid()
      modifies Repr
      ensures Valid() && fresh(Repr - old(Repr))
      ensures contents == Upsert(old(contents), key, value)
      ensures key in old(cache) ==> size == old(size) && cache == old(cache) && Repr == old(Repr)
      ensures key !in old(cache) ==> size == old(size) + 1 && cache.Keys == old(cache).Keys + {key}
    {
      if key in cache {
        var node := cache[key];
        ghost var i := IndexOf(contents, key);
        assert node == nodes[i];
        Overwrite(node, i, value);
        return;
      }
      Insert(key, value);
    }

    /** The branch of Put for a key already present, in the node at position `i`:
        overwrite the value in place and move the node to the front. */
    method Overwrite(node: Node<V>, ghost i: nat, value: V)
      requires Valid() && i < |nodes| && nodes[i] == node
      modifies Repr
      ensures Valid() && Repr == old(Repr) && size == old(size) && cache == old(cache)
      ensures contents == Promote(old(contents)[i := Entry(node.key, value)], i)
    {
      node.value := value;
      contents := contents[i := Entry(node.key, value)];
      ValueSet(i, value);
      MoveToFront(node, i);
    }

    /** The rest of Put, for a key not yet present: a fresh node holding the key and
        value is entered in the table and linked at the front, and `size` grows by one.
        The source ends with a capacity check whose branch only returns, so nothing
        is evicted, whatever `size` has become. */
    method Insert(key: Key, value: V)
      requires Valid() && key !in cache
      modifies Repr
      ensures Valid() && fresh(Repr - old(Repr))
      ensures contents == [Entry(key, value)] + old(contents)
      ensures size == old(size) + 1 && cache.Keys == old(cache).Keys + {key}
    {
      var newNode := new Node(key, value);
      cache := cache[key := newNode];
      AddToFront(newNode, Between(nodes));
      size := size + 1;
      ConsBetween(head, newNode, nodes, tail);
      nodes, contents, Repr := [newNode] + nodes, [Entry(key, value)] + contents, Repr + {newNode};
      Inserted(newNode);
    }

    /** evictLRU: on a non-empty shard, unlink the back node (the one before the tail
        sentinel), delete its key from the table and decrement `size`; on an empty
        shard, do nothing. */
    method EvictLRU()
      requires Valid()
      modifies Repr
      ensures Valid() && Repr == old(Repr)
      ensures contents == DropLast(old(contents))
      ensures old(contents) == [] ==> size == old(size) && cache == old(cache)
      ensures old(contents) != [] ==>
        size == old(size) - 1 && cache == old(cache) - {old(contents)[|old(contents)| - 1].key}
    {
      ghost var n := |nodes|;
      ghost var L := Between(nodes);
      assert L[0] == head && L[n + 1] == tail && L[n + 1].prev == L[n];
      var lru := tail.prev;
      if lru != head {
        assert n > 0 && lru == nodes[n - 1];
        DropBack(lru);
      } else {
        assert n == 0;
      }
    }

    /** The non-empty branch of evictLRU: unlink the back node `lru`, delete its key
        from the table and decrement `size`. */
    method DropBack(lru: Node<V>)
      requires Valid() && nodes != [] && lru == nodes[|nodes| - 1]
      modifies this`nodes, this`contents, this`cache, this`size
      modifies (Between(nodes)[|nodes| - 1] as Node<V>)`next, tail`prev
      ensures Valid() && Repr == old(Repr)
      ensures contents == old(contents)[..|old(contents)| - 1]
      ensures size == old(size) - 1 && cache == old(cache) - {old(contents)[|old(contents)| - 1].key}
    {
      ghost var n := |nodes|;
      ghost var L := Between(nodes);
      assert L[n + 1] == tail;
      DropLastBetween(head, nodes, tail);
      RemoveNode(lru, L, n);
      nodes, contents := nodes[..n - 1], contents[..n - 1];
      cache, size := cache - {lru.key}, size - 1;
      Evicted();
    }

    /** Put as evidently intended: after the put, evict from the back while the shard
        holds more than `capacity` entries, so that the `capacity` most recently used
        entries remain. */
    method PutEvicting(key: Key, value: V)
      requires Valid() && capacity >= 0
      modifies Repr
      ensures Valid() && fresh(Repr - old(Repr))
      ensures contents == Shrink(Upsert(old(contents), key, value), capacity)
      ensures size <= capacity
    {
      Put(key, value);
      Trim();
    }

    /** The eviction loop of PutEvicting. A negative capacity would never stop
        evicting an empty shard, so it is excluded. */
    method Trim()
      requires Valid() && capacity >= 0
      modifies Repr
      ensures Valid() && Repr == old(Repr)
      ensures contents == Shrink(old(contents), capacity) && size <= capacity
    {
      ghost var u := contents;
      SizeAgrees();
      while size > capacity
        invariant Valid() && Repr == old(Repr)
        invariant size == |contents| <= |u| && contents == u[..|contents|]
        invariant |contents| >= capacity || contents == u
        decreases size
      {
        ghost var c := contents;
        EvictLRU();
        DropLastPrefix(u, c);
        SizeAgrees();
      }
      ShrinkReached(u, contents, capacity);
    }

    /** Clear on one shard: an empty table, the sentinels linked to each other, size 0. */
    method Clear()
      requires Valid()
      modifies Repr
      ensures Valid() && Repr == old(Repr)
      ensures contents == [] && size == 0 && cache == map[]
      ensures head.next == tail && tail.prev == head
    {
      assert head != tail by {
        assert Between(nodes)[0] == head && Between(nodes)[|nodes| + 1] == tail;
      }
      cache := map[];
      head.next := tail;
      tail.prev := head;
      size := 0;
      nodes := [];
      contents := [];
    }
  }
}
