/** The abstract view of one shard of the cache: the live entries of the shard,
    ordered from most recently used (index 0) to least recently used (last index).
    The pointer structure of a shard (module Recency) is proved to follow the
    operations defined here, and the lemmas of this module say what those
    operations mean. */
module Entries {

  /** A Go string: an immutable sequence of bytes. */
  type Key = seq<bv8>

  datatype Option<T> = None | Some(value: T)

  /** One cached key-value pair. */
  datatype Entry<V> = Entry(key: Key, value: V)

  /** No element occurs twice. */
  predicate Distinct<T(==)>(s: seq<T>) {
    forall i, j :: 0 <= i < j < |s| ==> s[i] != s[j]
  }

  /** The keys held by a list of entries. */
  function KeySet<V>(s: seq<Entry<V>>): set<Key> {
    set i | 0 <= i < |s| :: s[i].key
  }

  /** No key is held by two entries. */
  predicate UniqueKeys<V>(s: seq<Entry<V>>) {
    forall i, j :: 0 <= i < j < |s| ==> s[i].key != s[j].key
  }

  /** Position of the first entry holding key `k`. */
  function IndexOf<V>(s: seq<Entry<V>>, k: Key): (i: nat)
    requires k in KeySet(s)
    ensures i < |s| && s[i].key == k
    ensures forall j :: 0 <= j < i ==> s[j].key != k
  {
    if s[0].key == k then 0
    else
      assert k in KeySet(s[1..]) by {
        var j :| 0 <= j < |s| && s[j].key == k;
        assert s[1..][j - 1] == s[j];
      }
      1 + IndexOf(s[1..], k)
  }

  /** The value stored under `k`: the first entry holding `k`, scanning from the front. */
  function Lookup<V>(s: seq<Entry<V>>, k: Key): (r: Option<V>)
    ensures r.Some? <==> k in KeySet(s)
    ensures r.Some? ==> r.value == s[IndexOf(s, k)].value
  {
    if s == [] then None
    else if s[0].key == k then Some(s[0].value)
    else
      KeySetTail(s);
      Lookup(s[1..], k)
  }

  /** The list with the element at `i` moved to the front, everything else in order. */
  function Promote<T>(s: seq<T>, i: nat): (r: seq<T>)
    requires i < |s|
    ensures |r| == |s| && r[0] == s[i]
    ensures forall j :: 0 < j <= i ==> r[j] == s[j - 1]
    ensures forall j :: i < j < |r| ==> r[j] == s[j]
  {
    [s[i]] + s[..i] + s[i + 1..]
  }

  /** The list with every entry holding `k` filtered out. */
  function Without<V>(s: seq<Entry<V>>, k: Key): seq<Entry<V>> {
    if s == [] then []
    else if s[0].key == k then Without(s[1..], k)
    else [s[0]] + Without(s[1..], k)
  }

  /** The effect of a lookup on the order: a present key moves to the front, the
      length stays, and a missing key leaves the list as it was. */
  function Touch<V>(s: seq<Entry<V>>, k: Key): (r: seq<Entry<V>>)
    ensures |r| == |s|
    ensures k in KeySet(s) ==> r[0].key == k
    ensures k !in KeySet(s) ==> r == s
  {
    if k in KeySet(s) then Promote(s, IndexOf(s, k)) else s
  }

  /** The effect of a put as written: overwrite and move to the front, or insert
      at the front; nothing is ever dropped, so the list grows exactly for a new key. */
  function Upsert<V>(s: seq<Entry<V>>, k: Key, v: V): (r: seq<Entry<V>>)
    ensures r != [] && r[0] == Entry(k, v)
    ensures |r| == if k in KeySet(s) then |s| else |s| + 1
  {
    if k in KeySet(s) then
      var i := IndexOf(s, k);
      Promote(s[i := Entry(k, v)], i)
    else
      [Entry(k, v)] + s
  }

  /** The effect of an eviction: the back (least recently used) entry goes, and the
      rest stay in order. */
  function DropLast<V>(s: seq<Entry<V>>): (r: seq<Entry<V>>)
    ensures |r| == if s == [] then 0 else |s| - 1
    ensures r == s[..|r|]
  {
    if s == [] then s else s[..|s| - 1]
  }

  /** Repeated eviction until at most `cap` entries remain. */
  function Shrink<V>(s: seq<Entry<V>>, cap: nat): seq<Entry<V>> {
    if |s| <= cap then s else s[..cap]
  }

  // ---------------------------------------------------------------------------
  // Facts about keys

  lemma KeySetTail<V>(s: seq<Entry<V>>)
    requires s != []
    ensures KeySet(s) == {s[0].key} + KeySet(s[1..])
  {
    forall k | k in KeySet(s) ensures k in {s[0].key} + KeySet(s[1..]) {
      var j :| 0 <= j < |s| && s[j].key == k;
      if j > 0 { assert s[1..][j - 1] == s[j]; }
    }
    forall k | k in KeySet(s[1..]) ensures k in KeySet(s) {
      var j :| 0 <= j < |s[1..]| && s[1..][j].key == k;
      assert s[j + 1].key == k;
    }
  }

  lemma KeySetCons<V>(e: Entry<V>, t: seq<Entry<V>>)
    ensures KeySet([e] + t) == {e.key} + KeySet(t)
    ensures UniqueKeys([e] + t) <==> e.key !in KeySet(t) && UniqueKeys(t)
  {
    var s := [e] + t;
    assert s[1..] == t;
    KeySetTail(s);
    if UniqueKeys(s) {
      forall i, j | 0 <= i < j < |t| ensures t[i].key != t[j].key {
        assert s[i + 1] == t[i] && s[j + 1] == t[j];
      }
    }
    if e.key !in KeySet(t) && UniqueKeys(t) {
      forall i, j | 0 <= i < j < |s| ensures s[i].key != s[j].key {
        if i > 0 { assert s[i] == t[i - 1] && s[j] == t[j - 1]; }
        else { assert s[j] == t[j - 1]; }
      }
    }
  }

  /** A list without duplicate keys has exactly as many keys as entries. */
  lemma {:induction false} UniqueKeysCount<V>(s: seq<Entry<V>>)
    requires UniqueKeys(s)
    ensures |KeySet(s)| == |s|
  {
    if s != [] {
      assert s == [s[0]] + s[1..];
      KeySetCons(s[0], s[1..]);
      UniqueKeysCount(s[1..]);
    }
  }

  // ---------------------------------------------------------------------------
  // Without: the reference definition every operation is compared against

  lemma {:induction false} WithoutAbsent<V>(s: seq<Entry<V>>, k: Key)
    requires k !in KeySet(s)
    ensures Without(s, k) == s
  {
    if s != [] {
      KeySetTail(s);
      WithoutAbsent(s[1..], k);
    }
  }

  /** Filtering out `k` removes `k` and nothing else, keeps the other lookups,
      keeps keys unique and shortens a duplicate-free list by one when `k` was there. */
  lemma {:induction false} WithoutSpec<V>(s: seq<Entry<V>>, k: Key)
    ensures KeySet(Without(s, k)) == KeySet(s) - {k}
    ensures forall k' :: k' != k ==> Lookup(Without(s, k), k') == Lookup(s, k')
    ensures UniqueKeys(s) ==> UniqueKeys(Without(s, k))
    ensures UniqueKeys(s) ==> |Without(s, k)| == if k in KeySet(s) then |s| - 1 else |s|
  {
    if s != [] {
      assert s == [s[0]] + s[1..];
      KeySetCons(s[0], s[1..]);
      WithoutSpec(s[1..], k);
      if s[0].key != k {
        KeySetCons(s[0], Without(s[1..], k));
        var w := [s[0]] + Without(s[1..], k);
        assert w[0] == s[0] && w[1..] == Without(s[1..], k);
      }
    }
  }

  /** With unique keys, filtering out a present key is cutting out its one position. */
  lemma {:induction false} WithoutAt<V>(s: seq<Entry<V>>, k: Key)
    requires UniqueKeys(s) && k in KeySet(s)
    ensures Without(s, k) == s[..IndexOf(s, k)] + s[IndexOf(s, k) + 1..]
  {
    assert s == [s[0]] + s[1..];
    KeySetCons(s[0], s[1..]);
    if s[0].key == k {
      WithoutAbsent(s[1..], k);
    } else {
      var i := IndexOf(s[1..], k);
      WithoutAt(s[1..], k);
      assert IndexOf(s, k) == i + 1;
      assert s[..i + 1] == [s[0]] + s[1..][..i];
      assert s[i + 2..] == s[1..][i + 1..];
    }
  }

  // ---------------------------------------------------------------------------
  // Promote keeps the same elements

  lemma PromotePermutes<T>(s: seq<T>, i: nat)
    requires i < |s|
    ensures multiset(Promote(s, i)) == multiset(s)
    ensures forall x :: x in Promote(s, i) <==> x in s
    ensures Distinct(s) ==> Distinct(Promote(s, i))
  {
    assert s == s[..i] + [s[i]] + s[i + 1..];
    calc {
      multiset(Promote(s, i));
      multiset([s[i]]) + multiset(s[..i]) + multiset(s[i + 1..]);
      multiset(s[..i] + [s[i]] + s[i + 1..]);
    }
    forall x ensures x in Promote(s, i) <==> x in s {
      assert x in Promote(s, i) <==> x in multiset(Promote(s, i));
      assert x in s <==> x in multiset(s);
    }
    if Distinct(s) {
      var r := Promote(s, i);
      forall a, b | 0 <= a < b < |r| ensures r[a] != r[b] {
        var a' := if a == 0 then i else if a <= i then a - 1 else a;
        var b' := if b == 0 then i else if b <= i then b - 1 else b;
        assert r[a] == s[a'] && r[b] == s[b'] && a' != b';
      }
    }
  }

  /** Moving an element to the front inside a list bracketed by two sentinels keeps
      every element of the whole list distinct. */
  lemma PromoteBetween<T>(h: T, s: seq<T>, t: T, i: nat)
    requires i < |s| && Distinct([h] + s + [t])
    ensures Distinct([h] + Promote(s, i) + [t])
  {
    var D := [h] + s + [t];
    var C := [h] + Promote(s, i) + [t];
    forall a, b | 0 <= a < b < |C| ensures C[a] != C[b] {
      var a' := if a == 0 || a == |C| - 1 then a else if a == 1 then i + 1 else if a <= i + 1 then a - 1 else a;
      var b' := if b == 0 || b == |C| - 1 then b else if b == 1 then i + 1 else if b <= i + 1 then b - 1 else b;
      assert C[a] == D[a'] && C[b] == D[b'];
    }
  }

  /** Unlinking the element at position `i` of a list bracketed by two sentinels, then
      linking it again right after the front sentinel, yields the promoted list. */
  lemma UnlinkRelink<T>(h: T, s: seq<T>, t: T, i: nat)
    requires i < |s| && Distinct([h] + s + [t])
    ensures
      var L := [h] + s + [t];
      var L' := L[..i + 1] + L[i + 2..];
      && 2 <= |L'| && L'[0] == h && s[i] !in L' && Distinct(L')
      && [h, s[i]] + L'[1..] == [h] + Promote(s, i) + [t]
  {
    var L := [h] + s + [t];
    var L' := L[..i + 1] + L[i + 2..];
    assert L[i + 1] == s[i];
    forall a, b | 0 <= a < b < |L'| ensures L'[a] != L'[b] && L'[a] != s[i] {
      var a' := if a <= i then a else a + 1;
      var b' := if b <= i then b else b + 1;
      assert L'[a] == L[a'] && L'[b] == L[b'];
    }
    assert L'[|L'| - 1] == L[|L| - 1];
    assert L'[1..] == s[..i] + s[i + 1..] + [t] by {
      assert L[..i + 1] == [h] + s[..i];
      assert L[i + 2..] == s[i + 1..] + [t];
    }
  }

  /** Linking a new element right after the front sentinel yields the list with the
      element prepended, and keeps the whole list distinct. */
  lemma ConsBetween<T>(h: T, x: T, s: seq<T>, t: T)
    ensures [h, x] + ([h] + s + [t])[1..] == [h] + ([x] + s) + [t]
    ensures Distinct([h] + s + [t]) && x !in [h] + s + [t] ==> Distinct([h] + ([x] + s) + [t])
  {
    assert ([h] + s + [t])[1..] == s + [t];
    if !(Distinct([h] + s + [t]) && x !in [h] + s + [t]) {
      return;
    }
    var D := [h] + s + [t];
    var C := [h] + ([x] + s) + [t];
    forall a, b | 0 <= a < b < |C| ensures C[a] != C[b] {
      if a == 1 {
        assert C[b] == D[b - 1];
      } else if b == 1 {
        assert C[a] == D[0];
      } else if a == 0 {
        assert C[a] == D[0] && C[b] == D[b - 1];
      } else {
        assert C[a] == D[a - 1] && C[b] == D[b - 1];
      }
    }
  }

  /** Unlinking the last element before the back sentinel yields the list without
      that element, and keeps the whole list distinct. */
  lemma DropLastBetween<T>(h: T, s: seq<T>, t: T)
    requires s != []
    ensures
      var L := [h] + s + [t];
      L[..|s|] + L[|s| + 1..] == [h] + s[..|s| - 1] + [t]
    ensures Distinct([h] + s + [t]) ==> Distinct([h] + s[..|s| - 1] + [t])
  {
    var L := [h] + s + [t];
    assert L[..|s|] == [h] + s[..|s| - 1];
    if !Distinct(L) {
      return;
    }
    var D := [h] + s + [t];
    var C := [h] + s[..|s| - 1] + [t];
    forall a, b | 0 <= a < b < |C| ensures C[a] != C[b] {
      if b == |C| - 1 {
        assert C[a] == D[a] && C[b] == D[|D| - 1];
      } else {
        assert C[a] == D[a] && C[b] == D[b];
      }
    }
  }

  /** Moving an entry to the front changes neither the keys nor their uniqueness. */
  lemma PromoteEntries<V>(s: seq<Entry<V>>, i: nat)
    requires i < |s| && UniqueKeys(s)
    ensures UniqueKeys(Promote(s, i)) && KeySet(Promote(s, i)) == KeySet(s)
  {
    var r := Promote(s, i);
    forall a, b | 0 <= a < b < |r| ensures r[a].key != r[b].key {
      var a' := if a == 0 then i else if a <= i then a - 1 else a;
      var b' := if b == 0 then i else if b <= i then b - 1 else b;
      assert r[a] == s[a'] && r[b] == s[b'];
    }
    forall k ensures k in KeySet(r) <==> k in KeySet(s) {
      if k in KeySet(r) {
        var a :| 0 <= a < |r| && r[a].key == k;
        var a' := if a == 0 then i else if a <= i then a - 1 else a;
        assert r[a] == s[a'];
      }
      if k in KeySet(s) {
        var a :| 0 <= a < |s| && s[a].key == k;
        var a' := if a == i then 0 else if a < i then a + 1 else a;
        assert r[a'] == s[a];
      }
    }
  }

  /** Replacing the value of one entry changes neither the keys nor their uniqueness. */
  lemma ReplaceValue<V>(s: seq<Entry<V>>, i: nat, v: V)
    requires i < |s| && UniqueKeys(s)
    ensures UniqueKeys(s[i := Entry(s[i].key, v)]) && KeySet(s[i := Entry(s[i].key, v)]) == KeySet(s)
  {
    var r := s[i := Entry(s[i].key, v)];
    assert forall j :: 0 <= j < |s| ==> r[j].key == s[j].key;
  }

  // ---------------------------------------------------------------------------
  // Get: Touch

  lemma TouchShape<V>(s: seq<Entry<V>>, k: Key)
    requires UniqueKeys(s) && k in KeySet(s)
    ensures Touch(s, k) == [Entry(k, Lookup(s, k).value)] + Without(s, k)
  {
    var i := IndexOf(s, k);
    WithoutAt(s, k);
    PromoteSplit(s, i, Entry(k, Lookup(s, k).value), Without(s, k));
  }

  /** Replacing the element at `i` leaves the slices before and after it alone. */
  lemma UpdateSlices<T>(s: seq<T>, i: nat, x: T)
    requires i < |s|
    ensures s[i := x][..i] == s[..i] && s[i := x][i + 1..] == s[i + 1..]
  {
  }

  /** Looking up a present key finds the entry at its index and moves that entry
      to the front. */
  lemma TouchAt<V>(s: seq<Entry<V>>, k: Key)
    requires k in KeySet(s)
    ensures Lookup(s, k) == Some(s[IndexOf(s, k)].value)
    ensures Touch(s, k) == Promote(s, IndexOf(s, k))
  {
  }

  /** Promoting the element `e` at `i` puts it in front of the rest, `w`. */
  lemma PromoteSplit<T>(s: seq<T>, i: nat, e: T, w: seq<T>)
    requires i < |s| && s[i] == e && w == s[..i] + s[i + 1..]
    ensures Promote(s, i) == [e] + w
  {
  }

  /** A lookup leaves a missing key's list untouched; for a present key it puts the
      entry at the front, keeps the others in their order, and changes no key and
      no stored value. */
  lemma TouchSpec<V>(s: seq<Entry<V>>, k: Key)
    requires UniqueKeys(s)
    ensures k !in KeySet(s) ==> Touch(s, k) == s
    ensures k in KeySet(s) ==> Touch(s, k)[0] == Entry(k, Lookup(s, k).value)
    ensures k in KeySet(s) ==> Touch(s, k)[1..] == Without(s, k)
    ensures UniqueKeys(Touch(s, k)) && KeySet(Touch(s, k)) == KeySet(s) && |Touch(s, k)| == |s|
    ensures forall k' :: Lookup(Touch(s, k), k') == Lookup(s, k')
  {
    if k in KeySet(s) {
      TouchShape(s, k);
      var e := Entry(k, Lookup(s, k).value);
      var t := [e] + Without(s, k);
      WithoutSpec(s, k);
      KeySetCons(e, Without(s, k));
      assert t[0] == e && t[1..] == Without(s, k);
    }
  }

  // ---------------------------------------------------------------------------
  // Put: Upsert

  lemma UpsertShape<V>(s: seq<Entry<V>>, k: Key, v: V)
    requires UniqueKeys(s)
    ensures Upsert(s, k, v) == [Entry(k, v)] + Without(s, k)
  {
    if k in KeySet(s) {
      var i := IndexOf(s, k);
      WithoutAt(s, k);
      UpdateSlices(s, i, Entry(k, v));
      PromoteSplit(s[i := Entry(k, v)], i, Entry(k, v), Without(s, k));
    } else {
      WithoutAbsent(s, k);
    }
  }

  /** A put stores `v` under `k` and changes no other lookup; `k` ends at the front,
      the other entries keep their order; the key set gains exactly `k`; the list
      grows by one exactly when `k` was new, and nothing is evicted. */
  lemma UpsertSpec<V>(s: seq<Entry<V>>, k: Key, v: V)
    requires UniqueKeys(s)
    ensures Upsert(s, k, v)[0] == Entry(k, v) && Upsert(s, k, v)[1..] == Without(s, k)
    ensures UniqueKeys(Upsert(s, k, v))
    ensures KeySet(Upsert(s, k, v)) == KeySet(s) + {k}
    ensures |Upsert(s, k, v)| == if k in KeySet(s) then |s| else |s| + 1
    ensures forall k' :: Lookup(Upsert(s, k, v), k') == if k' == k then Some(v) else Lookup(s, k')
  {
    UpsertShape(s, k, v);
    WithoutSpec(s, k);
    KeySetCons(Entry(k, v), Without(s, k));
    var t := [Entry(k, v)] + Without(s, k);
    assert t[0] == Entry(k, v) && t[1..] == Without(s, k);
  }

  /** Overwriting a key twice is the same as writing the second value once. */
  lemma OverwriteTwice<V>(s: seq<Entry<V>>, k: Key, v1: V, v2: V)
    requires UniqueKeys(s)
    ensures Upsert(Upsert(s, k, v1), k, v2) == Upsert(s, k, v2)
  {
    UpsertSpec(s, k, v1);
    var t := Upsert(s, k, v1);
    UpsertShape(t, k, v2);
    UpsertShape(s, k, v2);
    assert t == [t[0]] + t[1..];
    WithoutSpec(s, k);
    WithoutAbsent(Without(s, k), k);
  }

  // ---------------------------------------------------------------------------
  // Eviction: DropLast

  /** Evicting drops exactly the least recently used key and nothing else. */
  lemma DropLastSpec<V>(s: seq<Entry<V>>)
    requires UniqueKeys(s) && s != []
    ensures DropLast(s) == Without(s, s[|s| - 1].key)
    ensures KeySet(DropLast(s)) == KeySet(s) - {s[|s| - 1].key}
    ensures UniqueKeys(DropLast(s)) && |DropLast(s)| == |s| - 1
    ensures Lookup(DropLast(s), s[|s| - 1].key) == None
    ensures forall k' :: k' != s[|s| - 1].key ==> Lookup(DropLast(s), k') == Lookup(s, k')
  {
    var k := s[|s| - 1].key;
    assert k in KeySet(s);
    WithoutAt(s, k);
    WithoutSpec(s, k);
  }

  /** Shrinking keeps the most recently used entries, in order, and at most `cap` of them. */
  lemma ShrinkSpec<V>(s: seq<Entry<V>>, cap: nat)
    requires UniqueKeys(s)
    ensures |Shrink(s, cap)| == if |s| <= cap then |s| else cap
    ensures Shrink(s, cap) == s[..|Shrink(s, cap)|]
    ensures UniqueKeys(Shrink(s, cap)) && KeySet(Shrink(s, cap)) <= KeySet(s)
    ensures cap >= 1 && s != [] ==> Shrink(s, cap)[0] == s[0]
  {
  }

  /** One eviction from a prefix of `u` leaves a shorter prefix of `u`. */
  lemma DropLastPrefix<V>(u: seq<Entry<V>>, c: seq<Entry<V>>)
    requires c != [] && |c| <= |u| && c == u[..|c|]
    ensures DropLast(c) == u[..|c| - 1]
  {
  }

  /** Evicting from the back until at most `cap` entries remain, and no further,
      leaves exactly Shrink's result. */
  lemma ShrinkReached<V>(u: seq<Entry<V>>, c: seq<Entry<V>>, cap: nat)
    requires |c| <= |u| && c == u[..|c|] && |c| <= cap
    requires |c| >= cap || c == u
    ensures c == Shrink(u, cap)
  {
  }

  /** A put that then shrinks to the capacity evicts only on overflow: within capacity,
      or when the key is already held, it is the put as written; when a new key arrives
      at a full shard, exactly the least recently used entry goes and nothing else. */
  lemma EvictsLeastRecent<V>(s: seq<Entry<V>>, k: Key, v: V, cap: nat)
    requires UniqueKeys(s) && |s| <= cap
    ensures k in KeySet(s) || |s| < cap ==> Shrink(Upsert(s, k, v), cap) == Upsert(s, k, v)
    ensures k !in KeySet(s) && |s| == cap >= 1 ==>
      Shrink(Upsert(s, k, v), cap) == [Entry(k, v)] + DropLast(s)
    ensures k !in KeySet(s) && |s| == cap >= 1 ==>
      KeySet(Shrink(Upsert(s, k, v), cap)) == KeySet(s) - {s[|s| - 1].key} + {k}
  {
    if k !in KeySet(s) && |s| == cap >= 1 {
      var u := Upsert(s, k, v);
      assert u == [Entry(k, v)] + s;
      assert u[..cap] == [Entry(k, v)] + s[..|s| - 1];
      DropLastSpec(s);
      KeySetCons(Entry(k, v), DropLast(s));
    }
  }

  /** With a capacity-enforcing put, a shard of capacity 2 that sees put(A), put(B),
      get(A), put(C) holds C and A and has evicted B. */
  lemma RecencyExample()
    ensures
      var a, b, c := [65 as bv8], [66 as bv8], [67 as bv8];
      var s1 := Shrink(Upsert([], a, 1), 2);
      var s2 := Shrink(Upsert(s1, b, 2), 2);
      var s3 := Touch(s2, a);
      var s4 := Shrink(Upsert(s3, c, 3), 2);
      s4 == [Entry(c, 3), Entry(a, 1)] && Lookup(s4, b) == None
  {
    var a, b, c := [65 as bv8], [66 as bv8], [67 as bv8];
    assert a != b && a != c && b != c by {
      assert a[0] != b[0] && a[0] != c[0] && b[0] != c[0];
    }
    var s0: seq<Entry<int>> := [];
    UpsertSpec(s0, a, 1);
    var s1 := Shrink(Upsert(s0, a, 1), 2);
    assert s1 == [Entry(a, 1)];
    KeySetCons(Entry(a, 1), []);
    UpsertSpec(s1, b, 2);
    WithoutAbsent(s1, b);
    var s2 := Shrink(Upsert(s1, b, 2), 2);
    assert s2 == [Entry(b, 2), Entry(a, 1)];
    KeySetCons(Entry(b, 2), [Entry(a, 1)]);
    TouchSpec(s2, a);
    var s3 := Touch(s2, a);
    assert s3[1..] == Without(s2, a) == [Entry(b, 2)] by {
      assert s2 == [Entry(b, 2)] + [Entry(a, 1)];
      assert [Entry(a, 1)][1..] == [];
    }
    assert s3 == [Entry(a, 1), Entry(b, 2)];
    KeySetCons(Entry(a, 1), [Entry(b, 2)]);
    KeySetCons(Entry(b, 2), []);
    UpsertSpec(s3, c, 3);
    WithoutAbsent(s3, c);
    var s4 := Shrink(Upsert(s3, c, 3), 2);
    assert Upsert(s3, c, 3) == [Entry(c, 3), Entry(a, 1), Entry(b, 2)];
    assert s4 == [Entry(c, 3), Entry(a, 1)];
    KeySetCons(Entry(c, 3), [Entry(a, 1)]);
  }

  /** As written, a put never evicts: a shard of capacity 1 that is given two
      different keys holds both. */
  lemma UpsertOverflowsCapacity()
    ensures
      var a, b := [65 as bv8], [66 as bv8];
      |Upsert(Upsert([], a, 1), b, 2)| == 2
  {
    var a, b := [65 as bv8], [66 as bv8];
    assert a != b by { assert a[0] != b[0]; }
    var s0: seq<Entry<int>> := [];
    UpsertSpec(s0, a, 1);
    KeySetCons(Entry(a, 1), []);
    UpsertSpec(Upsert(s0, a, 1), b, 2);
  }
}
