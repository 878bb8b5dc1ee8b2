/**
 * What the table's operations promise about each other, stated on the value
 * model in TableSpec.
 */
module TableProperties {
  import opened Wrappers
  import opened JavaInt
  import opened Chains
  import opened Buckets
  import opened TableSpec

  /** `resizeAsNeeded` doubles the capacity exactly when the load is above 0.75, and keeps the invariants. */
  lemma ResizeAsNeededShape<K, V>(t: Table<K, V>)
    ensures |ResizeAsNeeded(t).buckets| == if 4 * t.size > 3 * |t.buckets| then 2 * |t.buckets| else |t.buckets|
    ensures ResizeAsNeeded(t).size == t.size
    ensures forall i :: 0 <= i < |t.buckets| ==> ResizeAsNeeded(t).buckets[i] == t.buckets[i]
    ensures forall i :: |t.buckets| <= i < |ResizeAsNeeded(t).buckets| ==> ResizeAsNeeded(t).buckets[i] == []
    ensures Valid(t) ==> Valid(ResizeAsNeeded(t))
    ensures SizeExact(t) ==> SizeExact(ResizeAsNeeded(t))
  {
    ResizedTotalSize(t.buckets, 2 * |t.buckets|);
    if Valid(t) {
      ResizedDistinct(t.buckets, 2 * |t.buckets|);
    }
  }

  /**
   * The largest size that does not trigger growth is `3 * capacity / 4`
   * rounded down: 6 for the default capacity 8.
   */
  lemma GrowthThreshold<K, V>(t: Table<K, V>)
    ensures NeedsResize(t) <==> t.size > 3 * |t.buckets| / 4
  {
  }

  /**
   * `resizeTable(c)`: new length `c`, slot `i` below both lengths keeps its
   * chain, later slots are empty, `size` is kept; the stored entries are all
   * kept when `c` is at least the old length, and only those of the cut-off
   * slots are lost otherwise.
   */
  lemma ResizeShape<K, V>(t: Table<K, V>, c: nat)
    ensures |Resize(t, c).buckets| == c && Resize(t, c).size == t.size
    ensures forall i :: 0 <= i < c && i < |t.buckets| ==> Resize(t, c).buckets[i] == t.buckets[i]
    ensures forall i :: |t.buckets| <= i < c ==> Resize(t, c).buckets[i] == []
    ensures c >= |t.buckets| ==> TotalSize(Resize(t, c).buckets) == TotalSize(t.buckets)
    ensures c < |t.buckets| ==> TotalSize(Resize(t, c).buckets) == TotalSize(t.buckets) - TotalSize(t.buckets[c..])
    ensures Valid(t) ==> Valid(Resize(t, c))
    ensures c >= |t.buckets| && SizeExact(t) ==> SizeExact(Resize(t, c))
  {
    ResizedTotalSize(t.buckets, c);
    if Valid(t) {
      ResizedDistinct(t.buckets, c);
    }
  }

  /** `put` keeps every chain's keys distinct and `size` an exact count when it was one. */
  lemma PutPreservesInvariants<K, V>(t: Table<K, V>, hash: K -> int, key: K, value: V)
    ensures Valid(t) ==> Valid(Put(t, hash, key, value).0)
    ensures SizeExact(t) ==> SizeExact(Put(t, hash, key, value).0)
  {
    ResizeAsNeededShape(t);
    var u := ResizeAsNeeded(t);
    if |u.buckets| > 0 {
      var i := Slot(u, hash, key);
      var c := u.buckets[i];
      if Valid(t) {
        PutChainDistinct(c, key, value);
      }
      PutChainShape(c, key, value);
      TotalSizeUpdate(u.buckets, i, PutChain(c, key, value));
    }
  }

  /** With zero capacity (and nothing to grow) `put`, `get` and `remove` all throw ArithmeticException. */
  lemma ZeroCapacityThrows<K, V>(t: Table<K, V>, hash: K -> int, key: K, value: V)
    requires |t.buckets| == 0
    ensures Put(t, hash, key, value) == (t, Err(ArithmeticException))
    ensures Get(t, hash, key) == Err(ArithmeticException)
    ensures Remove(t, hash, key) == (t, Err(ArithmeticException))
  {
    ResizeAsNeededShape(t);
  }

  /**
   * `put` of a key present in its chain (after any growth): the node's value is
   * overwritten in place, the old value is returned, `size` is unchanged and
   * no other node of the chain, and no other slot, changes.
   */
  lemma PutOverwrites<K, V>(t: Table<K, V>, hash: K -> int, key: K, value: V, prev: V)
    requires Get(ResizeAsNeeded(t), hash, key) == Ok(Some(prev))
    ensures var u := ResizeAsNeeded(t);
      var (t', r) := Put(t, hash, key, value);
      var i := Slot(u, hash, key);
      && r == Ok(Some(prev))
      && t'.size == t.size
      && |t'.buckets| == |u.buckets|
      && Keys(t'.buckets[i]) == Keys(u.buckets[i])
      && Lookup(t'.buckets[i], key) == Some(value)
      && t'.buckets[i] == u.buckets[i][Find(u.buckets[i], key).value := Entry(key, value)]
      && forall j :: 0 <= j < |u.buckets| && j != i ==> t'.buckets[j] == u.buckets[j]
  {
    ResizeAsNeededShape(t);
    var u := ResizeAsNeeded(t);
    var i := Slot(u, hash, key);
    PutChainShape(u.buckets[i], key, value);
    PutChainLookup(u.buckets[i], key, value, key);
  }

  /**
   * `put` of a key absent from its chain (after any growth): a node is appended
   * at the chain's tail (it is the head of an empty slot), `None` is
   * returned, `size` and the number of stored entries grow by one; no other
   * slot changes.
   */
  lemma PutAppends<K, V>(t: Table<K, V>, hash: K -> int, key: K, value: V)
    requires Get(ResizeAsNeeded(t), hash, key) == Ok(None)
    ensures var u := ResizeAsNeeded(t);
      var (t', r) := Put(t, hash, key, value);
      var i := Slot(u, hash, key);
      && r == Ok(None)
      && t'.size == t.size + 1
      && |t'.buckets| == |u.buckets|
      && t'.buckets[i] == u.buckets[i] + [Entry(key, value)]
      && Keys(t'.buckets[i]) == Keys(u.buckets[i]) + [key]
      && TotalSize(t'.buckets) == TotalSize(u.buckets) + 1
      && forall j :: 0 <= j < |u.buckets| && j != i ==> t'.buckets[j] == u.buckets[j]
  {
    ResizeAsNeededShape(t);
    var u := ResizeAsNeeded(t);
    var i := Slot(u, hash, key);
    PutChainShape(u.buckets[i], key, value);
    TotalSizeUpdate(u.buckets, i, PutChain(u.buckets[i], key, value));
  }

  /**
   * Right after `put(key, value)`, `get(key)` returns `value`; any other key
   * reads as it did in the (possibly grown) table before the insert, which is
   * the old table itself when no growth happened.
   */
  lemma {:induction false} GetAfterPut<K, V>(t: Table<K, V>, hash: K -> int, key: K, value: V, k: K)
    requires Put(t, hash, key, value).1.Ok?
    ensures Get(Put(t, hash, key, value).0, hash, k) == if k == key then Ok(Some(value)) else Get(ResizeAsNeeded(t), hash, k)
    ensures !NeedsResize(t) && k != key ==> Get(Put(t, hash, key, value).0, hash, k) == Get(t, hash, k)
  {
    var u := ResizeAsNeeded(t);
    var t' := Put(t, hash, key, value).0;
    var i := Slot(u, hash, key);
    assert |t'.buckets| == |u.buckets|;
    if Slot(u, hash, k) == i {
      PutChainLookup(u.buckets[i], key, value, k);
    }
  }

  /** `remove` keeps every chain's keys distinct and `size` an exact count when it was one. */
  lemma RemovePreservesInvariants<K, V>(t: Table<K, V>, hash: K -> int, key: K)
    ensures Valid(t) ==> Valid(Remove(t, hash, key).0)
    ensures SizeExact(t) ==> SizeExact(Remove(t, hash, key).0)
  {
    if |t.buckets| > 0 {
      var i := Slot(t, hash, key);
      var c := t.buckets[i];
      if Valid(t) {
        RemoveChainDistinct(c, key);
      }
      RemoveChainShape(c, key);
      TotalSizeUpdate(t.buckets, i, RemoveChain(c, key));
    }
  }

  /**
   * `remove(key)` of a present key returns its value, unlinks its one node
   * (the rest of the chain keeps its order), decrements `size`, and leaves
   * every other slot alone.
   */
  lemma RemoveFound<K, V>(t: Table<K, V>, hash: K -> int, key: K, v: V)
    requires Get(t, hash, key) == Ok(Some(v))
    ensures var (t', r) := Remove(t, hash, key);
      var i := Slot(t, hash, key);
      && r == Ok(Some(v))
      && t'.size == t.size - 1
      && TotalSize(t'.buckets) == TotalSize(t.buckets) - 1
      && |t'.buckets| == |t.buckets|
      && |t'.buckets[i]| == |t.buckets[i]| - 1
      && multiset(t'.buckets[i]) + multiset{Entry(key, v)} == multiset(t.buckets[i])
      && (var p := Find(t.buckets[i], key).value;
          t'.buckets[i] == t.buckets[i][..p] + t.buckets[i][p + 1..])
      && forall j :: 0 <= j < |t.buckets| && j != i ==> t'.buckets[j] == t.buckets[j]
  {
    var i := Slot(t, hash, key);
    RemoveChainShape(t.buckets[i], key);
    TotalSizeUpdate(t.buckets, i, RemoveChain(t.buckets[i], key));
  }

  /** `remove(key)` of an absent key returns `None` and changes nothing. */
  lemma RemoveMissing<K, V>(t: Table<K, V>, hash: K -> int, key: K)
    requires Get(t, hash, key) == Ok(None)
    ensures Remove(t, hash, key) == (t, Ok(None))
  {
    var i := Slot(t, hash, key);
    RemoveChainShape(t.buckets[i], key);
    assert t.buckets[i := t.buckets[i]] == t.buckets;
  }

  /** After `remove(key)`, `get(key)` returns `None` and every other key reads as before. */
  lemma {:induction false} GetAfterRemove<K, V>(t: Table<K, V>, hash: K -> int, key: K, k: K)
    requires Valid(t) && |t.buckets| > 0
    ensures Get(Remove(t, hash, key).0, hash, k) == if k == key then Ok(None) else Get(t, hash, k)
  {
    var i := Slot(t, hash, key);
    if Slot(t, hash, k) == i {
      RemoveChainLookup(t.buckets[i], key, k);
    }
  }

  /**
   * `remove(key)` right after `put(key, value)` returns `value`, after which
   * `get(key)` returns `None`, and `size` drops by one.
   */
  lemma RemoveAfterPut<K, V>(t: Table<K, V>, hash: K -> int, key: K, value: V)
    requires Valid(t) && Put(t, hash, key, value).1.Ok?
    ensures var t1 := Put(t, hash, key, value).0;
      var (t2, r) := Remove(t1, hash, key);
      r == Ok(Some(value)) && Get(t2, hash, key) == Ok(None) && t2.size == t1.size - 1
  {
    var t1 := Put(t, hash, key, value).0;
    PutPreservesInvariants(t, hash, key, value);
    GetAfterPut(t, hash, key, value, key);
    RemoveFound(t1, hash, key, value);
    GetAfterRemove(t1, hash, key, key);
  }

  /**
   * Putting the same key a second time returns the first value and leaves
   * `size` alone, provided the second put does not grow the table.
   */
  lemma PutTwiceWithoutGrowth<K, V>(t: Table<K, V>, hash: K -> int, key: K, v1: V, v2: V)
    requires Put(t, hash, key, v1).1.Ok?
    requires !NeedsResize(Put(t, hash, key, v1).0)
    ensures var t1 := Put(t, hash, key, v1).0;
      Put(t1, hash, key, v2).1 == Ok(Some(v1)) && Put(t1, hash, key, v2).0.size == t1.size
  {
    var t1 := Put(t, hash, key, v1).0;
    GetAfterPut(t, hash, key, v1, key);
    PutOverwrites(t1, hash, key, v2, v1);
  }

  /** `put` never shrinks the array, and it keeps its length exactly when it does not grow it. */
  lemma PutCapacity<K, V>(t: Table<K, V>, hash: K -> int, key: K, value: V)
    ensures |Put(t, hash, key, value).0.buckets| == |ResizeAsNeeded(t).buckets|
    ensures |Put(t, hash, key, value).0.buckets| >= |t.buckets|
    ensures |t.buckets| > 0 ==> (|Put(t, hash, key, value).0.buckets| == |t.buckets| <==> !NeedsResize(t))
  {
    ResizeAsNeededShape(t);
  }

  /** The table after a series of `put` calls, in order. */
  function PutAll<K(==), V>(t: Table<K, V>, hash: K -> int, puts: seq<Entry<K, V>>): Table<K, V>
    decreases |puts|
  {
    if puts == [] then t
    else PutAll(Put(t, hash, puts[0].key, puts[0].value).0, hash, puts[1..])
  }

  /** A series of puts never shrinks the array. */
  lemma {:induction false} PutAllCapacity<K, V>(t: Table<K, V>, hash: K -> int, puts: seq<Entry<K, V>>)
    ensures |PutAll(t, hash, puts).buckets| >= |t.buckets|
    decreases |puts|
  {
    if puts != [] {
      PutCapacity(t, hash, puts[0].key, puts[0].value);
      PutAllCapacity(Put(t, hash, puts[0].key, puts[0].value).0, hash, puts[1..]);
    }
  }

  /**
   * A key's value survives later puts of other keys as long as none of them
   * grows the table (the capacity at the end is the capacity at the start).
   * Growth copies slots without rehashing, so across a growth the key may be
   * lost (see Scenarios.GrowthLosesEarlierKey).
   */
  lemma {:induction false} GetSurvivesPutsWithoutGrowth<K, V>(t: Table<K, V>, hash: K -> int, puts: seq<Entry<K, V>>, k: K)
    requires |t.buckets| > 0
    requires forall e :: e in puts ==> e.key != k
    requires |PutAll(t, hash, puts).buckets| == |t.buckets|
    ensures Get(PutAll(t, hash, puts), hash, k) == Get(t, hash, k)
    decreases |puts|
  {
    if puts != [] {
      var e := puts[0];
      var t1 := Put(t, hash, e.key, e.value).0;
      PutCapacity(t, hash, e.key, e.value);
      PutAllCapacity(t1, hash, puts[1..]);
      assert |t1.buckets| == |t.buckets|;
      GetAfterPut(t, hash, e.key, e.value, k);
      GetSurvivesPutsWithoutGrowth(t1, hash, puts[1..], k);
    }
  }

  /** What `containsValue` reports is stored: a true answer names a node holding the value. */
  lemma ContainsValueSound<K, V>(t: Table<K, V>, v: V)
    requires ContainsValue(t, v)
    ensures exists i, j :: 0 <= i < |t.buckets| && 0 <= j < |t.buckets[i]| && t.buckets[i][j].value == v
  {
    var i :| 0 <= i < |t.buckets| && t.buckets[i] != [] && t.buckets[i][0].value == v;
    assert 0 < |t.buckets[i]|;
  }
}
