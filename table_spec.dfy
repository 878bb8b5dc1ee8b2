/**
 * The hash table as a value: its bucket array and its `size` counter, with
 * every public operation as a function from the old state to the new state
 * and the returned value. The class in module HashTables implements these
 * with the loops of the Java code.
 */
module TableSpec {
  import opened Wrappers
  import opened JavaInt
  import opened Chains
  import opened Buckets

  /** `DEFAULT_SIZE`: the capacity of a table built without an argument. */
  const DefaultSize: nat := 8

  /** The table's state: the bucket array and the `size` field. */
  datatype Table<K, V> = Table(buckets: BucketArray<K, V>, size: int)

  /**
   * What every operation keeps: no chain holds a key twice, and `size` counts
   * at least the nodes reachable from the slots (it counts exactly them unless
   * `resizeTable` cut slots off; see SizeExact).
   */
  ghost predicate Valid<K, V>(t: Table<K, V>) {
    ChainsDistinct(t.buckets) && t.size >= TotalSize(t.buckets)
  }

  /** `size` equals the number of nodes reachable from the slots. */
  ghost predicate SizeExact<K, V>(t: Table<K, V>) {
    t.size == TotalSize(t.buckets)
  }

  /** A table of `capacity` empty slots and size 0, as both constructors build it. */
  function Empty<K, V>(capacity: nat): (t: Table<K, V>)
    ensures |t.buckets| == capacity && t.size == 0
    ensures forall i :: 0 <= i < capacity ==> t.buckets[i] == []
    ensures Valid(t) && SizeExact(t)
  {
    var b: BucketArray<K, V> := seq(capacity, _ => []);
    TotalSizeEmpty(b);
    Table(b, 0)
  }

  /** The slot `calculateIndex` gives `key` in a table of non-zero capacity. */
  function Slot<K, V>(t: Table<K, V>, hash: K -> int, key: K): (i: nat)
    requires |t.buckets| > 0
    ensures i < |t.buckets| && i == hash(key) % |t.buckets|
  {
    CalculateIndex(hash(key), |t.buckets|).value
  }

  /** `(float) size / table.length > LOAD_FACTOR` with `LOAD_FACTOR` 0.75, in exact integers. */
  predicate NeedsResize<K, V>(t: Table<K, V>) {
    4 * t.size > 3 * |t.buckets|
  }

  /** `resizeTable(c)` for a non-negative `c`: the slots are copied by position, `size` is kept. */
  function Resize<K, V>(t: Table<K, V>, c: nat): (r: Table<K, V>)
    ensures |r.buckets| == c && r.size == t.size
    ensures forall i :: 0 <= i < c ==> r.buckets[i] == [] || (i < |t.buckets| && r.buckets[i] == t.buckets[i])
  {
    Table(Resized(t.buckets, c), t.size)
  }

  /** `resizeAsNeeded`: double the capacity when the load is above 0.75. */
  function ResizeAsNeeded<K, V>(t: Table<K, V>): (r: Table<K, V>)
    ensures !NeedsResize(t) ==> r == t
    ensures NeedsResize(t) ==> |r.buckets| == 2 * |t.buckets|
    ensures r.size == t.size && |t.buckets| <= |r.buckets| && r.buckets[..|t.buckets|] == t.buckets
  {
    if NeedsResize(t) then Resize(t, 2 * |t.buckets|) else t
  }

  /**
   * `get(key)`: the value of the first node holding `key` in the chain at the
   * key's slot, `None` for Java's `null`; a zero-length array makes
   * `calculateIndex` throw.
   */
  function Get<K(==), V>(t: Table<K, V>, hash: K -> int, key: K): (r: Result<Option<V>, Exception>)
    ensures r.Err? <==> |t.buckets| == 0
    ensures r.Err? ==> r.error == ArithmeticException
    ensures r.Ok? ==> (r.value.Some? <==> key in Keys(t.buckets[Slot(t, hash, key)]))
    ensures r.Ok? && r.value.Some? ==> Entry(key, r.value.value) in t.buckets[Slot(t, hash, key)]
  {
    if |t.buckets| == 0 then Err(ArithmeticException)
    else Ok(Lookup(t.buckets[Slot(t, hash, key)], key))
  }

  /**
   * `put(key, value)`: grow first if needed, then overwrite the node holding
   * `key` in its chain (returning the old value) or append a new node at the
   * chain's tail (returning `None` and counting one more entry).
   */
  function Put<K(==), V>(t: Table<K, V>, hash: K -> int, key: K, value: V): (r: (Table<K, V>, Result<Option<V>, Exception>))
    ensures r.1.Err? <==> |t.buckets| == 0
    ensures r.1.Err? ==> r.1.error == ArithmeticException && r.0 == t
    ensures r.1.Ok? ==> r.1 == Get(ResizeAsNeeded(t), hash, key)
    ensures r.1.Ok? ==> |r.0.buckets| == |ResizeAsNeeded(t).buckets| && Entry(key, value) in r.0.buckets[Slot(r.0, hash, key)]
    ensures r.1.Ok? ==> r.0.size == t.size + (if r.1.value.None? then 1 else 0)
  {
    var u := ResizeAsNeeded(t);
    if |u.buckets| == 0 then (u, Err(ArithmeticException))
    else
      var i := Slot(u, hash, key);
      var prev := Lookup(u.buckets[i], key);
      (Table(u.buckets[i := PutChain(u.buckets[i], key, value)], if prev.None? then u.size + 1 else u.size), Ok(prev))
  }

  /**
   * `remove(key)`: unlink the node holding `key` from its chain and return its
   * value, counting one entry fewer; return `None` and change nothing when no
   * node holds it.
   */
  function Remove<K(==), V>(t: Table<K, V>, hash: K -> int, key: K): (r: (Table<K, V>, Result<Option<V>, Exception>))
    ensures r.1 == Get(t, hash, key)
    ensures !(r.1.Ok? && r.1.value.Some?) ==> r.0 == t
    ensures r.1.Ok? && r.1.value.Some? ==> |r.0.buckets| == |t.buckets| && r.0.size == t.size - 1
  {
    if |t.buckets| == 0 then (t, Err(ArithmeticException))
    else
      var i := Slot(t, hash, key);
      var found := Lookup(t.buckets[i], key);
      (Table(t.buckets[i := RemoveChain(t.buckets[i], key)], if found.Some? then t.size - 1 else t.size), Ok(found))
  }

  /** `containsKey(key)`: `get(key) != null`, so exactly whether the key's chain holds it. */
  function ContainsKey<K(==), V>(t: Table<K, V>, hash: K -> int, key: K): (r: Result<bool, Exception>)
    ensures r.Err? <==> |t.buckets| == 0
    ensures r.Ok? ==> (r.value <==> key in Keys(t.buckets[Slot(t, hash, key)]))
  {
    match Get(t, hash, key)
    case Err(e) => Err(e)
    case Ok(found) => Ok(found.Some?)
  }

  /** `containsValue(v)`: whether the head node of some slot holds `v`. */
  function ContainsValue<K, V(==)>(t: Table<K, V>, v: V): (r: bool)
    ensures r <==> exists i :: 0 <= i < |t.buckets| && t.buckets[i] != [] && t.buckets[i][0].value == v
  {
    HeadHoldsValue(t.buckets, v)
  }
}
