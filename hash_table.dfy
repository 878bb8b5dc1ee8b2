/**
 * `HashTable<K, V>`: a bucket array whose slots hold chains of nodes, and a
 * `size` counter, both updated in place. `hashCode` is the table's `hash`
 * function and `equals` is `==`.
 */
module HashTables {
  import opened Wrappers
  import opened JavaInt
  import opened Chains
  import opened Buckets
  import opened TableSpec
  import opened TableProperties

  class HashTable<K(==), V(==)> {
    /** The keys' `hashCode`. */
    const hash: K -> int
    /** The bucket array: slot `i` holds the chain of nodes anchored there, head first. */
    var table: array<Chain<K, V>>
    /** The `size` field: incremented on insertion, decremented on removal. */
    var size: int

    /** The table's current state as a value. */
    function Model(): Table<K, V>
      reads this, table
    {
      Table(table[..], size)
    }

    ghost predicate Valid()
      reads this, table
    {
      TableSpec.Valid(Model())
    }

    /** `new HashTable<>()`: `DEFAULT_SIZE` empty slots. */
    constructor (hash: K -> int)
      ensures this.hash == hash && fresh(table)
      ensures Model() == Empty(DefaultSize)
      ensures Valid() && SizeExact(Model())
    {
      this.hash := hash;
      table := new Chain<K, V>[DefaultSize](_ => []);
      size := 0;
    }

    /** `new HashTable<>(n)` once `n` has been checked to be non-negative: `n` empty slots. */
    constructor WithCapacity(hash: K -> int, n: nat)
      ensures this.hash == hash && fresh(table)
      ensures Model() == Empty(n)
      ensures Valid() && SizeExact(Model())
    {
      this.hash := hash;
      table := new Chain<K, V>[n](_ => []);
      size := 0;
    }

    /**
     * `put(key, value)`: grows the array first when the load is above 0.75,
     * then walks the chain at the key's slot, overwriting the value of the node
     * holding `key` or appending a new node at the tail.
     */
    method Put(key: K, value: V) returns (r: Result<Option<V>, Exception>)
      modifies this, table
      ensures old(Valid()) ==> Valid()
      ensures (Model(), r) == TableSpec.Put(old(Model()), hash, key, value)
      ensures old(SizeExact(Model())) ==> SizeExact(Model())
      ensures table == old(table) || fresh(table)
    {
      ghost var t0 := Model();
      ResizeAsNeeded();
      ghost var u := Model();
      assert u == TableSpec.ResizeAsNeeded(t0);
      var idx := CalculateIndex(hash(key), table.Length);
      if idx.Err? {
        PutPreservesInvariants(t0, hash, key, value);
        return Err(idx.error);
      }
      var index := idx.value;
      var chain := table[index];
      var j := 0;
      while j < |chain|
        invariant 0 <= j <= |chain|
        invariant forall i :: 0 <= i < j ==> chain[i].key != key
      {
        if chain[j].key == key {
          var prev := chain[j].value;
          table[index] := chain[j := chain[j].(value := value)];
          assert Find(chain, key) == Some(j);
          PutPreservesInvariants(t0, hash, key, value);
          return Ok(Some(prev));
        }
        j := j + 1;
      }
      table[index] := chain + [Entry(key, value)];
      size := size + 1;
      PutPreservesInvariants(t0, hash, key, value);
      return Ok(None);
    }

    /** `resizeAsNeeded`: doubles the capacity when `size / capacity > 0.75`. */
    method ResizeAsNeeded()
      modifies this
      ensures Model() == TableSpec.ResizeAsNeeded(old(Model()))
      ensures table == old(table) || fresh(table)
    {
      if 4 * size > 3 * table.Length {
        var _ := ResizeTable(2 * table.Length);
      }
    }

    /**
     * `resizeTable(newCapacity)`: replaces the array by a copy of the given
     * length (`Arrays.copyOf`), slot by slot, without rehashing; a negative
     * length throws.
     */
    method ResizeTable(newCapacity: int) returns (r: Result<(), Exception>)
      modifies this
      ensures old(Valid()) ==> Valid()
      ensures newCapacity < 0 ==> r == Err(NegativeArraySizeException) && table == old(table) && size == old(size)
      ensures newCapacity >= 0 ==> r == Ok(()) && fresh(table) && Model() == Resize(old(Model()), newCapacity)
      ensures newCapacity >= old(table.Length) && old(SizeExact(Model())) ==> SizeExact(Model())
    {
      if newCapacity < 0 {
        return Err(NegativeArraySizeException);
      }
      ghost var t0 := Model();
      var copy := new Chain<K, V>[newCapacity](_ => []);
      var n := if newCapacity < table.Length then newCapacity else table.Length;
      var i := 0;
      while i < n
        modifies copy
        invariant 0 <= i <= n <= table.Length
        invariant forall j :: 0 <= j < i ==> copy[j] == table[j]
        invariant forall j :: i <= j < newCapacity ==> copy[j] == []
      {
        copy[i] := table[i];
        i := i + 1;
      }
      table := copy;
      assert Model() == Resize(t0, newCapacity);
      ResizeShape(t0, newCapacity);
      return Ok(());
    }

    /**
     * `get(key)`: walks the chain at the key's slot and returns the value of
     * the first node whose key equals `key`, or `None`.
     */
    method Get(key: K) returns (r: Result<Option<V>, Exception>)
      ensures r == TableSpec.Get(Model(), hash, key)
    {
      var idx := CalculateIndex(hash(key), table.Length);
      if idx.Err? {
        return Err(idx.error);
      }
      var chain := table[idx.value];
      var j := 0;
      while j < |chain|
        invariant 0 <= j <= |chain|
        invariant forall i :: 0 <= i < j ==> chain[i].key != key
      {
        if chain[j].key == key {
          assert Find(chain, key) == Some(j);
          return Ok(Some(chain[j].value));
        }
        j := j + 1;
      }
      return Ok(None);
    }

    /**
     * `remove(key)`: walks the chain at the key's slot and unlinks the first
     * node whose key equals `key`, returning its value; returns `None` when no
     * node matches.
     */
    method Remove(key: K) returns (r: Result<Option<V>, Exception>)
      modifies table, this`size
      ensures old(Valid()) ==> Valid()
      ensures (Model(), r) == TableSpec.Remove(old(Model()), hash, key)
      ensures old(SizeExact(Model())) ==> SizeExact(Model())
    {
      ghost var t0 := Model();
      var idx := CalculateIndex(hash(key), table.Length);
      if idx.Err? {
        return Err(idx.error);
      }
      var index := idx.value;
      var chain := table[index];
      var j := 0;
      while j < |chain|
        invariant 0 <= j <= |chain|
        invariant forall i :: 0 <= i < j ==> chain[i].key != key
      {
        if chain[j].key == key {
          var value := chain[j].value;
          table[index] := chain[..j] + chain[j + 1..];
          size := size - 1;
          assert Find(chain, key) == Some(j);
          RemovePreservesInvariants(t0, hash, key);
          return Ok(Some(value));
        }
        j := j + 1;
      }
      assert Find(chain, key) == None;
      assert table[..] == t0.buckets[index := RemoveChain(chain, key)];
      RemovePreservesInvariants(t0, hash, key);
      return Ok(None);
    }

    /** `containsKey(key)`: `get(key) != null`. */
    function ContainsKey(key: K): (r: Result<bool, Exception>)
      reads this, table
      ensures r.Err? <==> table.Length == 0
      ensures r.Ok? ==> (r.value <==> key in Keys(table[CalculateIndex(hash(key), table.Length).value]))
    {
      TableSpec.ContainsKey(Model(), hash, key)
    }

    /** `containsValue(v)`: whether some slot's head node holds `v`. */
    function ContainsValue(v: V): (r: bool)
      reads this, table
      ensures r <==> exists i :: 0 <= i < table.Length && table[i] != [] && table[i][0].value == v
    {
      assert forall i :: 0 <= i < table.Length ==> table[..][i] == table[i];
      TableSpec.ContainsValue(Model(), v)
    }

    /** `size()`: the `size` field, which counts the stored entries unless slots were cut off. */
    function Size(): (n: int)
      reads this, table
      ensures Valid() ==> n >= TotalSize(table[..])
      ensures SizeExact(Model()) ==> n == TotalSize(table[..])
    {
      size
    }

    /** `isEmpty()`: `size == 0`, which holds exactly when every slot is empty while size is exact. */
    function IsEmpty(): (r: bool)
      reads this, table
      ensures SizeExact(Model()) ==> (r <==> forall i :: 0 <= i < table.Length ==> table[i] == [])
    {
      TotalSizeZero(table[..]);
      size == 0
    }
  }

  /**
   * `new HashTable<>(n)`: a negative capacity throws IllegalArgumentException;
   * otherwise `n` empty slots (0 is accepted).
   */
  method NewHashTable<K(==), V(==)>(hash: K -> int, n: int) returns (r: Result<HashTable<K, V>, Exception>)
    ensures r.Err? <==> n < 0
    ensures r.Err? ==> r.error == IllegalArgumentException
    ensures r.Ok? ==> fresh(r.value) && fresh(r.value.table) && r.value.hash == hash
    ensures r.Ok? ==> r.value.Model() == Empty(n) && r.value.Valid()
  {
    if n < 0 {
      return Err(IllegalArgumentException);
    }
    var t := new HashTable<K, V>.WithCapacity(hash, n);
    return Ok(t);
  }
}
