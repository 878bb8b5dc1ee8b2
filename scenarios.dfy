/**
 * Concrete runs of the table with integer keys whose hash code is the key
 * itself. They show the consequences of copying slots without rehashing,
 * of the head-only value scan, and when the default table first grows.
 */
module Scenarios {
  import opened Wrappers
  import opened Chains
  import opened Buckets
  import opened TableSpec
  import opened TableProperties

  function Identity(k: int): int { k }

  /** A put of a key absent from its slot, when no growth is due, appends one node there. */
  lemma PutNewKey<K, V>(t: Table<K, V>, hash: K -> int, k: K, v: V, i: nat)
    requires |t.buckets| > 0 && !NeedsResize(t)
    requires i == Slot(t, hash, k) && Lookup(t.buckets[i], k) == None
    ensures Put(t, hash, k, v) == (Table(t.buckets[i := t.buckets[i] + [Entry(k, v)]], t.size + 1), Ok(None))
  {
    assert ResizeAsNeeded(t) == t;
    assert Find(t.buckets[i], k) == None;
    assert PutChain(t.buckets[i], k, v) == t.buckets[i] + [Entry(k, v)];
  }

  /** `put(1, 10)` into a fresh table of one slot stores one node in slot 0. */
  lemma FirstPutIntoOneSlot() returns (t1: Table<int, int>)
    ensures t1 == Put(Empty<int, int>(1), Identity, 1, 10).0
    ensures t1 == Table([[Entry(1, 10)]], 1)
  {
    var t0 := Empty<int, int>(1);
    assert t0.buckets == [[]];
    PutNewKey(t0, Identity, 1, 10, 0);
    t1 := Put(t0, Identity, 1, 10).0;
    assert t1.buckets[0] == [] + [Entry(1, 10)] == [Entry(1, 10)];
    assert t1.buckets == [[Entry(1, 10)]];
  }

  /** The table of one slot holding key 1, grown for the next put: key 1 stays in slot 0. */
  lemma GrownOneSlot(t1: Table<int, int>) returns (u: Table<int, int>)
    requires t1 == Table([[Entry(1, 10)]], 1)
    ensures u == ResizeAsNeeded(t1) && u == Table([[Entry(1, 10)], []], 1)
    ensures forall k: int, v: int :: Put(t1, Identity, k, v) == Put(u, Identity, k, v)
  {
    u := ResizeAsNeeded(t1);
    assert u.buckets == [[Entry(1, 10)], []];
    assert ResizeAsNeeded(u) == u;
  }

  /**
   * Capacity 1: `put(1, 10)` then `put(2, 20)`. The second put grows the array
   * to 2 without moving key 1, which stays in slot 0 while `calculateIndex`
   * now sends it to slot 1, so `get(1)` returns `null` although the entry is
   * still stored.
   */
  lemma GrowthLosesEarlierKey()
    ensures var t1 := Put(Empty<int, int>(1), Identity, 1, 10).0;
      var t2 := Put(t1, Identity, 2, 20).0;
      && Get(t1, Identity, 1) == Ok(Some(10))
      && |t2.buckets| == 2
      && Entry(1, 10) in t2.buckets[0]
      && Get(t2, Identity, 1) == Ok(None)
  {
    var t1 := FirstPutIntoOneSlot();
    assert Slot(t1, Identity, 1) == 0;
    var u := GrownOneSlot(t1);
    assert Slot(u, Identity, 2) == 0;
    PutNewKey(u, Identity, 2, 20, 0);
    var t2 := Put(t1, Identity, 2, 20).0;
    assert t2.buckets[0] == [Entry(1, 10)] + [Entry(2, 20)] == [Entry(1, 10), Entry(2, 20)];
    assert t2.buckets[1] == [];
    assert Slot(t2, Identity, 1) == 1;
  }

  /**
   * Capacity 1: `put(1, 10)` then `put(1, 20)`. The second put grows the array
   * first, misses the stranded node and appends a second node with key 1: it
   * returns `null` instead of 10, and `size` becomes 2.
   */
  lemma GrowthDuplicatesKey()
    ensures var t1 := Put(Empty<int, int>(1), Identity, 1, 10).0;
      var (t2, r) := Put(t1, Identity, 1, 20);
      && r == Ok(None)
      && t2.size == 2
      && t2.buckets == [[Entry(1, 10)], [Entry(1, 20)]]
  {
    var t1 := FirstPutIntoOneSlot();
    var u := GrownOneSlot(t1);
    assert Slot(u, Identity, 1) == 1;
    PutNewKey(u, Identity, 1, 20, 1);
    var t2 := Put(t1, Identity, 1, 20).0;
    assert t2.buckets[1] == [] + [Entry(1, 20)] == [Entry(1, 20)];
    assert t2.buckets == [[Entry(1, 10)], [Entry(1, 20)]];
  }

  /** `put(0, 10)` into a fresh table of two slots stores one node in slot 0. */
  lemma FirstPutIntoTwoSlots() returns (t1: Table<int, int>)
    ensures t1 == Put(Empty<int, int>(2), Identity, 0, 10).0
    ensures t1 == Table([[Entry(0, 10)], []], 1)
  {
    var t0 := Empty<int, int>(2);
    assert t0.buckets == [[], []];
    assert Slot(t0, Identity, 0) == 0;
    PutNewKey(t0, Identity, 0, 10, 0);
    t1 := Put(t0, Identity, 0, 10).0;
    assert t1.buckets[0] == [] + [Entry(0, 10)] == [Entry(0, 10)];
    assert t1.buckets == [[Entry(0, 10)], []];
  }

  /** Then `put(2, 20)`: key 2 also hashes to slot 0 and is chained behind key 0. */
  lemma SecondPutIntoSlotZero(t1: Table<int, int>) returns (t2: Table<int, int>)
    requires t1 == Table([[Entry(0, 10)], []], 1)
    ensures t2 == Put(t1, Identity, 2, 20).0
    ensures t2 == Table([[Entry(0, 10), Entry(2, 20)], []], 2)
  {
    assert Slot(t1, Identity, 2) == 0;
    PutNewKey(t1, Identity, 2, 20, 0);
    t2 := Put(t1, Identity, 2, 20).0;
    assert t2.buckets[0] == [Entry(0, 10)] + [Entry(2, 20)] == [Entry(0, 10), Entry(2, 20)];
    assert t2.buckets == [[Entry(0, 10), Entry(2, 20)], []];
  }

  /**
   * Capacity 2: keys 0 and 2 share slot 0. After `put(0, 10)` and
   * `put(2, 20)`, `get(2)` returns 20 but `containsValue(20)` is false,
   * because 20 is held by the second node of the chain.
   */
  lemma ContainsValueSeesOnlyHeads()
    ensures var t1 := Put(Empty<int, int>(2), Identity, 0, 10).0;
      var t2 := Put(t1, Identity, 2, 20).0;
      && Get(t2, Identity, 2) == Ok(Some(20))
      && !ContainsValue(t2, 20)
      && ContainsValue(t2, 10)
  {
    var t1 := FirstPutIntoTwoSlots();
    var t2 := SecondPutIntoSlotZero(t1);
    assert Slot(t2, Identity, 2) == 0;
    assert Find(t2.buckets[0], 2) == Some(1);
    assert t2.buckets[0][0].value == 10;
  }

  /** The table after putting keys `0 .. n-1`, each mapped to itself. */
  function PutRange(t: Table<int, int>, n: nat): Table<int, int> {
    if n == 0 then t else Put(PutRange(t, n - 1), Identity, n - 1, n - 1).0
  }

  /**
   * The default table of 8 slots, filled with distinct keys, keeps its 8
   * slots through the seventh put (6 / 8 is not above 0.75) and doubles to 16
   * on the eighth (7 / 8 is).
   */
  lemma {:induction false} DefaultTableGrowsOnEighthPut()
    ensures |PutRange(Empty(DefaultSize), 7).buckets| == 8 && PutRange(Empty(DefaultSize), 7).size == 7
    ensures |PutRange(Empty(DefaultSize), 8).buckets| == 16 && PutRange(Empty(DefaultSize), 8).size == 8
  {
    EmptyIsRangeZero();
    SmallRangeKeepsCapacity(Empty(DefaultSize));
    EighthPut(PutRange(Empty(DefaultSize), 7));
  }

  /** The eighth put finds seven entries in eight slots, so it doubles the array first. */
  lemma EighthPut(t7: Table<int, int>)
    requires t7 == Table(RangeBuckets(7), 7)
    ensures |Put(t7, Identity, 7, 7).0.buckets| == 16 && Put(t7, Identity, 7, 7).0.size == 8
  {
    PutCapacity(t7, Identity, 7, 7);
    var u := ResizeAsNeeded(t7);
    assert u == Resize(t7, 16);
    assert Slot(u, Identity, 7) == 7;
    assert u.buckets[7] == [];
    PutAppends(t7, Identity, 7, 7);
  }

  /** Slot `i` holds key `i` alone for `i < n`; the other slots of eight are empty. */
  function RangeBuckets(n: nat): BucketArray<int, int> {
    seq(8, i requires 0 <= i < 8 => if i < n then [Entry(i, i)] else [])
  }

  /** In a table of eight slots, a key below eight sits in its own slot. */
  lemma SlotOfSmallKey(t: Table<int, int>, k: int)
    requires |t.buckets| == 8 && 0 <= k < 8
    ensures Slot(t, Identity, k) == k
  {
  }

  /** The default table is the range table of no keys. */
  lemma EmptyIsRangeZero()
    ensures Empty(DefaultSize) == Table(RangeBuckets(0), 0)
  {
    assert Empty<int, int>(DefaultSize).buckets == RangeBuckets(0);
  }

  /** One more put, of key `n - 1`, into the table holding keys `0 .. n-2`. */
  lemma RangeStep(t: Table<int, int>, n: nat)
    requires 1 <= n <= 7 && t == Table(RangeBuckets(n - 1), n - 1)
    ensures Put(t, Identity, n - 1, n - 1).0 == Table(RangeBuckets(n), n)
  {
    var k := n - 1;
    SlotOfSmallKey(t, k);
    assert t.buckets[k] == [];
    assert !NeedsResize(t) by { assert 4 * t.size <= 24; }
    PutNewKey(t, Identity, k, k, k);
    assert [] + [Entry(k, k)] == [Entry(k, k)];
    var b := t.buckets[k := [Entry(k, k)]];
    assert forall i :: 0 <= i < 8 ==> b[i] == RangeBuckets(n)[i];
    assert b == RangeBuckets(n);
  }

  /**
   * Seven puts of keys `0 .. 6` into the default table: no growth, slot `i`
   * holds key `i` alone for `i < 7`, and slot 7 is empty.
   */
  lemma SmallRangeKeepsCapacity(t0: Table<int, int>)
    requires t0 == Table(RangeBuckets(0), 0)
    ensures PutRange(t0, 7) == Table(RangeBuckets(7), 7)
  {
    RangeStep(PutRange(t0, 0), 1);
    RangeStep(PutRange(t0, 1), 2);
    RangeStep(PutRange(t0, 2), 3);
    RangeStep(PutRange(t0, 3), 4);
    RangeStep(PutRange(t0, 4), 5);
    RangeStep(PutRange(t0, 5), 6);
    RangeStep(PutRange(t0, 6), 7);
  }

  /**
   * `resizeTable` to a smaller capacity drops the cut-off slots' nodes while
   * `size` still counts them.
   */
  lemma ShrinkingLeavesSizeStale()
    ensures var t1 := Put(Empty<int, int>(2), Identity, 1, 10).0;
      && SizeExact(t1)
      && Resize(t1, 1) == Table([[]], 1)
      && !SizeExact(Resize(t1, 1))
  {
    var t0 := Empty<int, int>(2);
    assert t0.buckets == [[], []];
    assert Slot(t0, Identity, 1) == 1;
    PutNewKey(t0, Identity, 1, 10, 1);
    PutPreservesInvariants(t0, Identity, 1, 10);
    var t1 := Put(t0, Identity, 1, 10).0;
    assert t1.buckets[1] == [] + [Entry(1, 10)] == [Entry(1, 10)];
    assert t1.buckets == [[], [Entry(1, 10)]];
    assert Resize(t1, 1).buckets == [[]];
    TotalSizeEmpty(Resize(t1, 1).buckets);
  }
}
