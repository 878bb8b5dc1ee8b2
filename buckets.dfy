/**
 * The bucket array as a value: one chain per slot, in slot order.
 */
module Buckets {
  import opened Chains

  type BucketArray<K, V> = seq<Chain<K, V>>

  /** The number of nodes reachable from all slots together. */
  function TotalSize<K, V>(b: BucketArray<K, V>): nat {
    if b == [] then 0 else |b[0]| + TotalSize(b[1..])
  }

  /** Every chain's keys are pairwise distinct. */
  ghost predicate ChainsDistinct<K, V>(b: BucketArray<K, V>) {
    forall i :: 0 <= i < |b| ==> DistinctKeys(b[i])
  }

  /**
   * `Arrays.copyOf(table, c)`: the array truncated to its first `c` slots, or
   * padded with empty slots up to length `c`. No node moves to another slot.
   */
  function Resized<K, V>(b: BucketArray<K, V>, c: nat): (r: BucketArray<K, V>)
    ensures |r| == c
    ensures c <= |b| ==> r == b[..c]
    ensures c >= |b| ==> r[..|b|] == b && forall i :: |b| <= i < c ==> r[i] == []
  {
    seq(c, i requires 0 <= i < c => if i < |b| then b[i] else [])
  }

  /** The size of a concatenation is the sum of the sizes. */
  lemma {:induction false} TotalSizeConcat<K, V>(a: BucketArray<K, V>, z: BucketArray<K, V>)
    ensures TotalSize(a + z) == TotalSize(a) + TotalSize(z)
  {
    if a != [] {
      assert (a + z)[1..] == a[1..] + z;
      TotalSizeConcat(a[1..], z);
    } else {
      assert a + z == z;
    }
  }

  /** Replacing slot `i`'s chain changes the total by the difference in chain lengths. */
  lemma {:induction false} TotalSizeUpdate<K, V>(b: BucketArray<K, V>, i: nat, c: Chain<K, V>)
    requires i < |b|
    ensures TotalSize(b[i := c]) == TotalSize(b) - |b[i]| + |c|
    ensures |b[i]| <= TotalSize(b)
  {
    if i == 0 {
      assert b[i := c][1..] == b[1..];
    } else {
      assert b[i := c][1..] == b[1..][i - 1 := c];
      TotalSizeUpdate(b[1..], i - 1, c);
    }
  }

  /** The array holds no node exactly when every slot is empty. */
  lemma {:induction false} TotalSizeZero<K, V>(b: BucketArray<K, V>)
    ensures TotalSize(b) == 0 <==> forall i :: 0 <= i < |b| ==> b[i] == []
  {
    if b != [] {
      TotalSizeZero(b[1..]);
      assert forall i :: 1 <= i < |b| ==> b[i] == b[1..][i - 1];
    }
  }

  /** An array of empty slots holds no node. */
  lemma {:induction false} TotalSizeEmpty<K, V>(b: BucketArray<K, V>)
    requires forall i :: 0 <= i < |b| ==> b[i] == []
    ensures TotalSize(b) == 0
  {
    TotalSizeZero(b);
  }

  /**
   * Copying into an array at least as long keeps every node; copying into a
   * shorter one drops the nodes of the cut-off slots and never adds any.
   */
  lemma {:induction false} ResizedTotalSize<K, V>(b: BucketArray<K, V>, c: nat)
    ensures c >= |b| ==> TotalSize(Resized(b, c)) == TotalSize(b)
    ensures c < |b| ==> TotalSize(Resized(b, c)) == TotalSize(b) - TotalSize(b[c..])
  {
    if c >= |b| {
      var pad: BucketArray<K, V> := seq(c - |b|, _ => []);
      assert Resized(b, c) == b + pad;
      TotalSizeConcat(b, pad);
      TotalSizeEmpty(pad);
    } else {
      assert Resized(b, c) == b[..c];
      assert b == b[..c] + b[c..];
      TotalSizeConcat(b[..c], b[c..]);
    }
  }

  /** Copying keeps every chain's keys distinct. */
  lemma ResizedDistinct<K, V>(b: BucketArray<K, V>, c: nat)
    requires ChainsDistinct(b)
    ensures ChainsDistinct(Resized(b, c))
  {
  }

  /**
   * `containsValue`: some slot's HEAD node holds `v`. Only the first node of
   * each chain is compared, as the stream over the array looks at the node
   * stored in each slot and not at its successors.
   */
  function HeadHoldsValue<K, V(==)>(b: BucketArray<K, V>, v: V): (r: bool)
    ensures r <==> exists i :: 0 <= i < |b| && b[i] != [] && b[i][0].value == v
  {
    if b == [] then false
    else (b[0] != [] && b[0][0].value == v) || HeadHoldsValue(b[1..], v)
  }
}
