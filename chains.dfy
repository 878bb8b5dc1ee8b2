/**
 * One bucket's chain of nodes. The Java `Node` list reachable from a slot is
 * a sequence here, head first; a node's `next` is the element after it.
 */
module Chains {
  import opened Wrappers

  /** A chain node's key and value. */
  datatype Entry<K, V> = Entry(key: K, value: V)

  type Chain<K, V> = seq<Entry<K, V>>

  /** The keys of a chain, in chain order. */
  function Keys<K, V>(c: Chain<K, V>): seq<K> {
    seq(|c|, i requires 0 <= i < |c| => c[i].key)
  }

  /** No two nodes of the chain hold equal keys. */
  ghost predicate DistinctKeys<K, V>(c: Chain<K, V>) {
    forall i, j :: 0 <= i < j < |c| ==> c[i].key != c[j].key
  }

  /**
   * The position of the first node whose key equals `k`, comparing from the
   * head as `get`, `put` and `remove` walk the chain; `None` when no node matches.
   */
  function Find<K(==), V>(c: Chain<K, V>, k: K): (r: Option<nat>)
    ensures r.Some? ==> r.value < |c| && c[r.value].key == k
    ensures r.Some? ==> forall j :: 0 <= j < r.value ==> c[j].key != k
    ensures r.None? ==> forall j :: 0 <= j < |c| ==> c[j].key != k
  {
    if c == [] then None
    else if c[0].key == k then Some(0)
    else match Find(c[1..], k) {
      case None => None
      case Some(i) => Some(i + 1)
    }
  }

  /** Two chains with the same keys in the same order are searched alike. */
  lemma FindByKeys<K, V>(c: Chain<K, V>, d: Chain<K, V>, k: K)
    requires |c| == |d| && forall j :: 0 <= j < |c| ==> c[j].key == d[j].key
    ensures Find(c, k) == Find(d, k)
  {
    match Find(c, k) {
      case None =>
      case Some(i) => assert d[i].key == k;
    }
  }

  /** The value of the first node holding `k`, or `None` (Java's `null`). */
  function Lookup<K(==), V>(c: Chain<K, V>, k: K): (r: Option<V>)
    ensures r.Some? <==> k in Keys(c)
    ensures r.Some? ==> Entry(k, r.value) in c
  {
    match Find(c, k)
    case None => None
    case Some(i) => assert Keys(c)[i] == k; Some(c[i].value)
  }

  /**
   * The chain after `put(k, v)` reaches it: the node holding `k` gets value
   * `v` in place, or a new node is appended at the tail when none holds `k`.
   */
  function PutChain<K(==), V>(c: Chain<K, V>, k: K, v: V): (r: Chain<K, V>)
    ensures Entry(k, v) in r
    ensures |r| == |c| + (if Find(c, k).None? then 1 else 0)
  {
    match Find(c, k)
    case Some(i) =>
      var r := c[i := c[i].(value := v)];
      assert r[i] == Entry(k, v);
      r
    case None => c + [Entry(k, v)]
  }

  /** The chain after `remove(k)` reaches it: the first node holding `k` is unlinked. */
  function RemoveChain<K(==), V>(c: Chain<K, V>, k: K): (r: Chain<K, V>)
    ensures Find(c, k).None? ==> r == c
    ensures |r| == |c| - (if Find(c, k).Some? then 1 else 0)
  {
    match Find(c, k)
    case Some(i) => c[..i] + c[i + 1..]
    case None => c
  }

  /**
   * Putting overwrites in place when the key is present (same length, same
   * keys in the same order) and appends it at the tail otherwise.
   */
  lemma PutChainShape<K, V>(c: Chain<K, V>, k: K, v: V)
    ensures Lookup(c, k).Some? ==> Keys(PutChain(c, k, v)) == Keys(c)
    ensures Lookup(c, k).None? ==> Keys(PutChain(c, k, v)) == Keys(c) + [k]
  {
  }

  /** After putting `(k, v)`, `k` maps to `v` and every other key keeps its value. */
  lemma {:induction false} PutChainLookup<K, V>(c: Chain<K, V>, k: K, v: V, k': K)
    ensures Lookup(PutChain(c, k, v), k') == if k' == k then Some(v) else Lookup(c, k')
  {
    var r := PutChain(c, k, v);
    match Find(c, k)
    case Some(i) =>
      FindByKeys(c, r, k');
    case None =>
      assert forall j :: 0 <= j < |c| ==> r[j] == c[j];
      assert r[|c|] == Entry(k, v);
      match Find(c, k')
      case None =>
      case Some(m) => assert r[m] == c[m];
  }

  /** Putting keeps the keys of a chain pairwise distinct. */
  lemma PutChainDistinct<K, V>(c: Chain<K, V>, k: K, v: V)
    requires DistinctKeys(c)
    ensures DistinctKeys(PutChain(c, k, v))
  {
  }

  /**
   * Removing a present key unlinks exactly one node, the first holding it,
   * and keeps the others in order; removing an absent key changes nothing.
   */
  lemma RemoveChainShape<K, V>(c: Chain<K, V>, k: K)
    ensures Find(c, k).Some? ==> var p := Find(c, k).value; RemoveChain(c, k) == c[..p] + c[p + 1..]
    ensures multiset(RemoveChain(c, k)) + (if Lookup(c, k).Some? then multiset{Entry(k, Lookup(c, k).value)} else multiset{}) == multiset(c)
  {
    match Find(c, k)
    case None =>
    case Some(i) =>
      assert c == c[..i] + [c[i]] + c[i + 1..];
  }

  /** `Find` gives the first matching position, read off a chain's keys. */
  lemma FindFirst<K, V>(c: Chain<K, V>, k: K, m: nat)
    requires m < |c| && c[m].key == k
    requires forall j :: 0 <= j < m ==> c[j].key != k
    ensures Find(c, k) == Some(m)
  {
  }

  /**
   * With distinct keys, `k` is gone after removing it, and every other key
   * keeps its value.
   */
  lemma {:induction false} RemoveChainLookup<K, V>(c: Chain<K, V>, k: K, k': K)
    requires DistinctKeys(c)
    ensures Lookup(RemoveChain(c, k), k') == if k' == k then None else Lookup(c, k')
  {
    match Find(c, k)
    case None =>
    case Some(i) =>
      var r := c[..i] + c[i + 1..];
      assert r == RemoveChain(c, k);
      assert forall j :: 0 <= j < |r| ==> r[j] == if j < i then c[j] else c[j + 1];
      if k' == k {
        assert forall j :: 0 <= j < |r| ==> r[j].key != k;
        assert Find(r, k).None?;
      } else {
        match Find(c, k')
        case None =>
          assert forall j :: 0 <= j < |r| ==> r[j].key != k';
          assert Find(r, k').None?;
        case Some(m) =>
          var m' := if m < i then m else m - 1;
          assert r[m'] == c[m];
          FindFirst(r, k', m');
      }
  }

  /** Removing keeps the keys of a chain pairwise distinct. */
  lemma RemoveChainDistinct<K, V>(c: Chain<K, V>, k: K)
    requires DistinctKeys(c)
    ensures DistinctKeys(RemoveChain(c, k))
  {
    match Find(c, k)
    case None =>
    case Some(i) =>
      var r := RemoveChain(c, k);
      assert forall j :: 0 <= j < |r| ==> r[j] == if j < i then c[j] else c[j + 1];
  }
}
