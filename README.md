# A verified model of a separately chained hash table

This project models `HashTable<K, V>` from `com.bobocode.cs`. The table is a
separately chained hash table written from scratch. Its state is an array of
bucket slots plus an `int size` counter. Each slot anchors a singly linked
chain of `Node`s holding a key and a value.

- `calculateIndex` maps a key's hash code to a slot.
- `put` overwrites the value of a matching node in place, or appends a new
  node at the chain's tail.
- `remove` unlinks the matching node.
- At the start of every `put`, including one that overwrites an existing
  key, `resizeAsNeeded` doubles the array once `size / capacity > 0.75`.
- `resizeTable` copies the array slot by slot (`Arrays.copyOf`). It does not
  rehash.

The model is written in Dafny and has these modules:

- `Wrappers` (wrappers.dfy): `Option` stands for a `null` return and `Result`
  for a thrown exception.
- `JavaInt` (java_int.dfy): Java's truncated `%`, which takes the sign of the
  dividend, unlike Dafny's Euclidean `%`. It also holds `calculateIndex` and
  the three exceptions the table can throw.
- `Chains` (chains.dfy): one slot's chain as a sequence of `Entry(key, value)`,
  head first. The `next` link is the order of the sequence. The module has
  the chain walks (`Find`, `Lookup`) and the chain after a put or a remove.
- `Buckets` (buckets.dfy): the bucket array as a sequence of chains. It has
  the node count, the positional copy made by `Arrays.copyOf`, and the
  head-only value scan of `containsValue`.
- `TableSpec` (table_spec.dfy): the table's state as a value
  `Table(buckets, size)`, with each operation as a function from old state to
  new state and result.
- `HashTables` (hash_table.dfy): the class `HashTable`. It has a
  `table: array<seq<Entry>>` and a `size` field, updated in place by `Put`,
  `Remove` and `ResizeTable`. Those methods walk chains with `while` loops, and
  each method's postcondition ties the new state and result to the
  `TableSpec` function of the old state. The queries are functions that read
  the fields.
- `TableProperties` (properties.dfy): lemmas relating the operations. They
  cover invariants kept, get after put, remove after put, overwrite versus
  append, and growth.
- `Scenarios` (scenarios.dfy): concrete runs with integer keys whose hash is
  the key. They show that growth without rehashing strands a key and can
  store the same key twice. They also show that `containsValue` misses
  non-head values, and that the default table first grows on the eighth put.

`hashCode` is a function `hash: K -> int`. It is the class's `const`, and the
spec functions take it as a parameter. `equals` is Dafny's `==` on keys and
values.

Two invariants hold for every reachable state, and `put`, `remove` and every
`resizeTable` keep them:
- no chain holds two equal keys;
- `size` is at least the number of stored nodes.

A stronger invariant, `SizeExact`, says that `size` is exactly the number of
stored nodes. Everything keeps it except a `resizeTable` to a smaller
capacity, which drops the cut-off slots' nodes.

In these places the code does not behave as a map is expected to, and the
model follows the code:
- Growth copies slots by position and never moves a node. A key stored
  before a growth can therefore become unreachable by `get`, and a later
  `put` of that key adds a second node for it. See
  `Scenarios.GrowthLosesEarlierKey` and `Scenarios.GrowthDuplicatesKey`.
  "`get(k)` returns `v` after `put(k, v)`" is guaranteed only while the capacity stays
  the same (`TableProperties.GetSurvivesPutsWithoutGrowth`).
- `containsValue` compares only the head node of each slot, not whole chains
  (`Scenarios.ContainsValueSeesOnlyHeads`). Its Javadoc (HashTable.java:163)
  promises `true` whenever the table holds the value.
- With the default capacity 8, the seventh insertion does not grow the table,
  because 6/8 is not above 0.75. The eighth insertion does
  (`Scenarios.DefaultTableGrowsOnEighthPut`).

## Model

| member | source | states |
|---|---|---|
| `JavaInt.JavaRem` | 2-0-data-structures-and-algorithms/2-2-9-hash-table/src/main/java/com/bobocode/cs/HashTable.java:76 | Java's `%`: the remainder is smaller in magnitude than the divisor, takes the sign of the dividend, and differs from the dividend by a multiple of the divisor |
| `JavaInt.CalculateIndex` | 2-0-data-structures-and-algorithms/2-2-9-hash-table/src/main/java/com/bobocode/cs/HashTable.java:75-78 | throws ArithmeticException exactly for capacity 0; for a positive capacity the index is in `[0, capacity)` and congruent to the hash code (it is the Euclidean residue) |
| `JavaInt.IndexOfNegativeRemainder` | 2-0-data-structures-and-algorithms/2-2-9-hash-table/src/main/java/com/bobocode/cs/HashTable.java:77 | adding the capacity to a negative remainder yields the Euclidean residue |
| `Chains.Find` | 2-0-data-structures-and-algorithms/2-2-9-hash-table/src/main/java/com/bobocode/cs/HashTable.java:139-144 | the chain walk stops at the first node whose key equals the given one; no earlier node matches; `None` means no node matches |
| `Chains.Lookup` | 2-0-data-structures-and-algorithms/2-2-9-hash-table/src/main/java/com/bobocode/cs/HashTable.java:137-145 | a value is found exactly when the key is among the chain's keys, and the found pair is stored in the chain |
| `Chains.PutChain` | 2-0-data-structures-and-algorithms/2-2-9-hash-table/src/main/java/com/bobocode/cs/HashTable.java:99-116 | the put pair is stored in the chain; the length grows by one exactly when no node held the key |
| `Chains.RemoveChain` | 2-0-data-structures-and-algorithms/2-2-9-hash-table/src/main/java/com/bobocode/cs/HashTable.java:202-219 | a chain with no node for the key is left unchanged; otherwise it is one node shorter |
| `Chains.PutChainShape` | 2-0-data-structures-and-algorithms/2-2-9-hash-table/src/main/java/com/bobocode/cs/HashTable.java:99-116 | a present key is overwritten in place (the same keys in the same order); an absent key is appended at the tail (the old keys, then the new one) |
| `Chains.PutChainLookup` | 2-0-data-structures-and-algorithms/2-2-9-hash-table/src/main/java/com/bobocode/cs/HashTable.java:102-115 | after the put the key maps to the new value and every other key keeps its value |
| `Chains.PutChainDistinct` | 2-0-data-structures-and-algorithms/2-2-9-hash-table/src/main/java/com/bobocode/cs/HashTable.java:102-116 | a put keeps the chain's keys pairwise distinct |
| `Chains.RemoveChainShape` | 2-0-data-structures-and-algorithms/2-2-9-hash-table/src/main/java/com/bobocode/cs/HashTable.java:202-219 | removing a present key drops exactly the first node holding it: the nodes before and after it stay in their order, and the multiset of nodes loses only that pair |
| `Chains.RemoveChainLookup` | 2-0-data-structures-and-algorithms/2-2-9-hash-table/src/main/java/com/bobocode/cs/HashTable.java:202-216 | with distinct keys, the removed key is gone afterwards and every other key keeps its value |
| `Chains.RemoveChainDistinct` | 2-0-data-structures-and-algorithms/2-2-9-hash-table/src/main/java/com/bobocode/cs/HashTable.java:205-212 | unlinking keeps the chain's keys pairwise distinct |
| `Buckets.Resized` | 2-0-data-structures-and-algorithms/2-2-9-hash-table/src/main/java/com/bobocode/cs/HashTable.java:277 | the copy has the requested length; a shorter copy is the array truncated to its first slots, a longer one keeps every old slot in place and pads with empty slots |
| `Buckets.TotalSizeUpdate` | 2-0-data-structures-and-algorithms/2-2-9-hash-table/src/main/java/com/bobocode/cs/HashTable.java:117 | replacing one slot's chain changes the node count by the difference in chain lengths, so one appended or unlinked node changes it by one |
| `Buckets.TotalSizeZero` | 2-0-data-structures-and-algorithms/2-2-9-hash-table/src/main/java/com/bobocode/cs/HashTable.java:187-189 | no node is stored exactly when every slot is empty |
| `Buckets.ResizedTotalSize` | 2-0-data-structures-and-algorithms/2-2-9-hash-table/src/main/java/com/bobocode/cs/HashTable.java:276-278 | a copy at least as long keeps every node; a shorter one loses exactly the nodes of the cut-off slots |
| `Buckets.ResizedDistinct` | 2-0-data-structures-and-algorithms/2-2-9-hash-table/src/main/java/com/bobocode/cs/HashTable.java:277 | copying keeps every chain's keys distinct |
| `Buckets.HeadHoldsValue` | 2-0-data-structures-and-algorithms/2-2-9-hash-table/src/main/java/com/bobocode/cs/HashTable.java:166-169 | true exactly when some slot is non-empty and its head node holds the value |
| `TableSpec.Empty` | 2-0-data-structures-and-algorithms/2-2-9-hash-table/src/main/java/com/bobocode/cs/HashTable.java:51-59 | a new table has the given capacity, all slots empty, size 0, and satisfies both invariants |
| `TableSpec.Slot` | 2-0-data-structures-and-algorithms/2-2-9-hash-table/src/main/java/com/bobocode/cs/HashTable.java:95 | the slot used by put, get and remove is in range and is the hash code's residue modulo the capacity |
| `TableSpec.Get` | 2-0-data-structures-and-algorithms/2-2-9-hash-table/src/main/java/com/bobocode/cs/HashTable.java:135-146 | throws exactly at capacity 0; otherwise returns a value exactly when the key is in its slot's chain, and that pair is stored there |
| `TableSpec.ContainsKey` | 2-0-data-structures-and-algorithms/2-2-9-hash-table/src/main/java/com/bobocode/cs/HashTable.java:155-157 | throws exactly at capacity 0; otherwise true exactly when the key is among its slot's chain keys |
| `TableSpec.ContainsValue` | 2-0-data-structures-and-algorithms/2-2-9-hash-table/src/main/java/com/bobocode/cs/HashTable.java:166-169 | true exactly when some non-empty slot's head node holds the value |
| `TableSpec.Resize` | 2-0-data-structures-and-algorithms/2-2-9-hash-table/src/main/java/com/bobocode/cs/HashTable.java:276-278 | the new array has the requested length and the size field is kept; every slot of the copy is empty or holds the chain the same slot held before, so no node changes slot |
| `TableSpec.ResizeAsNeeded` | 2-0-data-structures-and-algorithms/2-2-9-hash-table/src/main/java/com/bobocode/cs/HashTable.java:121-125 | when the load test `NeedsResize` (`4·size > 3·capacity`) fails, nothing changes; when it holds, the capacity doubles; either way the size and every old slot are kept in place |
| `TableSpec.Put` | 2-0-data-structures-and-algorithms/2-2-9-hash-table/src/main/java/com/bobocode/cs/HashTable.java:92-119 | throws exactly at capacity 0, and then leaves the table as it was; otherwise returns what `get` returns in the grown table (the old value or `null`), stores the pair in its slot, keeps the grown capacity, and counts one more entry exactly when `null` is returned |
| `TableSpec.Remove` | 2-0-data-structures-and-algorithms/2-2-9-hash-table/src/main/java/com/bobocode/cs/HashTable.java:198-220 | returns exactly what `get` returns; when that is a value, the size drops by one and the capacity is kept; otherwise (not found, or capacity 0) nothing changes |
| `HashTables.HashTable.constructor` | 2-0-data-structures-and-algorithms/2-2-9-hash-table/src/main/java/com/bobocode/cs/HashTable.java:51-53 | a fresh array of `DEFAULT_SIZE` 8 empty slots, size 0 |
| `HashTables.HashTable.WithCapacity` | 2-0-data-structures-and-algorithms/2-2-9-hash-table/src/main/java/com/bobocode/cs/HashTable.java:58 | a fresh array of `n` empty slots, size 0 |
| `HashTables.NewHashTable` | 2-0-data-structures-and-algorithms/2-2-9-hash-table/src/main/java/com/bobocode/cs/HashTable.java:56-59 | a negative capacity throws IllegalArgumentException, and only a negative one does; any other capacity (0 included) gives that many empty slots |
| `HashTables.HashTable.Put` | 2-0-data-structures-and-algorithms/2-2-9-hash-table/src/main/java/com/bobocode/cs/HashTable.java:92-119 | the new state and result are `TableSpec.Put` of the old state; both invariants kept; the array is the old one or a fresh one |
| `HashTables.HashTable.ResizeAsNeeded` | 2-0-data-structures-and-algorithms/2-2-9-hash-table/src/main/java/com/bobocode/cs/HashTable.java:121-125 | the new state is the old one doubled when `4·size > 3·capacity`, unchanged otherwise |
| `HashTables.HashTable.ResizeTable` | 2-0-data-structures-and-algorithms/2-2-9-hash-table/src/main/java/com/bobocode/cs/HashTable.java:276-278 | a negative length throws NegativeArraySizeException and changes nothing; otherwise a fresh array is the positional copy and size is kept; the exact size is kept when not shrinking |
| `HashTables.HashTable.Get` | 2-0-data-structures-and-algorithms/2-2-9-hash-table/src/main/java/com/bobocode/cs/HashTable.java:135-146 | the chain walk returns `TableSpec.Get` of the current state, without modifying anything |
| `HashTables.HashTable.Remove` | 2-0-data-structures-and-algorithms/2-2-9-hash-table/src/main/java/com/bobocode/cs/HashTable.java:198-220 | the new state and result are `TableSpec.Remove` of the old state; both invariants kept |
| `HashTables.HashTable.ContainsKey` | 2-0-data-structures-and-algorithms/2-2-9-hash-table/src/main/java/com/bobocode/cs/HashTable.java:155-157 | throws exactly at capacity 0; otherwise true exactly when the key is in the chain at its computed index |
| `HashTables.HashTable.ContainsValue` | 2-0-data-structures-and-algorithms/2-2-9-hash-table/src/main/java/com/bobocode/cs/HashTable.java:166-169 | true exactly when some slot's head node holds the value |
| `HashTables.HashTable.Size` | 2-0-data-structures-and-algorithms/2-2-9-hash-table/src/main/java/com/bobocode/cs/HashTable.java:177-179 | at least the number of stored nodes, and exactly that number while the size is exact |
| `HashTables.HashTable.IsEmpty` | 2-0-data-structures-and-algorithms/2-2-9-hash-table/src/main/java/com/bobocode/cs/HashTable.java:187-189 | while the size is exact, true exactly when every slot is empty |
| `TableProperties.ResizeAsNeededShape` | 2-0-data-structures-and-algorithms/2-2-9-hash-table/src/main/java/com/bobocode/cs/HashTable.java:121-125 | capacity doubles exactly when `4·size > 3·capacity`; size and existing slots kept, the added slots empty; both invariants kept |
| `TableProperties.GrowthThreshold` | 2-0-data-structures-and-algorithms/2-2-9-hash-table/src/main/java/com/bobocode/cs/HashTable.java:122-123 | the table grows exactly when its size exceeds `3·capacity/4` rounded down, so 6 entries fit in the default 8 slots |
| `TableProperties.ResizeShape` | 2-0-data-structures-and-algorithms/2-2-9-hash-table/src/main/java/com/bobocode/cs/HashTable.java:276-278 | new length `c`, slots below both lengths kept, later slots empty, size field kept; node count kept when `c` is at least the old length and reduced by the cut-off slots otherwise; invariants kept |
| `TableProperties.PutPreservesInvariants` | 2-0-data-structures-and-algorithms/2-2-9-hash-table/src/main/java/com/bobocode/cs/HashTable.java:92-119 | put keeps keys distinct in every chain and keeps an exact size exact |
| `TableProperties.ZeroCapacityThrows` | 2-0-data-structures-and-algorithms/2-2-9-hash-table/src/main/java/com/bobocode/cs/HashTable.java:76 | with capacity 0, put, get and remove throw ArithmeticException, and put and remove change nothing |
| `TableProperties.PutOverwrites` | 2-0-data-structures-and-algorithms/2-2-9-hash-table/src/main/java/com/bobocode/cs/HashTable.java:102-112 | a key present at its slot (after growth) gets the new value in place: the new chain is the old one with only that node's value replaced; the old value is returned; size and key order are unchanged; other slots untouched |
| `TableProperties.PutAppends` | 2-0-data-structures-and-algorithms/2-2-9-hash-table/src/main/java/com/bobocode/cs/HashTable.java:95-118 | an absent key is appended at its chain's tail (head of an empty slot); `null` is returned; size and node count grow by one; other slots untouched |
| `TableProperties.GetAfterPut` | 2-0-data-structures-and-algorithms/2-2-9-hash-table/src/main/java/com/bobocode/cs/HashTable.java:92-146 | right after `put(k, v)`, `get(k)` is `v`; other keys read as in the grown table, which is the old table when nothing grew |
| `TableProperties.RemovePreservesInvariants` | 2-0-data-structures-and-algorithms/2-2-9-hash-table/src/main/java/com/bobocode/cs/HashTable.java:198-220 | remove keeps keys distinct in every chain and keeps an exact size exact |
| `TableProperties.RemoveFound` | 2-0-data-structures-and-algorithms/2-2-9-hash-table/src/main/java/com/bobocode/cs/HashTable.java:202-216 | removing a present key returns its value, unlinks exactly its node while the rest of the chain keeps its order, decrements size and node count, and touches no other slot |
| `TableProperties.RemoveMissing` | 2-0-data-structures-and-algorithms/2-2-9-hash-table/src/main/java/com/bobocode/cs/HashTable.java:198-219 | removing an absent key returns `null` and leaves the whole state unchanged |
| `TableProperties.GetAfterRemove` | 2-0-data-structures-and-algorithms/2-2-9-hash-table/src/main/java/com/bobocode/cs/HashTable.java:198-220 | after `remove(k)`, `get(k)` is `null` and every other key reads as before |
| `TableProperties.RemoveAfterPut` | 2-0-data-structures-and-algorithms/2-2-9-hash-table/src/main/java/com/bobocode/cs/HashTable.java:92-220 | `remove(k)` right after `put(k, v)` returns `v`, then `get(k)` is `null`, and size drops by one |
| `TableProperties.PutTwiceWithoutGrowth` | 2-0-data-structures-and-algorithms/2-2-9-hash-table/src/main/java/com/bobocode/cs/HashTable.java:80-112 | a second put of the same key returns the first value and keeps size, when the second put does not grow the table |
| `TableProperties.PutCapacity` | 2-0-data-structures-and-algorithms/2-2-9-hash-table/src/main/java/com/bobocode/cs/HashTable.java:93 | put never shrinks the array, and keeps its length exactly when no growth is due |
| `TableProperties.PutAllCapacity` | 2-0-data-structures-and-algorithms/2-2-9-hash-table/src/main/java/com/bobocode/cs/HashTable.java:93 | a series of puts never shrinks the array |
| `TableProperties.GetSurvivesPutsWithoutGrowth` | 2-0-data-structures-and-algorithms/2-2-9-hash-table/src/main/java/com/bobocode/cs/HashTable.java:92-146 | a key's `get` result survives any series of puts of other keys that leaves the capacity unchanged |
| `TableProperties.ContainsValueSound` | 2-0-data-structures-and-algorithms/2-2-9-hash-table/src/main/java/com/bobocode/cs/HashTable.java:166-169 | a true `containsValue` answer names a stored node holding the value |
| `Scenarios.GrowthLosesEarlierKey` | 2-0-data-structures-and-algorithms/2-2-9-hash-table/src/main/java/com/bobocode/cs/HashTable.java:276-278 | at capacity 1, `put(1,10)` then `put(2,20)` grows to 2 without moving key 1, so `get(1)` becomes `null` while `(1,10)` is still stored |
| `Scenarios.GrowthDuplicatesKey` | 2-0-data-structures-and-algorithms/2-2-9-hash-table/src/main/java/com/bobocode/cs/HashTable.java:93-118 | at capacity 1, `put(1,10)` then `put(1,20)` returns `null` and leaves two nodes with key 1 and size 2 |
| `Scenarios.ContainsValueSeesOnlyHeads` | 2-0-data-structures-and-algorithms/2-2-9-hash-table/src/main/java/com/bobocode/cs/HashTable.java:166-169 | at capacity 2, keys 0 and 2 are chained in slot 0: `get(2)` is 20 but `containsValue(20)` is false |
| `Scenarios.DefaultTableGrowsOnEighthPut` | 2-0-data-structures-and-algorithms/2-2-9-hash-table/src/main/java/com/bobocode/cs/HashTable.java:121-125 | the default table keeps 8 slots through seven distinct puts and has 16 after the eighth |
| `Scenarios.ShrinkingLeavesSizeStale` | 2-0-data-structures-and-algorithms/2-2-9-hash-table/src/main/java/com/bobocode/cs/HashTable.java:276-278 | a `resizeTable` to a smaller capacity drops a stored node while `size` still counts it |

## Left out

- `toString` is presentational. It is not modelled, because it depends on the `toString` of the keys and values.
- `hashCode` and `equals` are foreign calls. They are modelled as a fixed function `hash: K -> int` and as Dafny's `==`.
- Null keys and values are not modelled, because keys and values are non-null types. In Java, a null key throws NullPointerException in `calculateIndex`, and a null value at a chain head makes `containsValue` throw.
- `TableSpec.NeedsResize`: the load test `(float) size / length > 0.75f` is the exact integer test `4·size > 3·length`. The two agree for every length up to 2^23, and at length 0: NaN compares false for size 0, and infinity compares true for a positive size. For a longer array the float quotient can round down to exactly `0.75f`: at length 2^23 + 1 with 6291457 entries Java does not grow the table and the model does.
- Java's 32-bit `int` is not modelled. Integers are unbounded, so the overflow of `2 * table.length`, of `size` and of hash codes is not modelled.
- The Java class implements the `Map` interface. The interface is not part of this model and carries no logic.
- Aliasing between the old and new arrays after `Arrays.copyOf` is not observable, because the old array is dropped. Chains are values, so node identity is not modelled.
- `put` allocates its new node before the chain walk. Allocation is not modelled.
- `JavaInt.CalculateIndex`: for a negative capacity it states only that no exception is thrown, not which value results. The table itself never passes a negative capacity.
