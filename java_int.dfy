/**
 * Java's integer remainder and the table's index function.
 *
 * Dafny's `%` is Euclidean (never negative); Java's `%` truncates toward zero,
 * so its result takes the sign of the dividend (section 15.17.3 of the Java
 * Language Specification). The index function relies on that difference.
 */
module JavaInt {
  import opened Wrappers

  /** The exceptions the hash table's operations can raise. */
  datatype Exception =
    | IllegalArgumentException    // negative capacity given to the sized constructor
    | ArithmeticException         // `% 0` when the bucket array has length 0
    | NegativeArraySizeException  // `Arrays.copyOf` with a negative length

  function Abs(x: int): nat {
    if x < 0 then -x else x
  }

  /** `a == q * m + r` with `0 <= r < m` pins down `a % m` as `r`. */
  lemma ModOfDecomposition(a: int, m: int, q: int, r: int)
    requires m > 0 && 0 <= r < m && a == q * m + r
    ensures a % m == r
  {
    var q', r' := a / m, a % m;
    var d := q - q';
    assert d * m == r' - r by {
      assert q * m - q' * m == (q - q') * m;
    }
    if d >= 1 {
      MulAtLeast(d, m);
    } else if d <= -1 {
      assert (-d) * m == -(d * m);
      MulAtLeast(-d, m);
    }
  }

  lemma MulAtLeast(d: int, m: int)
    requires d >= 1 && m > 0
    ensures d * m >= m
  {
    assert d * m == (d - 1) * m + m;
    assert (d - 1) * m >= 0;
  }

  /** Java's `a % b`: truncated remainder, sign of the dividend. */
  function JavaRem(a: int, b: int): (r: int)
    requires b != 0
    ensures Abs(r) < Abs(b)
    ensures a >= 0 ==> r >= 0
    ensures a <= 0 ==> r <= 0
    ensures (a - r) % Abs(b) == 0
  {
    var m := Abs(b);
    if a >= 0 then
      ModOfDecomposition(a - a % m, m, a / m, 0);
      a % m
    else
      ModOfDecomposition(a + (-a) % m, m, -((-a) / m), 0);
      -((-a) % m)
  }

  /**
   * `calculateIndex(key, tableCapacity)` given the key's hash code: Java's
   * remainder, with the capacity added back when it is negative. A capacity of
   * 0 makes the remainder throw.
   */
  function CalculateIndex(hash: int, capacity: int): (r: Result<int, Exception>)
    ensures r.Err? <==> capacity == 0
    ensures r.Err? ==> r.error == ArithmeticException
    ensures capacity > 0 ==> 0 <= r.value < capacity && r.value == hash % capacity
  {
    if capacity == 0 then Err(ArithmeticException)
    else
      var index := JavaRem(hash, capacity);
      if index < 0 then
        IndexOfNegativeRemainder(hash, capacity);
        Ok(index + capacity)
      else
        Ok(index)
  }

  /** For a positive capacity a negative Java remainder plus the capacity is the Euclidean residue. */
  lemma IndexOfNegativeRemainder(hash: int, capacity: int)
    requires capacity != 0 && JavaRem(hash, capacity) < 0
    ensures capacity > 0 ==> JavaRem(hash, capacity) + capacity == hash % capacity
  {
    if capacity > 0 {
      var r := JavaRem(hash, capacity);
      var k := (hash - r) / capacity;
      assert hash - r == k * capacity;
      ModOfDecomposition(hash, capacity, k - 1, r + capacity);
    }
  }
}
