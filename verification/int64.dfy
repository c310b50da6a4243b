/**
 * Java's 64-bit `long`: the range, the constants the bucket state uses, and the
 * two's-complement wrap-around of `long` arithmetic, written out explicitly
 * because Dafny's `int` is unbounded.
 */
module Int64 {

  /** `Long.MIN_VALUE` */
  const LONG_MIN: int := -0x8000_0000_0000_0000
  /** `Long.MAX_VALUE`, also the "unbounded" sentinel of the bucket state */
  const LONG_MAX: int := 0x7fff_ffff_ffff_ffff
  /** number of distinct `long` values */
  const TWO_TO_64: int := 0x1_0000_0000_0000_0000

  predicate InRange(x: int) {
    LONG_MIN <= x <= LONG_MAX
  }

  /** A value a Java `long` can hold. */
  type Long = x: int | InRange(x)

  /** The `long` that Java's arithmetic yields for the mathematical value `x`:
      the unique value of the range congruent to `x` modulo 2^64. */
  function Wrap(x: int): (r: Long)
    ensures InRange(x) ==> r == x
    ensures (x - r) % TWO_TO_64 == 0
  {
    var offset := x - LONG_MIN;
    var q := offset / TWO_TO_64;
    assert offset == q * TWO_TO_64 + offset % TWO_TO_64;
    assert x - (offset % TWO_TO_64 + LONG_MIN) == q * TWO_TO_64;
    offset % TWO_TO_64 + LONG_MIN
  }

  /** Java's `a - b` on two longs. */
  function Sub(a: Long, b: Long): (r: Long)
    ensures InRange(a - b) ==> r == a - b
    ensures (a - b - r) % TWO_TO_64 == 0
  {
    Wrap(a - b)
  }

  /** Subtracting a non-negative long from a non-negative long never wraps. */
  lemma SubOfNonNegativesIsExact(a: Long, b: Long)
    requires a >= 0 && b >= 0
    ensures Sub(a, b) == a - b
  {
    assert InRange(a) && InRange(b);
    assert InRange(a - b);
  }

  /** `Math.max` */
  function Max(a: int, b: int): (r: int)
    ensures r >= a && r >= b
    ensures r == a || r == b
  {
    if a >= b then a else b
  }

  /** `Math.min` */
  function Min(a: int, b: int): (r: int)
    ensures r <= a && r <= b
    ensures r == a || r == b
  {
    if a <= b then a else b
  }
}
