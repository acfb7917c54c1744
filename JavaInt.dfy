/**
 * Java's 32-bit `int`: its range and the two's-complement wrap-around that
 * Java integer arithmetic performs on overflow.
 */
module JavaInt {

  /** Integer.MIN_VALUE and Integer.MAX_VALUE. */
  const INT_MIN: int := -0x8000_0000
  const INT_MAX: int := 0x7fff_ffff

  /** Number of distinct `int` values; Java arithmetic is exact modulo this. */
  const MODULUS: int := 0x1_0000_0000

  /** A Java `int` value. */
  newtype int32 = x: int | -0x8000_0000 <= x < 0x8000_0000

  /**
   * The `int` that Java's arithmetic yields for the exact result `x`: the
   * unique value of the `int` range congruent to `x` modulo 2^32.
   */
  function Wrap(x: int): (r: int32)
    ensures (r as int - x) % MODULUS == 0
    ensures INT_MIN <= x <= INT_MAX ==> r as int == x
  {
    ((x - INT_MIN) % MODULUS + INT_MIN) as int32
  }

  /** Adding a multiple of 2^32 does not change a remainder modulo 2^32. */
  lemma ModShift(x: int, k: int)
    ensures (x + k * MODULUS) % MODULUS == x % MODULUS
  {
  }

  /** Two exact results that agree modulo 2^32 wrap to the same `int`. */
  lemma {:induction false} WrapCongruent(a: int, b: int)
    requires (a - b) % MODULUS == 0
    ensures Wrap(a) == Wrap(b)
  {
    var k := (a - b) / MODULUS;
    assert a - INT_MIN == (b - INT_MIN) + k * MODULUS;
    ModShift(b - INT_MIN, k);
  }

  /**
   * Wrapping an intermediate result before `31 * _ + x` gives the same `int`
   * as wrapping only at the end: Java's step-by-step overflow agrees with
   * the exact computation reduced once.
   */
  lemma {:induction false} WrapMulAdd(a: int, x: int)
    ensures Wrap(31 * (Wrap(a) as int) + x) == Wrap(31 * a + x)
  {
    var w := Wrap(a) as int;
    var j := (w - a) / MODULUS;
    assert w - a == j * MODULUS;
    assert (31 * w + x) - (31 * a + x) == (31 * j) * MODULUS;
    ModShift(0, 31 * j);
    WrapCongruent(31 * w + x, 31 * a + x);
  }
}
