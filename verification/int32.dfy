/** C# 32-bit `int` arithmetic, written out over Dafny's unbounded integers. */
module Int32Arith {

  const MIN: int := -0x8000_0000
  const MAX: int := 0x7FFF_FFFF
  const MODULUS: int := 0x1_0000_0000

  /** The values a C# `int` can hold. */
  type Int32 = x: int | MIN <= x <= MAX

  /** The value C# stores for the mathematical result `x` of an unchecked
      `int` operation: the representative of `x` modulo 2^32 in int range. */
  function Wrap(x: int): (r: Int32)
    ensures (r - x) % MODULUS == 0
    ensures MIN <= x <= MAX ==> r == x
  {
    (x - MIN) % MODULUS + MIN
  }

  /** `Wrap` gives the one int-range value congruent to `x`. */
  lemma WrapUnique(x: int, r: int)
    requires MIN <= r <= MAX && (r - x) % MODULUS == 0
    ensures r == Wrap(x)
  {
    var w := Wrap(x);
    var q1, q2 := (r - x) / MODULUS, (w - x) / MODULUS;
    assert r - x == 0x1_0000_0000 * q1 && w - x == 0x1_0000_0000 * q2;
    assert r - w == 0x1_0000_0000 * (q1 - q2);
  }

  /** Wrapping an intermediate result does not change the wrapped final sum:
      unchecked addition is addition modulo 2^32. */
  lemma WrapAddWrap(a: int, b: int)
    ensures Wrap(Wrap(a) + b) == Wrap(a + b)
  {
    var w := Wrap(a);
    var v := Wrap(w + b);
    var k1, k2 := (v - w - b) / MODULUS, (w - a) / MODULUS;
    assert v - w - b == 0x1_0000_0000 * k1 && w - a == 0x1_0000_0000 * k2;
    assert v - (a + b) == 0x1_0000_0000 * (k1 + k2);
    WrapUnique(a + b, v);
  }

  /** `Wrap` for the sum or difference of two ints, which can leave the int
      range by less than one full turn of 2^32. */
  function WrapSum(x: int): (r: Int32)
    requires -MODULUS <= x < MODULUS
    ensures r == x || r == x - MODULUS || r == x + MODULUS
    ensures MIN <= x <= MAX ==> r == x
  {
    if x > MAX then x - MODULUS else if x < MIN then x + MODULUS else x
  }

  /** Both ways of wrapping agree where both apply. */
  lemma WrapSumIsWrap(x: int)
    requires -MODULUS <= x < MODULUS
    ensures WrapSum(x) == Wrap(x)
  {
  }

  /** C#'s `/` on ints with a positive divisor: the quotient rounded toward zero,
      so the remainder takes the sign of the dividend. */
  function TruncDiv(a: int, b: int): (q: int)
    requires b > 0
    ensures 0 <= a ==> 0 <= a - q * b < b
    ensures a < 0 ==> -b < a - q * b <= 0
  {
    if a >= 0 then a / b else -((-a) / b)
  }
}
