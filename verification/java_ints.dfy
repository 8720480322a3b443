/**
 * Java's 32-bit `int` arithmetic on unbounded integers: the range, two's-complement
 * wrap-around, `Math.abs` and the `%` operator, which truncates toward zero.
 */
module JavaInts {

  const IntMin: int := -0x8000_0000
  const IntMax: int := 0x7FFF_FFFF
  const Two32: int := 0x1_0000_0000

  predicate IsInt(x: int)
  {
    IntMin <= x <= IntMax
  }

  /** The `int` an overflowing result wraps to: the one in range that agrees with it modulo 2^32. */
  function Wrap32(x: int): (r: int)
    ensures IsInt(r) && (x - r) % Two32 == 0
    ensures IsInt(x) ==> r == x
  {
    var m := x % Two32;
    if m > IntMax then m - Two32 else m
  }

  /** Two integers that agree modulo 2^32 wrap to the same `int`. */
  lemma WrapCongruent(x: int, y: int)
    requires (x - y) % Two32 == 0
    ensures Wrap32(x) == Wrap32(y)
  {
    var k := (x - y) / Two32;
    assert x == y + k * Two32;
    assert x % Two32 == y % Two32;
  }

  /** `Math.abs(int)`: the negation wraps, so the least `int` is its own absolute value. */
  function Abs32(x: int): (r: int)
    requires IsInt(x)
    ensures IsInt(r)
    ensures x != IntMin ==> r >= 0 && (r == x || r == -x)
    ensures x == IntMin ==> r == IntMin
  {
    Wrap32(if x < 0 then -x else x)
  }

  /** The only multiple of a positive divisor that is smaller than it in magnitude is zero. */
  lemma SmallMultiple(d: int, j: int, n: int)
    requires n > 0 && d == j * n && -n < d < n
    ensures d == 0
  {
  }

  /** A multiple of a positive divisor leaves no remainder. */
  lemma MultipleMod(x: int, k: int, n: int)
    requires n > 0 && x == k * n
    ensures x % n == 0
  {
    SmallMultiple(x % n, k - x / n, n);
  }

  /**
   * The `%` of Java: the remainder of the division that truncates toward zero. It takes
   * the sign of the dividend, is smaller than the divisor in magnitude, and differs from
   * the dividend by a multiple of the divisor.
   */
  function Rem(a: int, n: int): (r: int)
    requires n > 0
    ensures -n < r < n && (a - r) % n == 0
    ensures a >= 0 ==> 0 <= r
    ensures a < 0 ==> r <= 0
  {
    if a >= 0 then
      MultipleMod(a - a % n, a / n, n);
      a % n
    else
      MultipleMod(a + (-a) % n, -((-a) / n), n);
      -((-a) % n)
  }

  /** The three properties of `Rem` fix it: no other value has them. */
  lemma RemUnique(a: int, n: int, r: int)
    requires n > 0 && -n < r < n && (a - r) % n == 0
    requires a >= 0 ==> 0 <= r
    requires a < 0 ==> r <= 0
    ensures r == Rem(a, n)
  {
    var q := Rem(a, n);
    var k1 := (a - r) / n;
    var k2 := (a - q) / n;
    assert a - r == k1 * n;
    assert a - q == k2 * n;
    SmallMultiple(q - r, k1 - k2, n);
  }
}
