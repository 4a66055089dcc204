/** The two pieces of Java `int` arithmetic the label lookups depend on:
    32-bit two's-complement wrap-around of `+` and `-`, and the `%`
    operator, whose result takes the sign of the dividend. */
module JavaInt {
  import Bits

  const MinInt: int := -0x8000_0000
  const MaxInt: int := 0x7fff_ffff

  /** The range of a Java `int`. */
  predicate IsInt(x: int) {
    MinInt <= x <= MaxInt
  }

  /** The Java `int` that the mathematical value x wraps around to. */
  function Wrap(x: int): (r: int)
    ensures IsInt(r)
    ensures (x - r) % 0x1_0000_0000 == 0
    ensures IsInt(x) ==> r == x
  {
    (x - MinInt) % 0x1_0000_0000 + MinInt
  }

  /** A value one step below the `int` range wraps up by 2^32. */
  lemma WrapBelow(x: int)
    requires MinInt - 0x1_0000_0000 <= x < MinInt
    ensures Wrap(x) == x + 0x1_0000_0000
  {
    Bits.DivModUnique(x - MinInt, 0x1_0000_0000, -1, x - MinInt + 0x1_0000_0000);
  }

  /** A value one step above the `int` range wraps down by 2^32. */
  lemma WrapAbove(x: int)
    requires MaxInt < x <= MaxInt + 0x1_0000_0000
    ensures Wrap(x) == x - 0x1_0000_0000
  {
    Bits.DivModUnique(x - MinInt, 0x1_0000_0000, 1, x - MinInt - 0x1_0000_0000);
  }

  /** Java's `a % b` for b > 0: truncating division, so a negative
      dividend gives a remainder in -(b - 1) .. 0. */
  function Rem(a: int, b: int): (r: int)
    requires b > 0
    ensures -b < r < b
    ensures (a - r) % b == 0
    ensures a >= 0 ==> r >= 0
    ensures a <= 0 ==> r <= 0
  {
    if a >= 0 then
      Bits.DivModUnique(a - a % b, b, a / b, 0);
      a % b
    else
      var q := (-a) / b;
      Bits.DivModUnique(a + (-a) % b, b, -q, 0);
      -((-a) % b)
  }

  /** Java's remainder is a valid array index exactly when the dividend is
      non-negative or a multiple of b, and it then agrees with the
      mathematical (never negative) remainder. */
  lemma RemIndex(a: int, b: int)
    requires b > 0
    ensures Rem(a, b) >= 0 <==> a >= 0 || a % b == 0
    ensures Rem(a, b) >= 0 ==> Rem(a, b) == a % b
  {
    if a < 0 {
      var q, r := (-a) / b, (-a) % b;
      if r == 0 {
        Bits.DivModUnique(a, b, -q, 0);
      } else {
        Bits.DivModUnique(a, b, -q - 1, b - r);
      }
    }
  }

  /** Adding a multiple of m leaves the remainder by m unchanged. */
  lemma ModPeriod(a: int, m: int, k: int)
    requires m > 0
    ensures (a + m * k) % m == a % m
  {
    Bits.DivModUnique(a + m * k, m, a / m + k, a % m);
  }

  /** Numbers with the same remainder by m differ by a multiple of m. */
  lemma SameRemainder(a: int, b: int, m: int)
    requires m > 0 && a % m == b % m
    ensures (b - a) % m == 0
  {
    Bits.DivModUnique(b - a, m, b / m - a / m, 0);
  }
}
