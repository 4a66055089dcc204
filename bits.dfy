/** Binary digits of natural numbers, the arithmetic behind the single-bit
    mask tests `(x & (1 << k)) != 0` that the lunar year table decoder uses. */
module Bits {

  /** 2 to the power k. */
  function Pow2(k: nat): (p: nat)
    ensures p >= 1
  {
    if k == 0 then 1 else 2 * Pow2(k - 1)
  }

  /** The powers of two that appear as masks in the year table decoder. */
  lemma Pow2Values()
    ensures Pow2(3) == 0x8 && Pow2(4) == 0x10 && Pow2(8) == 0x100
    ensures Pow2(11) == 0x800 && Pow2(12) == 0x1000 && Pow2(15) == 0x8000 && Pow2(16) == 0x10000
  {
    assert Pow2(4) == 16;
    assert Pow2(8) == 256;
    assert Pow2(11) == 2 * 2 * 2 * Pow2(8);
    assert Pow2(12) == 4096;
    assert Pow2(15) == 2 * 2 * 2 * Pow2(12);
  }

  lemma {:induction false} Pow2Monotone(a: nat, b: nat)
    requires a <= b
    ensures Pow2(a) <= Pow2(b)
  {
    if a < b {
      Pow2Monotone(a, b - 1);
    }
  }

  /** x shifted right by k places, one halving at a time. */
  function Shr(x: nat, k: nat): nat {
    if k == 0 then x else Shr(x, k - 1) / 2
  }

  /** Bit k of x is set: the value of `(x & (1 << k)) != 0`. */
  predicate Bit(x: nat, k: nat) {
    Shr(x, k) % 2 == 1
  }

  lemma MulAtLeast(t: int, d: int)
    requires t >= 1 && d > 0
    ensures t * d >= d
  {
    assert t * d == (t - 1) * d + d;
  }

  /** Division is unique: the quotient and remainder of x by d are the only
      pair that rebuilds x with a remainder below d. */
  lemma DivModUnique(x: int, d: int, q: int, r: int)
    requires d > 0 && 0 <= r < d && x == d * q + r
    ensures x / d == q && x % d == r
  {
    var t := q - x / d;
    assert t * d == x % d - r;
    if t >= 1 {
      MulAtLeast(t, d);
    } else if t <= -1 {
      MulAtLeast(-t, d);
    }
  }

  lemma MulMonotone(a: nat, x: nat, y: nat)
    requires x <= y
    ensures a * x <= a * y
  {
    assert a * y == a * x + a * (y - x);
  }

  /** Dividing twice is dividing by the product. */
  lemma DivDiv(x: nat, a: nat, b: nat)
    requires a > 0 && b > 0
    ensures x / a / b == x / (a * b)
  {
    var q, r := x / a, x % a;
    var q2, r2 := q / b, q % b;
    assert a * q == (a * b) * q2 + a * r2 by {
      assert q == b * q2 + r2;
      assert a * (b * q2 + r2) == a * (b * q2) + a * r2;
      assert a * (b * q2) == (a * b) * q2;
    }
    assert a * r2 + r < a * b by {
      MulMonotone(a, r2, b - 1);
      assert a * (b - 1) == a * b - a;
    }
    assert x == (a * b) * q2 + (a * r2 + r);
    DivModUnique(x, a * b, q2, a * r2 + r);
  }

  /** Shifting right by k is dividing by 2 to the power k. */
  lemma {:induction false} ShrIsDiv(x: nat, k: nat)
    ensures Shr(x, k) == x / Pow2(k)
  {
    if k > 0 {
      ShrIsDiv(x, k - 1);
      DivDiv(x, Pow2(k - 1), 2);
    }
  }

  /** Halving first and then shifting by k is shifting by k + 1. */
  lemma {:induction false} ShrHalf(x: nat, k: nat)
    ensures Shr(x / 2, k) == Shr(x, k + 1)
  {
    if k > 0 {
      ShrHalf(x, k - 1);
    }
  }

  /** Halving moves every bit one place down. */
  lemma BitHalf(x: nat, k: nat)
    ensures Bit(x / 2, k) == Bit(x, k + 1)
  {
    ShrHalf(x, k);
  }

  /** The bits below position m are the bits of x modulo 2^m. */
  lemma {:induction false} BitOfMod(x: nat, k: nat, m: nat)
    requires k < m
    ensures Bit(x % Pow2(m), k) == Bit(x, k)
  {
    var p := Pow2(m - 1);
    var r := x % Pow2(m);
    assert r == 2 * ((x / 2) % p) + x % 2 by {
      ModDouble(x, p);
    }
    if k == 0 {
      assert r % 2 == x % 2;
    } else {
      assert r / 2 == (x / 2) % p;
      BitOfMod(x / 2, k - 1, m - 1);
      BitHalf(x, k - 1);
      BitHalf(r, k - 1);
    }
  }

  /** Number of set bits of x among the positions lo .. hi - 1. */
  function CountBits(x: nat, lo: nat, hi: nat): (n: nat)
    ensures n <= hi - lo || lo > hi
    decreases hi - lo
  {
    if lo >= hi then 0 else (if Bit(x, lo) then 1 else 0) + CountBits(x, lo + 1, hi)
  }

  /** Number of set bits among the n low bits of y, found by shifting y
      right one place at a time. */
  function PopCount(y: nat, n: nat): nat {
    if n == 0 then 0 else y % 2 + PopCount(y / 2, n - 1)
  }

  /** Testing the bits lo .. hi - 1 of x one mask at a time counts the same
      as shifting x right by lo and counting its hi - lo low bits. */
  lemma {:induction false} CountBitsShift(x: nat, lo: nat, hi: nat)
    requires lo <= hi
    ensures CountBits(x, lo, hi) == PopCount(Shr(x, lo), hi - lo)
    decreases hi - lo
  {
    if lo < hi {
      CountBitsShift(x, lo + 1, hi);
    }
  }

  /** The n low bits of y, most significant first. */
  function ToBitsBE(y: nat, n: nat): (bits: seq<bool>)
    ensures |bits| == n
  {
    if n == 0 then [] else ToBitsBE(y / 2, n - 1) + [y % 2 == 1]
  }

  /** The number whose binary digits are `bits`, most significant first. */
  function FromBitsBE(bits: seq<bool>): (v: nat)
    ensures v < Pow2(|bits|)
  {
    if bits == [] then 0
    else 2 * FromBitsBE(bits[..|bits| - 1]) + (if bits[|bits| - 1] then 1 else 0)
  }

  /** Element i of ToBitsBE(y, n) is bit n - 1 - i of y. */
  lemma {:induction false} ToBitsBEAt(y: nat, n: nat, i: nat)
    requires i < n
    ensures ToBitsBE(y, n)[i] == Bit(y, n - 1 - i)
  {
    if i < n - 1 {
      ToBitsBEAt(y / 2, n - 1, i);
      BitHalf(y, n - 2 - i);
    }
  }

  /** The remainder by 2p is built from the remainder of y / 2 by p and
      the lowest bit of y. */
  lemma ModDouble(y: nat, p: nat)
    requires p > 0
    ensures y % (2 * p) == 2 * ((y / 2) % p) + y % 2
  {
    var q, r := (y / 2) / p, (y / 2) % p;
    assert y / 2 == p * q + r;
    assert y == (2 * p) * q + (2 * r + y % 2);
    DivModUnique(y, 2 * p, q, 2 * r + y % 2);
  }

  /** Reading n bits and packing them again gives y modulo 2^n. */
  lemma {:induction false} FromToBits(y: nat, n: nat)
    ensures FromBitsBE(ToBitsBE(y, n)) == y % Pow2(n)
  {
    if n == 0 {
    } else {
      var bits := ToBitsBE(y, n);
      assert bits[..n - 1] == ToBitsBE(y / 2, n - 1);
      FromToBits(y / 2, n - 1);
      ModDouble(y, Pow2(n - 1));
    }
  }

  /** Packing bits and reading them back gives the same bits. */
  lemma {:induction false} ToFromBits(bits: seq<bool>)
    ensures ToBitsBE(FromBitsBE(bits), |bits|) == bits
  {
    if bits != [] {
      var init := bits[..|bits| - 1];
      ToFromBits(init);
      assert bits == init + [bits[|bits| - 1]];
    }
  }

  /** Only the low n bits of y matter to ToBitsBE(y, n). */
  lemma {:induction false} ToBitsBEHigh(y: nat, n: nat, q: nat)
    ensures ToBitsBE(Pow2(n) * q + y, n) == ToBitsBE(y, n)
  {
    if n > 0 {
      var p := Pow2(n - 1);
      var z := Pow2(n) * q + y;
      assert z == 2 * (p * q) + y;
      assert z / 2 == p * q + y / 2 && z % 2 == y % 2;
      ToBitsBEHigh(y / 2, n - 1, q);
    }
  }
}
