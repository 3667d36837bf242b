/** The finite numbers a double can hold (IEEE 754-2019 section 3.4). */
module Doubles {
  function Pow2(e: nat): nat {
    if e == 0 then 1 else 2 * Pow2(e - 1)
  }

  lemma {:induction false} PowSum(a: nat, b: nat)
    ensures Pow2(a + b) == Pow2(a) * Pow2(b)
  {
    if a > 0 {
      PowSum(a - 1, b);
      TwiceProduct(Pow2(a - 1), Pow2(b));
      assert Pow2(a + b) == 2 * Pow2(a - 1 + b);
    }
  }

  lemma TwiceProduct(x: nat, y: nat)
    ensures 2 * (x * y) == (2 * x) * y
  {}

  lemma {:induction false} PowPositive(a: nat)
    ensures Pow2(a) >= 1
  {
    if a > 0 { PowPositive(a - 1); }
  }

  /** `x` is `m * 2^e` with a 53-bit significand. */
  ghost predicate DoubleAs(x: real, m: int, e: int) {
    && -0x20_0000_0000_0000 < m < 0x20_0000_0000_0000
    && -1074 <= e <= 971
    && if e >= 0 then x == (m * Pow2(e)) as real else x * Pow2(-e) as real == m as real
  }

  ghost predicate IsDouble(x: real) {
    exists m, e :: DoubleAs(x, m, e)
  }

  const TOP_SIGNIFICAND: int := 0x1F_FFFF_FFFF_FFFF
  const TOP_EXPONENT: int := 971

  /** The largest finite double. */
  function Largest(): real {
    (TOP_SIGNIFICAND * Pow2(TOP_EXPONENT)) as real
  }

  lemma LargestIsDouble()
    ensures IsDouble(Largest()) && IsDouble(-Largest())
  {
    var p: int := Pow2(TOP_EXPONENT);
    assert DoubleAs((TOP_SIGNIFICAND * p) as real, TOP_SIGNIFICAND, TOP_EXPONENT);
    assert (-TOP_SIGNIFICAND * p) as real == -((TOP_SIGNIFICAND * p) as real);
    assert DoubleAs((-TOP_SIGNIFICAND * p) as real, -TOP_SIGNIFICAND, TOP_EXPONENT);
  }

  lemma ProductGrows(m: int, k: int, p: int, q: int)
    requires -k <= m <= k && 0 <= k && 0 <= p <= q
    ensures -(k * q) <= m * p <= k * q
  {
    assert m * p <= k * p <= k * q;
    assert m * p >= -k * p == -(k * p);
  }

  lemma {:induction false} PowGrows(a: nat, b: nat)
    requires a <= b
    ensures Pow2(a) <= Pow2(b)
  {
    if a < b { PowGrows(a, b - 1); }
  }

  lemma Shrinks(x: real, m: int, p: nat)
    requires p >= 1 && x * p as real == m as real
    ensures if m >= 0 then 0.0 <= x <= m as real else m as real <= x <= 0.0
  {}

  /** No double lies beyond it. */
  lemma WithinLargest(x: real)
    requires IsDouble(x)
    ensures -Largest() <= x <= Largest()
  {
    var m, e :| DoubleAs(x, m, e);
    var k, top: int := TOP_SIGNIFICAND, Pow2(TOP_EXPONENT);
    if e >= 0 {
      PowGrows(e, TOP_EXPONENT);
      ProductGrows(m, k, Pow2(e), top);
    } else {
      PowPositive(-e);
      Shrinks(x, m, Pow2(-e));
      PowPositive(TOP_EXPONENT);
      ProductGrows(m, k, 1, top);
    }
  }

  lemma SmallIsDouble(n: int)
    requires -0x20_0000_0000_0000 < n < 0x20_0000_0000_0000
    ensures IsDouble(n as real)
  {
    assert Pow2(0) == 1 && n * Pow2(0) == n;
    assert DoubleAs(n as real, n, 0);
  }

  lemma NegatedDouble(x: real)
    requires IsDouble(x)
    ensures IsDouble(-x)
  {
    var m, e :| DoubleAs(x, m, e);
    if e >= 0 {
      assert (-m * Pow2(e)) as real == -((m * Pow2(e)) as real);
    }
    assert DoubleAs(-x, -m, e);
  }
}
