/** Money kept in doubles: amounts are read back as integers of 1/10000, added as integers and
    written back as the nearest double. Up to 2^39 units of currency nothing is ever lost. */
module Money {
  import opened Prelude
  import opened Doubles
  import opened MoneyArithmetic

  /** 2^39 in units of 1/10000. */
  const EXACT_LIMIT := 5_497_558_138_880_000

  // ---------------------------------------------------------------------------
  // Rounding (IEEE 754-2019 section 4.3.1)
  // ---------------------------------------------------------------------------

  function Abs(x: real): real {
    if x < 0.0 then -x else x
  }

  /** Any sign-symmetric rounding to a nearest double; how ties go makes no difference below. */
  ghost predicate RoundsToNearest(fl: real -> real) {
    && (forall x :: IsDouble(fl(x)))
    && (forall x, d :: IsDouble(d) ==> Abs(fl(x) - x) <= Abs(d - x))
    && (forall x :: fl(-x) == -fl(x))
  }

  // ---------------------------------------------------------------------------
  // money.ts
  // ---------------------------------------------------------------------------

  /** The integer nearest to `y`, the larger of two (ECMA-262 section 21.1.3.3). */
  function NearestInteger(y: real): int {
    (y + 0.5).Floor
  }

  /** `x.toFixed(4)` as an integer count of 1/10000, sign handled apart. */
  function ToFixed4(x: real): int {
    if x < 0.0 then -NearestInteger(-x * 10000.0) else NearestInteger(x * 10000.0)
  }

  function OfUnits(fl: real -> real, units: int): real {
    fl(units as real / 10000.0)
  }

  /** None for the RangeErrors: more than four decimals, exponent notation, unsafe range. */
  function ScaledInteger(fl: real -> real, amount: real): Option<int> {
    var fixed := ToFixed4(amount);
    if Abs(amount) >= 1e21 || amount != OfUnits(fl, fixed) then None
    else if fixed > MAX_SAFE_INTEGER || fixed < -MAX_SAFE_INTEGER then None
    else Some(fixed)
  }

  // ---------------------------------------------------------------------------
  // One amount survives the trip through a double
  // ---------------------------------------------------------------------------

  lemma Powers()
    ensures Pow2(13) == 8192 && Pow2(14) == 16384 && Pow2(39) == 549_755_813_888
  {
    assert Pow2(14) == 16384;
    assert Pow2(26) == 67_108_864;
  }

  /** The multiples of 2^-14 up to 2^39 are doubles. */
  lemma FineGrid(j: int)
    requires -0x20_0000_0000_0000 <= j <= 0x20_0000_0000_0000
    ensures IsDouble(j as real / 16384.0)
  {
    Powers();
    if j == 0x20_0000_0000_0000 {
      assert DoubleAs(j as real / 16384.0, 1, 39);
    } else if j == -0x20_0000_0000_0000 {
      assert DoubleAs(j as real / 16384.0, -1, 39);
    } else {
      assert DoubleAs(j as real / 16384.0, j, -14);
    }
  }

  lemma NearestDoubleIsClose(fl: real -> real, x: real)
    requires RoundsToNearest(fl) && Abs(x) <= 549755813888.0
    ensures Abs(fl(x) - x) <= 1.0 / 32768.0
  {
    var j := (x * 16384.0 + 0.5).Floor;
    FineGrid(j);
    assert Abs(j as real / 16384.0 - x) <= 1.0 / 32768.0;
  }

  /** A safe amount is read back as exactly the integer it was written from. */
  lemma ReadsBack(fl: real -> real, units: int)
    requires RoundsToNearest(fl) && -EXACT_LIMIT <= units <= EXACT_LIMIT
    ensures ScaledInteger(fl, OfUnits(fl, units)) == Some(units)
  {
    var x := units as real / 10000.0;
    NearestDoubleIsClose(fl, x);
    var d := fl(x);
    assert Abs(d * 10000.0 - units as real) <= 10000.0 / 32768.0;
    assert ToFixed4(d) == units;
  }

  /** And nothing else is read as an amount: what is read is in the safe range and was the double of it. */
  lemma OnlyAmountsAreRead(fl: real -> real, amount: real, units: int)
    requires ScaledInteger(fl, amount) == Some(units)
    ensures amount == fl(units as real / 10000.0) && -0x1F_FFFF_FFFF_FFFF <= units <= 0x1F_FFFF_FFFF_FFFF
  {}

  // ---------------------------------------------------------------------------
  // The bound is sharp
  // ---------------------------------------------------------------------------

  /** A number with few binary places is a multiple of 2^-13. */
  lemma Raise(d: real, m: int, p: int, q: int)
    requires p * q == 8192 && d * p as real == m as real
    ensures d * 8192.0 == (m * q) as real
  {
    calc {
      d * 8192.0;
      d * (p * q) as real;
      d * p as real * q as real;
      m as real * q as real;
      (m * q) as real;
    }
  }

  lemma FewPlaces(d: real, m: int, f: nat) returns (j: int)
    requires f <= 13 && d * Pow2(f) as real == m as real
    ensures d * 8192.0 == j as real
  {
    Powers();
    PowSum(f, 13 - f);
    j := m * Pow2(13 - f);
    Raise(d, m, Pow2(f), Pow2(13 - f));
  }

  lemma NoPlaces(d: real, m: int, e: int) returns (j: int)
    requires DoubleAs(d, m, e) && e >= 0
    ensures d * 8192.0 == j as real
  {
    j := Times8192(d, m * Pow2(e));
  }

  lemma Times8192(d: real, n: int) returns (j: int)
    requires d == n as real
    ensures d * 8192.0 == j as real
  {
    j := n * 8192;
  }

  lemma SomePlaces(d: real, m: int, e: int) returns (j: int)
    requires DoubleAs(d, m, e) && e < 0 && d >= 549755813888.0
    ensures d * 8192.0 == j as real
  {
    PlacesAreFew(d, m, -e);
    j := FewPlaces(d, m, -e);
  }

  /** Between 2^39 and 2^40 every double is a multiple of 2^-13. */
  lemma CoarseAbove(d: real) returns (j: int)
    requires IsDouble(d) && 549755813888.0 <= d < 1099511627776.0
    ensures d * 8192.0 == j as real
  {
    var m, e :| DoubleAs(d, m, e);
    j := CoarseAs(d, m, e);
  }

  lemma CoarseAs(d: real, m: int, e: int) returns (j: int)
    requires DoubleAs(d, m, e) && d >= 549755813888.0
    ensures d * 8192.0 == j as real
  {
    if e >= 0 {
      j := NoPlaces(d, m, e);
    } else {
      j := SomePlaces(d, m, e);
    }
  }

  lemma PlacesAreFew(d: real, m: int, f: nat)
    requires d * Pow2(f) as real == m as real && m < 9007199254740992 && d >= 549755813888.0
    ensures f <= 13
  {
    if f >= 14 { TooFine(d, f); }
  }

  lemma TooFine(d: real, f: nat)
    requires f >= 14 && d >= 549755813888.0
    ensures d * Pow2(f) as real >= 9007199254740992.0
  {
    Powers();
    PowSum(14, f - 14);
    PowPositive(f - 14);
    var p := Pow2(f);
    assert p >= 16384;
    ScaleUp(d, p);
  }

  lemma ScaleUp(d: real, p: nat)
    requires d >= 549755813888.0 && p >= 16384
    ensures d * p as real >= 9007199254740992.0
  {}

  lemma CoarseGrid(j: int)
    requires 0 <= j <= 8
    ensures IsDouble(549755813888.0 + j as real / 8192.0)
  {
    Powers();
    assert DoubleAs(549755813888.0 + j as real / 8192.0, 0x10_0000_0000_0000 + j, -13);
  }

  /** Just above 2^39, the double of an amount is the nearest multiple of 2^-13. */
  lemma DoubleJustAbove(fl: real -> real, t: int, j: int)
    requires RoundsToNearest(fl) && 1 <= t <= 3 && 1 <= j <= 8
    requires Abs(j as real - t as real * 0.8192) < 0.5
    ensures OfUnits(fl, EXACT_LIMIT + t) == 549755813888.0 + j as real / 8192.0
  {
    var x := (EXACT_LIMIT + t) as real / 10000.0;
    var near := 549755813888.0 + j as real / 8192.0;
    var d := fl(x);
    assert x == 549755813888.0 + t as real / 10000.0;
    CoarseGrid(j);
    assert Abs(d - x) <= Abs(near - x) < 0.5 / 8192.0;
    assert d >= 549755813888.0;
    var k := CoarseAbove(d);
    assert Abs(k as real - x * 8192.0) < 0.5;
    assert x * 8192.0 == 4503599627370496.0 + t as real * 0.8192;
    assert k == 0x10_0000_0000_0000 + j;
  }

  lemma ReadJustAbove(fl: real -> real, t: int, j: int)
    requires 1 <= t <= 3 && 1 <= j <= 8 && Abs(j as real * 1.220703125 - t as real) < 0.5
    requires OfUnits(fl, EXACT_LIMIT + t) == 549755813888.0 + j as real / 8192.0
    ensures ScaledInteger(fl, 549755813888.0 + j as real / 8192.0) == Some(EXACT_LIMIT + t)
  {
    var d := 549755813888.0 + j as real / 8192.0;
    assert d * 10000.0 == EXACT_LIMIT as real + j as real * 1.220703125;
    assert ToFixed4(d) == EXACT_LIMIT + t;
  }

  lemma JustAbove(fl: real -> real)
    requires RoundsToNearest(fl)
    ensures ScaledInteger(fl, OfUnits(fl, EXACT_LIMIT + 1)) == Some(EXACT_LIMIT + 1)
    ensures ScaledInteger(fl, OfUnits(fl, EXACT_LIMIT + 2)) == Some(EXACT_LIMIT + 2)
    ensures OfUnits(fl, EXACT_LIMIT + 3) == OfUnits(fl, EXACT_LIMIT + 2)
  {
    DoubleJustAbove(fl, 1, 1);
    DoubleJustAbove(fl, 2, 2);
    DoubleJustAbove(fl, 3, 2);
    ReadJustAbove(fl, 1, 1);
    ReadJustAbove(fl, 2, 2);
  }

  function RoundTrip(fl: real -> real): int -> Option<int> {
    (units: int) => ScaledInteger(fl, OfUnits(fl, units))
  }

  lemma TripExact(fl: real -> real, u: int)
    requires RoundsToNearest(fl) && 0 <= u <= EXACT_LIMIT + 2
    ensures RoundTrip(fl)(u) == Some(u)
  {
    if u <= EXACT_LIMIT {
      ReadsBack(fl, u);
    } else {
      JustAbove(fl);
      assert u == EXACT_LIMIT + 1 || u == EXACT_LIMIT + 2;
    }
  }

  lemma TripFails(fl: real -> real)
    requires RoundsToNearest(fl)
    ensures RoundTrip(fl)(EXACT_LIMIT + 3) == Some(EXACT_LIMIT + 2)
  {
    JustAbove(fl);
  }

  /** The exact range of amounts from 0 up ends at 549755813888.0002: the next amount shares
      its double and is read back as that one. */
  lemma ExactRangeIsSharp(fl: real -> real, top: nat)
    requires RoundsToNearest(fl)
    ensures (forall units :: 0 <= units <= top ==> RoundTrip(fl)(units) == Some(units)) <==> top <= EXACT_LIMIT + 2
  {
    var trip := RoundTrip(fl);
    forall u | 0 <= u <= EXACT_LIMIT + 2 ensures trip(u) == Some(u) { TripExact(fl, u); }
    TripFails(fl);
    FirstFailure(trip, EXACT_LIMIT, top);
  }

  function InDoubles(fl: real -> real): Codec {
    Codec(x => ScaledInteger(fl, x), u => OfUnits(fl, u))
  }

  lemma DoublesAreFaithful(fl: real -> real)
    requires RoundsToNearest(fl)
    ensures Faithful(InDoubles(fl), EXACT_LIMIT)
  {
    forall u | -EXACT_LIMIT <= u <= EXACT_LIMIT ensures InDoubles(fl).read(InDoubles(fl).write(u)) == Some(u) {
      ReadsBack(fl, u);
    }
    forall u: int ensures -InDoubles(fl).write(u) == InDoubles(fl).write(-u) {
      assert (-u) as real / 10000.0 == -(u as real / 10000.0);
    }
  }

  /** Nested money arithmetic in doubles: the exact result, however the work is grouped. */
  lemma MoneyNeverDrifts(fl: real -> real, e: Expr, f: Expr)
    requires RoundsToNearest(fl) && Within(e, EXACT_LIMIT) && Within(f, EXACT_LIMIT) && Exact(e) == Exact(f)
    ensures Run(InDoubles(fl), e).Some? && Run(InDoubles(fl), e) == Run(InDoubles(fl), f)
    ensures ScaledInteger(fl, Run(InDoubles(fl), e).value) == Some(Exact(e))
  {
    DoublesAreFaithful(fl);
    RegroupingIsFree(InDoubles(fl), EXACT_LIMIT, e, f);
    assert InDoubles(fl).read(Run(InDoubles(fl), e).value) == Some(Exact(e));
  }

  /** Past the bound one addition already drifts: 549755813888 + 0.0003 is 549755813888.0002. */
  lemma AdditionDrifts(fl: real -> real)
    requires RoundsToNearest(fl)
    ensures var sum := Run(InDoubles(fl), Sum([Amount(EXACT_LIMIT), Amount(3)]));
            sum.Some? && ScaledInteger(fl, sum.value) == Some(EXACT_LIMIT + 2)
  {
    JustAbove(fl);
    DoublesAreFaithful(fl);
    TwoTermSum(InDoubles(fl), EXACT_LIMIT, EXACT_LIMIT, 3);
  }
}
