/** Every law assumed of the host can be met: for each there is a host that keeps it. */
module Hosts {
  import opened Doubles
  import opened JsText
  import opened JsValues
  import Money
  import opened NetworkingKeyring
  import opened Numerals
  import opened SessionSettings
  import opened SheetNameRules
  import opened UniqueNames

  // ---------------------------------------------------------------------------
  // Numbers with texts that read back
  // ---------------------------------------------------------------------------

  function Signed(n: int): (s: string)
    ensures s != ""
  {
    if n < 0 then "-" + Digits(-n) else Digits(n)
  }

  lemma SignedIs(n: int)
    ensures forall c :: c in Signed(n) ==> IsDigit(c) || c == '-'
    ensures IsDigit(Signed(n)[|Signed(n)| - 1])
    ensures IsDigit(Signed(n)[0]) <==> n >= 0
  {
    var d := Digits(if n < 0 then -n else n);
    DigitsOnly(if n < 0 then -n else n);
    assert d[0] in d && d[|d| - 1] in d;
  }

  lemma SignedDiffers(m: int, n: int)
    requires Signed(m) == Signed(n)
    ensures m == n
  {
    SignedIs(m);
    SignedIs(n);
    if m < 0 {
      assert Signed(m)[0] == '-' && Signed(m)[1..] == Digits(-m) && Signed(n)[1..] == Digits(-n);
      DigitsDiffer(-m, -n);
    } else {
      DigitsDiffer(m, n);
    }
  }

  ghost function PartsOfDouble(x: real): (p: (int, int))
    requires IsDouble(x)
    ensures DoubleAs(x, p.0, p.1)
  {
    var m, e :| DoubleAs(x, m, e);
    (m, e)
  }

  lemma PartsDetermine(x: real, y: real, m: int, e: int)
    requires DoubleAs(x, m, e) && DoubleAs(y, m, e)
    ensures x == y
  {
    if e < 0 {
      var p := Pow2(-e);
      PowPositive(-e);
      SameQuotient(x, y, p as real, m as real);
    }
  }

  lemma SameQuotient(x: real, y: real, p: real, q: real)
    requires p > 0.0 && x * p == q && y * p == q
    ensures x == y
  {
    assert x == q / p && y == q / p;
  }

  ghost function FiniteText(x: real): string
    requires IsDouble(x)
  {
    Signed(PartsOfDouble(x).0) + ['e'] + Signed(PartsOfDouble(x).1)
  }

  lemma FiniteTextEnds(x: real)
    requires IsDouble(x)
    ensures FiniteText(x) != "" && IsDigit(FiniteText(x)[|FiniteText(x)| - 1])
  {
    SignedIs(PartsOfDouble(x).1);
  }

  lemma FiniteTextsDiffer(x: real, y: real)
    requires IsDouble(x) && IsDouble(y) && FiniteText(x) == FiniteText(y)
    ensures x == y
  {
    var p, q := PartsOfDouble(x), PartsOfDouble(y);
    SignedIs(p.0);
    SignedIs(q.0);
    IndexAfter(Signed(p.0), 'e', Signed(p.1));
    IndexAfter(Signed(q.0), 'e', Signed(q.1));
    var n := |Signed(p.0)|;
    assert FiniteText(x)[..n] == Signed(p.0) && FiniteText(x)[n + 1..] == Signed(p.1);
    assert FiniteText(y)[..n] == Signed(q.0) && FiniteText(y)[n + 1..] == Signed(q.1);
    SignedDiffers(p.0, q.0);
    SignedDiffers(p.1, q.1);
    PartsDetermine(x, y, p.0, p.1);
  }

  ghost function NumberText(n: JsNumber): string {
    match n
    case Finite(x) => if IsDouble(x) then FiniteText(x) else "0"
    case NaN => "NaN"
    case PosInfinity => "Infinity"
    case NegInfinity => "-Infinity"
  }

  lemma NumberTextEnds(n: JsNumber)
    requires IsNumber(n)
    ensures NumberText(n) != "" && NumberText(n) != "true" && NumberText(n) != "false"
    ensures IsDigit(NumberText(n)[|NumberText(n)| - 1]) <==> n.Finite?
  {
    if n.Finite? { FiniteTextEnds(n.value); }
    assert "NaN"[2] == 'N' && "Infinity"[7] == 'y' && "-Infinity"[8] == 'y' && "true"[3] == 'e' && "false"[4] == 'e';
  }

  lemma NumberTextsDiffer(a: JsNumber, b: JsNumber)
    requires IsNumber(a) && IsNumber(b) && NumberText(a) == NumberText(b)
    ensures a == b
  {
    NumberTextEnds(a);
    NumberTextEnds(b);
    if a.Finite? { FiniteTextsDiffer(a.value, b.value); }
  }

  ghost predicate IsTextOf(s: string, n: JsNumber) {
    IsNumber(n) && NumberText(n) == s
  }

  ghost function ParseNumber(s: string): JsNumber {
    if exists n :: IsTextOf(s, n) then var n :| IsTextOf(s, n); n else NaN
  }

  lemma ParseReadsBack(n: JsNumber)
    requires IsNumber(n)
    ensures ParseNumber(NumberText(n)) == n
  {
    assert IsTextOf(NumberText(n), n);
    NumberTextsDiffer(ParseNumber(NumberText(n)), n);
  }

  lemma NotNumerals()
    ensures ParseNumber("true") == NaN && ParseNumber("false") == NaN
  {
    forall n | IsNumber(n) ensures !IsTextOf("true", n) && !IsTextOf("false", n) { NumberTextEnds(n); }
  }

  lemma LawfulHostExists()
    ensures exists h :: Lawful(h)
  {
    ghost var h := Host((n: JsNumber) => NumberText(n), (s: string) => ParseNumber(s), (s: string) => s, (s: string) => s);
    forall n | IsNumber(n) ensures h.numberText(n) != "" && h.parseNumber(h.trim(h.numberText(n))) == n {
      NumberTextEnds(n);
      ParseReadsBack(n);
    }
    NotNumerals();
    assert Lawful(h);
  }

  // ---------------------------------------------------------------------------
  // A rounding to nearest
  // ---------------------------------------------------------------------------

  ghost function ValueOf(m: int, e: int): real {
    if e >= 0 then (m * Pow2(e)) as real else PowPositive(-e); m as real / Pow2(-e) as real
  }

  predicate InRange(m: int, e: int) {
    -0x20_0000_0000_0000 < m < 0x20_0000_0000_0000 && -1074 <= e <= 971
  }

  ghost function ValuesOf(e: int): int -> real {
    (m: int) => ValueOf(m, e)
  }

  ghost function DoublesAt(e: int): set<real> {
    set m: int | -0x20_0000_0000_0000 < m < 0x20_0000_0000_0000 :: ValuesOf(e)(m)
  }

  /** All doubles: there are finitely many. */
  ghost function AllDoubles(): set<real> {
    set e: int, x: real | -1074 <= e <= 971 && x in DoublesAt(e) :: x
  }

  lemma ValueIsDouble(m: int, e: int)
    requires InRange(m, e)
    ensures DoubleAs(ValueOf(m, e), m, e)
  {
    if e < 0 { PowPositive(-e); }
  }

  lemma AllDoublesExactly(x: real)
    ensures x in AllDoubles() <==> IsDouble(x)
  {
    if x in AllDoubles() {
      var e: int :| -1074 <= e <= 971 && x in DoublesAt(e);
      var m: int :| -0x20_0000_0000_0000 < m < 0x20_0000_0000_0000 && ValuesOf(e)(m) == x;
      ValueIsDouble(m, e);
    }
    if IsDouble(x) {
      var m, e :| DoubleAs(x, m, e);
      ValueIsDouble(m, e);
      PartsDetermine(x, ValueOf(m, e), m, e);
      assert ValuesOf(e)(m) == x && x in DoublesAt(e);
    }
  }

  ghost predicate IsNearest(x: real, all: set<real>, d: real) {
    d in all && forall c :: c in all ==> Money.Abs(d - x) <= Money.Abs(c - x)
  }

  lemma HasMember(all: set<real>)
    ensures all == {} || exists c :: c in all
  {
    if forall c :: c !in all { assert all == {}; }
  }

  lemma {:induction false} NearestExists(x: real, all: set<real>)
    requires all != {}
    ensures exists d :: IsNearest(x, all, d)
  {
    HasMember(all);
    var c :| c in all;
    var rest := all - {c};
    if rest == {} {
      assert all == {c};
      assert IsNearest(x, all, c);
    } else {
      NearestExists(x, rest);
      var d :| IsNearest(x, rest, d);
      assert all == rest + {c};
      assert IsNearest(x, all, if Money.Abs(d - x) <= Money.Abs(c - x) then d else c);
    }
  }

  ghost function Nearest(x: real): (d: real)
    ensures IsNearest(x, AllDoubles(), d)
  {
    SmallIsDouble(0);
    AllDoublesExactly(0.0);
    assert AllDoubles() != {};
    NearestExists(x, AllDoubles());
    var d :| IsNearest(x, AllDoubles(), d);
    d
  }

  /** The same on both sides of zero. */
  ghost function Rounded(x: real): real {
    if x > 0.0 then Nearest(x) else if x < 0.0 then -Nearest(-x) else 0.0
  }

  lemma NearestIs(x: real, d: real)
    requires IsDouble(d)
    ensures IsDouble(Nearest(x)) && Money.Abs(Nearest(x) - x) <= Money.Abs(d - x)
  {
    AllDoublesExactly(d);
    AllDoublesExactly(Nearest(x));
  }

  lemma RoundedIsNearest(x: real, d: real)
    requires IsDouble(d)
    ensures IsDouble(Rounded(x)) && Money.Abs(Rounded(x) - x) <= Money.Abs(d - x) && Rounded(-x) == -Rounded(x)
  {
    SmallIsDouble(0);
    NegatedDouble(d);
    NearestIs(x, d);
    NearestIs(-x, -d);
    NegatedDouble(Nearest(-x));
    assert Money.Abs(-Nearest(-x) - x) == Money.Abs(Nearest(-x) - -x) && Money.Abs(-d - -x) == Money.Abs(d - x);
  }

  ghost function Rounding(): real -> real {
    (x: real) => Rounded(x)
  }

  lemma RoundingIsNearest(x: real, d: real)
    requires IsDouble(d)
    ensures IsDouble(Rounding()(x)) && Rounding()(-x) == -Rounding()(x)
    ensures Money.Abs(Rounding()(x) - x) <= Money.Abs(d - x)
  {
    RoundedIsNearest(x, d);
  }

  lemma NearestRoundingExists()
    ensures exists fl: real -> real :: Money.RoundsToNearest(fl)
  {
    RoundingRounds(Rounding());
  }

  lemma RoundingRounds(fl: real -> real)
    requires fl == Rounding()
    ensures Money.RoundsToNearest(fl)
  {
    var zero := 0.0;
    SmallIsDouble(0);
    forall x ensures IsDouble(fl(x)) && fl(-x) == -fl(x) { RoundingIsNearest(x, zero); }
    forall x, d | IsDouble(d) ensures Money.Abs(fl(x) - x) <= Money.Abs(d - x) { RoundingIsNearest(x, d); }
  }

  // ---------------------------------------------------------------------------
  // A lower-casing
  // ---------------------------------------------------------------------------

  function LowerChar(c: char): char {
    if 'A' <= c <= 'Z' then c - 'A' + 'a' else c
  }

  function AsciiLower(s: string): string {
    seq(|s|, i requires 0 <= i < |s| => LowerChar(s[i]))
  }

  lemma LowerConcat(a: string, b: string)
    ensures AsciiLower(a + b) == AsciiLower(a) + AsciiLower(b)
  {}

  lemma LowerSame(s: string)
    requires forall i :: 0 <= i < |s| ==> LowerChar(s[i]) == s[i]
    ensures AsciiLower(s) == s
  {}

  function Lowering(): string -> string {
    (s: string) => AsciiLower(s)
  }

  lemma LowersPoolNames()
    ensures LowersNames(Lowering())
  {
    assert AsciiLower("TimeZone") == TIMEZONE;
    LowerSame(STATEMENT);
    LowerSame(IDLE);
    forall s ensures Lowering()(Flagged(s)) == Flagged(Lowering()(s)) {
      LowerSame("-c");
      LowerConcat(s, "-c");
    }
  }

  lemma LowersAroundCaseless(a: string, s: string, b: string)
    requires Caseless(s)
    ensures AsciiLower(a + s + b) == AsciiLower(a) + s + AsciiLower(b)
  {
    LowerConcat(a + s, b);
    LowerConcat(a, s);
    assert forall i :: 0 <= i < |s| ==> s[i] in s;
    LowerSame(s);
  }

  lemma LowersAroundAll()
    ensures LowersAround(Lowering()) && NeverShortens(Lowering())
  {
    forall a, s, b | Caseless(s) ensures Lowering()(a + s + b) == Lowering()(a) + s + Lowering()(b) {
      LowersAroundCaseless(a, s, b);
    }
  }

  lemma LowerCasingExists()
    ensures exists lower: string -> string :: LowersNames(lower) && LowersAround(lower) && NeverShortens(lower)
  {
    LowersPoolNames();
    LowersAroundAll();
  }

  // ---------------------------------------------------------------------------
  // A hash that tells keys apart
  // ---------------------------------------------------------------------------

  /** Each character as its decimal code and a mark. */
  function Coded(s: string): string {
    if s == "" then "" else Digits(s[0] as int) + ['a'] + Coded(s[1..])
  }

  lemma {:induction false} CodedIsHex(s: string)
    ensures forall c :: c in Coded(s) ==> HexDigit(c)
  {
    if s != "" {
      DigitsOnly(s[0] as int);
      CodedIsHex(s[1..]);
    }
  }

  lemma {:induction false} CodedDiffers(s: string, t: string)
    requires Coded(s) == Coded(t)
    ensures s == t
    decreases |s|
  {
    if s != "" && t != "" {
      DigitsOnly(s[0] as int);
      DigitsOnly(t[0] as int);
      IndexAfter(Digits(s[0] as int), 'a', Coded(s[1..]));
      IndexAfter(Digits(t[0] as int), 'a', Coded(t[1..]));
      var n := |Digits(s[0] as int)|;
      assert Coded(s)[..n] == Digits(s[0] as int) && Coded(s)[n + 1..] == Coded(s[1..]);
      assert Coded(t)[..n] == Digits(t[0] as int) && Coded(t)[n + 1..] == Coded(t[1..]);
      DigitsDiffer(s[0] as int, t[0] as int);
      CodedDiffers(s[1..], t[1..]);
      assert s == [s[0]] + s[1..] && t == [t[0]] + t[1..];
    }
  }

  function Tag(m: Material): char {
    match m
    case Secret(_) => '0'
    case Derived(_, Session) => '1'
    case Derived(_, Otp) => '2'
    case Derived(_, Badge) => '3'
    case Derived(_, Seal) => '4'
    case Derived(_, Recovery) => '5'
  }

  function Hash(m: Material): string {
    [Tag(m)] + Coded(m.secret)
  }

  lemma HashIs(m: Material, n: Material)
    ensures IsHex(Hash(m)) && (Hash(m) == Hash(n) ==> m == n)
  {
    CodedIsHex(m.secret);
    forall i | 0 <= i < |Hash(m)| ensures HexDigit(Hash(m)[i]) {
      if i > 0 { assert Hash(m)[i] == Coded(m.secret)[i - 1] && Coded(m.secret)[i - 1] in Coded(m.secret); }
    }
    if Hash(m) == Hash(n) {
      assert Hash(m)[0] == Tag(m) && Hash(n)[0] == Tag(n);
      assert Hash(m)[1..] == Coded(m.secret) && Hash(n)[1..] == Coded(n.secret);
      CodedDiffers(m.secret, n.secret);
    }
  }

  lemma InjectiveHashExists()
    ensures exists hmac: Hmac :: HexOutput(hmac) && Injective(hmac)
  {
    ghost var hmac: Hmac := (m: Material, v: string) => Hash(m);
    forall m, n, v ensures IsHex(hmac(m, v)) && (hmac(m, v) == hmac(n, v) ==> m == n) { HashIs(m, n); }
    assert HexOutput(hmac) && Injective(hmac);
  }
}
