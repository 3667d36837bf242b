/** sumMoney, subtractMoney and multiplyMoney over any way of keeping integer units in a number. */
module MoneyArithmetic {
  import opened Prelude

  const MAX_SAFE_INTEGER := 9_007_199_254_740_991

  /** How a number is read as units of 1/10000 (None where that throws) and units written back. */
  datatype Codec = Codec(read: real -> Option<int>, write: int -> real)

  /** Units up to `limit` survive the trip through a number, and negation commutes with it. */
  ghost predicate Faithful(c: Codec, limit: int) {
    && 0 <= limit <= MAX_SAFE_INTEGER
    && (forall u :: -limit <= u <= limit ==> c.read(c.write(u)) == Some(u))
    && (forall u :: -c.write(u) == c.write(-u))
  }

  /** Where a trip that is exact up to `limit` first goes wrong. */
  lemma FirstFailure(trip: int -> Option<int>, limit: nat, top: nat)
    requires forall u :: 0 <= u <= limit + 2 ==> trip(u) == Some(u)
    requires trip(limit + 3) != Some(limit + 3)
    ensures (forall u :: 0 <= u <= top ==> trip(u) == Some(u)) <==> top <= limit + 2
  {}

  function Total(c: Codec, amounts: seq<real>): Option<int> {
    if amounts == [] then Some(0)
    else
      match (Total(c, amounts[..|amounts| - 1]), c.read(amounts[|amounts| - 1]))
      case (Some(a), Some(b)) => Some(a + b)
      case _ => None
  }

  function Written(c: Codec, units: int): Option<real> {
    if units > MAX_SAFE_INTEGER || units < -MAX_SAFE_INTEGER then None else Some(c.write(units))
  }

  function SumMoney(c: Codec, amounts: seq<real>): Option<real> {
    match Total(c, amounts)
    case None => None
    case Some(units) => Written(c, units)
  }

  function SubtractMoney(c: Codec, amount: real, deduction: real): Option<real> {
    SumMoney(c, [amount, -deduction])
  }

  function MultiplyMoney(c: Codec, amount: real, quantity: int): Option<real> {
    if quantity > MAX_SAFE_INTEGER || quantity < -MAX_SAFE_INTEGER then None
    else
      match c.read(amount)
      case None => None
      case Some(units) => Written(c, units * quantity)
  }

  /** A sum of readable amounts throws exactly when it leaves the safe range. */
  lemma SumOverflowsExactly(c: Codec, amounts: seq<real>)
    requires Total(c, amounts).Some?
    ensures SumMoney(c, amounts).None? <==>
            Total(c, amounts).value > 0x1F_FFFF_FFFF_FFFF || Total(c, amounts).value < -0x1F_FFFF_FFFF_FFFF
  {}

  /** A product of a readable amount throws exactly when the quantity or the product does. */
  lemma ProductOverflowsExactly(c: Codec, amount: real, quantity: int)
    requires c.read(amount).Some?
    ensures var units := c.read(amount).value;
            MultiplyMoney(c, amount, quantity).None? <==>
            || quantity > 0x1F_FFFF_FFFF_FFFF || quantity < -0x1F_FFFF_FFFF_FFFF
            || units * quantity > 0x1F_FFFF_FFFF_FFFF || units * quantity < -0x1F_FFFF_FFFF_FFFF
  {}

  /** And none of them takes what cannot be read. */
  lemma {:induction false} UnreadableThrows(c: Codec, amounts: seq<real>, k: nat)
    requires k < |amounts| && c.read(amounts[k]).None?
    ensures Total(c, amounts).None? && SumMoney(c, amounts).None?
  {
    if k < |amounts| - 1 { UnreadableThrows(c, amounts[..|amounts| - 1], k); }
  }

  // ---------------------------------------------------------------------------
  // Any nesting of the three operations
  // ---------------------------------------------------------------------------

  datatype Expr =
    | Amount(units: int)
    | Sum(terms: seq<Expr>)
    | Difference(whole: Expr, deduction: Expr)
    | Product(factor: Expr, quantity: int)

  /** The value in exact units. */
  function Exact(e: Expr): int
    decreases e
  {
    match e
    case Amount(units) => units
    case Sum(terms) => ExactSum(terms)
    case Difference(a, b) => Exact(a) - Exact(b)
    case Product(a, q) => Exact(a) * q
  }

  function ExactSum(terms: seq<Expr>): int
    decreases terms
  {
    if terms == [] then 0 else ExactSum(terms[..|terms| - 1]) + Exact(terms[|terms| - 1])
  }

  /** Every operand and result stays within the limit. */
  predicate Within(e: Expr, limit: int)
    decreases e
  {
    && -limit <= Exact(e) <= limit
    && match e
       case Amount(_) => true
       case Sum(terms) => forall i :: 0 <= i < |terms| ==> Within(terms[i], limit)
       case Difference(a, b) => Within(a, limit) && Within(b, limit)
       case Product(a, q) => Within(a, limit) && -MAX_SAFE_INTEGER <= q <= MAX_SAFE_INTEGER
  }

  /** The double the code computes, or None where it throws. */
  function Run(c: Codec, e: Expr): Option<real>
    decreases e
  {
    match e
    case Amount(units) => Some(c.write(units))
    case Sum(terms) =>
      (match RunAll(c, terms)
       case None => None
       case Some(amounts) => SumMoney(c, amounts))
    case Difference(a, b) =>
      (match (Run(c, a), Run(c, b))
       case (Some(x), Some(y)) => SubtractMoney(c, x, y)
       case _ => None)
    case Product(a, q) =>
      (match Run(c, a)
       case None => None
       case Some(x) => MultiplyMoney(c, x, q))
  }

  function RunAll(c: Codec, terms: seq<Expr>): (r: Option<seq<real>>)
    ensures r.Some? ==> |r.value| == |terms|
    decreases terms
  {
    if terms == [] then Some([])
    else
      match (RunAll(c, terms[..|terms| - 1]), Run(c, terms[|terms| - 1]))
      case (Some(xs), Some(x)) => Some(xs + [x])
      case _ => None
  }

  /** No drift: the double computed is the one nearest to the exact result. */
  lemma {:induction false} NoDrift(c: Codec, limit: int, e: Expr)
    requires Faithful(c, limit) && Within(e, limit)
    ensures Run(c, e) == Some(c.write(Exact(e)))
    decreases e
  {
    match e {
      case Amount(_) =>
      case Sum(terms) =>
        NoDriftAll(c, limit, terms);
      case Difference(a, b) =>
        NoDrift(c, limit, a);
        NoDrift(c, limit, b);
        DifferenceExact(c, limit, Exact(a), Exact(b));
      case Product(a, q) =>
        NoDrift(c, limit, a);
    }
  }

  lemma {:induction false} NoDriftAll(c: Codec, limit: int, terms: seq<Expr>)
    requires Faithful(c, limit) && forall i :: 0 <= i < |terms| ==> Within(terms[i], limit)
    ensures RunAll(c, terms).Some? && Total(c, RunAll(c, terms).value) == Some(ExactSum(terms))
    decreases terms
  {
    if terms != [] {
      var init, last := terms[..|terms| - 1], terms[|terms| - 1];
      NoDriftAll(c, limit, init);
      NoDrift(c, limit, last);
      var xs := RunAll(c, init).value;
      assert (xs + [c.write(Exact(last))])[..|xs|] == xs;
    }
  }

  lemma DifferenceExact(c: Codec, limit: int, a: int, b: int)
    requires Faithful(c, limit)
    requires -limit <= a <= limit && -limit <= b <= limit && -limit <= a - b <= limit
    ensures SubtractMoney(c, c.write(a), c.write(b)) == Some(c.write(a - b))
  {
    var x, y := c.write(a), -c.write(b);
    assert (-b) as real / 10000.0 == -(b as real / 10000.0);
    assert y == c.write(-b);
    assert [x, y][..1] == [x] && [x][..0] == [];
    assert Total(c, [x]) == Some(a);
  }

  /** Regrouping: two computations of the same amount give the very same double. */
  lemma RegroupingIsFree(c: Codec, limit: int, e: Expr, f: Expr)
    requires Faithful(c, limit) && Within(e, limit) && Within(f, limit) && Exact(e) == Exact(f)
    ensures Run(c, e).Some? && Run(c, e) == Run(c, f)
    ensures c.read(Run(c, e).value) == Some(Exact(e))
  {
    NoDrift(c, limit, e);
    NoDrift(c, limit, f);
  }

  lemma TwoTermSum(c: Codec, limit: int, a: int, b: int)
    requires Faithful(c, limit) && -limit <= a <= limit && -limit <= b <= limit
    ensures Run(c, Sum([Amount(a), Amount(b)])) == Written(c, a + b)
  {
    var terms := [Amount(a), Amount(b)];
    NoDriftAll(c, limit, terms);
    assert terms[..1] == [terms[0]] && [terms[0]][..0] == [];
    assert ExactSum([terms[0]]) == a;
    assert ExactSum(terms) == a + b;
  }
}
