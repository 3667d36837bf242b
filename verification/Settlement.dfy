/** Payment status derivation. Amounts are integer units of 1/10000; module Money shows that the
    doubles they live in keep them exactly. */
module Settlement {
  import opened Prelude
  import opened MoneyArithmetic

  datatype Status = Pending | Verifying | Partial | Paid | Sponsored | Waived | Refunded

  type Instant = int

  predicate IsFullySettled(s: Status) {
    s in {Paid, Sponsored, Waived}
  }

  /** Statuses a recomputation never changes. */
  predicate IsSticky(s: Status) {
    s in {Refunded, Waived, Paid, Verifying}
  }

  function AutoTransitions(s: Status): set<Status> {
    match s
    case Pending => {Partial, Paid, Sponsored}
    case Partial => {Pending, Paid, Sponsored}
    case Sponsored => {Pending, Partial, Paid}
    case _ => {}
  }

  /** The result of sumMoney and its kin, None for the RangeError. */
  function Safe(units: int): Option<int> {
    if -MAX_SAFE_INTEGER <= units <= MAX_SAFE_INTEGER then Some(units) else None
  }

  predicate ValidAmount(units: int) {
    0 <= units <= MAX_SAFE_INTEGER
  }

  datatype Input = Input(gross: int, sponsorship: int, paid: int, status: Status, paidAt: Option<Instant>, now: Instant)

  datatype Derived = Derived(status: Status, paidAt: Option<Instant>, gross: int, sponsorship: int, net: int, due: int)

  /** None for a RangeError. */
  function DeriveSettlement(i: Input): Option<Derived> {
    if !ValidAmount(i.gross) || !ValidAmount(i.sponsorship) || !ValidAmount(i.paid) then None
    else
      var sponsorship := Min(i.sponsorship, i.gross);
      match Safe(i.gross - sponsorship)
      case None => None
      case Some(net) =>
        match Safe(net - i.paid)
        case None => None
        case Some(rest) =>
          var due := Max(0, rest);
          if IsSticky(i.status) then Some(Derived(i.status, i.paidAt, i.gross, sponsorship, net, due))
          else
            match DerivedStatus(i.gross, sponsorship, i.paid, due)
            case None => None
            case Some(status) =>
              var paidAt := if status in {Paid, Sponsored}
                            then Some(if i.paidAt.Some? then i.paidAt.value else i.now) else None;
              Some(Derived(status, paidAt, i.gross, sponsorship, net, due))
  }

  function DerivedStatus(gross: int, sponsorship: int, paid: int, due: int): Option<Status> {
    if gross > 0 && sponsorship >= gross then Some(Sponsored)
    else if paid > 0 && due == 0 then Some(Paid)
    else
      match Safe(paid + sponsorship)
      case None => None
      case Some(covered) => Some(if covered > 0 && due > 0 then Partial else Pending)
  }

  datatype Calculated = Calculated(amountDue: int, netAmount: int, isSettled: bool, isPartiallyPaid: bool)

  function CalculateSettlement(total: int, paid: int, sponsorship: int): Option<Calculated> {
    match Safe(paid + sponsorship)
    case None => None
    case Some(covered) =>
      match (Safe(total - covered), Safe(total - sponsorship))
      case (Some(rest), Some(net)) =>
        var amountDue := Max(0, rest);
        Some(Calculated(amountDue, Max(0, net), amountDue == 0 && total >= 0, covered > 0 && amountDue > 0))
      case _ => None
  }

  // ---------------------------------------------------------------------------
  // One derivation
  // ---------------------------------------------------------------------------

  /** Only a bad amount is refused: no sum formed on the way can leave the safe range. */
  lemma DerivesExactlyValidAmounts(i: Input)
    ensures DeriveSettlement(i).Some? <==>
            0 <= i.gross <= MAX_SAFE_INTEGER && 0 <= i.sponsorship <= MAX_SAFE_INTEGER && 0 <= i.paid <= MAX_SAFE_INTEGER
  {}

  /** Conservation, and what the amounts say about a derived status. */
  lemma DerivedMeaning(i: Input)
    requires DeriveSettlement(i).Some?
    ensures var d := DeriveSettlement(i).value;
            && d.gross == i.gross == d.sponsorship + d.net && d.sponsorship == Min(i.sponsorship, i.gross) >= 0
            && d.due == Max(0, d.gross - d.sponsorship - i.paid)
            && (!IsSticky(i.status) ==>
                  && (d.status == Pending <==> i.paid == 0 && d.sponsorship == 0)
                  && (d.status == Partial <==> d.due > 0 && i.paid + d.sponsorship > 0)
                  && (IsFullySettled(d.status) <==> d.due == 0 && i.paid + d.sponsorship > 0)
                  && (d.status == Sponsored <==> d.net == 0 && d.gross > 0))
  {}

  /** The payment date: a sticky status keeps it; a derived PAID or SPONSORED keeps the old one or takes
      the present time; any other derived status has none. */
  lemma PaidAtMeaning(i: Input)
    requires DeriveSettlement(i).Some?
    ensures DeriveSettlement(i).value.paidAt ==
            if i.status in {Refunded, Waived, Paid, Verifying} then i.paidAt
            else if DeriveSettlement(i).value.status !in {Paid, Sponsored} then None
            else if i.paidAt.Some? then i.paidAt
            else Some(i.now)
  {}

  /** The derivation and the plain calculation agree on the uncapped amounts whenever the latter
      does not overflow, and it overflows exactly when paid plus sponsorship does. */
  lemma AgreesWithCalculation(i: Input)
    requires DeriveSettlement(i).Some?
    ensures var d, c := DeriveSettlement(i).value, CalculateSettlement(i.gross, i.paid, i.sponsorship);
            && (c.Some? <==> i.paid + i.sponsorship <= MAX_SAFE_INTEGER)
            && (c.Some? ==> c.value.netAmount == d.net && c.value.amountDue == d.due
                            && (c.value.isSettled <==> d.due == 0)
                            && (!IsSticky(i.status) ==> (c.value.isPartiallyPaid <==> d.status == Partial)))
  {}

  /** Deriving again from the result, at any other time and with the capped or the original
      sponsorship, changes nothing. */
  lemma DerivationIsStable(i: Input, later: Instant, capped: bool)
    requires DeriveSettlement(i).Some?
    ensures var d := DeriveSettlement(i).value;
            DeriveSettlement(Input(i.gross, if capped then d.sponsorship else i.sponsorship, i.paid,
                                   d.status, d.paidAt, later)) == Some(d)
  {}

  /** What the plain calculation says of any amounts it does not overflow on. */
  lemma CalculatedMeaning(total: int, paid: int, sponsorship: int)
    requires CalculateSettlement(total, paid, sponsorship).Some?
    ensures var c := CalculateSettlement(total, paid, sponsorship).value;
            && c.amountDue == Max(0, total - paid - sponsorship) && c.netAmount == Max(0, total - sponsorship)
            && (c.isSettled <==> 0 <= total <= paid + sponsorship)
            && (c.isPartiallyPaid <==> 0 < paid + sponsorship < total)
  {}

  // ---------------------------------------------------------------------------
  // Whole runs of recomputations
  // ---------------------------------------------------------------------------

  datatype Registration = Registration(status: Status, paidAt: Option<Instant>)

  /** The amounts and the time one recomputation sees. */
  datatype Change = Change(gross: int, sponsorship: int, paid: int, now: Instant)

  /** A recomputation that throws leaves the registration as it was. */
  function Recompute(r: Registration, c: Change): Registration {
    match DeriveSettlement(Input(c.gross, c.sponsorship, c.paid, r.status, r.paidAt, c.now))
    case None => r
    case Some(d) => Registration(d.status, d.paidAt)
  }

  function Run(r: Registration, changes: seq<Change>): Registration {
    if changes == [] then r else Recompute(Run(r, changes[..|changes| - 1]), changes[|changes| - 1])
  }

  lemma StepIsAutomatic(r: Registration, c: Change)
    ensures var next := Recompute(r, c);
            && (next.status == r.status || next.status in AutoTransitions(r.status))
            && (IsSticky(r.status) ==> next == r)
  {}

  /** The table of automatic transitions lists exactly the changes that some amounts bring about. */
  lemma TransitionsExactly(r: Registration, status: Status)
    ensures status in AutoTransitions(r.status) <==>
            status != r.status && exists c: Change :: Recompute(r, c).status == status
  {
    if c: Change :| status != r.status && Recompute(r, c).status == status { StepIsAutomatic(r, c); }
    if status in AutoTransitions(r.status) {
      var c := match status
        case Pending => Change(1, 0, 0, 0)
        case Partial => Change(2, 0, 1, 0)
        case Paid => Change(1, 0, 1, 0)
        case _ => Change(1, 1, 0, 0);
      assert Recompute(r, c).status == status;
    }
  }

  /** A sticky status, once reached, outlives every later recomputation. */
  lemma {:induction false} StickyForever(r: Registration, before: seq<Change>, after: seq<Change>)
    requires IsSticky(Run(r, before).status)
    ensures Run(r, before + after) == Run(r, before)
  {
    if after == [] {
      assert before + after == before;
    } else {
      var all, last := before + after, after[|after| - 1];
      assert all[..|all| - 1] == before + after[..|after| - 1];
      StickyForever(r, before, after[..|after| - 1]);
      StepIsAutomatic(Run(r, before), last);
    }
  }

  predicate PaidAtFits(r: Registration) {
    r.paidAt.None? <==> r.status in {Pending, Partial}
  }

  /** Along a run from a status open to change, once any derivation has succeeded a payment date
      is missing exactly in PENDING and PARTIAL; until then the registration is untouched. */
  lemma {:induction false} PaidAtFollowsStatus(r: Registration, changes: seq<Change>)
    requires !IsSticky(r.status)
    ensures if exists i :: 0 <= i < |changes| && Applies(changes[i])
            then PaidAtFits(Run(r, changes)) else Run(r, changes) == r
  {
    if changes != [] {
      var init := changes[..|changes| - 1];
      PaidAtFollowsStatus(r, init);
      if i :| 0 <= i < |init| && Applies(changes[i]) { assert init[i] == changes[i]; }
    }
  }

  predicate Applies(c: Change) {
    ValidAmount(c.gross) && ValidAmount(c.sponsorship) && ValidAmount(c.paid)
  }
}
