/** What a sponsorship code pays towards a registration, and that it never pays for form options. */
module SponsorshipMath {
  import opened Prelude
  import opened Sequences
  import opened AccessDrops
  import opened MoneyArithmetic
  import Settlement

  datatype Sponsorship = Sponsorship(coversBase: bool, coveredIds: seq<string>, total: int)

  /** `base` and `items` come from the price breakdown and may be missing from it. */
  datatype Registration = Registration(
    total: int, baseAmount: int, accessTypeIds: set<string>, base: Option<int>, items: Option<seq<Item>>)

  function BasePart(s: Sponsorship, r: Registration): int {
    if s.coversBase then (if r.base.Some? then r.base.value else r.baseAmount) else 0
  }

  /** What one covered id is worth: the first line with it, if the registration selected it. */
  function LinePart(r: Registration, id: string): int {
    if id in r.accessTypeIds && r.items.Some? then
      match First(r.items.value, id)
      case Some(item) => item.subtotal
      case None => 0
    else 0
  }

  function Worth(r: Registration): string -> int {
    (id: string) => LinePart(r, id)
  }

  function Coverage(s: Sponsorship, r: Registration): int {
    BasePart(s, r) + SumBy(Worth(r), s.coveredIds)
  }

  function ApplicableAmount(s: Sponsorship, r: Registration): int {
    Min(Min(Coverage(s, r), r.total), s.total)
  }

  method CalculateApplicableAmount(s: Sponsorship, r: Registration) returns (amount: int)
    ensures amount == ApplicableAmount(s, r)
  {
    amount := BasePart(s, r);
    if r.items.Some? {
      for i := 0 to |s.coveredIds|
        invariant amount == BasePart(s, r) + SumBy(Worth(r), s.coveredIds[..i])
      {
        var id := s.coveredIds[i];
        assert s.coveredIds[..i + 1] == s.coveredIds[..i] + [id];
        SumSnoc(Worth(r), s.coveredIds[..i], id);
        if id in r.accessTypeIds {
          match First(r.items.value, id) {
            case Some(item) => amount := amount + item.subtotal;
            case None =>
          }
        }
      }
      assert s.coveredIds[..|s.coveredIds|] == s.coveredIds;
    } else {
      SumZero(Worth(r), s.coveredIds);
    }
    amount := Min(Min(amount, r.total), s.total);
  }

  function SponsorshipLimit(subtotal: int, base: int, items: seq<Item>): int {
    Max(0, Min(subtotal, base + SumSubtotals(items)))
  }

  lemma {:induction false} SumZero<T>(f: T -> int, xs: seq<T>)
    requires forall x :: x in xs ==> f(x) == 0
    ensures SumBy(f, xs) == 0
  {
    if xs != [] { SumZero(f, xs[..|xs| - 1]); }
  }

  lemma {:induction false} SumPointwise<T>(f: T -> int, g: T -> int, h: T -> int, xs: seq<T>)
    requires forall x :: x in xs ==> f(x) <= g(x) + h(x)
    ensures SumBy(f, xs) <= SumBy(g, xs) + SumBy(h, xs)
  {
    if xs != [] { SumPointwise(f, g, h, xs[..|xs| - 1]); }
  }

  /** Among distinct elements at most one is `only`. */
  lemma {:induction false} SumOfOne<T>(f: T -> int, only: T, worth: int, xs: seq<T>)
    requires Distinct(xs) && forall x :: x in xs ==> f(x) == if x == only then worth else 0
    ensures SumBy(f, xs) == if only in xs then worth else 0
  {
    if xs != [] {
      var init, last := xs[..|xs| - 1], xs[|xs| - 1];
      SumOfOne(f, only, worth, init);
      assert xs == init + [last];
    }
  }

  lemma {:induction false} SumAdds<T>(f: T -> int, g: T -> int, h: T -> int, xs: seq<T>)
    requires forall x :: x in xs ==> f(x) == g(x) + h(x)
    ensures SumBy(f, xs) == SumBy(g, xs) + SumBy(h, xs)
  {
    if xs != [] { SumAdds(f, g, h, xs[..|xs| - 1]); }
  }

  // ---------------------------------------------------------------------------
  // What a code pays, told from the lines
  // ---------------------------------------------------------------------------

  /** The line is the first with its id, and the id is covered by the code and selected. */
  predicate PaysLine(covered: seq<string>, selected: set<string>, items: seq<Item>, i: nat)
    requires i < |items|
  {
    && items[i].accessId in covered && items[i].accessId in selected
    && forall j :: 0 <= j < i ==> items[j].accessId != items[i].accessId
  }

  function PaidLines(covered: seq<string>, selected: set<string>, items: seq<Item>, upTo: nat): int
    requires upTo <= |items|
  {
    if upTo == 0 then 0
    else PaidLines(covered, selected, items, upTo - 1) + if PaysLine(covered, selected, items, upTo - 1) then items[upTo - 1].subtotal else 0
  }

  lemma {:induction false} PaidLinesOfPrefix(covered: seq<string>, selected: set<string>, items: seq<Item>, more: seq<Item>, upTo: nat)
    requires upTo <= |items| && items <= more
    ensures PaidLines(covered, selected, items, upTo) == PaidLines(covered, selected, more, upTo)
  {
    if upTo > 0 { PaidLinesOfPrefix(covered, selected, items, more, upTo - 1); }
  }

  /** One line more is worth something to its own id only, and only if it is the first with it. */
  lemma WorthOfOneMore(r: Registration, init: seq<Item>, last: Item, id: string)
    ensures LinePart(r.(items := Some(init + [last])), id) ==
            LinePart(r.(items := Some(init)), id)
            + if id == last.accessId && id in r.accessTypeIds && (forall j :: 0 <= j < |init| ==> init[j].accessId != id) then last.subtotal else 0
  {
    FindSnoc((x: Item) => x.accessId == id, init, last);
    FirstExactly(init, id);
  }

  lemma FirstExactly(items: seq<Item>, id: string)
    ensures First(items, id).None? <==> forall j :: 0 <= j < |items| ==> items[j].accessId != id
  {
    FindHolds((x: Item) => x.accessId == id, items);
    match First(items, id) {
      case None => assert forall j :: 0 <= j < |items| ==> items[j] in items;
      case Some(line) => var j :| 0 <= j < |items| && items[j] == line;
    }
  }

  /** Summed over distinct ids or over the lines, the coverage of the lines is the same. */
  lemma {:induction false} LinesExactly(r: Registration, items: seq<Item>, ids: seq<string>)
    requires Distinct(ids)
    ensures SumBy(Worth(r.(items := Some(items))), ids) == PaidLines(ids, r.accessTypeIds, items, |items|)
  {
    if items == [] {
      SumZero(Worth(r.(items := Some(items))), ids);
    } else {
      var init, last := items[..|items| - 1], items[|items| - 1];
      assert items == init + [last];
      LinesExactly(r, init, ids);
      PaidLinesOfPrefix(ids, r.accessTypeIds, init, items, |init|);
      var worth := if last.accessId in r.accessTypeIds && (forall j :: 0 <= j < |init| ==> init[j].accessId != last.accessId) then last.subtotal else 0;
      var here := (id: string) => if id == last.accessId then worth else 0;
      SumOfOne(here, last.accessId, worth, ids);
      forall id | id in ids ensures Worth(r.(items := Some(items)))(id) == Worth(r.(items := Some(init)))(id) + here(id) {
        WorthOfOneMore(r, init, last, id);
      }
      SumAdds(Worth(r.(items := Some(items))), Worth(r.(items := Some(init))), here, ids);
    }
  }

  /** What a code with distinct ids applies: the base price if it covers it (the registration's own
      where the breakdown has none) and the first line of every covered, selected id, within both totals. */
  lemma AmountExactly(s: Sponsorship, r: Registration)
    requires Distinct(s.coveredIds)
    ensures var base := if !s.coversBase then 0 else if r.base.Some? then r.base.value else r.baseAmount;
            var lines := if r.items.None? then 0 else PaidLines(s.coveredIds, r.accessTypeIds, r.items.value, |r.items.value|);
            ApplicableAmount(s, r) == Min(base + lines, Min(r.total, s.total))
  {
    match r.items {
      case None => SumZero(Worth(r), s.coveredIds);
      case Some(items) =>
        assert r == r.(items := Some(items));
        LinesExactly(r, items, s.coveredIds);
    }
  }

  /** A code that covers everything, with enough of its own, pays base plus all lines. */
  lemma FullCodePaysAll(s: Sponsorship, r: Registration, subtotal: int)
    requires Priced(r, subtotal) && Distinct(s.coveredIds) && s.coversBase
    requires forall i :: 0 <= i < |r.items.value| ==> PaysLine(s.coveredIds, r.accessTypeIds, r.items.value, i)
    requires Min(s.total, subtotal) >= r.base.value + SumSubtotals(r.items.value)
    ensures ApplicableAmount(s, r) == r.base.value + SumSubtotals(r.items.value)
  {
    AmountExactly(s, r);
    AllLinesPaid(s.coveredIds, r.accessTypeIds, r.items.value, |r.items.value|);
    assert r.items.value[..|r.items.value|] == r.items.value;
  }

  lemma {:induction false} AllLinesPaid(covered: seq<string>, selected: set<string>, items: seq<Item>, upTo: nat)
    requires upTo <= |items| && forall i :: 0 <= i < |items| ==> PaysLine(covered, selected, items, i)
    ensures PaidLines(covered, selected, items, upTo) == SumSubtotals(items[..upTo])
  {
    if upTo > 0 {
      AllLinesPaid(covered, selected, items, upTo - 1);
      assert items[..upTo] == items[..upTo - 1] + [items[upTo - 1]];
      SumSnoc((x: Item) => x.subtotal, items[..upTo - 1], items[upTo - 1]);
    }
  }

  /** Distinct ids together are worth at most all the lines. */
  lemma {:induction false} DistinctIdsWithinItems(r: Registration, items: seq<Item>, ids: seq<string>)
    requires Distinct(ids) && NonNegative(items)
    ensures SumBy(Worth(r.(items := Some(items))), ids) <= SumSubtotals(items)
  {
    if items == [] {
      SumZero(Worth(r.(items := Some(items))), ids);
    } else {
      var init, last := items[..|items| - 1], items[|items| - 1];
      var fewer := r.(items := Some(init));
      DistinctIdsWithinItems(r, init, ids);
      var here := (id: string) => if id == last.accessId then last.subtotal else 0;
      SumOfOne(here, last.accessId, last.subtotal, ids);
      assert items == init + [last];
      forall id | id in ids
        ensures LinePart(r.(items := Some(items)), id) <= LinePart(r.(items := Some(init)), id) + here(id)
      {
        FindSnoc((x: Item) => x.accessId == id, init, last);
        FindHolds((x: Item) => x.accessId == id, init);
      }
      SumPointwise(Worth(r.(items := Some(items))),
                   Worth(r.(items := Some(init))), here, ids);
      SumSnoc((x: Item) => x.subtotal, init, last);
    }
  }

  /** A registration priced from this breakdown: non-negative parts, total the subtotal. */
  predicate Priced(r: Registration, subtotal: int) {
    && r.base.Some? && r.base.value >= 0 && r.items.Some? && NonNegative(r.items.value)
    && r.total == subtotal
  }

  /** No sum the loop forms on the way leaves the safe range. */
  lemma CoverageStaysInRange(s: Sponsorship, r: Registration, k: nat)
    requires r.base.Some? && r.base.value >= 0 && r.items.Some? && NonNegative(r.items.value) && Distinct(s.coveredIds)
    requires r.base.value + SumSubtotals(r.items.value) <= MAX_SAFE_INTEGER && k <= |s.coveredIds|
    ensures Settlement.Safe(PartialSum(s, r, k)).Some?
  {
    DistinctIdsWithinItems(r, r.items.value, s.coveredIds[..k]);
    assert r == r.(items := Some(r.items.value));
    forall id | id in s.coveredIds[..k] ensures Worth(r)(id) >= 0 {
      FindHolds((x: Item) => x.accessId == id, r.items.value);
    }
    SumNonNegative(Worth(r), s.coveredIds[..k]);
    SumNonNegative((x: Item) => x.subtotal, r.items.value);
  }

  // ---------------------------------------------------------------------------
  // Ids listed more than once
  // ---------------------------------------------------------------------------

  lemma WorthNonNegative(r: Registration, id: string)
    requires r.items.Some? ==> NonNegative(r.items.value)
    ensures Worth(r)(id) >= 0
  {
    if r.items.Some? { FindHolds((x: Item) => x.accessId == id, r.items.value); }
  }

  /** Every id listed more than once is worth nothing to this registration. */
  ghost predicate HarmlessRepeats(s: Sponsorship, r: Registration) {
    forall id :: Repeated(s.coveredIds, id) ==> LinePart(r, id) == 0
  }

  /** The coverage is base plus what each covered id is worth once, exactly when repeats are harmless. */
  lemma CoverageIsOfTheSetExactly(s: Sponsorship, r: Registration, each: seq<string>)
    requires r.items.Some? ==> NonNegative(r.items.value)
    requires Distinct(each) && forall id :: id in each <==> id in s.coveredIds
    ensures Coverage(s, r) >= BasePart(s, r) + SumBy(Worth(r), each)
    ensures Coverage(s, r) == BasePart(s, r) + SumBy(Worth(r), each) <==> HarmlessRepeats(s, r)
  {
    forall id | id in s.coveredIds ensures Worth(r)(id) >= 0 { WorthNonNegative(r, id); }
    RepeatsCostExactly(Worth(r), s.coveredIds, each);
  }

  function Once(ids: seq<string>): (each: seq<string>)
    ensures Distinct(each) && forall id :: id in each <==> id in ids
  {
    if ids == [] then []
    else
      var init, last := ids[..|ids| - 1], ids[|ids| - 1];
      assert ids == init + [last];
      if last in init then Once(init) else Once(init) + [last]
  }

  /** For lines that are not negative every sum the loop forms is in the safe range exactly when the
      last one is, whatever ids are listed. */
  lemma CoverageInRangeExactly(s: Sponsorship, r: Registration)
    requires BasePart(s, r) >= 0 && (r.items.Some? ==> NonNegative(r.items.value))
    ensures (forall k :: 0 <= k <= |s.coveredIds| ==> Settlement.Safe(PartialSum(s, r, k)).Some?)
            <==> Coverage(s, r) <= MAX_SAFE_INTEGER
  {
    assert s.coveredIds[..|s.coveredIds|] == s.coveredIds;
    forall k | 0 <= k <= |s.coveredIds| ensures 0 <= PartialSum(s, r, k) <= Coverage(s, r) {
      var head, tail := s.coveredIds[..k], s.coveredIds[k..];
      assert head + tail == s.coveredIds;
      SumConcat(Worth(r), head, tail);
      forall id ensures Worth(r)(id) >= 0 { WorthNonNegative(r, id); }
      SumNonNegative(Worth(r), head);
      SumNonNegative(Worth(r), tail);
    }
    assert PartialSum(s, r, |s.coveredIds|) == Coverage(s, r);
  }

  /** What the loop has summed up after `k` ids. */
  function PartialSum(s: Sponsorship, r: Registration, k: nat): int
    requires k <= |s.coveredIds|
  {
    BasePart(s, r) + SumBy(Worth(r), s.coveredIds[..k])
  }

  /** A code never pays for separately billed form options, unless an id it lists twice costs something. */
  lemma NeverPaysForOptions(s: Sponsorship, r: Registration, subtotal: int)
    requires Priced(r, subtotal) && HarmlessRepeats(s, r)
    ensures ApplicableAmount(s, r) <= SponsorshipLimit(subtotal, r.base.value, r.items.value)
  {
    var each := Once(s.coveredIds);
    CoverageIsOfTheSetExactly(s, r, each);
    DistinctIdsWithinItems(r, r.items.value, each);
    assert r == r.(items := Some(r.items.value));
  }

  lemma DistinctIsHarmless(s: Sponsorship, r: Registration)
    requires Distinct(s.coveredIds)
    ensures HarmlessRepeats(s, r)
  {}

  /** Exactly when a code pays more than the limit: its coverage, its own total and the price all
      exceed base plus lines, so repeats cost something and options are there to be paid. */
  lemma ExceedsLimitExactly(s: Sponsorship, r: Registration, subtotal: int)
    requires Priced(r, subtotal)
    ensures var lines := r.base.value + SumSubtotals(r.items.value);
            && (ApplicableAmount(s, r) > SponsorshipLimit(subtotal, r.base.value, r.items.value) <==>
                  Coverage(s, r) > lines && s.total > lines && subtotal > lines)
            && (Coverage(s, r) > lines ==> !HarmlessRepeats(s, r))
  {
    SumNonNegative((x: Item) => x.subtotal, r.items.value);
    if HarmlessRepeats(s, r) {
      var each := Once(s.coveredIds);
      CoverageIsOfTheSetExactly(s, r, each);
      DistinctIdsWithinItems(r, r.items.value, each);
      assert r == r.(items := Some(r.items.value));
    }
  }

  predicate AtMostOneBase(codes: seq<Sponsorship>) {
    forall i, j :: 0 <= i < j < |codes| ==> !codes[i].coversBase || !codes[j].coversBase
  }

  function AllIds(codes: seq<Sponsorship>): seq<string> {
    Flatten((s: Sponsorship) => s.coveredIds, codes)
  }

  function Applied(codes: seq<Sponsorship>, r: Registration): int {
    SumBy((s: Sponsorship) => ApplicableAmount(s, r), codes)
  }

  lemma {:induction false} SumConcat<T>(f: T -> int, xs: seq<T>, ys: seq<T>)
    ensures SumBy(f, xs + ys) == SumBy(f, xs) + SumBy(f, ys)
  {
    if ys == [] {
      assert xs + ys == xs;
    } else {
      var init, last := ys[..|ys| - 1], ys[|ys| - 1];
      SumConcat(f, xs, init);
      assert xs + ys == (xs + init) + [last];
      SumSnoc(f, xs + init, last);
    }
  }

  /** Several codes pay at most what their joint coverage is worth. */
  lemma {:induction false} AppliedWithinCoverage(codes: seq<Sponsorship>, r: Registration)
    requires AtMostOneBase(codes) && r.base.Some? && r.base.value >= 0
    ensures Applied(codes, r) <=
            (if exists i :: 0 <= i < |codes| && codes[i].coversBase then r.base.value else 0)
            + SumBy(Worth(r), AllIds(codes))
  {
    if codes != [] {
      var init, last := codes[..|codes| - 1], codes[|codes| - 1];
      AppliedWithinCoverage(init, r);
      SumConcat(Worth(r), AllIds(init), last.coveredIds);
      assert AllIds(codes) == AllIds(init) + last.coveredIds;
      assert forall i :: 0 <= i < |init| ==> init[i] == codes[i];
      if last.coversBase { assert codes[|codes| - 1].coversBase; }
    }
  }

  /** Codes with pairwise disjoint coverage together pay at most base plus access items. */
  lemma DisjointCodesWithinPrice(codes: seq<Sponsorship>, r: Registration, subtotal: int)
    requires Priced(r, subtotal) && AtMostOneBase(codes) && Distinct(AllIds(codes))
    ensures Applied(codes, r) <= r.base.value + SumSubtotals(r.items.value)
  {
    AppliedWithinCoverage(codes, r);
    DistinctIdsWithinItems(r, r.items.value, AllIds(codes));
    assert r == r.(items := Some(r.items.value));
  }

  /** An id listed twice is paid twice, out of the options: distinct ids are needed. */
  lemma RepeatedIdPaysForOptions()
    ensures var id := "a";
            var r := Registration(30, 0, {id}, Some(0), Some([Item(id, 1, 10)]));
            ApplicableAmount(Sponsorship(false, [id, id], 30), r) == 20 && SponsorshipLimit(30, 0, r.items.value) == 10
  {
    var id := "a";
    var item := Item(id, 1, 10);
    var r := Registration(30, 0, {id}, Some(0), Some([item]));
    OnPairs((x: Item) => x.accessId == id, (x: Item) => x.subtotal, item, item);
    assert LinePart(r, id) == 10;
    OnPairs((x: string) => true, Worth(r), id, id);
  }
}
