/** Access items of a price breakdown: what they cost, dropping them, and the seats they hold.
    Amounts are integer units of 1/10000. */
module AccessDrops {
  import opened Prelude
  import opened Sequences
  import opened MoneyArithmetic
  import opened Settlement

  datatype Item = Item(accessId: string, quantity: int, subtotal: int)

  /** A dropped line and why it was dropped. */
  datatype Dropped = Dropped(item: Item, reason: string)

  datatype Breakdown = Breakdown(
    base: int, options: int, items: seq<Item>, dropped: seq<Dropped>,
    accessTotal: int, subtotal: int, sponsorshipTotal: int, total: int)

  datatype DropResult = DropResult(breakdown: Breakdown, dropped: Item, gross: int, accessAmount: int, sponsorship: int)

  function SumSubtotals(items: seq<Item>): int {
    SumBy((x: Item) => x.subtotal, items)
  }

  /** The lines whose access id is not among `ids`. */
  function Without(items: seq<Item>, ids: set<string>): seq<Item> {
    Filter((x: Item) => x.accessId !in ids, items)
  }

  function First(items: seq<Item>, id: string): Option<Item> {
    Find((x: Item) => x.accessId == id, items)
  }

  function NetBreakdown(b: Breakdown, sponsorship: int): Breakdown {
    var applied := Min(sponsorship, b.subtotal);
    b.(sponsorshipTotal := applied, total := Max(0, b.subtotal - applied))
  }

  function DropAccessItem(b: Breakdown, id: string, sponsorship: int, reason: string): Option<DropResult> {
    match First(b.items, id)
    case None => None
    case Some(line) =>
      var items := Without(b.items, {id});
      var accessTotal := SumSubtotals(items);
      var subtotal := Max(0, b.base + accessTotal + b.options);
      var next := NetBreakdown(
        b.(items := items, accessTotal := accessTotal, subtotal := subtotal,
           dropped := b.dropped + [Dropped(line, reason)]),
        Min(sponsorship, Max(0, b.base + accessTotal)));
      Some(DropResult(next, line, subtotal, accessTotal, next.sponsorshipTotal))
  }

  // ---------------------------------------------------------------------------
  // Dropping several items, one after another
  // ---------------------------------------------------------------------------

  /** A registration while items are dropped: its breakdown and the sponsorship still applied. */
  datatype State = State(breakdown: Breakdown, sponsorship: int)

  function Drop(s: State, id: string, reason: string): State {
    match DropAccessItem(s.breakdown, id, s.sponsorship, reason)
    case None => s
    case Some(r) => State(r.breakdown, r.sponsorship)
  }

  function DropAll(s: State, ids: seq<string>, reason: string): State {
    if ids == [] then s else Drop(DropAll(s, ids[..|ids| - 1], reason), ids[|ids| - 1], reason)
  }

  predicate NonNegative(items: seq<Item>) {
    forall x :: x in items ==> x.subtotal >= 0
  }

  function IdSet(ids: seq<string>): set<string> {
    set id | id in ids
  }

  /** The most a sponsorship may pay once only these items are left. */
  function Cap(b: Breakdown, items: seq<Item>): int {
    Min(Max(0, b.base + SumSubtotals(items)), Max(0, b.base + SumSubtotals(items) + b.options))
  }

  lemma WithoutTwice(items: seq<Item>, a: set<string>, b: set<string>)
    ensures Without(Without(items, a), b) == Without(items, a + b)
  {
    FilterTwice((x: Item) => x.accessId !in a, (x: Item) => x.accessId !in b, (x: Item) => x.accessId !in a + b, items);
  }

  lemma WithoutCosts(items: seq<Item>, a: set<string>, b: set<string>)
    requires NonNegative(items) && a <= b
    ensures SumSubtotals(Without(items, b)) <= SumSubtotals(Without(items, a))
  {
    SumOfFewer((x: Item) => x.subtotal, (x: Item) => x.accessId !in b, (x: Item) => x.accessId !in a, items);
  }

  lemma FirstAfterDrops(items: seq<Item>, ids: set<string>, id: string)
    requires id !in ids
    ensures First(Without(items, ids), id) == First(items, id)
  {
    FindAfterFilter((x: Item) => x.accessId == id, (x: Item) => x.accessId !in ids, items);
  }

  lemma WithoutAbsent(items: seq<Item>, ids: set<string>, id: string)
    requires First(items, id).None?
    ensures Without(items, ids + {id}) == Without(items, ids)
  {
    FindHolds((x: Item) => x.accessId == id, items);
    FilterAgree((x: Item) => x.accessId !in ids + {id}, (x: Item) => x.accessId !in ids, items);
  }

  lemma WithoutNothing(items: seq<Item>)
    ensures Without(items, {}) == items
  {
    var none: set<string> := {};
    FilterAll((x: Item) => x.accessId !in none, items);
  }

  /** The line recorded when this id is dropped: the first with it. */
  function RecordOf(items: seq<Item>, id: string, reason: string): seq<Dropped> {
    match First(items, id)
    case None => []
    case Some(line) => [Dropped(line, reason)]
  }

  /** The lines recorded for a list of ids, in its order. */
  function Records(items: seq<Item>, ids: seq<string>, reason: string): seq<Dropped> {
    Flatten((id: string) => RecordOf(items, id, reason), ids)
  }

  /** Items and price once the items of `ids` are gone, with this sponsorship; nothing changes when no
      line has such an id. */
  function Remaining(s: State, ids: set<string>, sponsorship: int): State {
    var b, kept := s.breakdown, Without(s.breakdown.items, ids);
    if kept == b.items then s
    else
      var subtotal := Max(0, b.base + SumSubtotals(kept) + b.options);
      State(Breakdown(b.base, b.options, kept, b.dropped, SumSubtotals(kept), subtotal, sponsorship, Max(0, subtotal - sponsorship)),
            sponsorship)
  }

  function Recorded(s: State, records: seq<Dropped>): State {
    s.(breakdown := s.breakdown.(dropped := s.breakdown.dropped + records))
  }

  /** The cap once the lines of `ids` are gone. */
  function CapAfter(s: State, ids: set<string>): int {
    Cap(s.breakdown, Without(s.breakdown.items, ids))
  }

  lemma OneDrop(s: State, id: string, reason: string)
    ensures Drop(s, id, reason) ==
            Recorded(Remaining(s, {id}, Min(s.sponsorship, CapAfter(s, {id}))), RecordOf(s.breakdown.items, id, reason))
  {
    var items := s.breakdown.items;
    match First(items, id) {
      case None =>
        WithoutNothing(items);
        WithoutAbsent(items, {}, id);
        assert {} + {id} == {id};
        assert s.breakdown.dropped + [] == s.breakdown.dropped;
      case Some(line) =>
        var gone := {id};
        FindHolds((x: Item) => x.accessId == id, items);
        FilterHolds((x: Item) => x.accessId !in gone, items);
        assert line in items && line !in Without(items, gone);
    }
  }

  lemma KeptIsStable(items: seq<Item>, a: set<string>, b: set<string>)
    requires a <= b
    ensures Without(items, b) == items ==> Without(items, a) == items
  {
    if Without(items, b) == items {
      FilterHolds((x: Item) => x.accessId !in b, items);
      FilterAll((x: Item) => x.accessId !in a, items);
    }
  }

  /** The sponsorship left: a drop that removes a line caps it at what base and lines still cost. */
  function Capped(s: State, ids: seq<string>): int {
    if ids == [] then s.sponsorship
    else
      var init := ids[..|ids| - 1];
      if Removes(s, ids, |ids|) then Min(Capped(s, init), CapAfter(s, IdSet(ids))) else Capped(s, init)
  }

  /** Does the `k`-th drop remove a line? */
  predicate Removes(s: State, ids: seq<string>, k: nat)
    requires 1 <= k <= |ids|
  {
    Without(s.breakdown.items, IdSet(ids[..k])) != Without(s.breakdown.items, IdSet(ids[..k - 1]))
  }

  lemma IdSetSnoc(ids: seq<string>)
    requires ids != []
    ensures IdSet(ids) == IdSet(ids[..|ids| - 1]) + {ids[|ids| - 1]} && ids[..|ids|] == ids
  {
    assert ids == ids[..|ids| - 1] + [ids[|ids| - 1]];
  }

  lemma {:induction false} CappedUntouched(s: State, ids: seq<string>)
    requires Without(s.breakdown.items, IdSet(ids)) == s.breakdown.items
    ensures Capped(s, ids) == s.sponsorship
  {
    if ids != [] {
      IdSetSnoc(ids);
      KeptIsStable(s.breakdown.items, IdSet(ids[..|ids| - 1]), IdSet(ids));
      CappedUntouched(s, ids[..|ids| - 1]);
    }
  }

  lemma RemainingTwice(s: State, ids: set<string>, id: string, c: int)
    requires Without(s.breakdown.items, ids) == s.breakdown.items ==> c == s.sponsorship
    ensures var items, cap := s.breakdown.items, CapAfter(s, ids + {id});
            Remaining(Remaining(s, ids, c), {id}, Min(c, cap)) ==
            Remaining(s, ids + {id}, if Without(items, ids + {id}) == Without(items, ids) then c else Min(c, cap))
  {
    WithoutTwice(s.breakdown.items, ids, {id});
    KeptIsStable(s.breakdown.items, ids, ids + {id});
  }

  lemma RemainingKeepsRecords(s: State, records: seq<Dropped>, ids: set<string>, sponsorship: int)
    ensures Remaining(Recorded(s, records), ids, sponsorship) == Recorded(Remaining(s, ids, sponsorship), records)
  {}

  lemma WithoutItems(s: State, ids: set<string>, sponsorship: int)
    ensures Remaining(s, ids, sponsorship).breakdown.items == Without(s.breakdown.items, ids)
  {}

  lemma RecordedTwice(s: State, x: seq<Dropped>, y: seq<Dropped>)
    ensures Recorded(Recorded(s, x), y) == Recorded(s, x + y)
  {
    assert s.breakdown.dropped + x + y == s.breakdown.dropped + (x + y);
  }

  /** The lines recorded by drops one after another: each the first then left with its id. */
  function RecordsInTurn(items: seq<Item>, ids: seq<string>, reason: string): seq<Dropped> {
    if ids == [] then []
    else
      var init := ids[..|ids| - 1];
      RecordsInTurn(items, init, reason) + RecordOf(Without(items, IdSet(init)), ids[|ids| - 1], reason)
  }

  lemma NextDrop(s: State, ids: set<string>, c: int, records: seq<Dropped>, id: string, reason: string)
    requires Without(s.breakdown.items, ids) == s.breakdown.items ==> c == s.sponsorship
    ensures var items := s.breakdown.items;
            var next := if Without(items, ids + {id}) == Without(items, ids) then c else Min(c, CapAfter(s, ids + {id}));
            Drop(Recorded(Remaining(s, ids, c), records), id, reason) ==
            Recorded(Remaining(s, ids + {id}, next), records + RecordOf(Without(items, ids), id, reason))
  {
    var items, left := s.breakdown.items, Remaining(s, ids, c);
    OneDrop(Recorded(left, records), id, reason);
    WithoutTwice(items, ids, {id});
    RemainingKeepsRecords(left, records, {id}, Min(c, CapAfter(s, ids + {id})));
    RemainingTwice(s, ids, id, c);
    RecordedTwice(Remaining(left, {id}, Min(c, CapAfter(s, ids + {id}))), records, RecordOf(Without(items, ids), id, reason));
  }

  /** Any drops of any lines, one after another: the lines of all their ids are gone, and the
      sponsorship is the least of the first one and of every cap on the way. */
  lemma {:induction false} DropsInTurn(s: State, ids: seq<string>, reason: string)
    ensures DropAll(s, ids, reason) ==
            Recorded(Remaining(s, IdSet(ids), Capped(s, ids)), RecordsInTurn(s.breakdown.items, ids, reason))
  {
    var items := s.breakdown.items;
    if ids == [] {
      assert IdSet(ids) == {};
      WithoutNothing(items);
      assert s.breakdown.dropped + [] == s.breakdown.dropped;
    } else {
      var init, id := ids[..|ids| - 1], ids[|ids| - 1];
      DropsInTurn(s, init, reason);
      IdSetSnoc(ids);
      if Without(items, IdSet(init)) == items { CappedUntouched(s, init); }
      NextDrop(s, IdSet(init), Capped(s, init), RecordsInTurn(items, init, reason), id, reason);
    }
  }

  // ---------------------------------------------------------------------------
  // When the order matters
  // ---------------------------------------------------------------------------

  /** The `k`-th drop does not cap the sponsorship below `least`. */
  predicate CapHolds(s: State, ids: seq<string>, k: nat, least: int)
    requires 1 <= k <= |ids|
  {
    Removes(s, ids, k) ==> CapAfter(s, IdSet(ids[..k])) >= least
  }

  /** No drop on the way caps the sponsorship below `least`. */
  predicate NoCapBelow(s: State, ids: seq<string>, least: int) {
    forall k :: 1 <= k <= |ids| ==> CapHolds(s, ids, k, least)
  }

  lemma SameCap(s: State, init: seq<string>, ids: seq<string>, k: nat, least: int)
    requires 1 <= k <= |init| && init <= ids
    ensures CapHolds(s, init, k, least) == CapHolds(s, ids, k, least)
  {
    assert init[..k] == ids[..k] && init[..k - 1] == ids[..k - 1];
  }

  lemma NoCapBelowSnoc(s: State, ids: seq<string>, least: int)
    requires ids != []
    ensures NoCapBelow(s, ids, least) <==> NoCapBelow(s, ids[..|ids| - 1], least) && CapHolds(s, ids, |ids|, least)
  {
    var init := ids[..|ids| - 1];
    forall k | 1 <= k <= |init| ensures CapHolds(s, init, k, least) == CapHolds(s, ids, k, least) {
      SameCap(s, init, ids, k, least);
    }
  }

  lemma {:induction false} CappedAtLeast(s: State, ids: seq<string>, least: int)
    ensures Capped(s, ids) >= least <==> s.sponsorship >= least && NoCapBelow(s, ids, least)
  {
    if ids != [] {
      CappedAtLeast(s, ids[..|ids| - 1], least);
      NoCapBelowSnoc(s, ids, least);
      assert ids[..|ids|] == ids;
    }
  }

  lemma {:induction false} CappedByLast(s: State, ids: seq<string>)
    requires Without(s.breakdown.items, IdSet(ids)) != s.breakdown.items
    ensures Capped(s, ids) <= Min(s.sponsorship, CapAfter(s, IdSet(ids)))
  {
    assert ids != [] by {
      if ids == [] {
        assert IdSet(ids) == {};
        WithoutNothing(s.breakdown.items);
      }
    }
    var init := ids[..|ids| - 1];
    assert ids[..|ids|] == ids;
    if !Removes(s, ids, |ids|) { CappedByLast(s, init); } else { CappedAtLeast(s, init, Capped(s, init)); }
  }

  /** Capping step by step comes to capping once exactly when no cap on the way is below the result. */
  lemma CappedOnceExactly(s: State, ids: seq<string>)
    requires Without(s.breakdown.items, IdSet(ids)) != s.breakdown.items
    ensures var once := Min(s.sponsorship, CapAfter(s, IdSet(ids)));
            Capped(s, ids) == once <==> NoCapBelow(s, ids, once)
  {
    var once := Min(s.sponsorship, CapAfter(s, IdSet(ids)));
    CappedByLast(s, ids);
    CappedAtLeast(s, ids, once);
  }

  /** Two orders of the same ids leave the same breakdown, up to its records, exactly when the least
      caps on their ways agree. */
  lemma OrdersAgreeExactly(s: State, xs: seq<string>, ys: seq<string>, reason: string)
    requires IdSet(xs) == IdSet(ys)
    ensures var x, y := DropAll(s, xs, reason), DropAll(s, ys, reason);
            x.breakdown.(dropped := []) == y.breakdown.(dropped := []) && x.sponsorship == y.sponsorship
            <==> Capped(s, xs) == Capped(s, ys)
  {
    DropsInTurn(s, xs, reason);
    DropsInTurn(s, ys, reason);
    if Without(s.breakdown.items, IdSet(xs)) == s.breakdown.items {
      CappedUntouched(s, xs);
      CappedUntouched(s, ys);
    }
  }

  lemma CapFalls(s: State, ids: seq<string>, k: nat)
    requires NonNegative(s.breakdown.items) && k <= |ids|
    ensures CapAfter(s, IdSet(ids[..k])) >= CapAfter(s, IdSet(ids))
  {
    WithoutCosts(s.breakdown.items, IdSet(ids[..k]), IdSet(ids));
  }

  /** Lines that cost nothing negative: caps only fall, so the last one decides. */
  lemma CapsFall(s: State, ids: seq<string>)
    requires NonNegative(s.breakdown.items) && Without(s.breakdown.items, IdSet(ids)) != s.breakdown.items
    ensures Capped(s, ids) == Min(s.sponsorship, CapAfter(s, IdSet(ids)))
  {
    var once := Min(s.sponsorship, CapAfter(s, IdSet(ids)));
    forall k | 1 <= k <= |ids| ensures CapHolds(s, ids, k, once) { CapFalls(s, ids, k); }
    CappedOnceExactly(s, ids);
  }

  lemma {:induction false} DistinctRecords(items: seq<Item>, ids: seq<string>, reason: string)
    requires Distinct(ids)
    ensures RecordsInTurn(items, ids, reason) == Records(items, ids, reason)
  {
    if ids != [] {
      var init, id := ids[..|ids| - 1], ids[|ids| - 1];
      DistinctRecords(items, init, reason);
      FirstAfterDrops(items, IdSet(init), id);
    }
  }

  /** Drops commute: two orders of the same ids leave the same items, gross, sponsorship and net,
      and the same records up to their order. */
  lemma DropsCommute(s: State, xs: seq<string>, ys: seq<string>, reason: string)
    requires NonNegative(s.breakdown.items)
    requires Distinct(xs) && Distinct(ys) && multiset(xs) == multiset(ys)
    ensures var x, y := DropAll(s, xs, reason), DropAll(s, ys, reason);
            && x.breakdown.(dropped := []) == y.breakdown.(dropped := [])
            && x.sponsorship == y.sponsorship
            && multiset(x.breakdown.dropped) == multiset(y.breakdown.dropped)
  {
    SameMembers(xs, ys);
    assert IdSet(xs) == IdSet(ys);
    if Without(s.breakdown.items, IdSet(xs)) == s.breakdown.items {
      CappedUntouched(s, xs);
      CappedUntouched(s, ys);
    } else {
      CapsFall(s, xs);
      CapsFall(s, ys);
    }
    OrdersAgreeExactly(s, xs, ys, reason);
    RecordsPermute(s, xs, ys, reason);
  }

  lemma RecordsPermute(s: State, xs: seq<string>, ys: seq<string>, reason: string)
    requires Distinct(xs) && Distinct(ys) && multiset(xs) == multiset(ys)
    ensures multiset(DropAll(s, xs, reason).breakdown.dropped) == multiset(DropAll(s, ys, reason).breakdown.dropped)
  {
    DropsInTurn(s, xs, reason);
    DropsInTurn(s, ys, reason);
    DistinctRecords(s.breakdown.items, xs, reason);
    DistinctRecords(s.breakdown.items, ys, reason);
    FlattenPermutes((id: string) => RecordOf(s.breakdown.items, id, reason), xs, ys);
    RemainingRecords(s, IdSet(xs), Capped(s, xs));
    RemainingRecords(s, IdSet(ys), Capped(s, ys));
  }

  lemma RemainingRecords(s: State, ids: set<string>, sponsorship: int)
    ensures Remaining(s, ids, sponsorship).breakdown.dropped == s.breakdown.dropped
  {}

  /** Conservation, for any lines and any ids: after drops that removed something, the price is base,
      remaining items and options (never below zero), and splits into sponsorship and net; the
      sponsorship pays no more than base and items, and no more than before. */
  lemma DropsConserve(s: State, ids: seq<string>, reason: string)
    requires DropAll(s, ids, reason).breakdown.items != s.breakdown.items
    ensures var r := DropAll(s, ids, reason);
            && r.breakdown.items == Without(s.breakdown.items, IdSet(ids))
            && r.breakdown.accessTotal == SumSubtotals(r.breakdown.items)
            && r.breakdown.subtotal == Max(0, s.breakdown.base + r.breakdown.accessTotal + s.breakdown.options)
            && r.breakdown.subtotal == r.sponsorship + r.breakdown.total
            && r.sponsorship == r.breakdown.sponsorshipTotal
            && r.sponsorship <= r.breakdown.subtotal && r.sponsorship <= s.sponsorship
            && r.sponsorship <= Max(0, s.breakdown.base + r.breakdown.accessTotal)
  {
    DropsInTurn(s, ids, reason);
    WithoutItems(s, IdSet(ids), Capped(s, ids));
    CappedByLast(s, ids);
  }

  /** With no negative line, the sponsorship left after drops that removed something is as much of the
      old one as base and remaining items, and the remaining price, allow. */
  lemma SponsorshipLeft(s: State, ids: seq<string>, reason: string)
    requires NonNegative(s.breakdown.items) && s.breakdown.base >= 0
    requires DropAll(s, ids, reason).breakdown.items != s.breakdown.items
    ensures var r := DropAll(s, ids, reason);
            var lines := SumSubtotals(r.breakdown.items);
            r.sponsorship == Min(s.sponsorship, Min(s.breakdown.base + lines, Max(0, s.breakdown.base + lines + s.breakdown.options)))
  {
    DropsInTurn(s, ids, reason);
    WithoutItems(s, IdSet(ids), Capped(s, ids));
    CapsFall(s, ids);
    FilterHolds((x: Item) => x.accessId !in IdSet(ids), s.breakdown.items);
    SumNonNegative((x: Item) => x.subtotal, Without(s.breakdown.items, IdSet(ids)));
  }

  /** What a drop tells its caller: nothing without such a line; else the first one, and the new price,
      item total and sponsorship as the breakdown has them. */
  lemma DropTells(b: Breakdown, id: string, sponsorship: int, reason: string)
    ensures DropAccessItem(b, id, sponsorship, reason).None? <==> forall i :: 0 <= i < |b.items| ==> b.items[i].accessId != id
    ensures DropAccessItem(b, id, sponsorship, reason).Some? ==>
              var r := DropAccessItem(b, id, sponsorship, reason).value;
              && r.dropped in b.items && r.dropped.accessId == id
              && r.breakdown.dropped == b.dropped + [Dropped(r.dropped, reason)]
              && r.gross == r.breakdown.subtotal && r.accessAmount == r.breakdown.accessTotal
              && r.sponsorship == r.breakdown.sponsorshipTotal && r.gross == r.sponsorship + r.breakdown.total
  {
    FindHolds((x: Item) => x.accessId == id, b.items);
    match First(b.items, id) {
      case None => assert forall i :: 0 <= i < |b.items| ==> b.items[i] in b.items;
      case Some(line) => var i :| 0 <= i < |b.items| && b.items[i] == line;
    }
  }

  /** A breakdown whose own sums are in the safe range. */
  predicate InRange(b: Breakdown) {
    var priced := b.base + SumSubtotals(b.items);
    b.base >= 0 && NonNegative(b.items) && priced <= MAX_SAFE_INTEGER
    && -MAX_SAFE_INTEGER <= b.options <= MAX_SAFE_INTEGER - priced
  }

  /** From such a breakdown no drop leaves the safe range, so none of its sums throws. */
  lemma DropsStayInRange(b: Breakdown, ids: set<string>, sponsorship: int)
    requires InRange(b) && sponsorship >= 0
    ensures var kept := Without(b.items, ids);
            var total, subtotal := SumSubtotals(kept), Max(0, b.base + SumSubtotals(kept) + b.options);
            && Safe(total).Some? && Safe(b.base + total).Some? && Safe(b.base + total + b.options).Some?
            && Safe(subtotal - Min(Min(sponsorship, Max(0, b.base + total)), subtotal)).Some?
            && InRange(b.(items := kept))
  {
    var none: set<string> := {};
    WithoutNothing(b.items);
    WithoutCosts(b.items, none, ids);
    FilterHolds((x: Item) => x.accessId !in ids, b.items);
    SumNonNegative((x: Item) => x.subtotal, Without(b.items, ids));
  }

  /** With a negative line the order does matter: dropping the other line first makes the cap
      bite before the price recovers. */
  lemma NegativeLinesDoNotCommute(ia: string, ib: string)
    requires ia != ib
    ensures var a, b := Item(ia, 1, 10), Item(ib, 1, -10);
            var s := State(Breakdown(10, 0, [a, b], [], 0, 10, 10, 0), 10);
            Drop(Drop(s, ia, "r"), ib, "r").sponsorship == 0 && Drop(Drop(s, ib, "r"), ia, "r").sponsorship == 10
  {
    var a, b := Item(ia, 1, 10), Item(ib, 1, -10);
    TwoLines(a, b);
    TwoLines(b, a);
    OnlyTheCapDiffers(State(Breakdown(10, 0, [a, b], [], 0, 10, 10, 0), 10), a, b);
  }

  lemma TwoLines(a: Item, b: Item)
    requires a.accessId != b.accessId
    ensures Without([a, b], {a.accessId}) == [b] && Without([a, b], {b.accessId}) == [a]
    ensures Without([a], {a.accessId}) == [] && First([a], a.accessId) == Some(a)
    ensures First([a, b], a.accessId) == Some(a) && First([a, b], b.accessId) == Some(b)
    ensures SumSubtotals([a]) == a.subtotal
  {
    var ia, ib := a.accessId, b.accessId;
    var sa, sb := {ia}, {ib};
    OnPairs((x: Item) => x.accessId !in sa, (x: Item) => x.subtotal, a, b);
    OnPairs((x: Item) => x.accessId !in sb, (x: Item) => x.subtotal, a, b);
    OnPairs((x: Item) => x.accessId == ia, (x: Item) => x.subtotal, a, b);
    OnPairs((x: Item) => x.accessId == ib, (x: Item) => x.subtotal, a, b);
  }

  lemma OnlyTheCapDiffers(s: State, a: Item, b: Item)
    requires a.accessId != b.accessId && a.subtotal == 10 && b.subtotal == -10
    requires s == State(Breakdown(10, 0, [a, b], [], 0, 10, 10, 0), 10)
    requires Without([a, b], {a.accessId}) == [b] && Without([a, b], {b.accessId}) == [a]
    requires Without([a], {a.accessId}) == [] && Without([b], {b.accessId}) == []
    requires First([a, b], a.accessId) == Some(a) && First([a, b], b.accessId) == Some(b)
    requires First([a], a.accessId) == Some(a) && First([b], b.accessId) == Some(b)
    requires SumSubtotals([a]) == 10 && SumSubtotals([b]) == -10
    ensures Drop(Drop(s, a.accessId, "r"), b.accessId, "r").sponsorship == 0
    ensures Drop(Drop(s, b.accessId, "r"), a.accessId, "r").sponsorship == 10
  {
    var x, y := Drop(s, a.accessId, "r"), Drop(s, b.accessId, "r");
    assert x.breakdown.items == [b] && x.sponsorship == 0;
    assert y.breakdown.items == [a] && y.sponsorship == 10;
  }

  // ---------------------------------------------------------------------------
  // Seats held in paid capacity
  // ---------------------------------------------------------------------------

  predicate Counts(status: Status, item: Item, covered: set<string>) {
    IsFullySettled(status) || (status in {Partial, Verifying} && item.accessId in covered)
  }

  function Held(quantities: map<string, int>, id: string): int {
    if id in quantities then quantities[id] else 0
  }

  function Quantities(status: Status, items: seq<Item>, covered: set<string>): map<string, int> {
    if items == [] then map[]
    else
      var before, item := Quantities(status, items[..|items| - 1], covered), items[|items| - 1];
      if Counts(status, item, covered) then Seat(before, item) else before
  }

  function Seat(quantities: map<string, int>, item: Item): map<string, int> {
    quantities[item.accessId := Held(quantities, item.accessId) + item.quantity]
  }

  lemma SeatApart(quantities: map<string, int>, item: Item, ids: set<string>)
    ensures Seat(quantities, item) - ids ==
            if item.accessId in ids then quantities - ids else Seat(quantities - ids, item)
  {}

  method PaidAccessQuantities(status: Status, items: seq<Item>, covered: set<string>)
    returns (quantities: map<string, int>)
    ensures quantities == Quantities(status, items, covered)
  {
    quantities := map[];
    var fullySettled := IsFullySettled(status);
    if !fullySettled && status != Partial && status != Verifying {
      NothingHeld(status, items, covered);
      return;
    }
    for i := 0 to |items|
      invariant quantities == Quantities(status, items[..i], covered)
    {
      var item := items[i];
      assert items[..i + 1][..i] == items[..i];
      if fullySettled || item.accessId in covered {
        quantities := Seat(quantities, item);
      }
    }
    assert items[..|items|] == items;
  }

  lemma {:induction false} NothingHeld(status: Status, items: seq<Item>, covered: set<string>)
    requires status in {Pending, Refunded}
    ensures Quantities(status, items, covered) == map[]
  {
    if items != [] { NothingHeld(status, items[..|items| - 1], covered); }
  }

  lemma QuantitiesSnoc(status: Status, items: seq<Item>, last: Item, covered: set<string>)
    ensures Quantities(status, items + [last], covered) ==
            if Counts(status, last, covered) then Seat(Quantities(status, items, covered), last) else Quantities(status, items, covered)
  {
    Snoc(items, last);
  }

  /** A line holds its seats: always once the registration is settled, and while it is partly paid or
      its proof is reviewed if a sponsorship covers it. */
  predicate HoldsSeats(status: Status, covered: set<string>, x: Item) {
    match status
    case Paid => true
    case Sponsored => true
    case Waived => true
    case Partial => x.accessId in covered
    case Verifying => x.accessId in covered
    case Pending => false
    case Refunded => false
  }

  /** The seats a line holds for an id. */
  function Seats(status: Status, covered: set<string>, id: string): Item -> int {
    (x: Item) => if x.accessId == id && HoldsSeats(status, covered, x) then x.quantity else 0
  }

  /** Each id holds the quantities of its lines that hold seats, and is listed exactly when it has one. */
  lemma {:induction false} HeldExactly(status: Status, items: seq<Item>, covered: set<string>, id: string)
    ensures Held(Quantities(status, items, covered), id) == SumBy(Seats(status, covered, id), items)
    ensures id in Quantities(status, items, covered) <==>
            exists x :: x in items && x.accessId == id && HoldsSeats(status, covered, x)
  {
    if items != [] {
      var init, last := items[..|items| - 1], items[|items| - 1];
      assert items == init + [last];
      HeldExactly(status, init, covered, id);
    }
  }

  /** Dropping items frees exactly their seats: the other ids hold what they held. */
  lemma {:induction false} DropsFreeTheirSeats(status: Status, items: seq<Item>, covered: set<string>, ids: set<string>)
    ensures Quantities(status, Without(items, ids), covered) == Quantities(status, items, covered) - ids
  {
    if items != [] {
      var init, last := items[..|items| - 1], items[|items| - 1];
      var kept := Without(init, ids);
      assert items == init + [last];
      FilterSnoc((x: Item) => x.accessId !in ids, init, last);
      DropsFreeTheirSeats(status, init, covered, ids);
      SeatApart(Quantities(status, init, covered), last, ids);
      QuantitiesSnoc(status, init, last, covered);
      if last.accessId in ids {
        assert kept + [] == kept;
      } else {
        QuantitiesSnoc(status, kept, last, covered);
      }
    }
  }
}
