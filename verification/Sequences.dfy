/** The array operations the components share: filter, find, flatMap and sums, over any type. */
module Sequences {
  import opened Prelude

  function Filter<T>(keep: T -> bool, xs: seq<T>): seq<T> {
    if xs == [] then []
    else
      var init, last := xs[..|xs| - 1], xs[|xs| - 1];
      Filter(keep, init) + if keep(last) then [last] else []
  }

  /** The first element that matches. */
  function Find<T>(matches: T -> bool, xs: seq<T>): Option<T> {
    if xs == [] then None
    else
      var init, last := xs[..|xs| - 1], xs[|xs| - 1];
      match Find(matches, init)
      case Some(x) => Some(x)
      case None => if matches(last) then Some(last) else None
  }

  function Flatten<K, T>(part: K -> seq<T>, xs: seq<K>): seq<T> {
    if xs == [] then [] else Flatten(part, xs[..|xs| - 1]) + part(xs[|xs| - 1])
  }

  function SumBy<T>(amount: T -> int, xs: seq<T>): int {
    if xs == [] then 0 else SumBy(amount, xs[..|xs| - 1]) + amount(xs[|xs| - 1])
  }

  predicate Distinct<T(==)>(xs: seq<T>) {
    forall i, j :: 0 <= i < j < |xs| ==> xs[i] != xs[j]
  }

  lemma Snoc<T>(xs: seq<T>, x: T)
    ensures (xs + [x])[..|xs|] == xs && (xs + [x])[|xs|] == x
  {}

  lemma {:induction false} FilterHolds<T>(keep: T -> bool, xs: seq<T>)
    ensures forall x :: x in Filter(keep, xs) ==> x in xs && keep(x)
    ensures forall x :: x in xs && keep(x) ==> x in Filter(keep, xs)
  {
    if xs != [] {
      FilterHolds(keep, xs[..|xs| - 1]);
      assert xs == xs[..|xs| - 1] + [xs[|xs| - 1]];
    }
  }

  lemma {:induction false} FindHolds<T>(matches: T -> bool, xs: seq<T>)
    ensures Find(matches, xs).Some? ==> Find(matches, xs).value in xs && matches(Find(matches, xs).value)
    ensures Find(matches, xs).None? ==> forall x :: x in xs ==> !matches(x)
  {
    if xs != [] {
      FindHolds(matches, xs[..|xs| - 1]);
      assert xs == xs[..|xs| - 1] + [xs[|xs| - 1]];
    }
  }

  lemma FilterSnoc<T>(keep: T -> bool, xs: seq<T>, x: T)
    ensures Filter(keep, xs + [x]) == Filter(keep, xs) + if keep(x) then [x] else []
  {
    Snoc(xs, x);
  }

  lemma FindSnoc<T>(matches: T -> bool, xs: seq<T>, x: T)
    ensures Find(matches, xs + [x]) ==
            if Find(matches, xs).Some? then Find(matches, xs) else if matches(x) then Some(x) else None
  {
    Snoc(xs, x);
  }

  lemma SumSnoc<T>(amount: T -> int, xs: seq<T>, x: T)
    ensures SumBy(amount, xs + [x]) == SumBy(amount, xs) + amount(x)
  {
    Snoc(xs, x);
  }

  lemma OnPairs<T>(keep: T -> bool, amount: T -> int, x: T, y: T)
    ensures Filter(keep, [x]) == if keep(x) then [x] else []
    ensures Filter(keep, [x, y]) == Filter(keep, [x]) + if keep(y) then [y] else []
    ensures SumBy(amount, [x]) == amount(x) && SumBy(amount, [x, y]) == amount(x) + amount(y)
    ensures Find(keep, [x]) == if keep(x) then Some(x) else None
    ensures Find(keep, [x, y]) == if keep(x) then Some(x) else if keep(y) then Some(y) else None
  {
    Snoc([], x);
    Snoc([x], y);
    assert [x, y] == [x] + [y] && [] + [x] == [x];
  }

  lemma {:induction false} FilterTwice<T>(p: T -> bool, q: T -> bool, both: T -> bool, xs: seq<T>)
    requires forall x :: x in xs ==> (both(x) <==> p(x) && q(x))
    ensures Filter(q, Filter(p, xs)) == Filter(both, xs)
  {
    if xs != [] {
      var init, last := xs[..|xs| - 1], xs[|xs| - 1];
      FilterTwice(p, q, both, init);
      if p(last) { FilterSnoc(q, Filter(p, init), last); }
      assert Filter(p, init) + [] == Filter(p, init);
    }
  }

  lemma {:induction false} FilterAgree<T>(p: T -> bool, q: T -> bool, xs: seq<T>)
    requires forall x :: x in xs ==> (p(x) <==> q(x))
    ensures Filter(p, xs) == Filter(q, xs)
  {
    if xs != [] { FilterAgree(p, q, xs[..|xs| - 1]); }
  }

  lemma {:induction false} FilterAll<T>(p: T -> bool, xs: seq<T>)
    requires forall x :: x in xs ==> p(x)
    ensures Filter(p, xs) == xs
  {
    if xs != [] {
      FilterAll(p, xs[..|xs| - 1]);
      assert xs == xs[..|xs| - 1] + [xs[|xs| - 1]];
    }
  }

  /** Filtering away others does not change which element is found. */
  lemma {:induction false} FindAfterFilter<T>(matches: T -> bool, keep: T -> bool, xs: seq<T>)
    requires forall x :: x in xs && matches(x) ==> keep(x)
    ensures Find(matches, Filter(keep, xs)) == Find(matches, xs)
  {
    if xs != [] {
      var init, last := xs[..|xs| - 1], xs[|xs| - 1];
      FindAfterFilter(matches, keep, init);
      if keep(last) { FindSnoc(matches, Filter(keep, init), last); }
      assert Filter(keep, init) + [] == Filter(keep, init);
    }
  }

  lemma SumOfKept<T>(amount: T -> int, keep: T -> bool, xs: seq<T>, x: T)
    ensures SumBy(amount, Filter(keep, xs + [x])) == SumBy(amount, Filter(keep, xs)) + if keep(x) then amount(x) else 0
  {
    FilterSnoc(keep, xs, x);
    SumSnoc(amount, Filter(keep, xs), x);
    assert Filter(keep, xs) + [] == Filter(keep, xs);
  }

  /** Keeping fewer non-negative elements never costs more. */
  lemma {:induction false} SumOfFewer<T>(amount: T -> int, fewer: T -> bool, more: T -> bool, xs: seq<T>)
    requires forall x :: x in xs ==> amount(x) >= 0 && (fewer(x) ==> more(x))
    ensures SumBy(amount, Filter(fewer, xs)) <= SumBy(amount, Filter(more, xs))
  {
    if xs != [] {
      var init, last := xs[..|xs| - 1], xs[|xs| - 1];
      SumOfFewer(amount, fewer, more, init);
      SumOfKept(amount, fewer, init, last);
      SumOfKept(amount, more, init, last);
      assert xs == init + [last];
    }
  }

  lemma {:induction false} SumNonNegative<T>(amount: T -> int, xs: seq<T>)
    requires forall x :: x in xs ==> amount(x) >= 0
    ensures SumBy(amount, xs) >= 0
  {
    if xs != [] { SumNonNegative(amount, xs[..|xs| - 1]); }
  }

  lemma {:induction false} FlattenHolds<K, T>(part: K -> seq<T>, xs: seq<K>, c: T)
    ensures c in Flatten(part, xs) <==> exists k :: k in xs && c in part(k)
  {
    if xs != [] {
      var init, last := xs[..|xs| - 1], xs[|xs| - 1];
      FlattenHolds(part, init, c);
      assert xs == init + [last];
      assert forall k :: k in xs <==> k in init || k == last;
    }
  }

  lemma {:induction false} FlattenRemove<K, T>(part: K -> seq<T>, xs: seq<K>, k: nat)
    requires k < |xs|
    ensures multiset(Flatten(part, xs)) == multiset(Flatten(part, xs[..k] + xs[k + 1..])) + multiset(part(xs[k]))
  {
    var rest := xs[..k] + xs[k + 1..];
    if k == |xs| - 1 {
      assert rest == xs[..k];
    } else {
      var init, last := xs[..|xs| - 1], xs[|xs| - 1];
      var middle := init[..k] + init[k + 1..];
      FlattenRemove(part, init, k);
      assert rest[..|rest| - 1] == middle && rest[|rest| - 1] == last;
      assert Flatten(part, rest) == Flatten(part, middle) + part(last);
    }
  }

  lemma MultisetRemove<T>(xs: seq<T>, k: nat)
    requires k < |xs|
    ensures multiset(xs[..k] + xs[k + 1..]) == multiset(xs) - multiset{xs[k]}
  {
    assert xs == xs[..k] + ([xs[k]] + xs[k + 1..]);
  }

  /** Rearranging what is flattened rearranges the result. */
  lemma {:induction false} FlattenPermutes<K, T>(part: K -> seq<T>, xs: seq<K>, ys: seq<K>)
    requires multiset(xs) == multiset(ys)
    ensures multiset(Flatten(part, xs)) == multiset(Flatten(part, ys))
    decreases |xs|
  {
    if xs == [] {
      assert |multiset(xs)| == |xs| && |multiset(ys)| == |ys|;
    } else {
      var init, last := xs[..|xs| - 1], xs[|xs| - 1];
      assert xs == init + [last];
      assert last in multiset(xs) && last in multiset(ys);
      var k :| 0 <= k < |ys| && ys[k] == last;
      var rest := ys[..k] + ys[k + 1..];
      MultisetRemove(ys, k);
      MultisetRemove(xs, |xs| - 1);
      assert xs[..|xs| - 1] + xs[|xs|..] == init;
      FlattenPermutes(part, init, rest);
      FlattenRemove(part, ys, k);
    }
  }

  lemma SameMembers<T>(xs: seq<T>, ys: seq<T>)
    requires multiset(xs) == multiset(ys)
    ensures forall x :: x in xs <==> x in ys
  {
    forall x ensures x in xs <==> x in ys {
      assert x in xs <==> x in multiset(xs);
      assert x in ys <==> x in multiset(ys);
    }
  }

  lemma {:induction false} SubsetCount<T>(a: set<T>, b: set<T>)
    requires a <= b
    ensures |a| <= |b|
  {
    if a != {} {
      var x :| x in a;
      SubsetCount(a - {x}, b - {x});
    }
  }

  /** Distinct elements of a set are no more than it has. */
  lemma {:induction false} DistinctWithin<T>(xs: seq<T>, all: set<T>)
    requires Distinct(xs) && forall x :: x in xs ==> x in all
    ensures |xs| <= |all|
  {
    if xs != [] {
      var init, last := xs[..|xs| - 1], xs[|xs| - 1];
      assert last in xs;
      forall x | x in init ensures x in all - {last} { assert x in xs; }
      DistinctWithin(init, all - {last});
    }
  }

  lemma {:induction false} SumRemove<T>(amount: T -> int, xs: seq<T>, k: nat)
    requires k < |xs|
    ensures SumBy(amount, xs) == SumBy(amount, xs[..k] + xs[k + 1..]) + amount(xs[k])
  {
    var rest := xs[..k] + xs[k + 1..];
    if k == |xs| - 1 {
      assert rest == xs[..k];
    } else {
      var init, last := xs[..|xs| - 1], xs[|xs| - 1];
      SumRemove(amount, init, k);
      assert rest == (init[..k] + init[k + 1..]) + [last];
      SumSnoc(amount, init[..k] + init[k + 1..], last);
    }
  }

  ghost predicate Repeated<T>(xs: seq<T>, x: T) {
    exists i, j :: 0 <= i < j < |xs| && xs[i] == x && xs[j] == x
  }

  lemma RepeatedSnoc<T>(xs: seq<T>, last: T, x: T)
    ensures Repeated(xs + [last], x) <==> Repeated(xs, x) || (x == last && last in xs)
  {
    var more := xs + [last];
    if Repeated(more, x) {
      var i, j :| 0 <= i < j < |more| && more[i] == x && more[j] == x;
      if j < |xs| { assert xs[i] == x && xs[j] == x; } else { assert xs[i] == x; }
    }
    if Repeated(xs, x) {
      var i, j :| 0 <= i < j < |xs| && xs[i] == x && xs[j] == x;
      assert more[i] == x && more[j] == x;
    }
    if x == last && last in xs {
      var i :| 0 <= i < |xs| && xs[i] == last;
      assert more[i] == x && more[|xs|] == x;
    }
  }

  lemma MembersWithout<T>(xs: seq<T>, k: nat)
    requires k < |xs| && Distinct(xs)
    ensures Distinct(xs[..k] + xs[k + 1..])
    ensures forall x :: x in xs[..k] + xs[k + 1..] <==> x in xs && x != xs[k]
  {
    assert xs == xs[..k] + [xs[k]] + xs[k + 1..];
  }

  /** Summing with repetitions comes to summing each element once exactly when repeated elements
      are worth nothing. */
  lemma {:induction false} RepeatsCostExactly<T>(amount: T -> int, xs: seq<T>, each: seq<T>)
    requires Distinct(each) && (forall x :: x in each <==> x in xs) && forall x :: x in xs ==> amount(x) >= 0
    ensures SumBy(amount, xs) >= SumBy(amount, each)
    ensures SumBy(amount, xs) == SumBy(amount, each) <==> forall x :: Repeated(xs, x) ==> amount(x) == 0
  {
    assert each != [] ==> each[0] in xs;
    if xs != [] {
      var init, last := xs[..|xs| - 1], xs[|xs| - 1];
      assert xs == init + [last];
      forall x ensures Repeated(xs, x) <==> Repeated(init, x) || (x == last && last in init) { RepeatedSnoc(init, last, x); }
      if last in init {
        RepeatsCostExactly(amount, init, each);
        var i :| 0 <= i < |init| && init[i] == last;
        assert Repeated(xs, last);
      } else {
        assert last in each;
        var k :| 0 <= k < |each| && each[k] == last;
        MembersWithout(each, k);
        SumRemove(amount, each, k);
        var fewer := each[..k] + each[k + 1..];
        forall x ensures x in fewer <==> x in init {
          assert x in xs <==> x in init || x == last;
        }
        RepeatsCostExactly(amount, init, fewer);
      }
    }
  }
}
