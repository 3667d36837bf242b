/** Which venues the lockout remembers: those most recently rejected, as many as its table holds. */
module VenueMemory {
  import opened OrderedMap
  import opened Prelude
  import opened Sequences
  import opened BearerLockout
  import opened BearerLockoutRuns

  function Removed(names: seq<string>, name: string): seq<string> {
    if names == [] then []
    else if names[0] == name then Removed(names[1..], name)
    else [names[0]] + Removed(names[1..], name)
  }

  /** All venues ever rejected, the latest last. */
  function Order(calls: seq<Call>): seq<string> {
    if calls == [] then []
    else Removed(Order(calls[..|calls| - 1]), calls[|calls| - 1].venue) + [calls[|calls| - 1].venue]
  }

  function Names(venues: Venues): (names: seq<string>)
    ensures |names| == |venues| && forall i :: 0 <= i < |names| ==> names[i] == venues[i].key
  {
    seq(|venues|, i requires 0 <= i < |venues| => venues[i].key)
  }

  /** The last `n`, or all if there are fewer. */
  function Last(names: seq<string>, n: nat): seq<string> {
    if |names| <= n then names else names[|names| - n..]
  }

  /** The venues the table holds at most. */
  function Places(o: Options): nat {
    Max(1, o.maxVenues)
  }

  // ---------------------------------------------------------------------------
  // Removing a name
  // ---------------------------------------------------------------------------

  lemma {:induction false} RemovedMembers(names: seq<string>, name: string)
    requires Distinct(names)
    ensures Distinct(Removed(names, name)) && forall x :: x in Removed(names, name) <==> x in names && x != name
    ensures |Removed(names, name)| == |names| - if name in names then 1 else 0
  {
    if names != [] {
      var rest := names[1..];
      assert names == [names[0]] + rest;
      RemovedMembers(rest, name);
      assert names[0] !in rest;
    }
  }

  lemma {:induction false} RemovedConcat(a: seq<string>, b: seq<string>, name: string)
    ensures Removed(a + b, name) == Removed(a, name) + Removed(b, name)
  {
    if a == [] {
      assert a + b == b;
    } else {
      assert (a + b)[1..] == a[1..] + b;
      RemovedConcat(a[1..], b, name);
    }
  }

  lemma {:induction false} OrderIsDistinct(calls: seq<Call>)
    ensures Distinct(Order(calls)) && forall v :: v in Order(calls) <==> exists c :: c in calls && c.venue == v
  {
    if calls != [] {
      var init, last := calls[..|calls| - 1], calls[|calls| - 1];
      OrderIsDistinct(init);
      RemovedMembers(Order(init), last.venue);
      assert calls == init + [last];
    }
  }

  lemma NamesCons(e: Entry<State>, rest: Venues)
    ensures Names([e] + rest) == [e.key] + Names(rest)
  {}

  lemma {:induction false} WithoutNames(venues: Venues, name: string)
    requires DistinctKeys(venues)
    ensures Names(Without(venues, name)) == Removed(Names(venues), name)
  {
    if venues != [] {
      var first, rest := venues[0], venues[1..];
      if first.key != name { WithoutNames(rest, name); }
      FirstNames(venues, first, rest, name);
    }
  }

  lemma FirstNames(venues: Venues, first: Entry<State>, rest: Venues, name: string)
    requires DistinctKeys(venues) && venues == [first] + rest
    requires first.key != name ==> Names(Without(rest, name)) == Removed(Names(rest), name)
    ensures Names(Without(venues, name)) == Removed(Names(venues), name)
  {
    NamesCons(first, rest);
    RemovedCons(first.key, Names(rest), name);
    assert Names(venues) == [first.key] + Names(rest) && venues[1..] == rest;
    if first.key == name {
      RemovedAbsent(Names(rest), name);
    } else {
      NamesCons(first, Without(rest, name));
    }
  }

  lemma RemovedCons(first: string, rest: seq<string>, name: string)
    ensures Removed([first] + rest, name) == (if first == name then [] else [first]) + Removed(rest, name)
  {
    assert ([first] + rest)[1..] == rest;
  }

  lemma {:induction false} RemovedAbsent(names: seq<string>, name: string)
    requires name !in names
    ensures Removed(names, name) == names
  {
    if names != [] { RemovedAbsent(names[1..], name); }
  }

  // ---------------------------------------------------------------------------
  // The table is the end of the order
  // ---------------------------------------------------------------------------

  lemma LastOfRemoved(names: seq<string>, n: nat, name: string)
    requires Distinct(names)
    ensures var kept := Removed(Last(names, n), name); kept == Last(Removed(names, name), |kept|)
    ensures |Removed(Last(names, n), name)| == if name in Last(names, n) then |Last(names, n)| - 1 else |Last(names, n)|
  {
    var end := Last(names, n);
    var front := names[..|names| - |end|];
    assert names == front + end;
    RemovedConcat(front, end, name);
    RemovedMembers(end, name);
  }

  lemma LastOfLast(names: seq<string>, m: nat, n: nat)
    requires n <= m
    ensures Last(Last(names, m), n) == Last(names, n)
  {}

  lemma LastSnoc(names: seq<string>, n: nat, name: string)
    ensures Last(names, n) + [name] == Last(names + [name], n + 1)
  {}

  /** What one rejection does to the names of the table. */
  lemma RecordNames(o: Options, venues: Venues, name: string, r: Rejection)
    requires DistinctKeys(venues) && |venues| <= Places(o)
    ensures Names(Record(o, venues, name, r)) == Last(Removed(Names(venues), name), Places(o) - 1) + [name]
  {
    var rest := Without(venues, name);
    WithoutNames(venues, name);
    WithoutShortens(venues, name);
    RoomNames(o, rest);
    NamesSnoc(MakeRoom(o, rest), Entry(name, Step(o, Lookup(venues, name), r)));
  }

  lemma RoomNames(o: Options, venues: Venues)
    requires |venues| <= Places(o)
    ensures Names(MakeRoom(o, venues)) == Last(Names(venues), Places(o) - 1)
  {
    RoomExactly(o, venues);
  }

  lemma NamesSnoc(venues: Venues, e: Entry<State>)
    ensures Names(venues + [e]) == Names(venues) + [e.key]
  {}

  lemma {:induction false} WithoutShortens(venues: Venues, name: string)
    ensures |Without(venues, name)| <= |venues|
  {
    if venues != [] && venues[0].key != name { WithoutShortens(venues[1..], name); }
  }

  /** Removing a name from the end and keeping one place less comes to doing it to the whole. */
  lemma EndAfterRemoval(names: seq<string>, n: nat, name: string)
    requires Distinct(names) && n > 0
    ensures Last(Removed(Last(names, n), name), n - 1) == Last(Removed(names, name), n - 1)
  {
    var kept := Removed(Last(names, n), name);
    LastOfRemoved(names, n, name);
    if |kept| >= n - 1 {
      LastOfLast(Removed(names, name), |kept|, n - 1);
    } else {
      assert Last(names, n) == names;
    }
  }

  /** After any run the table holds exactly the venues latest rejected, as many as it has places. */
  lemma {:induction false} TableIsLatest(o: Options, calls: seq<Call>)
    ensures Names(Run(o, calls)) == Last(Order(calls), Places(o))
  {
    if calls != [] {
      var init, last := calls[..|calls| - 1], calls[|calls| - 1];
      TableIsLatest(o, init);
      RunKeepsNames(o, init);
      OrderIsDistinct(init);
      OneMoreLatest(o, Run(o, init), Order(init), last.venue, last.rejection);
    }
  }

  lemma OneMoreLatest(o: Options, venues: Venues, order: seq<string>, name: string, r: Rejection)
    requires DistinctKeys(venues) && Distinct(order) && Names(venues) == Last(order, Places(o))
    ensures Names(Record(o, venues, name, r)) == Last(Removed(order, name) + [name], Places(o))
  {
    var places := Places(o) - 1;
    RecordNames(o, venues, name, r);
    EndAfterRemoval(order, Places(o), name);
    LastSnoc(Removed(order, name), places, name);
  }

  lemma LookupByName(venues: Venues, name: string)
    ensures Lookup(venues, name).Some? <==> name in Names(venues)
  {
    LookupFinds(venues, name);
    if i :| 0 <= i < |venues| && venues[i].key == name { assert Names(venues)[i] == name; }
    if name in Names(venues) { var i :| 0 <= i < |venues| && Names(venues)[i] == name; }
  }

  // ---------------------------------------------------------------------------
  // How long a venue is remembered
  // ---------------------------------------------------------------------------

  function VenuesOf(calls: seq<Call>): set<string> {
    set c | c in calls :: c.venue
  }

  lemma VenuesOfSnoc(calls: seq<Call>)
    requires calls != []
    ensures VenuesOf(calls) == VenuesOf(calls[..|calls| - 1]) + {calls[|calls| - 1].venue}
  {
    var init, last := calls[..|calls| - 1], calls[|calls| - 1];
    assert calls == init + [last];
  }

  lemma OrderCounts(calls: seq<Call>)
    ensures |Order(calls)| == |VenuesOf(calls)|
  {
    OrderIsDistinct(calls);
    DistinctCount(Order(calls), VenuesOf(calls));
  }

  lemma {:induction false} DistinctCount(names: seq<string>, all: set<string>)
    requires Distinct(names) && forall x :: x in all <==> x in names
    ensures |names| == |all|
  {
    if names == [] {
      assert all == {};
    } else {
      var init, last := names[..|names| - 1], names[|names| - 1];
      assert names == init + [last];
      DistinctCount(init, all - {last});
    }
  }

  /** After a venue's last rejection come exactly the venues rejected since. */
  lemma {:induction false} OrderEnds(before: seq<Call>, c: Call, later: seq<Call>) returns (front: seq<string>)
    requires c.venue !in VenuesOf(later)
    ensures Order(before + [c] + later) == front + ([c.venue] + Order(later)) && c.venue !in front
    decreases |later|
  {
    if later == [] {
      front := OrderAt(before, c);
      assert before + [c] + later == before + [c];
    } else {
      var init, last := later[..|later| - 1], later[|later| - 1];
      VenuesOfSnoc(later);
      front := OrderEnds(before, c, init);
      assert before + [c] + later == before + [c] + init + [last];
      OrderSnoc(before + [c] + init, last);
      front := OneMoreOrder(front, c.venue, Order(init), last.venue);
    }
  }

  lemma OrderSnoc(calls: seq<Call>, last: Call)
    ensures Order(calls + [last]) == Removed(Order(calls), last.venue) + [last.venue]
  {
    assert (calls + [last])[..|calls|] == calls;
  }

  lemma OrderAt(before: seq<Call>, c: Call) returns (front: seq<string>)
    ensures Order(before + [c]) == front + ([c.venue] + []) && c.venue !in front
  {
    OrderIsDistinct(before);
    RemovedMembers(Order(before), c.venue);
    OrderSnoc(before, c);
    front := Removed(Order(before), c.venue);
    assert [c.venue] + [] == [c.venue];
  }

  lemma OneMoreOrder(front: seq<string>, name: string, tail: seq<string>, last: string) returns (rest: seq<string>)
    requires name !in front && last != name
    ensures Removed(front + ([name] + tail), last) + [last] == rest + ([name] + (Removed(tail, last) + [last])) && name !in rest
  {
    RemovedConcat(front, [name] + tail, last);
    RemovedConcat([name], tail, last);
    assert Removed([name], last) == [name] by { assert [name][1..] == []; }
    rest := Removed(front, last);
    RemovedSubset(front, last);
    assert rest + ([name] + Removed(tail, last)) + [last] == rest + ([name] + (Removed(tail, last) + [last]));
  }

  lemma {:induction false} RemovedSubset(names: seq<string>, name: string)
    ensures forall x :: x in Removed(names, name) ==> x in names
  {
    if names != [] {
      RemovedSubset(names[1..], name);
      assert names == [names[0]] + names[1..];
    }
  }

  /** A venue is remembered exactly as long as fewer others were rejected since than the table has
      places. */
  lemma RememberedExactly(o: Options, before: seq<Call>, c: Call, later: seq<Call>)
    requires c.venue !in VenuesOf(later)
    ensures Lookup(Run(o, before + [c] + later), c.venue).Some? <==> |VenuesOf(later)| < Places(o)
  {
    var all := before + [c] + later;
    var front := OrderEnds(before, c, later);
    TableIsLatest(o, all);
    LookupByName(Run(o, all), c.venue);
    OrderCounts(later);
    OrderIsDistinct(all);
    InLastExactly(front, c.venue, Order(later), Places(o));
  }

  lemma InLastExactly(front: seq<string>, name: string, tail: seq<string>, n: nat)
    requires Distinct(front + ([name] + tail))
    ensures name in Last(front + ([name] + tail), n) <==> |tail| < n
  {
    var all := front + ([name] + tail);
    var end := Last(all, n);
    assert all[|front|] == name;
    if |tail| < n {
      assert end[|end| - |tail| - 1] == name;
    } else {
      forall i | 0 <= i < |end| ensures end[i] != name { assert end[i] == all[|all| - |end| + i]; }
    }
  }

  // ---------------------------------------------------------------------------
  // Locks hold while there is room
  // ---------------------------------------------------------------------------

  /** Where a venue was last rejected. */
  lemma {:induction false} LastAt(later: seq<Call>, venue: string) returns (p: nat)
    requires At(later, venue) != []
    ensures p < |later| && later[p].venue == venue && venue !in VenuesOf(later[p + 1..])
  {
    var init, last := later[..|later| - 1], later[|later| - 1];
    if last.venue == venue {
      p := |later| - 1;
      assert later[p + 1..] == [];
    } else {
      p := LastAt(init, venue);
      var tail := later[p + 1..];
      assert tail[..|tail| - 1] == init[p + 1..] && tail[|tail| - 1] == last;
      VenuesOfSnoc(tail);
    }
  }

  /** If the table has places for all venues of these calls, none of them is pushed out meanwhile. */
  lemma RoomRemembers(o: Options, before: seq<Call>, later: seq<Call>, venue: string)
    requires |VenuesOf(later)| <= Places(o)
    ensures Remembered(o, before, later, venue)
  {
    forall k | 0 <= k <= |later| && At(later[..k], venue) != [] ensures Lookup(Run(o, before + later[..k]), venue).Some? {
      StillRemembered(o, before, later[..k], venue, VenuesOf(later));
    }
  }

  lemma StillRemembered(o: Options, before: seq<Call>, later: seq<Call>, venue: string, all: set<string>)
    requires At(later, venue) != [] && (forall c :: c in later ==> c.venue in all) && |all| <= Places(o)
    ensures Lookup(Run(o, before + later), venue).Some?
  {
    var p := LastAt(later, venue);
    var c, rest := later[p], later[p + 1..];
    assert before + later == (before + later[..p]) + [c] + rest;
    assert c in later && forall x :: x in rest ==> x in later;
    SubsetCount(VenuesOf(rest), all - {venue});
    RememberedExactly(o, before + later[..p], c, rest);
  }

  /** So `threshold` distinct tokens in one window lock a venue then unknown or past its window, whatever
      other venues do meanwhile, as long as the table has places for all of them. */
  lemma DistinctTokensLockWithRoom(o: Options, before: seq<Call>, later: seq<Call>, venue: string, rs: seq<Rejection>)
    requires |VenuesOf(later)| <= Places(o) && rs == At(later, venue)
    requires |rs| == Max(1, o.threshold) && Distinct(Digests(rs)) && WithinWindow(o, rs)
    requires Afresh(o, Lookup(Run(o, before), venue), rs[0].now)
    ensures Left(Run(o, before + later), venue, rs[|rs| - 1].now) == Max(0, o.durationMs)
  {
    RoomRemembers(o, before, later, venue);
    DistinctTokensLock(o, before, later, venue, rs);
  }

  /** And a lock outlives every rejection at other venues while there is room for them. */
  lemma {:induction false} OthersKeepLocks(o: Options, calls: seq<Call>, later: seq<Call>, venue: string)
    requires Lookup(Run(o, calls), venue).Some? && venue !in VenuesOf(later)
    requires |VenuesOf(calls + later)| <= Places(o)
    ensures Lookup(Run(o, calls + later), venue) == Lookup(Run(o, calls), venue)
    decreases |later|
  {
    if later == [] {
      assert calls + later == calls;
    } else {
      var init, last := later[..|later| - 1], later[|later| - 1];
      var all := calls + later;
      assert all[..|all| - 1] == calls + init && all[|all| - 1] == last;
      VenuesOfSnoc(later);
      VenuesOfSnoc(all);
      SubsetCount(VenuesOf(calls + init), VenuesOf(all));
      OthersKeepLocks(o, calls, init, venue);
      LastCall(o, all, venue);
      KnownWasCalled(o, calls + init, venue);
      KnownStaysKnown(o, all, venue);
    }
  }

  /** What lifts or moves a venue's own lock while there is room: nothing but a new lock of its own. */
  lemma {:induction false} LocksOnlyRenew(o: Options, calls: seq<Call>, later: seq<Call>, venue: string)
    requires Lookup(Run(o, calls), venue).Some? && |VenuesOf(calls + later)| <= Places(o)
    ensures Lookup(Run(o, calls + later), venue).Some?
    ensures Renewed(o, Lookup(Run(o, calls), venue).value.lockedUntil, Lookup(Run(o, calls + later), venue).value.lockedUntil, venue, later)
    decreases |later|
  {
    if later == [] {
      assert calls + later == calls;
    } else {
      var init, last := later[..|later| - 1], later[|later| - 1];
      var all := calls + later;
      assert all[..|all| - 1] == calls + init && all[|all| - 1] == last;
      VenuesOfSnoc(all);
      SubsetCount(VenuesOf(calls + init), VenuesOf(all));
      LocksOnlyRenew(o, calls, init, venue);
      LastCall(o, all, venue);
      KnownWasCalled(o, calls + init, venue);
      KnownStaysKnown(o, all, venue);
      if last.venue == venue { StepKeepsLock(o, Lookup(Run(o, calls + init), venue).value, last.rejection); }
      RenewedLater(o, Lookup(Run(o, calls), venue).value.lockedUntil, Lookup(Run(o, calls + init), venue).value.lockedUntil,
                   Lookup(Run(o, all), venue).value.lockedUntil, venue, later);
    }
  }

  ghost predicate Renewed(o: Options, before: int, after: int, venue: string, later: seq<Call>) {
    after == before || exists c :: c in later && c.venue == venue && after == c.rejection.now + o.durationMs
  }

  lemma RenewedLater(o: Options, before: int, mid: int, after: int, venue: string, later: seq<Call>)
    requires later != [] && Renewed(o, before, mid, venue, later[..|later| - 1])
    requires after == mid || (later[|later| - 1].venue == venue && after == later[|later| - 1].rejection.now + o.durationMs)
    ensures Renewed(o, before, after, venue, later)
  {
    assert later[|later| - 1] in later && forall c :: c in later[..|later| - 1] ==> c in later;
  }

  lemma KnownWasCalled(o: Options, calls: seq<Call>, venue: string)
    requires Lookup(Run(o, calls), venue).Some?
    ensures venue in VenuesOf(calls)
  {
    TableIsLatest(o, calls);
    OrderIsDistinct(calls);
    LookupByName(Run(o, calls), venue);
    InLast(Order(calls), Places(o), venue);
    var c :| c in calls && c.venue == venue;
  }

  lemma InLast(names: seq<string>, n: nat, name: string)
    requires name in Last(names, n)
    ensures name in names
  {}

  lemma KnownStaysKnown(o: Options, calls: seq<Call>, venue: string)
    requires venue in VenuesOf(calls) && |VenuesOf(calls)| <= Places(o)
    ensures Lookup(Run(o, calls), venue).Some?
  {
    TableIsLatest(o, calls);
    OrderCounts(calls);
    OrderIsDistinct(calls);
    LookupByName(Run(o, calls), venue);
  }
}
