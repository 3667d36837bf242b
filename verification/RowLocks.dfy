/** The lock-first protocol: transactions take row locks table by table in one order, within a table
    in ascending id order, and hold them to the end. */
module RowLocks {
  import opened Prelude

  datatype Table = Event | Sponsorships | Registrations | Abstracts | AccessRows

  /** An order in which tables are locked. */
  type Order = Table -> nat

  /** The order the lock helpers document. */
  const LOCK_ORDER: Order := (t: Table) =>
    if t.Event? then 0 else if t.Sponsorships? then 1 else if t.Registrations? then 2 else if t.Abstracts? then 3 else 4

  /** The order of writers that reach the event row last, through its counter update. */
  const COUNTER_ORDER: Order := (t: Table) =>
    if t.Sponsorships? then 0 else if t.Registrations? then 1 else if t.Abstracts? then 2 else if t.AccessRows? then 3 else 4

  /** A row by its table and the place of its id in ascending id order. */
  datatype Row = Row(table: Table, id: int)

  predicate Before(order: Order, a: Row, b: Row) {
    order(a.table) < order(b.table) || (a.table == b.table && a.id < b.id)
  }

  predicate Ascending(order: Order, rows: seq<Row>) {
    forall i, j :: 0 <= i < j < |rows| ==> Before(order, rows[i], rows[j])
  }

  predicate AscendingIds(ids: seq<int>) {
    forall i, j :: 0 <= i < j < |ids| ==> ids[i] < ids[j]
  }

  // ---------------------------------------------------------------------------
  // One lock call
  // ---------------------------------------------------------------------------

  lemma AscendingCons(id: int, rest: seq<int>)
    requires AscendingIds(rest) && (rest == [] || id < rest[0])
    ensures AscendingIds([id] + rest)
  {}

  function Insert(id: int, ordered: seq<int>): (r: seq<int>)
    requires AscendingIds(ordered)
    ensures AscendingIds(r) && r != [] && (r[0] == id || (ordered != [] && r[0] == ordered[0]))
    ensures id in r && (forall x :: x in ordered ==> x in r) && forall x :: x in r ==> x == id || x in ordered
  {
    if ordered == [] || id < ordered[0] then
      AscendingCons(id, ordered);
      [id] + ordered
    else if id == ordered[0] then ordered
    else
      var rest := Insert(id, ordered[1..]);
      assert ordered == [ordered[0]] + ordered[1..];
      AscendingCons(ordered[0], rest);
      [ordered[0]] + rest
  }

  /** `[...new Set(ids)].sort()`: each id once, ascending. */
  function SortedUnique(ids: seq<int>): (r: seq<int>)
    ensures AscendingIds(r)
    ensures forall x :: x in r <==> x in ids
  {
    if ids == [] then [] else Insert(ids[0], SortedUnique(ids[1..]))
  }

  datatype Call = Call(table: Table, ids: seq<int>)

  /** The rows a call locks, in the order it locks them; ids without a row lock nothing. */
  function RowsOf(c: Call, existing: set<Row>): seq<Row> {
    RowsFrom(c.table, SortedUnique(c.ids), existing)
  }

  function RowsFrom(table: Table, ids: seq<int>, existing: set<Row>): (r: seq<Row>)
    requires AscendingIds(ids)
    ensures forall i, j :: 0 <= i < j < |r| ==> r[i].id < r[j].id
    ensures forall x :: x in r <==> x.table == table && x.id in ids && x in existing
  {
    if ids == [] then []
    else
      var row, rest := Row(table, ids[0]), RowsFrom(table, ids[1..], existing);
      if row in existing then [row] + rest else rest
  }

  /** The discipline: at most one call per table, tables in the given order. */
  predicate Disciplined(order: Order, calls: seq<Call>) {
    forall i, j :: 0 <= i < j < |calls| ==> order(calls[i].table) < order(calls[j].table)
  }

  function Wanted(calls: seq<Call>, existing: set<Row>): (r: seq<Row>)
    ensures forall x :: x in r ==> exists i :: 0 <= i < |calls| && calls[i].table == x.table
  {
    if calls == [] then []
    else
      var rows, rest := RowsOf(calls[0], existing), Wanted(calls[1..], existing);
      assert forall x :: x in rest ==> exists i :: 0 <= i < |calls| && calls[i].table == x.table by {
        forall x | x in rest ensures exists i :: 0 <= i < |calls| && calls[i].table == x.table {
          var i :| 0 <= i < |calls[1..]| && calls[1..][i].table == x.table;
          assert calls[i + 1].table == x.table;
        }
      }
      rows + rest
  }

  lemma {:induction false} DisciplineAscends(order: Order, calls: seq<Call>, existing: set<Row>)
    requires Disciplined(order, calls)
    ensures Ascending(order, Wanted(calls, existing))
  {
    if calls != [] {
      var rows, rest := RowsOf(calls[0], existing), Wanted(calls[1..], existing);
      DisciplineAscends(order, calls[1..], existing);
      forall x, y | x in rows && y in rest ensures Before(order, x, y) {
        var i :| 0 <= i < |calls[1..]| && calls[1..][i].table == y.table;
        assert order(calls[0].table) < order(calls[i + 1].table);
      }
      forall i, j | 0 <= i < j < |rows + rest| ensures Before(order, (rows + rest)[i], (rows + rest)[j]) {
        if j < |rows| { assert rows[i] in rows && rows[j] in rows; }
        if i < |rows| && j >= |rows| { assert rows[i] in rows && rest[j - |rows|] in rest; }
      }
    }
  }

  /** The rows a transaction sets out to lock are exactly those that exist of the ids in its calls. */
  lemma {:induction false} WantedExactly(calls: seq<Call>, existing: set<Row>, row: Row)
    ensures row in Wanted(calls, existing) <==>
            row in existing && exists i :: 0 <= i < |calls| && calls[i].table == row.table && row.id in calls[i].ids
  {
    if calls != [] {
      var rest := calls[1..];
      WantedExactly(rest, existing, row);
      assert forall i :: 0 < i < |calls| ==> calls[i] == rest[i - 1];
      if i :| 0 <= i < |rest| && rest[i].table == row.table && row.id in rest[i].ids { assert calls[i + 1].table == row.table; }
    }
  }

  // ---------------------------------------------------------------------------
  // Transactions in steps
  // ---------------------------------------------------------------------------

  /** The rows a transaction locks in turn, how many it has, and whether it has ended. */
  datatype Txn = Txn(wanted: seq<Row>, taken: nat, ended: bool)

  type State = seq<Txn>

  predicate Holds(t: Txn, row: Row) {
    !t.ended && row in t.wanted[..Min(t.taken, |t.wanted|)]
  }

  predicate Waiting(t: Txn) {
    !t.ended && t.taken < |t.wanted|
  }

  predicate Free(s: State, i: nat, row: Row) {
    forall j :: 0 <= j < |s| && j != i ==> !Holds(s[j], row)
  }

  /** Take the next row, once no other transaction holds it. */
  predicate CanAcquire(s: State, i: nat) {
    i < |s| && Waiting(s[i]) && Free(s, i, s[i].wanted[s[i].taken])
  }

  predicate CanCommit(s: State, i: nat) {
    i < |s| && !s[i].ended && s[i].taken >= |s[i].wanted|
  }

  predicate CanStep(s: State, i: nat) {
    CanAcquire(s, i) || CanCommit(s, i)
  }

  function Advance(s: State, i: nat): State
    requires CanStep(s, i)
  {
    if CanAcquire(s, i) then s[i := s[i].(taken := s[i].taken + 1)] else s[i := s[i].(ended := true)]
  }

  /** One step of transaction `i`: forward, or a rollback at any time. */
  ghost predicate Step(s: State, i: nat, next: State) {
    || (CanStep(s, i) && next == Advance(s, i))
    || (i < |s| && !s[i].ended && next == s[i := s[i].(ended := true)])
  }

  /** A step forward takes the next row, which no other transaction held, or ends a transaction that holds
      all its rows; what others hold is not touched. */
  lemma AdvanceTells(s: State, i: nat, row: Row)
    requires CanStep(s, i) && 0 <= s[i].taken <= |s[i].wanted|
    ensures |Advance(s, i)| == |s| && forall j :: 0 <= j < |s| && j != i ==> Advance(s, i)[j] == s[j]
    ensures if s[i].taken < |s[i].wanted|
            then (Holds(Advance(s, i)[i], row) <==> Holds(s[i], row) || row == s[i].wanted[s[i].taken])
                 && forall j :: 0 <= j < |s| && j != i ==> !Holds(s[j], s[i].wanted[s[i].taken])
            else !Holds(Advance(s, i)[i], row) && (Holds(s[i], row) <==> row in s[i].wanted)
  {
    if s[i].taken < |s[i].wanted| {
      assert s[i].wanted[..s[i].taken + 1] == s[i].wanted[..s[i].taken] + [s[i].wanted[s[i].taken]];
    } else {
      assert s[i].wanted[..s[i].taken] == s[i].wanted;
    }
  }

  /** Transactions that follow the discipline, none of which has begun. */
  ghost predicate Start(order: Order, s: State) {
    forall i :: 0 <= i < |s| ==> s[i].taken == 0 && !s[i].ended && Ascending(order, s[i].wanted)
  }

  /** A system of disciplined transactions, each judging for itself which rows exist, starts so. */
  lemma DisciplinedStart(order: Order, programs: seq<seq<Call>>, existing: seq<set<Row>>, s: State)
    requires |programs| == |existing| == |s|
    requires forall i :: 0 <= i < |s| ==> Disciplined(order, programs[i])
    requires forall i :: 0 <= i < |s| ==> s[i] == Txn(Wanted(programs[i], existing[i]), 0, false)
    ensures Start(order, s) && Reachable(order, s)
  {
    forall i | 0 <= i < |s| ensures Ascending(order, s[i].wanted) {
      DisciplineAscends(order, programs[i], existing[i]);
    }
    var states: seq<State>, who: seq<nat> := [s], [];
    assert Schedule(states, who) && Start(order, states[0]) && states[|states| - 1] == s;
  }

  ghost predicate Schedule(states: seq<State>, who: seq<nat>) {
    && |states| == |who| + 1
    && forall k :: 0 <= k < |who| ==> Step(states[k], who[k], states[k + 1])
  }

  ghost predicate Reachable(order: Order, s: State) {
    exists states: seq<State>, who: seq<nat> ::
      Schedule(states, who) && Start(order, states[0]) && states[|states| - 1] == s
  }

  ghost predicate Inv(order: Order, s: State) {
    && (forall i :: 0 <= i < |s| ==> Ascending(order, s[i].wanted) && s[i].taken <= |s[i].wanted|)
    && (forall i, j, row :: 0 <= i < j < |s| ==> !(Holds(s[i], row) && Holds(s[j], row)))
  }

  lemma StepKeepsInv(order: Order, s: State, i: nat, next: State)
    requires Inv(order, s) && Step(s, i, next)
    ensures Inv(order, next)
  {
    forall j, row | 0 <= j < |s| && Holds(next[j], row)
      ensures Holds(s[j], row) || (j == i && CanAcquire(s, i) && row == s[i].wanted[s[i].taken])
    {
      if j == i && CanAcquire(s, i) && next == Advance(s, i) {
        assert next[i].wanted[..next[i].taken] == s[i].wanted[..s[i].taken] + [s[i].wanted[s[i].taken]];
      }
    }
    forall a, b, row | 0 <= a < b < |next| ensures !(Holds(next[a], row) && Holds(next[b], row)) {
      assert !(Holds(s[a], row) && Holds(s[b], row));
      assert CanAcquire(s, i) && row == s[i].wanted[s[i].taken] ==> forall j :: 0 <= j < |s| && j != i ==> !Holds(s[j], row);
    }
  }

  lemma {:induction false} ScheduleKeepsInv(order: Order, states: seq<State>, who: seq<nat>, k: nat)
    requires Schedule(states, who) && Start(order, states[0]) && k < |states|
    ensures Inv(order, states[k])
  {
    if k > 0 {
      ScheduleKeepsInv(order, states, who, k - 1);
      assert Step(states[k - 1], who[k - 1], states[k - 1 + 1]);
      StepKeepsInv(order, states[k - 1], who[k - 1], states[k]);
    }
  }

  /** Mutual exclusion: in every reachable state a row has at most one holder. */
  lemma MutualExclusion(order: Order, s: State, i: nat, j: nat, row: Row)
    requires Reachable(order, s) && i < |s| && j < |s| && Holds(s[i], row) && Holds(s[j], row)
    ensures i == j
  {
    ReachableInv(order, s);
  }

  lemma ReachableInv(order: Order, s: State)
    requires Reachable(order, s)
    ensures Inv(order, s)
  {
    var states, who :| Schedule(states, who) && Start(order, states[0]) && states[|states| - 1] == s;
    ScheduleKeepsInv(order, states, who, |states| - 1);
  }

  // ---------------------------------------------------------------------------
  // No deadlock
  // ---------------------------------------------------------------------------

  predicate WaitsFor(s: State, i: nat, j: nat) {
    && i < |s| && j < |s| && i != j
    && Waiting(s[i]) && Holds(s[j], s[i].wanted[s[i].taken])
  }

  ghost predicate WaitCycle(s: State, c: seq<nat>) {
    c != [] && forall k :: 0 <= k < |c| ==> WaitsFor(s, c[k], c[if k + 1 < |c| then k + 1 else 0])
  }

  /** Whoever is waited for, and waits in turn, wants a later row. */
  lemma WaitersAscend(order: Order, s: State, i: nat, j: nat)
    requires Inv(order, s) && WaitsFor(s, i, j) && Waiting(s[j])
    ensures Before(order, s[i].wanted[s[i].taken], s[j].wanted[s[j].taken])
  {
    var row := s[i].wanted[s[i].taken];
    var k :| 0 <= k < s[j].taken && s[j].wanted[..s[j].taken][k] == row;
    assert s[j].wanted[k] == row;
  }

  lemma {:induction false} CycleAscends(order: Order, s: State, c: seq<nat>, k: nat)
    requires Inv(order, s) && WaitCycle(s, c) && 0 < k < |c|
    ensures c[0] < |s| && c[k] < |s| && Waiting(s[c[0]]) && Waiting(s[c[k]])
    ensures Before(order, s[c[0]].wanted[s[c[0]].taken], s[c[k]].wanted[s[c[k]].taken])
  {
    assert WaitsFor(s, c[k - 1], c[if k - 1 + 1 < |c| then k - 1 + 1 else 0]);
    assert WaitsFor(s, c[k], c[if k + 1 < |c| then k + 1 else 0]);
    WaitersAscend(order, s, c[k - 1], c[k]);
    if k > 1 { CycleAscends(order, s, c, k - 1); }
  }

  /** No reachable state holds a cycle of waiters. */
  lemma NoWaitCycle(order: Order, s: State, c: seq<nat>)
    requires Reachable(order, s)
    ensures !WaitCycle(s, c)
  {
    ReachableInv(order, s);
    if WaitCycle(s, c) {
      var last := |c| - 1;
      assert WaitsFor(s, c[last], c[if last + 1 < |c| then last + 1 else 0]);
      if last > 0 {
        CycleAscends(order, s, c, last);
        WaitersAscend(order, s, c[last], c[0]);
      }
      assert false;
    }
  }

  function LaterWaiters(order: Order, s: State, i: nat): set<nat>
    requires i < |s| && Waiting(s[i])
  {
    set k | 0 <= k < |s| && Waiting(s[k]) && Before(order, s[i].wanted[s[i].taken], s[k].wanted[s[k].taken])
  }

  /** Follow the waiters from `i`: the rows they want only grow, so someone is not waiting. */
  lemma {:induction false} SomeoneRuns(order: Order, s: State, i: nat) returns (r: nat)
    requires Inv(order, s) && i < |s| && !s[i].ended
    ensures CanStep(s, r)
    decreases if Waiting(s[i]) then LaterWaiters(order, s, i) + {|s|} else {}
  {
    if CanStep(s, i) {
      r := i;
    } else {
      var j :| 0 <= j < |s| && j != i && Holds(s[j], s[i].wanted[s[i].taken]);
      if Waiting(s[j]) {
        assert WaitsFor(s, i, j);
        WaitersAscend(order, s, i, j);
        assert j in LaterWaiters(order, s, i) && j !in LaterWaiters(order, s, j);
        assert LaterWaiters(order, s, j) < LaterWaiters(order, s, i);
        assert |s| !in LaterWaiters(order, s, i);
      }
      r := SomeoneRuns(order, s, j);
    }
  }

  /** Deadlock freedom: while a transaction is unfinished, some transaction can step. */
  lemma NeverStuck(order: Order, s: State, i: nat)
    requires Reachable(order, s) && i < |s| && !s[i].ended
    ensures exists r :: CanStep(s, r)
  {
    ReachableInv(order, s);
    var r := SomeoneRuns(order, s, i);
  }

  // ---------------------------------------------------------------------------
  // Whole schedules
  // ---------------------------------------------------------------------------

  function Left(t: Txn): nat {
    if t.ended then 0 else 1 + if t.taken < |t.wanted| then |t.wanted| - t.taken else 0
  }

  function Work(s: State): nat {
    if s == [] then 0 else Work(s[..|s| - 1]) + Left(s[|s| - 1])
  }

  lemma {:induction false} WorkFalls(s: State, i: nat, t: Txn)
    requires i < |s| && Left(t) < Left(s[i])
    ensures Work(s[i := t]) < Work(s)
  {
    var next := s[i := t];
    if i < |s| - 1 {
      WorkFalls(s[..|s| - 1], i, t);
      assert next[..|s| - 1] == s[..|s| - 1][i := t];
    } else {
      assert next[..|s| - 1] == s[..|s| - 1];
    }
  }

  lemma StepWorks(s: State, i: nat, next: State)
    requires Step(s, i, next)
    ensures Work(next) < Work(s)
  {
    WorkFalls(s, i, next[i]);
  }

  /** Every schedule ends: it takes no more steps than there was work. */
  lemma {:induction false} SchedulesEnd(states: seq<State>, who: seq<nat>)
    requires Schedule(states, who)
    ensures |who| + Work(states[|who|]) <= Work(states[0])
    decreases |who|
  {
    if who != [] {
      var n := |who| - 1;
      SchedulesEnd(states[..n + 1], who[..n]);
      assert Step(states[n], who[n], states[n + 1]);
      StepWorks(states[n], who[n], states[n + 1]);
    }
  }

  /** And a schedule that cannot go on has finished every transaction. */
  lemma StuckOnlyWhenDone(order: Order, s: State)
    requires Reachable(order, s) && forall r :: !CanStep(s, r)
    ensures forall i :: 0 <= i < |s| ==> s[i].ended
  {
    forall i | 0 <= i < |s| ensures s[i].ended {
      if !s[i].ended { NeverStuck(order, s, i); }
    }
  }

  // ---------------------------------------------------------------------------
  // Why one call per table
  // ---------------------------------------------------------------------------

  /** Two steps away lies a cycle of two waiters where nothing can step. */
  ghost predicate CanDeadlock(s: State) {
    exists s1: State, s2: State :: Step(s, 0, s1) && Step(s1, 1, s2) && WaitCycle(s2, [0, 1]) && forall r :: !CanStep(s2, r)
  }

  /** Two transactions that lock two rows with two calls each, in opposite orders, deadlock. */
  lemma SeparateCallsCanDeadlock(a: Row, b: Row)
    requires a != b
    ensures CanDeadlock([Txn([a, b], 0, false), Txn([b, a], 0, false)])
  {
    var s0 := [Txn([a, b], 0, false), Txn([b, a], 0, false)];
    assert CanAcquire(s0, 0);
    var s1 := Advance(s0, 0);
    assert [a, b][..1] == [a];
    assert CanAcquire(s1, 1);
    var s2 := Advance(s1, 1);
    assert [b, a][..1] == [b];
    assert Holds(s2[1], b) && Holds(s2[0], a);
    assert WaitsFor(s2, 0, 1) && WaitsFor(s2, 1, 0);
    assert WaitCycle(s2, [0, 1]);
    assert Step(s0, 0, s1) && Step(s1, 1, s2);
  }

  /** So the two orders must not be mixed: a transaction that locks the event and then a registration
      can deadlock with one that locks the registration and reaches the event by its counter. */
  lemma MixedOrdersCanDeadlock(event: int, registration: int)
    ensures var e, r := Row(Event, event), Row(Registrations, registration);
            && Ascending(LOCK_ORDER, [e, r]) && Ascending(COUNTER_ORDER, [r, e])
            && CanDeadlock([Txn([e, r], 0, false), Txn([r, e], 0, false)])
  {
    SeparateCallsCanDeadlock(Row(Event, event), Row(Registrations, registration));
  }
}
