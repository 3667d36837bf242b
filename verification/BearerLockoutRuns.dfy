/** Which runs of rejected bearers lock a venue, and which never can. */
module BearerLockoutRuns {
  import opened OrderedMap
  import opened Prelude
  import opened Sequences
  import opened BearerLockout

  datatype Call = Call(venue: string, rejection: Rejection)

  function Run(o: Options, calls: seq<Call>): Venues {
    if calls == [] then []
    else
      var last := calls[|calls| - 1];
      Record(o, Run(o, calls[..|calls| - 1]), last.venue, last.rejection)
  }

  lemma {:induction false} RunKeepsNames(o: Options, calls: seq<Call>)
    ensures DistinctKeys(Run(o, calls))
  {
    if calls != [] {
      var last := calls[|calls| - 1];
      RunKeepsNames(o, calls[..|calls| - 1]);
      RecordKeepsNames(o, Run(o, calls[..|calls| - 1]), last.venue, last.rejection);
    }
  }

  /** The table never outgrows its bound. */
  lemma TableBounded(o: Options, calls: seq<Call>)
    ensures |Run(o, calls)| <= Max(1, o.maxVenues)
  {
    if calls != [] {
      var before, last := Run(o, calls[..|calls| - 1]), calls[|calls| - 1];
      RoomIsSuffix(o, Without(before, last.venue));
    }
  }

  /** The state of a venue after one more call, from its state before. */
  lemma LastCall(o: Options, calls: seq<Call>, venue: string)
    requires calls != []
    ensures var init, last := calls[..|calls| - 1], calls[|calls| - 1];
            var before, after := Lookup(Run(o, init), venue), Lookup(Run(o, calls), venue);
            after == (if last.venue == venue then Some(Step(o, before, last.rejection)) else before)
            || (last.venue != venue && after.None?)
  {
    var init, last := calls[..|calls| - 1], calls[|calls| - 1];
    RunKeepsNames(o, init);
    RecordMovesOne(o, Run(o, init), last.venue, last.rejection, venue);
  }

  // ---------------------------------------------------------------------------
  // Few distinct tokens never lock
  // ---------------------------------------------------------------------------

  predicate OnlyFrom(calls: seq<Call>, venue: string, tokens: set<string>) {
    forall c :: c in calls && c.venue == venue ==> c.rejection.digest in tokens
  }

  /** How many distinct tokens a venue can send for ever without being locked. */
  function Harmless(o: Options): nat {
    Min(o.recentTokens, Max(1, o.threshold) - 1)
  }

  predicate Calm(state: State, tokens: set<string>) {
    && state.lockedUntil == 0 && state.count == |state.recent| && Distinct(state.recent)
    && forall d :: d in state.recent ==> d in tokens
  }

  lemma StaysCalm(o: Options, known: Option<State>, r: Rejection, tokens: set<string>)
    requires |tokens| <= Harmless(o) && r.digest in tokens
    requires known.Some? ==> Calm(known.value, tokens)
    ensures Calm(Step(o, known, r), tokens)
  {
    var state := Rolled(o, if known.Some? then known.value else Fresh(r.now), r.now);
    assert Calm(state, tokens);
    if r.digest !in state.recent { DistinctWithin(state.recent + [r.digest], tokens); }
  }

  lemma {:induction false} FewTokensStayCalm(o: Options, calls: seq<Call>, venue: string, tokens: set<string>)
    requires |tokens| <= Harmless(o) && OnlyFrom(calls, venue, tokens)
    ensures Lookup(Run(o, calls), venue).Some? ==> Calm(Lookup(Run(o, calls), venue).value, tokens)
  {
    if calls != [] {
      var init, last := calls[..|calls| - 1], calls[|calls| - 1];
      assert last in calls;
      FewTokensStayCalm(o, init, venue, tokens);
      LastCall(o, calls, venue);
      if last.venue == venue { StaysCalm(o, Lookup(Run(o, init), venue), last.rejection, tokens); }
    }
  }

  /** Whatever the order, the times and the other venues: a venue whose rejected bearers come from
      few enough tokens is never locked. */
  lemma FewTokensNeverLock(o: Options, calls: seq<Call>, venue: string, tokens: set<string>, now: nat)
    requires |tokens| <= Harmless(o) && OnlyFrom(calls, venue, tokens)
    ensures Left(Run(o, calls), venue, now) == 0
  {
    FewTokensStayCalm(o, calls, venue, tokens);
  }

  // ---------------------------------------------------------------------------
  // One token more can lock
  // ---------------------------------------------------------------------------

  /** The rejections of one venue, from the state it is known in. */
  function VenueRun(o: Options, known: Option<State>, rs: seq<Rejection>): Option<State> {
    if rs == [] then known else Some(Step(o, VenueRun(o, known, rs[..|rs| - 1]), rs[|rs| - 1]))
  }

  function At(calls: seq<Call>, venue: string): seq<Rejection> {
    if calls == [] then []
    else
      var last := calls[|calls| - 1];
      At(calls[..|calls| - 1], venue) + if last.venue == venue then [last.rejection] else []
  }

  /** Among `later` calls, those of other venues never push this one out of the table. */
  ghost predicate Remembered(o: Options, before: seq<Call>, later: seq<Call>, venue: string) {
    forall k :: 0 <= k <= |later| && At(later[..k], venue) != [] ==> Lookup(Run(o, before + later[..k]), venue).Some?
  }

  lemma RememberedBefore(o: Options, before: seq<Call>, later: seq<Call>, venue: string)
    requires later != [] && Remembered(o, before, later, venue)
    ensures Remembered(o, before, later[..|later| - 1], venue)
    ensures At(later, venue) != [] ==> Lookup(Run(o, before + later), venue).Some?
  {
    var init := later[..|later| - 1];
    assert later[..|later|] == later;
    forall k | 0 <= k <= |init| && At(init[..k], venue) != [] ensures Lookup(Run(o, before + init[..k]), venue).Some? {
      assert init[..k] == later[..k];
    }
  }

  lemma OneMoreCall(o: Options, before: seq<Call>, later: seq<Call>, venue: string)
    requires later != []
    ensures var init, last, r := later[..|later| - 1], later[|later| - 1], Lookup(Run(o, before + later), venue);
            if last.venue == venue then
              At(later, venue) == At(init, venue) + [last.rejection]
              && r == Some(Step(o, Lookup(Run(o, before + init), venue), last.rejection))
            else At(later, venue) == At(init, venue) && (r == None || r == Lookup(Run(o, before + init), venue))
  {
    var all := before + later;
    assert all[..|all| - 1] == before + later[..|later| - 1] && all[|all| - 1] == later[|later| - 1];
    LastCall(o, all, venue);
    assert At(later[..|later| - 1], venue) + [] == At(later[..|later| - 1], venue);
  }

  lemma OneMoreStep(o: Options, known: Option<State>, rs: seq<Rejection>, r: Rejection)
    ensures VenueRun(o, known, rs + [r]) == Some(Step(o, VenueRun(o, known, rs), r))
  {
    assert (rs + [r])[..|rs|] == rs;
  }

  /** Whatever other venues do in between, a remembered venue goes through its own rejections. */
  lemma {:induction false} VenueFollows(o: Options, before: seq<Call>, later: seq<Call>, venue: string) returns (known: Option<State>)
    requires Remembered(o, before, later, venue)
    ensures known == None || known == Lookup(Run(o, before), venue)
    ensures Lookup(Run(o, before + later), venue) == VenueRun(o, known, At(later, venue))
    decreases |later|
  {
    if later == [] {
      assert before + later == before;
      known := Lookup(Run(o, before), venue);
    } else {
      var init, last := later[..|later| - 1], later[|later| - 1];
      RememberedBefore(o, before, later, venue);
      known := VenueFollows(o, before, init, venue);
      OneMoreCall(o, before, later, venue);
      if last.venue == venue {
        OneMoreStep(o, known, At(init, venue), last.rejection);
      } else if Lookup(Run(o, before + later), venue).None? {
        known := None;
      }
    }
  }

  function CallsAt(venue: string, rs: seq<Rejection>): seq<Call> {
    seq(|rs|, i requires 0 <= i < |rs| => Call(venue, rs[i]))
  }

  lemma {:induction false} ConsecutiveCalls(o: Options, venue: string, rs: seq<Rejection>)
    ensures Lookup(Run(o, CallsAt(venue, rs)), venue) == VenueRun(o, None, rs)
  {
    if rs != [] {
      var calls := CallsAt(venue, rs);
      ConsecutiveCalls(o, venue, rs[..|rs| - 1]);
      assert calls[..|calls| - 1] == CallsAt(venue, rs[..|rs| - 1]);
      LastCall(o, calls, venue);
    }
  }

  /** No digest comes back within the next `reach` rejections. */
  predicate Spread(rs: seq<Rejection>, reach: nat) {
    forall i, j :: 0 <= i < j < |rs| && j - i <= reach ==> rs[i].digest != rs[j].digest
  }

  predicate WithinWindow(o: Options, rs: seq<Rejection>) {
    forall i :: 0 <= i < |rs| ==> rs[0].now <= rs[i].now < rs[0].now + o.windowMs
  }

  function Digests(rs: seq<Rejection>): seq<string> {
    seq(|rs|, i requires 0 <= i < |rs| => rs[i].digest)
  }

  function Latest(xs: seq<string>, n: nat): seq<string> {
    if |xs| <= n then xs else xs[|xs| - n..]
  }

  lemma SpreadStep(o: Options, rs: seq<Rejection>)
    requires |rs| > 1 && Spread(rs, o.recentTokens)
    ensures var init, last := rs[..|rs| - 1], rs[|rs| - 1];
            && last.digest !in Latest(Digests(init), o.recentTokens)
            && Remember(o, Latest(Digests(init), o.recentTokens), last.digest) == Latest(Digests(rs), o.recentTokens)
  {
    var init, last := rs[..|rs| - 1], rs[|rs| - 1];
    var xs := Digests(init);
    assert Digests(rs) == xs + [last.digest];
    var recent := Latest(xs, o.recentTokens);
    forall k | 0 <= k < |recent| ensures recent[k] != last.digest {
      var i := |xs| - |recent| + k;
      assert recent[k] == rs[i].digest && |rs| - 1 - i <= o.recentTokens;
    }
  }

  lemma SpreadInit(o: Options, rs: seq<Rejection>)
    requires |rs| > 1 && Spread(rs, o.recentTokens) && WithinWindow(o, rs)
    ensures Spread(rs[..|rs| - 1], o.recentTokens) && WithinWindow(o, rs[..|rs| - 1]) && rs[..|rs| - 1][0] == rs[0]
  {}

  /** A venue unknown, or whose window has expired. */
  predicate Afresh(o: Options, known: Option<State>, now: nat) {
    known.None? || now - known.value.windowStart >= o.windowMs
  }

  function LockedUntil(known: Option<State>): int {
    if known.Some? then known.value.lockedUntil else 0
  }

  lemma FirstCounts(o: Options, known: Option<State>, r: Rejection)
    requires Afresh(o, known, r.now) && o.windowMs > 0
    ensures Step(o, known, r) == if 1 >= o.threshold then State(r.now, 0, [], r.now + o.durationMs)
                                 else State(r.now, 1, Remember(o, [], r.digest), LockedUntil(known))
  {}

  lemma NextCounts(o: Options, state: State, r: Rejection)
    requires r.now - state.windowStart < o.windowMs && r.digest !in state.recent
    ensures Step(o, Some(state), r) ==
            if state.count + 1 >= o.threshold then State(r.now, 0, [], r.now + o.durationMs)
            else State(state.windowStart, state.count + 1, Remember(o, state.recent, r.digest), state.lockedUntil)
  {}

  /** Every one of them counts, until there are `threshold`. */
  lemma {:induction false} EachCounts(o: Options, known: Option<State>, rs: seq<Rejection>)
    requires 0 < |rs| < o.threshold && Spread(rs, o.recentTokens) && WithinWindow(o, rs) && Afresh(o, known, rs[0].now)
    ensures VenueRun(o, known, rs) == Some(State(rs[0].now, |rs|, Latest(Digests(rs), o.recentTokens), LockedUntil(known)))
  {
    var init, last := rs[..|rs| - 1], rs[|rs| - 1];
    assert rs[0].now <= last.now < rs[0].now + o.windowMs;
    if init == [] {
      FirstCounts(o, known, last);
      assert Digests(rs) == [last.digest] && [] + [last.digest] == [last.digest];
    } else {
      SpreadInit(o, rs);
      EachCounts(o, known, init);
      SpreadStep(o, rs);
      NextCounts(o, State(rs[0].now, |init|, Latest(Digests(init), o.recentTokens), LockedUntil(known)), last);
    }
  }

  /** `threshold` rejections in one window, no token back too soon: the last one locks. */
  lemma SpreadLocks(o: Options, known: Option<State>, rs: seq<Rejection>)
    requires |rs| == Max(1, o.threshold) && Spread(rs, o.recentTokens) && WithinWindow(o, rs) && Afresh(o, known, rs[0].now)
    ensures VenueRun(o, known, rs).Some? && VenueRun(o, known, rs).value.lockedUntil == rs[|rs| - 1].now + o.durationMs
  {
    var init, last := rs[..|rs| - 1], rs[|rs| - 1];
    assert rs[0].now <= last.now < rs[0].now + o.windowMs;
    if init == [] {
      FirstCounts(o, known, last);
    } else {
      EachCounts(o, known, init);
      SpreadStep(o, rs);
      NextCounts(o, State(rs[0].now, |init|, Latest(Digests(init), o.recentTokens), LockedUntil(known)), last);
    }
  }

  /** After any run, `threshold` distinct tokens rejected within one window of a venue then unknown or
      past its window lock it, whatever other venues do meanwhile short of pushing it out. */
  lemma DistinctTokensLock(o: Options, before: seq<Call>, later: seq<Call>, venue: string, rs: seq<Rejection>)
    requires Remembered(o, before, later, venue) && rs == At(later, venue)
    requires |rs| == Max(1, o.threshold) && Distinct(Digests(rs)) && WithinWindow(o, rs)
    requires Afresh(o, Lookup(Run(o, before), venue), rs[0].now)
    ensures Left(Run(o, before + later), venue, rs[|rs| - 1].now) == Max(0, o.durationMs)
  {
    DistinctIsSpread(rs, o.recentTokens);
    var known := VenueFollows(o, before, later, venue);
    SpreadLocks(o, known, rs);
    JustLocked(Run(o, before + later), venue, rs[|rs| - 1].now, o.durationMs);
  }

  lemma DistinctIsSpread(rs: seq<Rejection>, reach: nat)
    requires Distinct(Digests(rs))
    ensures Spread(rs, reach)
  {
    forall i, j | 0 <= i < j < |rs| ensures rs[i].digest != rs[j].digest {
      assert Digests(rs)[i] != Digests(rs)[j];
    }
  }

  lemma JustLocked(table: seq<Entry<State>>, venue: string, now: nat, duration: int)
    requires Lookup(table, venue).Some? && Lookup(table, venue).value.lockedUntil == now + duration
    ensures Left(table, venue, now) == Max(0, duration)
  {}

  /** Whose turn it is when `m` take turns. */
  function Turn(i: nat, m: nat): (r: nat)
    requires m > 0
    ensures r < m
  {
    if i < m then i else Turn(i - m, m)
  }

  lemma {:induction false} ApartInTurn(i: nat, j: nat, m: nat)
    requires i < j < i + m
    ensures Turn(i, m) != Turn(j, m)
    decreases i
  {
    if i >= m { ApartInTurn(i - m, j - m, m); }
  }

  /** The tokens in turn, over and over. */
  function RoundRobin(tokens: seq<string>, n: nat, now: nat): seq<Rejection>
    requires tokens != []
  {
    seq(n, i requires 0 <= i < n => Rejection(tokens[Turn(i, |tokens|)], now))
  }

  /** More tokens than that lock the venue, retried in turn: a token is forgotten, and counted
      again, as soon as `recentTokens` others have come since. */
  lemma ManyTokensLock(o: Options, venue: string, tokens: seq<string>, now: nat)
    requires Distinct(tokens) && |tokens| > Harmless(o) && o.windowMs > 0
    ensures var rs := RoundRobin(tokens, Max(1, o.threshold), now);
            Left(Run(o, CallsAt(venue, rs)), venue, now) == Max(0, o.durationMs)
  {
    var rs := RoundRobin(tokens, Max(1, o.threshold), now);
    forall i, j | 0 <= i < j < |rs| && j - i <= o.recentTokens ensures rs[i].digest != rs[j].digest {
      ApartInTurn(i, j, |tokens|);
    }
    SpreadLocks(o, None, rs);
    ConsecutiveCalls(o, venue, rs);
  }

  ghost predicate CanLock(o: Options, venue: string, tokens: set<string>) {
    exists calls, now :: OnlyFrom(calls, venue, tokens) && Left(Run(o, calls), venue, now) > 0
  }

  lemma LockNeedsManyTokens(o: Options, venue: string, tokens: seq<string>)
    requires CanLock(o, venue, set d | d in tokens)
    ensures |tokens| > Harmless(o)
  {
    var all := set d | d in tokens;
    var calls, now :| OnlyFrom(calls, venue, all) && Left(Run(o, calls), venue, now) > 0;
    if |tokens| <= Harmless(o) {
      SetNoLarger(tokens, all);
      FewTokensNeverLock(o, calls, venue, all, now);
    }
  }

  lemma {:induction false} SetNoLarger(xs: seq<string>, all: set<string>)
    requires forall x :: x in all ==> x in xs
    ensures |all| <= |xs|
  {
    if xs != [] {
      var init, last := xs[..|xs| - 1], xs[|xs| - 1];
      forall x | x in all - {last} ensures x in init { assert xs == init + [last]; }
      SetNoLarger(init, all - {last});
    } else {
      assert all == {};
    }
  }

  /** Exactly when rejected bearers from these tokens can lock a venue at all. */
  lemma CanLockExactly(o: Options, venue: string, tokens: seq<string>)
    requires Distinct(tokens) && o.windowMs > 0 && o.durationMs > 0
    ensures CanLock(o, venue, set d | d in tokens) <==> |tokens| > Harmless(o)
  {
    var all := set d | d in tokens;
    if |tokens| > Harmless(o) {
      ManyTokensLock(o, venue, tokens, 0);
      var calls := CallsAt(venue, RoundRobin(tokens, Max(1, o.threshold), 0));
      assert OnlyFrom(calls, venue, all) && Left(Run(o, calls), venue, 0) > 0;
    }
    if CanLock(o, venue, all) { LockNeedsManyTokens(o, venue, tokens); }
  }

  /** The sizing the service runs with. */
  const DEFAULTS := Options(200, 10 * 60000, 10 * 60000, 64, 10000)

  /** With it, 65 stale tokens retried in turn lock a venue, not 200. */
  lemma DefaultsLockAtSixtyFive(venue: string, tokens: seq<string>)
    requires Distinct(tokens)
    ensures CanLock(DEFAULTS, venue, set d | d in tokens) <==> |tokens| >= 65
  {
    CanLockExactly(DEFAULTS, venue, tokens);
  }

  // ---------------------------------------------------------------------------
  // Every lock has its witnesses
  // ---------------------------------------------------------------------------

  /** The last call is counted: its digest is not among those its venue remembers then. */
  predicate IsCounted(o: Options, calls: seq<Call>)
    requires calls != []
  {
    var last := calls[|calls| - 1];
    var known := Lookup(Run(o, calls[..|calls| - 1]), last.venue);
    last.rejection.digest !in Opened(o, known, last.rejection.now).recent
  }

  /** The state a rejection is counted in. */
  function Opened(o: Options, known: Option<State>, now: nat): State {
    Rolled(o, if known.Some? then known.value else Fresh(now), now)
  }

  predicate IsSince(venue: string, from: int, c: Call) {
    c.venue == venue && c.rejection.now >= from
  }

  /** Counted rejections of the venue at or after `from`. */
  function CountedSince(o: Options, calls: seq<Call>, venue: string, from: int): nat {
    if calls == [] then 0
    else
      CountedSince(o, calls[..|calls| - 1], venue, from)
      + if IsSince(venue, from, calls[|calls| - 1]) && IsCounted(o, calls) then 1 else 0
  }

  /** The tokens rejected there at or after `from`. */
  function DigestsSince(calls: seq<Call>, venue: string, from: int): set<string> {
    if calls == [] then {}
    else
      var last := calls[|calls| - 1];
      DigestsSince(calls[..|calls| - 1], venue, from) + if IsSince(venue, from, last) then {last.rejection.digest} else {}
  }

  predicate ClockForward(calls: seq<Call>) {
    forall i, j :: 0 <= i < j < |calls| ==> calls[i].rejection.now <= calls[j].rejection.now
  }

  /** The last call sets the lock: it is counted, the last of `threshold` counted ones within one window,
      in which more tokens were rejected than are harmless. */
  predicate SetByLast(o: Options, calls: seq<Call>, venue: string, until: int)
    requires calls != []
  {
    var c := calls[|calls| - 1];
    var from := c.rejection.now - o.windowMs + 1;
    && c.venue == venue && until == c.rejection.now + o.durationMs
    && IsCounted(o, calls) && CountedSince(o, calls, venue, from) >= o.threshold
    && |DigestsSince(calls, venue, from)| > Harmless(o)
  }

  predicate SetBy(o: Options, calls: seq<Call>, venue: string, until: int, k: nat)
    requires k < |calls|
  {
    SetByLast(o, calls[..k + 1], venue, until)
  }

  ghost predicate SetBySome(o: Options, calls: seq<Call>, venue: string, until: int) {
    exists k :: 0 <= k < |calls| && SetBy(o, calls, venue, until, k)
  }

  /** How a window's count and memory answer to the tokens rejected in it. */
  predicate Tallied(o: Options, state: State, counted: nat, tokens: set<string>) {
    && state.count <= counted && Distinct(state.recent) && (forall d :: d in state.recent ==> d in tokens)
    && (|tokens| <= o.recentTokens ==> state.count == |state.recent|)
  }

  ghost predicate Accounted(o: Options, calls: seq<Call>, venue: string, state: State) {
    && Tallied(o, state, CountedSince(o, calls, venue, state.windowStart), DigestsSince(calls, venue, state.windowStart))
    && (exists c :: c in calls && c.rejection.now == state.windowStart)
    && (state.lockedUntil == 0 || SetBySome(o, calls, venue, state.lockedUntil))
  }

  lemma {:induction false} SinceEarlier(o: Options, calls: seq<Call>, venue: string, from: int, earlier: int)
    requires earlier <= from
    ensures CountedSince(o, calls, venue, from) <= CountedSince(o, calls, venue, earlier)
    ensures DigestsSince(calls, venue, from) <= DigestsSince(calls, venue, earlier)
  {
    if calls != [] { SinceEarlier(o, calls[..|calls| - 1], venue, from, earlier); }
  }

  lemma WitnessStays(o: Options, calls: seq<Call>, venue: string, until: int)
    requires calls != [] && SetBySome(o, calls[..|calls| - 1], venue, until)
    ensures SetBySome(o, calls, venue, until)
  {
    var init := calls[..|calls| - 1];
    var k :| 0 <= k < |init| && SetBy(o, init, venue, until, k);
    assert init[..k + 1] == calls[..k + 1];
    assert SetBy(o, calls, venue, until, k);
  }

  /** One more token at most makes the set one larger, so fewer tokens were in range before. */
  lemma TallyGrows(o: Options, state: State, counted: nat, tokens: set<string>, more: nat, all: set<string>)
    requires Tallied(o, state, counted, tokens) && counted <= more && tokens <= all
    ensures Tallied(o, state, more, all)
  {
    SubsetCount(tokens, all);
  }

  lemma AccountOthers(o: Options, calls: seq<Call>, venue: string, state: State)
    requires calls != [] && Accounted(o, calls[..|calls| - 1], venue, state)
    ensures Accounted(o, calls, venue, state)
  {
    var init, from := calls[..|calls| - 1], state.windowStart;
    if state.lockedUntil != 0 { WitnessStays(o, calls, venue, state.lockedUntil); }
    TallyGrows(o, state, CountedSince(o, init, venue, from), DigestsSince(init, venue, from),
               CountedSince(o, calls, venue, from), DigestsSince(calls, venue, from));
    var c :| c in init && c.rejection.now == from;
    assert c in calls;
  }

  /** The window the last rejection is counted in, before it is counted. */
  ghost predicate OpenFor(o: Options, calls: seq<Call>, venue: string, state: State)
    requires calls != []
  {
    var init, now := calls[..|calls| - 1], calls[|calls| - 1].rejection.now;
    && calls[|calls| - 1].venue == venue && state == Opened(o, Lookup(Run(o, init), venue), now)
    && Tallied(o, state, CountedSince(o, init, venue, state.windowStart), DigestsSince(init, venue, state.windowStart))
    && now - o.windowMs < state.windowStart <= now
    && (exists c :: c in calls && c.rejection.now == state.windowStart)
    && (state.lockedUntil == 0 || SetBySome(o, calls, venue, state.lockedUntil))
  }

  lemma AccountOpened(o: Options, calls: seq<Call>, venue: string)
    requires calls != [] && calls[|calls| - 1].venue == venue && ClockForward(calls) && o.windowMs > 0
    requires var known := Lookup(Run(o, calls[..|calls| - 1]), venue);
             known.Some? ==> Accounted(o, calls[..|calls| - 1], venue, known.value)
    ensures OpenFor(o, calls, venue, Opened(o, Lookup(Run(o, calls[..|calls| - 1]), venue), calls[|calls| - 1].rejection.now))
  {
    var init, last := calls[..|calls| - 1], calls[|calls| - 1];
    var known := Lookup(Run(o, init), venue);
    assert last in calls;
    if known.Some? {
      if known.value.lockedUntil != 0 { WitnessStays(o, calls, venue, known.value.lockedUntil); }
      var c :| c in init && c.rejection.now == known.value.windowStart;
      assert c in calls;
    }
  }

  lemma RememberDistinct(o: Options, recent: seq<string>, digest: string, tokens: set<string>)
    requires Distinct(recent) && digest !in recent && digest in tokens && forall d :: d in recent ==> d in tokens
    ensures Distinct(Remember(o, recent, digest)) && (forall d :: d in Remember(o, recent, digest) ==> d in tokens)
    ensures |tokens| <= o.recentTokens ==> |Remember(o, recent, digest)| == |recent| + 1
    ensures |recent| + 1 <= |tokens|
  {
    DistinctWithin(recent + [digest], tokens);
  }

  /** A new token that locks shows that more tokens than harmless were rejected in the window. */
  lemma LockTakesManyTokens(o: Options, state: State, counted: nat, tokens: set<string>, digest: string)
    requires Tallied(o, state, counted, tokens) && digest !in state.recent && state.count + 1 >= o.threshold
    ensures |tokens + {digest}| > Harmless(o)
  {
    SubsetCount(tokens, tokens + {digest});
    RememberDistinct(o, state.recent, digest, tokens + {digest});
  }

  lemma AccountOwn(o: Options, calls: seq<Call>, venue: string)
    requires calls != [] && calls[|calls| - 1].venue == venue && ClockForward(calls) && o.windowMs > 0
    requires var known := Lookup(Run(o, calls[..|calls| - 1]), venue);
             known.Some? ==> Accounted(o, calls[..|calls| - 1], venue, known.value)
    ensures var known := Lookup(Run(o, calls[..|calls| - 1]), venue);
            Accounted(o, calls, venue, Step(o, known, calls[|calls| - 1].rejection))
  {
    AccountOpened(o, calls, venue);
    AccountCounted(o, calls, venue, Opened(o, Lookup(Run(o, calls[..|calls| - 1]), venue), calls[|calls| - 1].rejection.now));
  }

  lemma AccountCounted(o: Options, calls: seq<Call>, venue: string, state: State)
    requires calls != [] && OpenFor(o, calls, venue, state)
    ensures var r := calls[|calls| - 1].rejection; Accounted(o, calls, venue, Counted(o, state, r.digest, r.now))
  {
    if Locks(o, calls, venue, state) {
      AccountLocked(o, calls, venue, state);
    } else {
      AccountUnlocked(o, calls, venue, state);
    }
  }

  lemma AccountLocked(o: Options, calls: seq<Call>, venue: string, state: State)
    requires calls != [] && Locks(o, calls, venue, state)
    ensures var r := calls[|calls| - 1].rejection; Accounted(o, calls, venue, Counted(o, state, r.digest, r.now))
  {
    LockIsWitnessed(o, calls, venue, state);
    assert calls[|calls| - 1] in calls;
  }

  lemma AccountUnlocked(o: Options, calls: seq<Call>, venue: string, state: State)
    requires calls != [] && OpenFor(o, calls, venue, state) && !Locks(o, calls, venue, state)
    ensures var r := calls[|calls| - 1].rejection; Accounted(o, calls, venue, Counted(o, state, r.digest, r.now))
  {
    var init, r, from := calls[..|calls| - 1], calls[|calls| - 1].rejection, state.windowStart;
    LastSince(o, calls, venue, from);
    CountedIsTallied(o, state, CountedSince(o, init, venue, from), DigestsSince(init, venue, from), r.digest, r.now);
  }

  lemma LastSince(o: Options, calls: seq<Call>, venue: string, from: int)
    requires calls != [] && calls[|calls| - 1].venue == venue && calls[|calls| - 1].rejection.now >= from
    ensures var init, last := calls[..|calls| - 1], calls[|calls| - 1];
            && DigestsSince(calls, venue, from) == DigestsSince(init, venue, from) + {last.rejection.digest}
            && CountedSince(o, calls, venue, from) == CountedSince(o, init, venue, from) + if IsCounted(o, calls) then 1 else 0
  {}

  lemma CountedIsTallied(o: Options, state: State, counted: nat, tokens: set<string>, digest: string, now: nat)
    requires Tallied(o, state, counted, tokens)
    requires digest in state.recent || state.count + 1 < o.threshold
    ensures var next := Counted(o, state, digest, now);
            && Tallied(o, next, counted + (if digest in state.recent then 0 else 1), tokens + {digest})
            && next.windowStart == state.windowStart && next.lockedUntil == state.lockedUntil
  {
    if digest in state.recent {
      assert tokens + {digest} == tokens;
    } else {
      SubsetCount(tokens, tokens + {digest});
      RememberDistinct(o, state.recent, digest, tokens + {digest});
    }
  }

  /** The call that locks, with the state it is counted in. */
  ghost predicate Locks(o: Options, calls: seq<Call>, venue: string, state: State)
    requires calls != []
  {
    && OpenFor(o, calls, venue, state)
    && calls[|calls| - 1].rejection.digest !in state.recent && state.count + 1 >= o.threshold
  }

  lemma LockInWindow(o: Options, calls: seq<Call>, venue: string, state: State)
    requires calls != [] && Locks(o, calls, venue, state)
    ensures IsCounted(o, calls)
    ensures CountedSince(o, calls, venue, state.windowStart) >= o.threshold
    ensures |DigestsSince(calls, venue, state.windowStart)| > Harmless(o)
  {
    var init, r, from := calls[..|calls| - 1], calls[|calls| - 1].rejection, state.windowStart;
    LockTakesManyTokens(o, state, CountedSince(o, init, venue, from), DigestsSince(init, venue, from), r.digest);
  }

  lemma LockIsWitnessed(o: Options, calls: seq<Call>, venue: string, state: State)
    requires calls != [] && Locks(o, calls, venue, state)
    ensures SetBySome(o, calls, venue, calls[|calls| - 1].rejection.now + o.durationMs)
  {
    var earlier := calls[|calls| - 1].rejection.now - o.windowMs + 1;
    LockInWindow(o, calls, venue, state);
    SinceEarlier(o, calls, venue, state.windowStart, earlier);
    SubsetCount(DigestsSince(calls, venue, state.windowStart), DigestsSince(calls, venue, earlier));
    LastIsSome(o, calls, venue, calls[|calls| - 1].rejection.now + o.durationMs);
  }

  lemma LastIsSome(o: Options, calls: seq<Call>, venue: string, until: int)
    requires calls != [] && SetByLast(o, calls, venue, until)
    ensures SetBySome(o, calls, venue, until)
  {
    var k := |calls| - 1;
    assert calls[..k + 1] == calls;
    assert SetBy(o, calls, venue, until, k);
  }

  lemma {:induction false} RunAccounted(o: Options, calls: seq<Call>, venue: string)
    requires ClockForward(calls) && o.windowMs > 0
    ensures Lookup(Run(o, calls), venue).Some? ==> Accounted(o, calls, venue, Lookup(Run(o, calls), venue).value)
  {
    if calls != [] {
      var init, last := calls[..|calls| - 1], calls[|calls| - 1];
      RunAccounted(o, init, venue);
      LastCall(o, calls, venue);
      var before := Lookup(Run(o, init), venue);
      if last.venue == venue {
        AccountOwn(o, calls, venue);
      } else if before.Some? {
        AccountOthers(o, calls, venue, before.value);
      }
    }
  }

  /** While the clock never runs backwards: a venue that is locked had at least `threshold` counted
      rejections within one window, the last of them setting the lock, and more tokens rejected in
      that window than are harmless. */
  lemma EveryLockIsWitnessed(o: Options, calls: seq<Call>, venue: string, now: nat)
    requires ClockForward(calls) && o.windowMs > 0 && Left(Run(o, calls), venue, now) > 0
    ensures SetBySome(o, calls, venue, now + Left(Run(o, calls), venue, now))
  {
    RunAccounted(o, calls, venue);
    LockHolds(Run(o, calls), venue, now);
  }

  lemma LockHolds(table: seq<Entry<State>>, venue: string, now: nat)
    requires Left(table, venue, now) > 0
    ensures Lookup(table, venue).Some?
    ensures var until := Lookup(table, venue).value.lockedUntil; until == now + Left(table, venue, now) && until != 0
  {}
}
