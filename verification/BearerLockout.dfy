/** Locking out a venue that keeps sending rejected bearers. Times are whole milliseconds. */
module BearerLockout {
  import opened OrderedMap
  import opened Prelude

  datatype Options = Options(threshold: int, windowMs: int, durationMs: int, recentTokens: nat, maxVenues: int)

  /** `recent` keeps the order in which digests were added. */
  datatype State = State(windowStart: nat, count: nat, recent: seq<string>, lockedUntil: int)

  type Venues = seq<Entry<State>>

  datatype Rejection = Rejection(digest: string, now: nat)

  function Fresh(now: nat): State {
    State(now, 0, [], 0)
  }

  function Rolled(o: Options, state: State, now: nat): State {
    if now - state.windowStart >= o.windowMs then State(now, 0, [], state.lockedUntil) else state
  }

  function Remember(o: Options, recent: seq<string>, digest: string): seq<string> {
    var more := recent + [digest];
    if |more| > o.recentTokens then more[1..] else more
  }

  function Counted(o: Options, state: State, digest: string, now: nat): State {
    if digest in state.recent then state
    else if state.count + 1 >= o.threshold then State(now, 0, [], now + o.durationMs)
    else State(state.windowStart, state.count + 1, Remember(o, state.recent, digest), state.lockedUntil)
  }

  /** One rejected bearer, for a venue already known or not. */
  function Step(o: Options, known: Option<State>, r: Rejection): State {
    Counted(o, Rolled(o, if known.Some? then known.value else Fresh(r.now), r.now), r.digest, r.now)
  }

  /** A lock is only ever replaced by a later rejection's own lock; a rolled window keeps it. */
  lemma StepKeepsLock(o: Options, known: State, r: Rejection)
    ensures Step(o, Some(known), r).lockedUntil == known.lockedUntil || Step(o, Some(known), r).lockedUntil == r.now + o.durationMs
    ensures Step(o, Some(known), r).lockedUntil != known.lockedUntil ==>
              Step(o, Some(known), r).count == 0 && Step(o, Some(known), r).windowStart == r.now
  {}

  // ---------------------------------------------------------------------------
  // The table of venues
  // ---------------------------------------------------------------------------

  /** The oldest venues go until there is room for one more. */
  function MakeRoom(o: Options, venues: Venues): Venues {
    if venues == [] || |venues| < o.maxVenues then venues else MakeRoom(o, venues[1..])
  }

  function Record(o: Options, venues: Venues, name: string, r: Rejection): Venues {
    MakeRoom(o, Without(venues, name)) + [Entry(name, Step(o, Lookup(venues, name), r))]
  }

  class Lockout {
    const options: Options
    const digest: string -> string
    var venues: Venues

    constructor (options: Options, digest: string -> string)
      ensures this.options == options && this.digest == digest && venues == []
    {
      this.options := options;
      this.digest := digest;
      venues := [];
    }

    method RecordRejected(venue: string, token: string, now: nat)
      modifies this
      ensures venues == Record(options, old(venues), venue, Rejection(digest(token), now))
    {
      var known := Lookup(venues, venue);
      var state := Fresh(now);
      if known.Some? {
        venues := Without(venues, venue);
        state := known.value;
      } else {
        WithoutAbsent(venues, venue);
      }
      if now - state.windowStart >= options.windowMs {
        state := state.(windowStart := now, count := 0, recent := []);
      }
      state := Count(state, digest(token), now);
      while |venues| >= options.maxVenues
        invariant MakeRoom(options, venues) == MakeRoom(options, Without(old(venues), venue))
      {
        if venues == [] { break; }
        venues := venues[1..];
      }
      venues := venues + [Entry(venue, state)];
    }

    method Count(before: State, d: string, now: nat) returns (state: State)
      ensures state == Counted(options, before, d, now)
    {
      state := before;
      if d !in state.recent {
        state := state.(recent := state.recent + [d]);
        if |state.recent| > options.recentTokens {
          state := state.(recent := state.recent[1..]);
        }
        state := state.(count := state.count + 1);
        if state.count >= options.threshold {
          state := state.(lockedUntil := now + options.durationMs, windowStart := now, count := 0, recent := []);
        }
      }
    }

    method LockedFor(venue: string, now: nat) returns (left: nat)
      ensures left == Left(venues, venue, now)
    {
      var state := Lookup(venues, venue);
      match state {
        case Some(s) => left := Max(0, s.lockedUntil - now);
        case None => left := 0;
      }
    }

    method Clear()
      modifies this
      ensures venues == []
    {
      venues := [];
    }
  }

  /** Milliseconds left on a venue's lockout. */
  function Left(venues: Venues, name: string, now: nat): nat {
    match Lookup(venues, name)
    case Some(s) => Max(0, s.lockedUntil - now)
    case None => 0
  }

  lemma {:induction false} RoomIsSuffix(o: Options, venues: Venues)
    ensures |MakeRoom(o, venues)| <= |venues| && MakeRoom(o, venues) == venues[|venues| - |MakeRoom(o, venues)|..]
    ensures MakeRoom(o, venues) == [] || |MakeRoom(o, venues)| < o.maxVenues
  {
    if !(venues == [] || |venues| < o.maxVenues) { RoomIsSuffix(o, venues[1..]); }
  }

  lemma {:induction false} RoomForgets(o: Options, venues: Venues, name: string)
    requires DistinctKeys(venues)
    ensures Lookup(MakeRoom(o, venues), name).Some? ==> Lookup(MakeRoom(o, venues), name) == Lookup(venues, name)
  {
    if !(venues == [] || |venues| < o.maxVenues) {
      RoomForgets(o, venues[1..], name);
      LookupFinds(venues[1..], name);
    }
  }

  lemma RecordKeepsNames(o: Options, venues: Venues, name: string, r: Rejection)
    requires DistinctKeys(venues)
    ensures DistinctKeys(Record(o, venues, name, r))
  {
    var rest := Without(venues, name);
    WithoutRemoves(venues, name);
    RoomIsSuffix(o, rest);
    var kept := MakeRoom(o, rest);
    forall i | 0 <= i < |kept| ensures kept[i].key != name { assert kept[i] in rest; }
  }

  /** A rejection moves its own venue one step; another venue stays as it is or is forgotten. */
  lemma RecordMovesOne(o: Options, venues: Venues, name: string, r: Rejection, other: string)
    requires DistinctKeys(venues)
    ensures Lookup(Record(o, venues, name, r), name) == Some(Step(o, Lookup(venues, name), r))
    ensures other != name && Lookup(Record(o, venues, name, r), other).Some? ==>
              Lookup(Record(o, venues, name, r), other) == Lookup(venues, other)
  {
    var rest, last := Without(venues, name), Entry(name, Step(o, Lookup(venues, name), r));
    WithoutKeeps(venues, name, name);
    WithoutKeeps(venues, name, other);
    WithoutRemoves(venues, name);
    RoomForgets(o, rest, name);
    RoomForgets(o, rest, other);
    LookupConcat(MakeRoom(o, rest), [last], name);
    LookupConcat(MakeRoom(o, rest), [last], other);
  }

  /** Making room drops venues from the front, and no more than it must. */
  lemma {:induction false} RoomExactly(o: Options, venues: Venues)
    ensures var n := if |venues| < o.maxVenues then |venues| else Max(0, o.maxVenues - 1);
            n <= |venues| && MakeRoom(o, venues) == venues[|venues| - n..]
  {
    if !(venues == [] || |venues| < o.maxVenues) { RoomExactly(o, venues[1..]); }
  }

  /** While there is room for one more, every other venue stays as it is. */
  lemma RecordKeepsWhileRoom(o: Options, venues: Venues, name: string, r: Rejection, other: string)
    requires DistinctKeys(venues) && other != name && |Without(venues, name)| < o.maxVenues
    ensures Lookup(Record(o, venues, name, r), other) == Lookup(venues, other)
  {
    RoomExactly(o, Without(venues, name));
    WithoutKeeps(venues, name, other);
    LookupConcat(Without(venues, name), [Entry(name, Step(o, Lookup(venues, name), r))], other);
  }

  /** When full, exactly the venues least recently rejected go: `n` places stay for the others. */
  lemma RecordForgetsOldest(o: Options, venues: Venues, name: string, r: Rejection, other: string)
    requires DistinctKeys(venues) && other != name && |Without(venues, name)| >= o.maxVenues
    ensures var rest, n := Without(venues, name), Max(0, o.maxVenues - 1);
            && n <= |rest|
            && Lookup(Record(o, venues, name, r), other) == Lookup(rest[|rest| - n..], other)
  {
    RoomExactly(o, Without(venues, name));
    LookupConcat(MakeRoom(o, Without(venues, name)), [Entry(name, Step(o, Lookup(venues, name), r))], other);
  }
}
