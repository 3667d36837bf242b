/** Whole runs of the image cache: it always holds the longest end of the recency order that fits. */
module ByteLruRuns {
  import opened OrderedMap
  import opened Prelude
  import opened ByteLruCache

  /** Keys are never overwritten, so each key has one buffer for good. */
  type Stored = string -> Bytes

  function EntryOf(stored: Stored, key: string): Entry<Bytes> {
    Entry(key, stored(key))
  }

  datatype Use = Get(key: string) | Set(key: string) | Delete(key: string) | Clear

  /** What the methods of the cache leave. */
  function After(stored: Stored, limit: real, entries: seq<Entry<Bytes>>, use: Use): seq<Entry<Bytes>> {
    match use
    case Get(key) =>
      (match Lookup(entries, key)
       case None => entries
       case Some(data) => Push(entries, Entry(key, data)))
    case Set(key) =>
      if Fits(|stored(key)|, limit) then Fit(Push(entries, EntryOf(stored, key)), limit)
      else Without(entries, key)
    case Delete(key) => Without(entries, key)
    case Clear => []
  }

  function Run(stored: Stored, limit: real, uses: seq<Use>): seq<Entry<Bytes>> {
    if uses == [] then [] else After(stored, limit, Run(stored, limit, uses[..|uses| - 1]), uses[|uses| - 1])
  }

  /** What a use does to the recency order of a cache without bounds. */
  datatype Mark = Touched(key: string) | Dropped(key: string) | Wiped

  /** A hit, or storing a buffer that fits at all, uses its key; other gets and sets do nothing. */
  function MarkOf(stored: Stored, limit: real, entries: seq<Entry<Bytes>>, use: Use): seq<Mark> {
    match use
    case Get(key) => if Lookup(entries, key).Some? then [Touched(key)] else []
    case Set(key) => if Fits(|stored(key)|, limit) then [Touched(key)] else []
    case Delete(key) => [Dropped(key)]
    case Clear => [Wiped]
  }

  function Marks(stored: Stored, limit: real, uses: seq<Use>): seq<Mark> {
    if uses == [] then []
    else
      var init := uses[..|uses| - 1];
      Marks(stored, limit, init) + MarkOf(stored, limit, Run(stored, limit, init), uses[|uses| - 1])
  }

  function Marked(stored: Stored, entries: seq<Entry<Bytes>>, mark: Mark): seq<Entry<Bytes>> {
    match mark
    case Touched(key) => Push(entries, EntryOf(stored, key))
    case Dropped(key) => Without(entries, key)
    case Wiped => []
  }

  /** The recency order of an unbounded cache. */
  function Recency(stored: Stored, marks: seq<Mark>): seq<Entry<Bytes>> {
    if marks == [] then [] else Marked(stored, Recency(stored, marks[..|marks| - 1]), marks[|marks| - 1])
  }

  /** The same, with what does not fit dropped at each step. */
  function Kept(stored: Stored, limit: real, marks: seq<Mark>): seq<Entry<Bytes>> {
    if marks == [] then []
    else Fit(Marked(stored, Kept(stored, limit, marks[..|marks| - 1]), marks[|marks| - 1]), limit)
  }

  ghost predicate Faithful(stored: Stored, entries: seq<Entry<Bytes>>) {
    DistinctKeys(entries) && forall e :: e in entries ==> e == EntryOf(stored, e.key)
  }

  lemma PushIsFaithful(stored: Stored, entries: seq<Entry<Bytes>>, key: string)
    requires Faithful(stored, entries)
    ensures Faithful(stored, Push(entries, EntryOf(stored, key)))
  {
    PushKeepsDistinct(entries, EntryOf(stored, key));
    WithoutRemoves(entries, key);
  }

  lemma WithoutIsFaithful(stored: Stored, entries: seq<Entry<Bytes>>, key: string)
    requires Faithful(stored, entries)
    ensures Faithful(stored, Without(entries, key))
  {
    WithoutRemoves(entries, key);
  }

  lemma MarkedIsFaithful(stored: Stored, entries: seq<Entry<Bytes>>, mark: Mark)
    requires Faithful(stored, entries)
    ensures Faithful(stored, Marked(stored, entries, mark))
  {
    match mark {
      case Touched(key) => PushIsFaithful(stored, entries, key);
      case Dropped(key) => WithoutIsFaithful(stored, entries, key);
      case Wiped =>
    }
  }

  lemma {:induction false} RecencyIsFaithful(stored: Stored, marks: seq<Mark>)
    ensures Faithful(stored, Recency(stored, marks))
  {
    if marks != [] {
      RecencyIsFaithful(stored, marks[..|marks| - 1]);
      MarkedIsFaithful(stored, Recency(stored, marks[..|marks| - 1]), marks[|marks| - 1]);
    }
  }

  lemma {:induction false} KeptIsFaithful(stored: Stored, limit: real, marks: seq<Mark>)
    requires limit > 0.0
    ensures Faithful(stored, Kept(stored, limit, marks)) && Fits(Total(Kept(stored, limit, marks)), limit)
  {
    if marks != [] {
      var before := Kept(stored, limit, marks[..|marks| - 1]);
      KeptIsFaithful(stored, limit, marks[..|marks| - 1]);
      MarkedIsFaithful(stored, before, marks[|marks| - 1]);
      FitIsFaithful(stored, Marked(stored, before, marks[|marks| - 1]), limit);
    }
  }

  lemma RecencySnoc(stored: Stored, limit: real, marks: seq<Mark>, mark: Mark)
    ensures Recency(stored, marks + [mark]) == Marked(stored, Recency(stored, marks), mark)
    ensures Kept(stored, limit, marks + [mark]) == Fit(Marked(stored, Kept(stored, limit, marks), mark), limit)
  {
    assert (marks + [mark])[..|marks|] == marks;
  }

  lemma PushTotal(stored: Stored, entries: seq<Entry<Bytes>>, key: string)
    requires Faithful(stored, entries)
    ensures Total(Push(entries, EntryOf(stored, key))) ==
            Total(entries) + if Lookup(entries, key).Some? then 0 else |stored(key)|
  {
    LookupFinds(entries, key);
    WithoutTotal(entries, key);
    TotalConcat(Without(entries, key), [EntryOf(stored, key)]);
    assert Total([EntryOf(stored, key)]) == |stored(key)|;
  }

  lemma FitOfTail(entries: seq<Entry<Bytes>>, limit: real)
    requires entries != [] && !Fits(Total(entries), limit)
    ensures Fit(entries, limit) == Fit(entries[1..], limit)
  {}

  lemma PushTail(stored: Stored, all: seq<Entry<Bytes>>, key: string)
    requires Faithful(stored, all) && all != []
    ensures var e := EntryOf(stored, key);
            if all[0].key == key then Push(all, e) == Push(all[1..], e)
            else Push(all, e) != [] && Push(all, e)[1..] == Push(all[1..], e)
  {
    if all[0].key == key {
      LookupFinds(all[1..], key);
      WithoutAbsent(all[1..], key);
    }
  }

  /** Dropping what does not fit before a use or after it comes to the same. */
  lemma {:induction false} FitThenPush(stored: Stored, limit: real, all: seq<Entry<Bytes>>, key: string)
    requires Faithful(stored, all)
    ensures Fit(Push(Fit(all, limit), EntryOf(stored, key)), limit) == Fit(Push(all, EntryOf(stored, key)), limit)
  {
    if all != [] && !Fits(Total(all), limit) {
      FitOfTail(all, limit);
      FitThenPush(stored, limit, all[1..], key);
      PushTail(stored, all, key);
      PushTotal(stored, all, key);
      if all[0].key != key { FitOfTail(Push(all, EntryOf(stored, key)), limit); }
    }
  }

  lemma {:induction false} FitLookup(entries: seq<Entry<Bytes>>, limit: real, key: string)
    ensures Lookup(entries, key).None? ==> Lookup(Fit(entries, limit), key).None?
  {
    if entries != [] { FitLookup(entries[1..], limit, key); }
  }

  lemma {:induction false} HeldEntryFits(entries: seq<Entry<Bytes>>, limit: real, key: string)
    requires Fits(Total(entries), limit) && Lookup(entries, key).Some?
    ensures Fits(|Lookup(entries, key).value|, limit)
  {
    WithoutTotal(entries, key);
  }

  lemma FitIsFaithful(stored: Stored, all: seq<Entry<Bytes>>, limit: real)
    requires limit > 0.0 && Faithful(stored, all)
    ensures Faithful(stored, Fit(all, limit)) && Fits(Total(Fit(all, limit)), limit)
  {
    FitIsLongest(all, limit);
  }

  lemma FitOfFitting(entries: seq<Entry<Bytes>>, limit: real)
    requires Fits(Total(entries), limit)
    ensures Fit(entries, limit) == entries
  {}

  lemma OneMoreUse(stored: Stored, limit: real, entries: seq<Entry<Bytes>>, use: Use)
    requires limit > 0.0 && Faithful(stored, entries) && Fits(Total(entries), limit)
    ensures var marks := MarkOf(stored, limit, entries, use);
            After(stored, limit, entries, use) ==
            if marks == [] then entries else Fit(Marked(stored, entries, marks[0]), limit)
  {
    match use {
      case Get(key) =>
        LookupFinds(entries, key);
        PushTotal(stored, entries, key);
        if Lookup(entries, key).Some? { FitOfFitting(Push(entries, EntryOf(stored, key)), limit); }
      case Set(key) => if !Fits(|stored(key)|, limit) { TooBigIsNotHeld(stored, limit, entries, key); }
      case Delete(key) =>
        WithoutTotal(entries, key);
        FitOfFitting(Without(entries, key), limit);
      case Clear =>
    }
  }

  lemma TooBigIsNotHeld(stored: Stored, limit: real, entries: seq<Entry<Bytes>>, key: string)
    requires Faithful(stored, entries) && Fits(Total(entries), limit) && !Fits(|stored(key)|, limit)
    ensures Without(entries, key) == entries
  {
    LookupFinds(entries, key);
    if Lookup(entries, key).Some? {
      HeldEntryFits(entries, limit, key);
    } else {
      WithoutAbsent(entries, key);
    }
  }

  /** The cache, step by step, is the recency order with what does not fit dropped at each step. */
  lemma {:induction false} RunIsKept(stored: Stored, limit: real, uses: seq<Use>)
    requires limit > 0.0
    ensures Run(stored, limit, uses) == Kept(stored, limit, Marks(stored, limit, uses))
  {
    if uses != [] {
      var init, last := uses[..|uses| - 1], uses[|uses| - 1];
      var marks, entries := Marks(stored, limit, init), Run(stored, limit, init);
      RunIsKept(stored, limit, init);
      KeptIsFaithful(stored, limit, marks);
      OneMoreUse(stored, limit, entries, last);
      var more := MarkOf(stored, limit, entries, last);
      if more == [] {
        assert marks + [] == marks;
      } else {
        assert more == [more[0]];
        RecencySnoc(stored, limit, marks, more[0]);
      }
    }
  }

  predicate NothingDropped(marks: seq<Mark>) {
    forall i :: 0 <= i < |marks| ==> !marks[i].Dropped?
  }

  /** After any run without deletions the cache holds exactly the longest end of the recency order
      that fits. */
  lemma HoldsTheMostRecent(stored: Stored, limit: real, uses: seq<Use>)
    requires limit > 0.0 && NothingDropped(Marks(stored, limit, uses))
    ensures LongestFittingSuffix(Recency(stored, Marks(stored, limit, uses)), Run(stored, limit, uses), limit)
  {
    var marks := Marks(stored, limit, uses);
    RunIsKept(stored, limit, uses);
    KeptIsFit(stored, limit, marks);
    FitIsLongest(Recency(stored, marks), limit);
  }

  lemma {:induction false} KeptIsFit(stored: Stored, limit: real, marks: seq<Mark>)
    requires limit > 0.0 && NothingDropped(marks)
    ensures Kept(stored, limit, marks) == Fit(Recency(stored, marks), limit)
  {
    if marks != [] {
      var init, last := marks[..|marks| - 1], marks[|marks| - 1];
      KeptIsFit(stored, limit, init);
      if last.Touched? {
        RecencyIsFaithful(stored, init);
        FitThenPush(stored, limit, Recency(stored, init), last.key);
      }
    }
  }

  // ---------------------------------------------------------------------------
  // Deletions leave room that nothing evicted fills
  // ---------------------------------------------------------------------------

  /** `kept` is an end of `all`. */
  predicate IsEnd(all: seq<Entry<Bytes>>, kept: seq<Entry<Bytes>>) {
    |kept| <= |all| && kept == all[|all| - |kept|..]
  }

  lemma EndOfEnd(all: seq<Entry<Bytes>>, mid: seq<Entry<Bytes>>, kept: seq<Entry<Bytes>>)
    requires IsEnd(all, mid) && IsEnd(mid, kept)
    ensures IsEnd(all, kept)
  {}

  lemma ConcatEnds(a: seq<Entry<Bytes>>, b: seq<Entry<Bytes>>)
    ensures IsEnd(a + b, b)
  {}

  lemma WithoutKeepsEnd(all: seq<Entry<Bytes>>, kept: seq<Entry<Bytes>>, key: string)
    requires DistinctKeys(all) && IsEnd(all, kept)
    ensures IsEnd(Without(all, key), Without(kept, key))
  {
    var older := all[..|all| - |kept|];
    assert all == older + kept;
    WithoutConcat(older, kept, key);
    if Lookup(older, key).Some? {
      AbsentAfter(older, kept, key);
      WithoutAbsent(kept, key);
      ConcatEnds(Without(older, key), kept);
    } else {
      ConcatEnds(older, Without(kept, key));
    }
  }

  lemma MarkedKeepsEnd(stored: Stored, all: seq<Entry<Bytes>>, kept: seq<Entry<Bytes>>, mark: Mark)
    requires DistinctKeys(all) && IsEnd(all, kept)
    ensures IsEnd(Marked(stored, all, mark), Marked(stored, kept, mark))
  {
    if !mark.Wiped? { WithoutKeepsEnd(all, kept, mark.key); }
  }

  /** After any run whatsoever the cache holds an end of the recency order, and it fits. */
  lemma HoldsAnEnd(stored: Stored, limit: real, uses: seq<Use>)
    requires limit > 0.0
    ensures IsEnd(Recency(stored, Marks(stored, limit, uses)), Run(stored, limit, uses))
    ensures Fits(Total(Run(stored, limit, uses)), limit)
  {
    RunIsKept(stored, limit, uses);
    KeptIsFaithful(stored, limit, Marks(stored, limit, uses));
    KeptIsEnd(stored, limit, Marks(stored, limit, uses));
  }

  lemma {:induction false} KeptIsEnd(stored: Stored, limit: real, marks: seq<Mark>)
    requires limit > 0.0
    ensures IsEnd(Recency(stored, marks), Kept(stored, limit, marks))
  {
    if marks != [] {
      var init, last := marks[..|marks| - 1], marks[|marks| - 1];
      var all, kept := Recency(stored, init), Kept(stored, limit, init);
      KeptIsEnd(stored, limit, init);
      RecencyIsFaithful(stored, init);
      MarkedKeepsEnd(stored, all, kept, last);
      FitIsLongest(Marked(stored, kept, last), limit);
      EndOfEnd(Marked(stored, all, last), Marked(stored, kept, last), Fit(Marked(stored, kept, last), limit));
    }
  }

  lemma {:induction false} TotalFalls(all: seq<Entry<Bytes>>, i: nat, j: nat)
    requires i <= j <= |all|
    ensures Total(all[i..]) >= Total(all[j..])
    decreases j - i
  {
    if i < j {
      assert all[i..][1..] == all[i + 1..];
      TotalFalls(all, i + 1, j);
    }
  }

  /** The entry before `kept`, if there is one, would not fit as well. */
  predicate NoRoom(all: seq<Entry<Bytes>>, kept: seq<Entry<Bytes>>, limit: real) {
    |kept| >= |all| || !Fits(Total(all[|all| - |kept| - 1..]), limit)
  }

  /** It is the longest one that fits exactly if there is no room for one entry more. */
  lemma LongestExactly(stored: Stored, limit: real, uses: seq<Use>, all: seq<Entry<Bytes>>, kept: seq<Entry<Bytes>>)
    requires limit > 0.0 && all == Recency(stored, Marks(stored, limit, uses)) && kept == Run(stored, limit, uses)
    ensures LongestFittingSuffix(all, kept, limit) <==> NoRoom(all, kept, limit)
  {
    HoldsAnEnd(stored, limit, uses);
    LongestEnd(all, kept, limit);
  }

  lemma LongestEnd(all: seq<Entry<Bytes>>, kept: seq<Entry<Bytes>>, limit: real)
    requires IsEnd(all, kept) && Fits(Total(kept), limit)
    ensures LongestFittingSuffix(all, kept, limit) <==> NoRoom(all, kept, limit)
  {
    if |kept| < |all| {
      var last := |all| - |kept| - 1;
      forall j | 0 <= j <= last && !Fits(Total(all[last..]), limit) ensures !Fits(Total(all[j..]), limit) {
        TotalFalls(all, j, last);
      }
    }
  }

  /** For example, what a deletion frees stays empty though an entry evicted before would fit again. */
  lemma DeletionLeavesRoom(stored: Stored, a: string, b: string)
    requires a != b && |stored(a)| == 1 && |stored(b)| == 1
    ensures var uses := [Set(a)] + [Set(b)] + [Delete(b)];
            Run(stored, 1.0, uses) == [] && Recency(stored, Marks(stored, 1.0, uses)) == [EntryOf(stored, a)]
  {
    var x, y := EntryOf(stored, a), EntryOf(stored, b);
    OnTwo(x, y);
    OneMore(stored, 1.0, [], Set(a));
    assert [] + [Set(a)] == [Set(a)] && [] + [Touched(a)] == [Touched(a)];
    OneMore(stored, 1.0, [Set(a)], Set(b));
    assert Run(stored, 1.0, [Set(a)]) == Fit([x], 1.0) == [x];
    assert Run(stored, 1.0, [Set(a)] + [Set(b)]) == Fit([x, y], 1.0) == Fit([y], 1.0) == [y];
    OneMore(stored, 1.0, [Set(a)] + [Set(b)], Delete(b));
    OrderOfTwo(stored, a, b);
  }

  lemma OneMore(stored: Stored, limit: real, uses: seq<Use>, use: Use)
    ensures Run(stored, limit, uses + [use]) == After(stored, limit, Run(stored, limit, uses), use)
    ensures Marks(stored, limit, uses + [use]) == Marks(stored, limit, uses) + MarkOf(stored, limit, Run(stored, limit, uses), use)
  {
    assert (uses + [use])[..|uses|] == uses;
  }

  lemma OrderOfTwo(stored: Stored, a: string, b: string)
    requires a != b
    ensures Recency(stored, [Touched(a)] + [Touched(b)] + [Dropped(b)]) == [EntryOf(stored, a)]
  {
    var x, y := EntryOf(stored, a), EntryOf(stored, b);
    RecencySnoc(stored, 1.0, [Touched(a)], Touched(b));
    RecencySnoc(stored, 1.0, [Touched(a)] + [Touched(b)], Dropped(b));
    assert Recency(stored, [Touched(a)]) == [x];
    OnTwo(x, y);
  }

  lemma OnTwo(x: Entry<Bytes>, y: Entry<Bytes>)
    requires x.key != y.key
    ensures Push([], x) == [x] && Push([x], y) == [x, y] && Without([x, y], y.key) == [x] && Without([y], y.key) == []
    ensures Total([x]) == |x.value| && Total([y]) == |y.value| && Total([x, y]) == |x.value| + |y.value| && [x, y][1..] == [y]
  {
    assert [x][1..] == [] && [y][1..] == [] && [x, y][1..] == [y];
    assert Without([x], y.key) == [x] + Without([], y.key) == [x];
    assert Without([x, y], y.key) == [x] + Without([y], y.key);
  }

  // ---------------------------------------------------------------------------
  // How long a key survives
  // ---------------------------------------------------------------------------

  lemma AbsentAfter(a: seq<Entry<Bytes>>, b: seq<Entry<Bytes>>, key: string)
    requires DistinctKeys(a + b) && Lookup(a, key).Some?
    ensures Lookup(b, key).None?
  {
    LookupFinds(a, key);
    LookupFinds(b, key);
    var i :| 0 <= i < |a| && a[i].key == key;
    forall j | 0 <= j < |b| ensures b[j].key != key {
      assert (a + b)[i] == a[i] && (a + b)[|a| + j] == b[j];
    }
  }

  lemma {:induction false} StillAbsent(entries: seq<Entry<Bytes>>, gone: string, key: string)
    requires Lookup(entries, key).None?
    ensures Lookup(Without(entries, gone), key).None?
  {
    if entries != [] && entries[0].key != gone { StillAbsent(entries[1..], gone, key); }
  }

  /** Taking another key out leaves this one in place. */
  lemma WithoutAfter(older: seq<Entry<Bytes>>, e: Entry<Bytes>, newer: seq<Entry<Bytes>>, key: string) returns (rest: seq<Entry<Bytes>>)
    requires DistinctKeys(older + ([e] + newer)) && key != e.key && Lookup(older, e.key).None?
    ensures Without(older + ([e] + newer), key) == rest + ([e] + Without(newer, key)) && Lookup(rest, e.key).None?
  {
    WithoutConcat(older, [e] + newer, key);
    WithoutConcat([e], newer, key);
    if Lookup(older, key).Some? {
      rest := Without(older, key);
      AbsentAfter(older, [e] + newer, key);
      LookupConcat([e], newer, key);
      WithoutAbsent(newer, key);
      StillAbsent(older, key, e.key);
    } else {
      rest := older;
    }
  }

  /** Marks that neither touch the key nor take it away. */
  predicate Leaves(marks: seq<Mark>, key: string) {
    forall i :: 0 <= i < |marks| ==> !marks[i].Wiped? && marks[i].key != key
  }

  /** The key would have fitted beside what was used since, at every moment. */
  predicate FitsThroughout(stored: Stored, limit: real, key: string, since: seq<Mark>) {
    forall n :: 0 <= n <= |since| ==> FitsAt(stored, limit, key, since, n)
  }

  predicate FitsAt(stored: Stored, limit: real, key: string, since: seq<Mark>, n: nat)
    requires n <= |since|
  {
    Fits(|stored(key)| + Total(Recency(stored, since[..n])), limit)
  }

  /** A key lies in the list with exactly these entries after it. */
  ghost predicate Followed(entries: seq<Entry<Bytes>>, e: Entry<Bytes>, newer: seq<Entry<Bytes>>) {
    exists older :: Splits(entries, older, e, newer)
  }

  predicate Splits(entries: seq<Entry<Bytes>>, older: seq<Entry<Bytes>>, e: Entry<Bytes>, newer: seq<Entry<Bytes>>) {
    entries == older + ([e] + newer) && Lookup(older, e.key).None?
  }

  lemma FollowedIsHeld(entries: seq<Entry<Bytes>>, e: Entry<Bytes>, newer: seq<Entry<Bytes>>)
    requires Followed(entries, e, newer)
    ensures Lookup(entries, e.key) == Some(e.value)
  {
    var older :| Splits(entries, older, e, newer);
    LookupConcat(older, [e] + newer, e.key);
  }

  /** Another key's mark leaves the key in place and does to what follows it what it does to all. */
  lemma MarkAfter(stored: Stored, entries: seq<Entry<Bytes>>, e: Entry<Bytes>, newer: seq<Entry<Bytes>>, mark: Mark)
    requires DistinctKeys(entries) && Followed(entries, e, newer) && !mark.Wiped? && mark.key != e.key
    ensures Followed(Marked(stored, entries, mark), e, Marked(stored, newer, mark))
  {
    var older :| Splits(entries, older, e, newer);
    var rest := WithoutAfter(older, e, newer, mark.key);
    if mark.Touched? {
      var m := EntryOf(stored, mark.key);
      assert rest + ([e] + Without(newer, m.key)) + [m] == rest + ([e] + (Without(newer, m.key) + [m]));
      assert Splits(Push(entries, m), rest, e, Push(newer, m));
    } else {
      assert Splits(Without(entries, mark.key), rest, e, Without(newer, mark.key));
    }
  }

  lemma TotalSplits(older: seq<Entry<Bytes>>, e: Entry<Bytes>, newer: seq<Entry<Bytes>>)
    ensures Total(older + ([e] + newer)) == Total(older) + (|e.value| + Total(newer))
  {
    TotalConcat(older, [e] + newer);
    TotalConcat([e], newer);
  }

  /** Eviction keeps the key exactly when it fits with what follows it. */
  lemma {:induction false} FitAfter(older: seq<Entry<Bytes>>, e: Entry<Bytes>, newer: seq<Entry<Bytes>>, limit: real)
    requires Lookup(older, e.key).None? && Lookup(newer, e.key).None?
    ensures var kept := Fit(older + ([e] + newer), limit);
            if Fits(|e.value| + Total(newer), limit) then Followed(kept, e, newer) else Lookup(kept, e.key).None?
  {
    var all := older + ([e] + newer);
    TotalSplits(older, e, newer);
    if Fits(Total(all), limit) {
      assert Splits(all, older, e, newer);
    } else if older == [] {
      assert all == [e] + newer && all[1..] == newer;
      FitLookup(newer, limit, e.key);
    } else {
      assert all[1..] == older[1..] + ([e] + newer);
      FitAfter(older[1..], e, newer, limit);
    }
  }

  lemma FollowedFits(entries: seq<Entry<Bytes>>, e: Entry<Bytes>, newer: seq<Entry<Bytes>>, limit: real)
    requires DistinctKeys(entries) && Followed(entries, e, newer)
    ensures if Fits(|e.value| + Total(newer), limit) then Followed(Fit(entries, limit), e, newer)
            else Lookup(Fit(entries, limit), e.key).None?
  {
    var older :| Splits(entries, older, e, newer);
    LookupConcat([e], newer, e.key);
    SplitsApart(older, e, newer);
    FitAfter(older, e, newer, limit);
  }

  lemma SplitsApart(older: seq<Entry<Bytes>>, e: Entry<Bytes>, newer: seq<Entry<Bytes>>)
    requires DistinctKeys(older + ([e] + newer))
    ensures Lookup(newer, e.key).None?
  {
    var all := older + ([e] + newer);
    LookupFinds(newer, e.key);
    forall j | 0 <= j < |newer| ensures newer[j].key != e.key {
      assert all[|older|] == e && all[|older| + 1 + j] == newer[j];
    }
  }

  /** What the cache holds of a key after its last use: it is followed by what was used since, or
      gone once it did not fit beside that. */
  ghost predicate HeldBefore(stored: Stored, limit: real, entries: seq<Entry<Bytes>>, key: string, since: seq<Mark>) {
    if FitsThroughout(stored, limit, key, since) then Followed(entries, EntryOf(stored, key), Recency(stored, since))
    else Lookup(entries, key).None?
  }

  lemma JustTouched(stored: Stored, limit: real, before: seq<Mark>, key: string)
    requires limit > 0.0
    ensures HeldBefore(stored, limit, Kept(stored, limit, before + [Touched(key)]), key, [])
  {
    var entries := Kept(stored, limit, before);
    RecencySnoc(stored, limit, before, Touched(key));
    KeptIsFaithful(stored, limit, before);
    PushedIsLast(stored, entries, key);
    PushIsFaithful(stored, entries, key);
    FollowedFits(Push(entries, EntryOf(stored, key)), EntryOf(stored, key), [], limit);
    FitsFromStart(stored, limit, key);
  }

  lemma PushedIsLast(stored: Stored, entries: seq<Entry<Bytes>>, key: string)
    requires Faithful(stored, entries)
    ensures Followed(Push(entries, EntryOf(stored, key)), EntryOf(stored, key), [])
  {
    var e := EntryOf(stored, key);
    WithoutRemoves(entries, key);
    LookupFinds(Without(entries, key), key);
    assert Splits(Push(entries, e), Without(entries, key), e, []);
  }

  lemma FitsFromStart(stored: Stored, limit: real, key: string)
    ensures FitsThroughout(stored, limit, key, []) <==> Fits(|stored(key)|, limit)
  {
    assert FitsAt(stored, limit, key, [], 0) <==> Fits(|stored(key)|, limit);
  }

  lemma ThroughoutSnoc(stored: Stored, limit: real, key: string, since: seq<Mark>)
    requires since != []
    ensures FitsThroughout(stored, limit, key, since) <==>
            FitsThroughout(stored, limit, key, since[..|since| - 1]) && FitsAt(stored, limit, key, since, |since|)
  {
    var init := since[..|since| - 1];
    forall n | 0 <= n <= |init| ensures FitsAt(stored, limit, key, init, n) == FitsAt(stored, limit, key, since, n) {
      assert init[..n] == since[..n];
    }
  }

  lemma LostStaysLost(stored: Stored, limit: real, entries: seq<Entry<Bytes>>, key: string, mark: Mark)
    requires Lookup(entries, key).None? && mark != Touched(key)
    ensures Lookup(Fit(Marked(stored, entries, mark), limit), key).None?
  {
    if !mark.Wiped? {
      StillAbsent(entries, mark.key, key);
      LookupConcat(Without(entries, mark.key), [EntryOf(stored, mark.key)], key);
    }
    FitLookup(Marked(stored, entries, mark), limit, key);
  }

  lemma OneMoreMark(stored: Stored, limit: real, entries: seq<Entry<Bytes>>, key: string, since: seq<Mark>)
    requires limit > 0.0 && Faithful(stored, entries) && since != [] && Leaves(since, key)
    requires HeldBefore(stored, limit, entries, key, since[..|since| - 1])
    ensures HeldBefore(stored, limit, Fit(Marked(stored, entries, since[|since| - 1]), limit), key, since)
  {
    var init, mark := since[..|since| - 1], since[|since| - 1];
    var e, newer := EntryOf(stored, key), Recency(stored, since);
    ThroughoutSnoc(stored, limit, key, since);
    if FitsThroughout(stored, limit, key, init) {
      assert since[..|since|] == since;
      MarkAfter(stored, entries, e, Recency(stored, init), mark);
      MarkedIsFaithful(stored, entries, mark);
      FollowedFits(Marked(stored, entries, mark), e, newer, limit);
    } else {
      LostStaysLost(stored, limit, entries, key, mark);
    }
  }

  lemma {:induction false} HeldSince(stored: Stored, limit: real, upTo: seq<Mark>, key: string, since: seq<Mark>)
    requires limit > 0.0 && Leaves(since, key) && upTo != [] && upTo[|upTo| - 1] == Touched(key)
    ensures HeldBefore(stored, limit, Kept(stored, limit, upTo + since), key, since)
    decreases |since|
  {
    if since == [] {
      assert upTo + since == upTo[..|upTo| - 1] + [Touched(key)];
      JustTouched(stored, limit, upTo[..|upTo| - 1], key);
    } else {
      var init, mark := since[..|since| - 1], since[|since| - 1];
      HeldSince(stored, limit, upTo, key, init);
      assert upTo + since == upTo + init + [mark];
      RecencySnoc(stored, limit, upTo + init, mark);
      KeptIsFaithful(stored, limit, upTo + init);
      OneMoreMark(stored, limit, Kept(stored, limit, upTo + init), key, since);
    }
  }

  /** After any run, a key last used and not deleted since is held exactly if its size plus the sizes
      of the distinct keys used since, less those deleted again, has fitted at every moment. */
  lemma SurvivesExactly(stored: Stored, limit: real, uses: seq<Use>, before: seq<Mark>, key: string, since: seq<Mark>)
    requires limit > 0.0 && Leaves(since, key)
    requires Marks(stored, limit, uses) == before + [Touched(key)] + since
    ensures Lookup(Run(stored, limit, uses), key).Some? <==> FitsThroughout(stored, limit, key, since)
  {
    RunIsKept(stored, limit, uses);
    HeldSince(stored, limit, before + [Touched(key)], key, since);
    if FitsThroughout(stored, limit, key, since) {
      FollowedIsHeld(Run(stored, limit, uses), EntryOf(stored, key), Recency(stored, since));
    }
  }

  /** Without deletions the last moment decides. */
  lemma {:induction false} LastMomentDecides(stored: Stored, limit: real, key: string, since: seq<Mark>)
    requires NothingDropped(since) && Leaves(since, key)
    ensures FitsThroughout(stored, limit, key, since) <==> FitsAt(stored, limit, key, since, |since|)
  {
    if since != [] {
      var init := since[..|since| - 1];
      LastMomentDecides(stored, limit, key, init);
      ThroughoutSnoc(stored, limit, key, since);
      FitsLater(stored, limit, key, since);
    }
  }

  lemma FitsLater(stored: Stored, limit: real, key: string, since: seq<Mark>)
    requires since != [] && since[|since| - 1].Touched?
    ensures FitsAt(stored, limit, key, since, |since|) ==> FitsAt(stored, limit, key, since[..|since| - 1], |since| - 1)
  {
    var init, last := since[..|since| - 1], since[|since| - 1];
    assert since[..|since|] == since && init[..|init|] == init;
    RecencyIsFaithful(stored, init);
    PushTotal(stored, Recency(stored, init), last.key);
  }

  /** A key not used since the beginning, its deletion or the last clear is not held. */
  lemma NeverUsedNeverHeld(stored: Stored, limit: real, uses: seq<Use>, before: seq<Mark>, key: string, since: seq<Mark>)
    requires limit > 0.0 && Touched(key) !in since && Marks(stored, limit, uses) == before + since
    requires before != [] ==> before[|before| - 1] in {Dropped(key), Wiped}
    ensures Lookup(Run(stored, limit, uses), key).None?
  {
    RunIsKept(stored, limit, uses);
    AbsentSince(stored, limit, before, key, since);
  }

  lemma {:induction false} AbsentSince(stored: Stored, limit: real, before: seq<Mark>, key: string, since: seq<Mark>)
    requires limit > 0.0 && Touched(key) !in since
    requires before != [] ==> before[|before| - 1] in {Dropped(key), Wiped}
    ensures Lookup(Kept(stored, limit, before + since), key).None?
    decreases |since|
  {
    if since == [] {
      assert before + since == before;
      if before != [] { JustDropped(stored, limit, before, key); }
    } else {
      var init, mark := since[..|since| - 1], since[|since| - 1];
      assert since == init + [mark] && before + since == before + init + [mark];
      AbsentSince(stored, limit, before, key, init);
      RecencySnoc(stored, limit, before + init, mark);
      LostStaysLost(stored, limit, Kept(stored, limit, before + init), key, mark);
    }
  }

  lemma JustDropped(stored: Stored, limit: real, before: seq<Mark>, key: string)
    requires limit > 0.0 && before != [] && before[|before| - 1] in {Dropped(key), Wiped}
    ensures Lookup(Kept(stored, limit, before), key).None?
  {
    var entries, mark := Kept(stored, limit, before[..|before| - 1]), before[|before| - 1];
    KeptIsFaithful(stored, limit, before[..|before| - 1]);
    WithoutKeeps(entries, key, key);
    FitLookup(Marked(stored, entries, mark), limit, key);
  }
}
