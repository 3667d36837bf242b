/** Loading template images through the cache: downloads of one key in progress are shared. */
module ImageLoader {
  import opened ByteLruCache
  import opened ByteLruRuns
  import opened OrderedMap
  import opened Prelude

  /** What a caller gets: the image at once, or the download it waits for. */
  datatype Answer = Held(image: Bytes) | Waits(download: nat)

  lemma PushIsFaithfulTo(stored: Stored, entries: seq<Entry<Bytes>>, e: Entry<Bytes>)
    requires Faithful(stored, entries) && e == EntryOf(stored, e.key)
    ensures Faithful(stored, Push(entries, e)) && Faithful(stored, Without(entries, e.key))
    ensures Lookup(Push(entries, e), e.key) == Some(e.value)
  {
    PushIsFaithful(stored, entries, e.key);
    WithoutRemoves(entries, e.key);
    LookupOfLast(Push(entries, e));
  }

  lemma LookupIsFaithful(stored: Stored, entries: seq<Entry<Bytes>>, key: string)
    requires Faithful(stored, entries) && Lookup(entries, key).Some?
    ensures Lookup(entries, key) == Some(stored(key))
  {
    LookupFinds(entries, key);
  }

  /** What a push, a removal and an eviction leave unknown. */
  lemma StaysOut(entries: seq<Entry<Bytes>>, e: Entry<Bytes>, limit: real, key: string)
    requires DistinctKeys(entries) && Lookup(entries, key).None? && key != e.key
    ensures Lookup(Push(entries, e), key).None? && Lookup(Without(entries, e.key), key).None?
    ensures Lookup(Fit(Push(entries, e), limit), key).None?
  {
    WithoutKeeps(entries, e.key, key);
    LookupConcat(Without(entries, e.key), [e], key);
    FitLookup(Push(entries, e), limit, key);
  }

  ghost predicate NoneHeld(entries: seq<Entry<Bytes>>, keys: set<string>) {
    forall k :: k in keys ==> Lookup(entries, k).None?
  }

  lemma NoneHeldStays(entries: seq<Entry<Bytes>>, keys: set<string>, e: Entry<Bytes>, limit: real)
    requires DistinctKeys(entries) && NoneHeld(entries, keys) && e.key !in keys
    ensures NoneHeld(Push(entries, e), keys) && NoneHeld(Without(entries, e.key), keys)
    ensures NoneHeld(Fit(Push(entries, e), limit), keys)
  {
    forall k | k in keys
      ensures Lookup(Push(entries, e), k).None? && Lookup(Without(entries, e.key), k).None?
      ensures Lookup(Fit(Push(entries, e), limit), k).None?
    {
      StaysOut(entries, e, limit, k);
    }
  }

  /** Every promise kept is that of one download, in progress or refused. */
  ghost predicate Booked(inFlight: map<string, nat>, next: nat, unsettled: map<nat, string>, refused: map<nat, string>) {
    && unsettled.Keys !! refused.Keys
    && (forall k :: k in inFlight ==> var d := inFlight[k]; (d in unsettled && unsettled[d] == k) || (d in refused && refused[d] == k))
    && (forall d :: d in unsettled ==> d < next && unsettled[d] in inFlight && inFlight[unsettled[d]] == d)
    && (forall d :: d in refused ==> d < next && refused[d] in inFlight && inFlight[refused[d]] == d)
  }

  lemma StartedIsBooked(inFlight: map<string, nat>, next: nat, unsettled: map<nat, string>, refused: map<nat, string>, key: string)
    requires Booked(inFlight, next, unsettled, refused) && key !in inFlight
    ensures key !in unsettled.Values && key !in refused.Values
    ensures Booked(inFlight[key := next], next + 1, unsettled[next := key], refused)
    ensures Booked((inFlight - {key})[key := next], next + 1, unsettled, refused[next := key])
  {}

  lemma SettledIsBooked(inFlight: map<string, nat>, next: nat, unsettled: map<nat, string>, refused: map<nat, string>, d: nat)
    requires Booked(inFlight, next, unsettled, refused) && d in unsettled
    ensures Booked(inFlight - {unsettled[d]}, next, unsettled - {d}, refused)
    ensures unsettled[d] !in refused.Values && unsettled[d] !in (unsettled - {d}).Values
  {}

  class Loader {
    const cache: Cache
    /** The object the storage holds under each key, which is never overwritten. */
    const stored: Stored
    /** The promise kept for a key, by the number of its download. */
    var inFlight: map<string, nat>
    var nextDownload: nat
    /** Downloads started and not settled, with their keys: the promises the runtime still holds. */
    var unsettled: map<nat, string>
    /** Downloads whose very start failed, with their keys: each failed before its promise was kept,
        and nothing takes that promise away again. */
    ghost var refused: map<nat, string>

    ghost predicate Valid()
      reads this, cache
    {
      && cache.Valid() && Faithful(stored, cache.entries) && NoneHeld(cache.entries, refused.Values)
      && Booked(inFlight, nextDownload, unsettled, refused)
    }

    ghost predicate Download(d: nat, key: string)
      reads this
    {
      (d in unsettled && unsettled[d] == key) || (d in refused && refused[d] == key)
    }

    constructor (cache: Cache, stored: Stored)
      requires cache.Valid() && cache.entries == []
      ensures Valid() && this.cache == cache && this.stored == stored && unsettled == map[] && refused == map[]
    {
      this.cache := cache;
      this.stored := stored;
      inFlight := map[];
      nextDownload := 0;
      unsettled, refused := map[], map[];
    }

    /** Is a download of the key in progress? */
    ghost predicate Downloading(key: string)
      reads this
    {
      key in unsettled.Values
    }

    /** Has the start of a download of the key ever failed? */
    ghost predicate Refused(key: string)
      reads this
    {
      key in refused.Values
    }

    /** A cached image at once; else the one download of the key in progress, started only when there
        is none. Where a start has failed there is no other: every request gets that failure.
        `begins`: the storage can be had, so that a download gets under way. */
    method Request(key: string, begins: bool) returns (answer: Answer)
      requires Valid()
      modifies this, cache
      ensures Valid()
      ensures answer.Held? <==> Lookup(old(cache.entries), key).Some?
      ensures answer.Held? ==> answer.image == stored(key)
      ensures answer.Waits? ==> Download(answer.download, key) && cache.entries == old(cache.entries)
      ensures if answer.Held? || old(Downloading(key) || Refused(key)) then unsettled == old(unsettled) && refused == old(refused)
              else answer.download == old(nextDownload)
                   && unsettled == (if begins then old(unsettled)[answer.download := key] else old(unsettled))
                   && refused == (if begins then old(refused) else old(refused)[answer.download := key])
    {
      var cached := cache.Get(key);
      if cached.Some? {
        LookupIsFaithful(stored, old(cache.entries), key);
        PushIsFaithfulTo(stored, old(cache.entries), Entry(key, cached.value));
        NoneHeldStays(old(cache.entries), refused.Values, Entry(key, cached.value), cache.maxBytes);
        return Held(cached.value);
      }
      if key in inFlight { return Waits(inFlight[key]); }
      answer := Waits(nextDownload);
      StartedIsBooked(inFlight, nextDownload, unsettled, refused, key);
      if begins {
        unsettled := unsettled[nextDownload := key];
      } else {
        inFlight := inFlight - {key};
        refused := refused[nextDownload := key];
      }
      inFlight := inFlight[key := nextDownload];
      nextDownload := nextDownload + 1;
    }

    /** A download settles, with the object or an error: the object is cached if it fits, an error
        caches nothing, and the next request of the key may download again. */
    method Settle(download: nat, key: string, downloaded: Option<Bytes>)
      requires Valid() && download in unsettled && unsettled[download] == key
      requires downloaded.Some? ==> downloaded.value == stored(key)
      modifies this, cache
      ensures Valid()
      ensures unsettled == old(unsettled) - {download} && refused == old(refused)
      ensures !Downloading(key) && !Refused(key)
      ensures downloaded.None? ==> cache.entries == old(cache.entries)
      ensures downloaded.Some? && Fits(|downloaded.value|, cache.maxBytes) ==> Lookup(cache.entries, key) == downloaded
    {
      SettledIsBooked(inFlight, nextDownload, unsettled, refused, download);
      if downloaded.Some? {
        ghost var e := Entry(key, downloaded.value);
        PushIsFaithfulTo(stored, cache.entries, e);
        FitIsFaithful(stored, Push(cache.entries, e), cache.maxBytes);
        NoneHeldStays(cache.entries, refused.Values, e, cache.maxBytes);
        if Fits(|e.value|, cache.maxBytes) { Pushed(cache.entries, e, cache.maxBytes); }
        var _ := cache.Set(key, downloaded.value);
      }
      inFlight := inFlight - {key};
      unsettled := unsettled - {download};
    }
  }

  /** Never two downloads of one key at a time. */
  lemma OneDownloadPerKey(loader: Loader, a: nat, b: nat, key: string)
    requires loader.Valid() && loader.Download(a, key) && loader.Download(b, key)
    ensures a == b
  {}

  /** A key whose download failed to start is neither cached nor downloading. */
  lemma RefusedIsIdle(loader: Loader, key: string)
    requires loader.Valid() && loader.Refused(key)
    ensures Lookup(loader.cache.entries, key).None? && !loader.Downloading(key)
  {}

  // ---------------------------------------------------------------------------
  // Whole runs
  // ---------------------------------------------------------------------------

  /** A request, with whether the storage can be had then, or the end of a download that is under way,
      with whether its object arrived. Settling what is not under way does nothing. */
  datatype Call = Asks(key: string, begins: bool) | Ends(download: nat, arrived: bool)

  /** Every refusal of one is one of the other. */
  ghost predicate StillRefused(before: map<nat, string>, now: map<nat, string>) {
    forall d :: d in before ==> d in now && now[d] == before[d]
  }

  /** The promise of a refused download is all its key is answered with. */
  ghost predicate AnsweredRefused(refused: map<nat, string>, calls: seq<Call>, answers: seq<Option<Answer>>)
    requires |answers| <= |calls|
  {
    forall d, i :: d in refused && 0 <= i < |answers| && calls[i].Asks? && calls[i].key == refused[d] ==>
                     answers[i] == Some(Waits(d))
  }

  /** One call: refusals stay, and a request of a refused key is answered with its refused download. */
  method Handle(loader: Loader, call: Call) returns (answer: Option<Answer>)
    requires loader.Valid()
    modifies loader, loader.cache
    ensures loader.Valid() && StillRefused(old(loader.refused), loader.refused)
    ensures answer.Some? <==> call.Asks?
    ensures forall d :: d in old(loader.refused) && call.Asks? && call.key == old(loader.refused)[d] ==> answer == Some(Waits(d))
  {
    ghost var before := loader.refused;
    match call {
      case Asks(key, begins) =>
        ghost var refusedKey := loader.Refused(key);
        if refusedKey { RefusedIsIdle(loader, key); }
        var given := loader.Request(key, begins);
        answer := Some(given);
        forall d | d in before && before[d] == key ensures given == Waits(d) {
          assert refusedKey;
          OneDownloadPerKey(loader, given.download, d, key);
        }
      case Ends(download, arrived) =>
        answer := None;
        if download in loader.unsettled {
          var key := loader.unsettled[download];
          loader.Settle(download, key, if arrived then Some(loader.stored(key)) else None);
        }
    }
  }

  /** Whatever is requested and whatever settles afterwards, a key whose download once failed to start
      stays that way, and every request of it is answered with that one failure. */
  method Serve(loader: Loader, calls: seq<Call>) returns (answers: seq<Option<Answer>>)
    requires loader.Valid()
    modifies loader, loader.cache
    ensures loader.Valid() && |answers| == |calls|
    ensures StillRefused(old(loader.refused), loader.refused)
    ensures AnsweredRefused(old(loader.refused), calls, answers)
    ensures forall key :: key in old(loader.refused).Values ==> Lookup(loader.cache.entries, key).None? && !loader.Downloading(key)
  {
    ghost var before := loader.refused;
    answers := [];
    for i := 0 to |calls|
      invariant loader.Valid() && |answers| == i
      invariant StillRefused(before, loader.refused) && AnsweredRefused(before, calls, answers)
    {
      var answer := Handle(loader, calls[i]);
      answers := answers + [answer];
    }
    forall key | key in before.Values ensures Lookup(loader.cache.entries, key).None? && !loader.Downloading(key) {
      var d :| d in before && before[d] == key;
      assert loader.refused[d] == key;
      RefusedIsIdle(loader, key);
    }
  }
}
