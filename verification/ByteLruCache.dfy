/** Template images by key, bounded by their total bytes, least recently used evicted first. */
module ByteLruCache {
  import opened OrderedMap
  import opened Prelude

  type Bytes = seq<bv8>

  function Total(entries: seq<Entry<Bytes>>): nat {
    if entries == [] then 0 else |entries[0].value| + Total(entries[1..])
  }

  /** The limit may be any positive number, whole or not. */
  predicate Fits(bytes: nat, limit: real) {
    bytes as real <= limit
  }

  /** What is left after dropping entries from the front until the rest fits. */
  function Fit(entries: seq<Entry<Bytes>>, limit: real): seq<Entry<Bytes>> {
    if entries == [] || Fits(Total(entries), limit) then entries else Fit(entries[1..], limit)
  }

  /** `kept` is the longest end of `all` that fits. */
  ghost predicate LongestFittingSuffix(all: seq<Entry<Bytes>>, kept: seq<Entry<Bytes>>, limit: real) {
    && |kept| <= |all| && kept == all[|all| - |kept|..] && Fits(Total(kept), limit)
    && forall j :: 0 <= j < |all| - |kept| ==> !Fits(Total(all[j..]), limit)
  }

  lemma {:induction false} FitIsLongest(all: seq<Entry<Bytes>>, limit: real)
    requires limit > 0.0
    ensures LongestFittingSuffix(all, Fit(all, limit), limit)
  {
    if all != [] && !Fits(Total(all), limit) {
      FitIsLongest(all[1..], limit);
      var kept := Fit(all, limit);
      forall j | 0 <= j < |all| - |kept| ensures !Fits(Total(all[j..]), limit) {
        if j > 0 { assert all[j..] == all[1..][j - 1..]; } else { assert all[0..] == all; }
      }
    } else {
      assert all[0..] == all;
    }
  }

  lemma {:induction false} TotalConcat(a: seq<Entry<Bytes>>, b: seq<Entry<Bytes>>)
    ensures Total(a + b) == Total(a) + Total(b)
  {
    if a == [] {
      assert a + b == b;
    } else {
      TotalConcat(a[1..], b);
      assert (a + b)[1..] == a[1..] + b;
    }
  }

  lemma {:induction false} WithoutTotal(entries: seq<Entry<Bytes>>, key: string)
    ensures Total(entries) ==
            Total(Without(entries, key)) + match Lookup(entries, key) case Some(data) => |data| case None => 0
  {
    if entries != [] && entries[0].key != key {
      WithoutTotal(entries[1..], key);
      assert Without(entries, key)[1..] == Without(entries[1..], key);
    }
  }

  lemma PushKeepsDistinct(entries: seq<Entry<Bytes>>, e: Entry<Bytes>)
    requires DistinctKeys(entries)
    ensures DistinctKeys(Without(entries, e.key) + [e])
  {
    WithoutRemoves(entries, e.key);
    var rest := Without(entries, e.key);
    forall i | 0 <= i < |rest| ensures rest[i].key != e.key { assert rest[i] in rest; }
  }

  /** The newest entry survives the eviction it causes. */
  lemma {:induction false} LastIsKept(all: seq<Entry<Bytes>>, limit: real)
    requires all != [] && Fits(|all[|all| - 1].value|, limit)
    ensures Fit(all, limit) != [] && Fit(all, limit)[|Fit(all, limit)| - 1] == all[|all| - 1]
  {
    if |all| > 1 { LastIsKept(all[1..], limit); } else { assert all == [all[0]] && Total(all[1..]) == 0; }
  }

  ghost predicate Held(entries: seq<Entry<Bytes>>, limit: real) {
    DistinctKeys(entries) && Fits(Total(entries), limit)
  }

  lemma SuffixKeepsDistinct(all: seq<Entry<Bytes>>, limit: real)
    requires limit > 0.0 && DistinctKeys(all)
    ensures Held(Fit(all, limit), limit)
  {
    FitIsLongest(all, limit);
  }

  /** The list after a new entry is added. */
  function Push(entries: seq<Entry<Bytes>>, e: Entry<Bytes>): seq<Entry<Bytes>> {
    Without(entries, e.key) + [e]
  }

  lemma PushedIsHeld(entries: seq<Entry<Bytes>>, e: Entry<Bytes>, limit: real)
    requires limit > 0.0 && DistinctKeys(entries)
    ensures Total(Push(entries, e)) == Total(Without(entries, e.key)) + |e.value|
    ensures Held(Fit(Push(entries, e), limit), limit)
  {
    PushKeepsDistinct(entries, e);
    TotalConcat(Without(entries, e.key), [e]);
    SuffixKeepsDistinct(Push(entries, e), limit);
  }

  /** A stored entry is found again, and what is kept beside it is the longest end of the recency
      order that fits. */
  lemma Pushed(entries: seq<Entry<Bytes>>, e: Entry<Bytes>, limit: real)
    requires limit > 0.0 && DistinctKeys(entries) && Fits(|e.value|, limit)
    ensures LongestFittingSuffix(Push(entries, e), Fit(Push(entries, e), limit), limit)
    ensures Lookup(Fit(Push(entries, e), limit), e.key) == Some(e.value)
  {
    var all := Push(entries, e);
    PushedIsHeld(entries, e, limit);
    LastIsKept(all, limit);
    LookupOfLast(Fit(all, limit));
    FitIsLongest(all, limit);
  }

  // ---------------------------------------------------------------------------
  // The cache
  // ---------------------------------------------------------------------------

  /** `entries` is the Map in insertion order; `bytes` the running total. */
  class Cache {
    const maxBytes: real
    var entries: seq<Entry<Bytes>>
    var bytes: int

    ghost predicate Valid()
      reads this
    {
      maxBytes > 0.0 && bytes == Total(entries) && Held(entries, maxBytes)
    }

    constructor (maxBytes: real)
      requires maxBytes > 0.0
      ensures Valid() && this.maxBytes == maxBytes && entries == []
    {
      this.maxBytes := maxBytes;
      entries := [];
      bytes := 0;
    }

    method Get(key: string) returns (data: Option<Bytes>)
      requires Valid()
      modifies this
      ensures Valid()
      ensures data == Lookup(old(entries), key)
      ensures entries == match data
                         case None => old(entries)
                         case Some(found) => Push(old(entries), Entry(key, found))
    {
      data := Lookup(entries, key);
      if data.Some? {
        PushKeepsDistinct(entries, Entry(key, data.value));
        WithoutTotal(entries, key);
        TotalConcat(Without(entries, key), [Entry(key, data.value)]);
        entries := Without(entries, key);
        entries := entries + [Entry(key, data.value)];
      }
    }

    method Delete(key: string) returns (found: bool)
      requires Valid()
      modifies this
      ensures Valid() && entries == Without(old(entries), key)
      ensures found <==> Lookup(old(entries), key).Some?
    {
      var data := Lookup(entries, key);
      WithoutRemoves(entries, key);
      WithoutTotal(entries, key);
      found := data.Some?;
      if found {
        entries := Without(entries, key);
        bytes := bytes - |data.value|;
      } else {
        WithoutAbsent(entries, key);
      }
    }

    /** Drops the oldest entries while the total is over the limit. */
    method Evict()
      requires bytes == Total(entries)
      modifies this
      ensures entries == Fit(old(entries), maxBytes) && bytes == Total(entries)
    {
      while entries != [] && !(bytes as real <= maxBytes)
        invariant bytes == Total(entries) && Fit(entries, maxBytes) == Fit(old(entries), maxBytes)
      {
        bytes := bytes - |entries[0].value|;
        entries := entries[1..];
      }
    }

    /** Leaves what fits of the recency order with the new entry last; see `Pushed` for what that is. */
    method Set(key: string, data: Bytes) returns (stored: bool)
      requires Valid()
      modifies this
      ensures Valid()
      ensures stored <==> Fits(|data|, maxBytes)
      ensures !stored ==> entries == Without(old(entries), key)
      ensures stored ==> entries == Fit(Push(old(entries), Entry(key, data)), maxBytes)
    {
      var _ := Delete(key);
      if !Fits(|data|, maxBytes) { return false; }
      PushedIsHeld(old(entries), Entry(key, data), maxBytes);
      entries := entries + [Entry(key, data)];
      bytes := bytes + |data|;
      Evict();
      stored := true;
    }

    method Clear()
      modifies this
      requires Valid()
      ensures Valid() && entries == []
    {
      entries := [];
      bytes := 0;
    }
  }

  /** The constructor's range check: only a positive limit makes a cache. */
  method Create(maxBytes: real) returns (cache: Option<Cache>)
    ensures cache.Some? <==> maxBytes > 0.0
    ensures cache.Some? ==> cache.value.Valid() && cache.value.maxBytes == maxBytes && cache.value.entries == []
  {
    if maxBytes <= 0.0 { return None; }
    var made := new Cache(maxBytes);
    cache := Some(made);
  }
}
