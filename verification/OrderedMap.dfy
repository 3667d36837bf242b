/** A map that keeps its keys in insertion order, as a list of entries. */
module OrderedMap {
  import opened Prelude

  datatype Entry<V> = Entry(key: string, value: V)

  function Lookup<V>(entries: seq<Entry<V>>, key: string): Option<V> {
    if entries == [] then None
    else if entries[0].key == key then Some(entries[0].value)
    else Lookup(entries[1..], key)
  }

  function Without<V>(entries: seq<Entry<V>>, key: string): seq<Entry<V>> {
    if entries == [] then []
    else if entries[0].key == key then entries[1..]
    else [entries[0]] + Without(entries[1..], key)
  }

  ghost predicate DistinctKeys<V>(entries: seq<Entry<V>>) {
    forall i, j :: 0 <= i < j < |entries| ==> entries[i].key != entries[j].key
  }

  lemma {:induction false} LookupFinds<V>(entries: seq<Entry<V>>, key: string)
    ensures Lookup(entries, key).Some? <==> exists i :: 0 <= i < |entries| && entries[i].key == key
    ensures Lookup(entries, key).Some? ==> Entry(key, Lookup(entries, key).value) in entries
  {
    if entries != [] && entries[0].key != key {
      LookupFinds(entries[1..], key);
      assert forall i :: 0 < i < |entries| ==> entries[i] == entries[1..][i - 1];
    }
  }

  lemma {:induction false} WithoutMembers<V>(entries: seq<Entry<V>>, key: string, e: Entry<V>)
    requires DistinctKeys(entries)
    ensures e in Without(entries, key) <==> e in entries && e.key != key
  {
    if entries != [] {
      var tail := entries[1..];
      assert entries == [entries[0]] + tail;
      if entries[0].key == key {
        forall i | 0 <= i < |tail| ensures tail[i].key != key { assert tail[i] == entries[i + 1]; }
      } else {
        WithoutMembers(tail, key, e);
      }
    }
  }

  lemma TailIsApart<V>(entries: seq<Entry<V>>, e: Entry<V>)
    requires DistinctKeys(entries) && entries != [] && e in entries[1..]
    ensures e.key != entries[0].key
  {
    var i :| 0 <= i < |entries[1..]| && entries[1..][i] == e;
    assert entries[i + 1] == e;
  }

  lemma {:induction false} WithoutIsDistinct<V>(entries: seq<Entry<V>>, key: string)
    requires DistinctKeys(entries)
    ensures DistinctKeys(Without(entries, key))
  {
    if entries != [] && entries[0].key != key {
      var tail := entries[1..];
      var rest := Without(tail, key);
      WithoutIsDistinct(tail, key);
      forall k | 0 <= k < |rest| ensures rest[k].key != entries[0].key {
        WithoutMembers(tail, key, rest[k]);
        TailIsApart(entries, rest[k]);
      }
    }
  }

  lemma WithoutRemoves<V>(entries: seq<Entry<V>>, key: string)
    requires DistinctKeys(entries)
    ensures DistinctKeys(Without(entries, key))
    ensures forall e :: e in Without(entries, key) <==> e in entries && e.key != key
  {
    WithoutIsDistinct(entries, key);
    forall e ensures e in Without(entries, key) <==> e in entries && e.key != key { WithoutMembers(entries, key, e); }
  }

  lemma {:induction false} WithoutAbsent<V>(entries: seq<Entry<V>>, key: string)
    requires Lookup(entries, key).None?
    ensures Without(entries, key) == entries
  {
    if entries != [] { WithoutAbsent(entries[1..], key); }
  }

  lemma {:induction false} LookupConcat<V>(a: seq<Entry<V>>, b: seq<Entry<V>>, key: string)
    ensures Lookup(a + b, key) == if Lookup(a, key).Some? then Lookup(a, key) else Lookup(b, key)
  {
    if a == [] {
      assert a + b == b;
    } else {
      assert (a + b)[1..] == a[1..] + b;
      LookupConcat(a[1..], b, key);
    }
  }

  lemma {:induction false} WithoutConcat<V>(a: seq<Entry<V>>, b: seq<Entry<V>>, key: string)
    ensures Without(a + b, key) == if Lookup(a, key).Some? then Without(a, key) + b else a + Without(b, key)
  {
    if a == [] {
      assert a + b == b;
    } else {
      assert (a + b)[0] == a[0] && (a + b)[1..] == a[1..] + b;
      if a[0].key != key {
        WithoutConcat(a[1..], b, key);
        assert Without(a + b, key) == [a[0]] + Without(a[1..] + b, key);
      }
    }
  }

  lemma {:induction false} LookupOfLast<V>(entries: seq<Entry<V>>)
    requires entries != [] && DistinctKeys(entries)
    ensures Lookup(entries, entries[|entries| - 1].key) == Some(entries[|entries| - 1].value)
  {
    if |entries| > 1 { LookupOfLast(entries[1..]); }
  }

  lemma {:induction false} WithoutKeeps<V>(entries: seq<Entry<V>>, gone: string, key: string)
    requires DistinctKeys(entries)
    ensures Lookup(Without(entries, gone), key) == if key == gone then None else Lookup(entries, key)
  {
    if entries != [] {
      if entries[0].key == gone {
        LookupFinds(entries[1..], gone);
      } else {
        WithoutKeeps(entries[1..], gone, key);
      }
    }
  }
}
