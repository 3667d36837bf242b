/** Comparing every two entries that share a non-empty key, in the order two nested index loops
    over a keyed grouping meet them. What a comparison reports is left abstract. */
module FieldPairs {
  import opened Sequences

  /** The positions before `upTo` that hold `key`, ascending. */
  function IndicesOf<K(==)>(keys: seq<K>, key: K, upTo: nat): seq<nat>
    requires upTo <= |keys|
  {
    if upTo == 0 then []
    else IndicesOf(keys, key, upTo - 1) + if keys[upTo - 1] == key then [upTo - 1] else []
  }

  /** The non-empty keys in the order of their first mention before `upTo`. */
  function KeyOrder<K(==)>(none: K, keys: seq<K>, upTo: nat): seq<K>
    requires upTo <= |keys|
  {
    if upTo == 0 then []
    else
      var before, key := KeyOrder(none, keys, upTo - 1), keys[upTo - 1];
      if key == none || key in before then before else before + [key]
  }

  /** The entry at `indices[p]` against the ones from `indices[p + 1]` up to `indices[q - 1]`. */
  function Row<T>(compare: (nat, nat) -> seq<T>, indices: seq<nat>, p: nat, q: nat): seq<T>
    requires p < |indices| && q <= |indices|
  {
    if q <= p + 1 then [] else Row(compare, indices, p, q - 1) + compare(indices[p], indices[q - 1])
  }

  function Rows<T>(compare: (nat, nat) -> seq<T>, indices: seq<nat>, p: nat): seq<T>
    requires p <= |indices|
  {
    if p == 0 then [] else Rows(compare, indices, p - 1) + Row(compare, indices, p - 1, |indices|)
  }

  function WithinKey<K(==), T>(compare: (nat, nat) -> seq<T>, keys: seq<K>, key: K): seq<T> {
    var indices := IndicesOf(keys, key, |keys|);
    Rows(compare, indices, |indices|)
  }

  function Within<K(==), T>(compare: (nat, nat) -> seq<T>, keys: seq<K>): K -> seq<T> {
    (key: K) => WithinKey(compare, keys, key)
  }

  /** Everything compared, key by key. */
  function ByKey<K(==), T>(compare: (nat, nat) -> seq<T>, none: K, keys: seq<K>): seq<T> {
    Flatten(Within(compare, keys), KeyOrder(none, keys, |keys|))
  }

  /** Exactly the keys mentioned so far have a group, each with its positions so far. */
  predicate Grouped<K(==)>(none: K, keys: seq<K>, groups: map<K, seq<nat>>, upTo: nat)
    requires upTo <= |keys|
  {
    && (forall k :: k in KeyOrder(none, keys, upTo) ==> k in groups)
    && forall k :: k in groups ==> k in KeyOrder(none, keys, upTo) && groups[k] == IndicesOf(keys, k, upTo)
  }

  method GroupByKey<K(==)>(none: K, keys: seq<K>) returns (order: seq<K>, groups: map<K, seq<nat>>)
    ensures order == KeyOrder(none, keys, |keys|)
    ensures forall k :: k in order ==> k in groups && groups[k] == IndicesOf(keys, k, |keys|)
  {
    order, groups := [], map[];
    for index := 0 to |keys|
      invariant order == KeyOrder(none, keys, index) && Grouped(none, keys, groups, index)
    {
      var key := keys[index];
      OneMoreMention(none, keys, groups, index);
      if key != none {
        if key in groups {
          groups := groups[key := groups[key] + [index]];
        } else {
          order := order + [key];
          groups := groups[key := [index]];
        }
      }
    }
  }

  lemma OneMoreMention<K>(none: K, keys: seq<K>, groups: map<K, seq<nat>>, index: nat)
    requires index < |keys| && Grouped(none, keys, groups, index)
    ensures var key, order := keys[index], KeyOrder(none, keys, index);
            && KeyOrder(none, keys, index + 1) == (if key == none || key in groups then order else order + [key])
            && Grouped(none, keys, if key == none then groups
                                   else groups[key := (if key in groups then groups[key] else []) + [index]], index + 1)
  {
    forall k | k in groups || k == keys[index]
      ensures IndicesOf(keys, k, index + 1) == IndicesOf(keys, k, index) + if k == keys[index] then [index] else []
    {
      IndicesSnoc(keys, k, index);
    }
    if keys[index] == none {
      NeverNamed(none, keys, index);
    } else {
      FirstMention(none, keys, keys[index], index);
    }
  }

  method ComparePairs<T>(compare: (nat, nat) -> seq<T>, indices: seq<nat>) returns (found: seq<T>)
    ensures found == Rows(compare, indices, |indices|)
  {
    found := [];
    for i := 0 to |indices|
      invariant found == Rows(compare, indices, i)
    {
      ghost var above := found;
      RowStarts(compare, indices, i, above);
      for j := i + 1 to |indices|
        invariant found == above + Row(compare, indices, i, j)
      {
        RowSnoc(compare, indices, i, j, above);
        found := found + compare(indices[i], indices[j]);
      }
      RowsSnoc(compare, indices, i);
    }
  }

  method CompareWithinKeys<K(==), T>(compare: (nat, nat) -> seq<T>, none: K, keys: seq<K>) returns (found: seq<T>)
    ensures found == ByKey(compare, none, keys)
  {
    var order, groups := GroupByKey(none, keys);
    ghost var part := Within(compare, keys);
    found := [];
    for f := 0 to |order|
      invariant found == Flatten(part, order[..f])
    {
      var here := ComparePairs(compare, groups[order[f]]);
      WithinIs(compare, keys, order[f]);
      FlattenStep(part, order, f);
      found := found + here;
    }
    assert order[..|order|] == order;
  }

  lemma RowSnoc<T>(compare: (nat, nat) -> seq<T>, indices: seq<nat>, p: nat, q: nat, above: seq<T>)
    requires p < q < |indices|
    ensures above + Row(compare, indices, p, q + 1) == above + Row(compare, indices, p, q) + compare(indices[p], indices[q])
  {}

  lemma RowStarts<T>(compare: (nat, nat) -> seq<T>, indices: seq<nat>, p: nat, above: seq<T>)
    requires p < |indices|
    ensures above + Row(compare, indices, p, p + 1) == above
  {}

  lemma RowsSnoc<T>(compare: (nat, nat) -> seq<T>, indices: seq<nat>, p: nat)
    requires p < |indices|
    ensures Rows(compare, indices, p + 1) == Rows(compare, indices, p) + Row(compare, indices, p, |indices|)
  {}

  lemma IndicesSnoc<K>(keys: seq<K>, key: K, upTo: nat)
    requires upTo < |keys|
    ensures IndicesOf(keys, key, upTo + 1) == IndicesOf(keys, key, upTo) + if keys[upTo] == key then [upTo] else []
  {}

  lemma WithinIs<K, T>(compare: (nat, nat) -> seq<T>, keys: seq<K>, key: K)
    ensures var l := IndicesOf(keys, key, |keys|); Within(compare, keys)(key) == Rows(compare, l, |l|)
  {}

  lemma FlattenStep<K, T>(part: K -> seq<T>, order: seq<K>, f: nat)
    requires f < |order|
    ensures Flatten(part, order[..f + 1]) == Flatten(part, order[..f]) + part(order[f])
  {
    assert order[..f + 1][..f] == order[..f];
  }

  lemma {:induction false} NeverNamed<K>(none: K, keys: seq<K>, upTo: nat)
    requires upTo <= |keys|
    ensures none !in KeyOrder(none, keys, upTo)
  {
    if upTo > 0 { NeverNamed(none, keys, upTo - 1); }
  }

  lemma {:induction false} FirstMention<K>(none: K, keys: seq<K>, key: K, upTo: nat)
    requires upTo <= |keys| && key != none
    ensures key in KeyOrder(none, keys, upTo) <==> IndicesOf(keys, key, upTo) != []
  {
    if upTo > 0 { FirstMention(none, keys, key, upTo - 1); }
  }

  lemma {:induction false} IndicesAscend<K>(keys: seq<K>, key: K, upTo: nat)
    requires upTo <= |keys|
    ensures forall p :: 0 <= p < |IndicesOf(keys, key, upTo)| ==> IndicesOf(keys, key, upTo)[p] < upTo
    ensures forall p :: 0 <= p < |IndicesOf(keys, key, upTo)| ==> keys[IndicesOf(keys, key, upTo)[p]] == key
    ensures forall p, q :: 0 <= p < q < |IndicesOf(keys, key, upTo)| ==>
      IndicesOf(keys, key, upTo)[p] < IndicesOf(keys, key, upTo)[q]
  {
    if upTo > 0 { IndicesAscend(keys, key, upTo - 1); }
  }

  /** Where position `i` stands in its key's list. */
  lemma {:induction false} IndexListed<K>(keys: seq<K>, i: nat, upTo: nat) returns (p: nat)
    requires i < upTo <= |keys|
    ensures p < |IndicesOf(keys, keys[i], upTo)| && IndicesOf(keys, keys[i], upTo)[p] == i
  {
    if i == upTo - 1 {
      p := |IndicesOf(keys, keys[i], upTo - 1)|;
    } else {
      p := IndexListed(keys, i, upTo - 1);
    }
  }

  lemma {:induction false} FoundInRow<T>(compare: (nat, nat) -> seq<T>, indices: seq<nat>, p: nat, q: nat, c: T)
    returns (k: nat)
    requires p < |indices| && q <= |indices| && c in Row(compare, indices, p, q)
    ensures p < k < q && c in compare(indices[p], indices[k])
  {
    if c in compare(indices[p], indices[q - 1]) {
      k := q - 1;
    } else {
      k := FoundInRow(compare, indices, p, q - 1, c);
    }
  }

  lemma {:induction false} RowCovers<T>(compare: (nat, nat) -> seq<T>, indices: seq<nat>, p: nat, q: nat, k: nat, c: T)
    requires p < k < q <= |indices| && c in compare(indices[p], indices[k])
    ensures c in Row(compare, indices, p, q)
  {
    if k < q - 1 { RowCovers(compare, indices, p, q - 1, k, c); }
  }

  lemma {:induction false} FoundInRows<T>(compare: (nat, nat) -> seq<T>, indices: seq<nat>, p: nat, c: T)
    returns (i: nat, k: nat)
    requires p <= |indices| && c in Rows(compare, indices, p)
    ensures i < k < |indices| && c in compare(indices[i], indices[k])
  {
    if c in Row(compare, indices, p - 1, |indices|) {
      i := p - 1;
      k := FoundInRow(compare, indices, i, |indices|, c);
    } else {
      i, k := FoundInRows(compare, indices, p - 1, c);
    }
  }

  lemma RowsCover<T>(compare: (nat, nat) -> seq<T>, indices: seq<nat>, i: nat, k: nat, c: T)
    requires i < k < |indices| && c in compare(indices[i], indices[k])
    ensures c in Rows(compare, indices, |indices|)
  {
    RowCovers(compare, indices, i, |indices|, k, c);
    RowsReach(compare, indices, i, c);
  }

  lemma RowsReach<T>(compare: (nat, nat) -> seq<T>, indices: seq<nat>, p: nat, c: T)
    requires p < |indices| && c in Row(compare, indices, p, |indices|)
    ensures c in Rows(compare, indices, |indices|)
  {
    RowsGrow(compare, indices, p + 1, |indices|);
    RowsSnoc(compare, indices, p);
    InPrefix(Rows(compare, indices, p), Row(compare, indices, p, |indices|), Rows(compare, indices, |indices|), c);
  }

  lemma InPrefix<T>(a: seq<T>, b: seq<T>, whole: seq<T>, c: T)
    requires a + b <= whole && c in b
    ensures c in whole
  {
    var i :| 0 <= i < |b| && b[i] == c;
    assert whole[|a| + i] == c;
  }

  lemma {:induction false} RowsGrow<T>(compare: (nat, nat) -> seq<T>, indices: seq<nat>, p: nat, q: nat)
    requires p <= q <= |indices|
    ensures Rows(compare, indices, p) <= Rows(compare, indices, q)
  {
    if p < q { RowsGrow(compare, indices, p, q - 1); }
  }

  lemma WithinKeyHolds<K, T>(compare: (nat, nat) -> seq<T>, keys: seq<K>, key: K, c: T)
    ensures c in WithinKey(compare, keys, key) <==>
            exists i, j :: 0 <= i < j < |keys| && keys[i] == keys[j] == key && c in compare(i, j)
  {
    var l := IndicesOf(keys, key, |keys|);
    IndicesAscend(keys, key, |keys|);
    if c in WithinKey(compare, keys, key) {
      var p, q := FoundInRows(compare, l, |l|, c);
      assert keys[l[p]] == keys[l[q]] == key && l[p] < l[q];
    }
    if i: nat, j: nat :| 0 <= i < j < |keys| && keys[i] == keys[j] == key && c in compare(i, j) {
      var p := IndexListed(keys, i, |keys|);
      var q := IndexListed(keys, j, |keys|);
      if q < p { assert false; }
      RowsCover(compare, l, p, q, c);
    }
  }

  /** All that is compared: positions `i < j` with the same non-empty key, and no others. */
  lemma ComparedExactly<K, T>(compare: (nat, nat) -> seq<T>, none: K, keys: seq<K>, c: T)
    ensures c in ByKey(compare, none, keys) <==>
            exists i, j :: 0 <= i < j < |keys| && keys[i] == keys[j] != none && c in compare(i, j)
  {
    var order, part := KeyOrder(none, keys, |keys|), Within(compare, keys);
    FlattenHolds(part, order, c);
    NeverNamed(none, keys, |keys|);
    if k :| k in order && c in part(k) {
      WithinKeyHolds(compare, keys, k, c);
    }
    if i, j :| 0 <= i < j < |keys| && keys[i] == keys[j] != none && c in compare(i, j) {
      WithinKeyHolds(compare, keys, keys[i], c);
      var p := IndexListed(keys, i, |keys|);
      FirstMention(none, keys, keys[i], |keys|);
      assert keys[i] in order && c in part(keys[i]);
    }
  }
}
