/** What the projection promises about every value, once the schema check has licensed it. */
module ProjectionLaws {
  import opened Prelude
  import opened SchemaCheck
  import opened ResponseContract

  // ---------------------------------------------------------------------------
  // A licensed projection never throws
  // ---------------------------------------------------------------------------

  lemma {:induction false} NeverThrows(s: Schemas, parses: Parses, ok: set<nat>, n: nat, v: Value)
    requires Grounded(s) && Licensed(s.graph, ok) && n in ok
    ensures !Project(s, parses, n, v).Thrown?
    decreases v, s.depth[n]
  {
    var node := s.graph[n];
    match node {
      case Wrapper(inner) => assert inner in Children(node); NeverThrows(s, parses, ok, inner, v);
      case Lazy(target) => assert target in Children(node); NeverThrows(s, parses, ok, target, v);
      case Object(_, _) => if v.Obj? { EntriesNeverThrow(s, parses, ok, n, v.entries); }
      case Record(_) => if v.Obj? { EntriesNeverThrow(s, parses, ok, n, v.entries); }
      case Array(_) => if v.Arr? { ItemsNeverThrow(s, parses, ok, n, v.items); }
      case Union(options) =>
        var chosen := Chosen(s, parses, options, v);
        if chosen.Some? { NeverThrows(s, parses, ok, chosen.value, v); }
      case _ =>
    }
  }

  lemma {:induction false} EntriesNeverThrow(s: Schemas, parses: Parses, ok: set<nat>, n: nat, entries: seq<Entry>)
    requires Grounded(s) && Licensed(s.graph, ok) && n in ok && (s.graph[n].Object? || s.graph[n].Record?)
    ensures ProjectEntries(s, parses, n, entries).Built?
    decreases entries, 0
  {
    if entries != [] {
      EntriesNeverThrow(s, parses, ok, n, entries[..|entries| - 1]);
      var Entry(key, item) := entries[|entries| - 1];
      var field := Member(s.graph[n], key);
      if field.Some? { NeverThrows(s, parses, ok, field.value, item); }
    }
  }

  lemma {:induction false} ItemsNeverThrow(s: Schemas, parses: Parses, ok: set<nat>, n: nat, items: seq<Value>)
    requires Grounded(s) && Licensed(s.graph, ok) && n in ok && s.graph[n].Array?
    ensures ProjectItems(s, parses, n, items).BuiltItems?
    decreases items, 0
  {
    if items != [] {
      assert s.graph[n].element in Children(s.graph[n]);
      ItemsNeverThrow(s, parses, ok, n, items[..|items| - 1]);
      NeverThrows(s, parses, ok, s.graph[n].element, items[|items| - 1]);
    }
  }

  // ---------------------------------------------------------------------------
  // Nothing undeclared comes through
  // ---------------------------------------------------------------------------

  /** No key at any depth that the schema does not declare, and no keys where it declares none. */
  predicate Clean(s: Schemas, n: nat, v: Value)
    requires Grounded(s) && n < |s.graph|
    decreases v, s.depth[n]
  {
    var node := s.graph[n];
    match node
    case Wrapper(inner) =>
      assert inner in Children(node);
      v.Null? || v.Undefined? || Clean(s, inner, v)
    case Lazy(target) =>
      assert target in Children(node);
      Clean(s, target, v)
    case Opaque => true
    case Object(_, _) => if v.Obj? || v.Foreign? then CleanEntries(s, n, v.entries) else !CarriesKeys(v)
    case Record(_) => if v.Obj? || v.Foreign? then CleanEntries(s, n, v.entries) else !CarriesKeys(v)
    case Array(_) => if v.Arr? then CleanItems(s, n, v.items) else !CarriesKeys(v)
    case Union(options) => !CarriesKeys(v) || exists o :: o in options && Clean(s, o, v)
    case Scalar(_) => !CarriesKeys(v)
    case Other(_) => false
  }

  predicate CleanEntries(s: Schemas, n: nat, entries: seq<Entry>)
    requires Grounded(s) && n < |s.graph| && (s.graph[n].Object? || s.graph[n].Record?)
    decreases entries, 0
  {
    entries == []
    || (CleanEntries(s, n, entries[..|entries| - 1])
        && var Entry(key, item) := entries[|entries| - 1];
           Member(s.graph[n], key).Some? && Clean(s, Member(s.graph[n], key).value, item))
  }

  predicate CleanItems(s: Schemas, n: nat, items: seq<Value>)
    requires Grounded(s) && n < |s.graph| && s.graph[n].Array?
    decreases items, 0
  {
    assert s.graph[n].element in Children(s.graph[n]);
    items == []
    || (CleanItems(s, n, items[..|items| - 1]) && Clean(s, s.graph[n].element, items[|items| - 1]))
  }

  /** A bare value (null, a scalar, a date) is clean under, and kept by, every licensed schema. */
  lemma {:induction false} BareIsKept(s: Schemas, parses: Parses, ok: set<nat>, n: nat, v: Value)
    requires Grounded(s) && Licensed(s.graph, ok) && n in ok && !CarriesKeys(v)
    ensures Clean(s, n, v) && Project(s, parses, n, v) == Keep(v)
    decreases s.depth[n]
  {
    var node := s.graph[n];
    match node {
      case Wrapper(inner) => assert inner in Children(node); BareIsKept(s, parses, ok, inner, v);
      case Lazy(target) => assert target in Children(node); BareIsKept(s, parses, ok, target, v);
      case Union(options) =>
        var chosen := Chosen(s, parses, options, v);
        if chosen.Some? { BareIsKept(s, parses, ok, chosen.value, v); }
      case _ =>
    }
  }

  lemma {:induction false} ResultIsClean(s: Schemas, parses: Parses, ok: set<nat>, n: nat, v: Value)
    requires Grounded(s) && Licensed(s.graph, ok) && n in ok
    ensures Project(s, parses, n, v).Keep? ==> Clean(s, n, Project(s, parses, n, v).value)
    decreases v, s.depth[n]
  {
    var node := s.graph[n];
    match node {
      case Wrapper(inner) => assert inner in Children(node); ResultIsClean(s, parses, ok, inner, v);
      case Lazy(target) => assert target in Children(node); ResultIsClean(s, parses, ok, target, v);
      case Object(_, _) => if v.Obj? { EntriesAreClean(s, parses, ok, n, v.entries); }
      case Record(_) => if v.Obj? { EntriesAreClean(s, parses, ok, n, v.entries); }
      case Array(_) => if v.Arr? { ItemsAreClean(s, parses, ok, n, v.items); }
      case Union(options) =>
        var chosen := Chosen(s, parses, options, v);
        if chosen.Some? { ResultIsClean(s, parses, ok, chosen.value, v); }
      case _ =>
    }
  }

  lemma {:induction false} EntriesAreClean(s: Schemas, parses: Parses, ok: set<nat>, n: nat, entries: seq<Entry>)
    requires Grounded(s) && Licensed(s.graph, ok) && n in ok && (s.graph[n].Object? || s.graph[n].Record?)
    ensures ProjectEntries(s, parses, n, entries).Built? ==> CleanEntries(s, n, ProjectEntries(s, parses, n, entries).entries)
    decreases entries, 0
  {
    if entries != [] {
      var init := entries[..|entries| - 1];
      var Entry(key, item) := entries[|entries| - 1];
      EntriesAreClean(s, parses, ok, n, init);
      var field := Member(s.graph[n], key);
      if field.Some? { ResultIsClean(s, parses, ok, field.value, item); }
      var before, after := ProjectEntries(s, parses, n, init), ProjectEntries(s, parses, n, entries);
      if after.Built? && after.entries != before.entries {
        assert after.entries[..|before.entries|] == before.entries;
      }
    }
  }

  lemma {:induction false} ItemsAreClean(s: Schemas, parses: Parses, ok: set<nat>, n: nat, items: seq<Value>)
    requires Grounded(s) && Licensed(s.graph, ok) && n in ok && s.graph[n].Array?
    ensures ProjectItems(s, parses, n, items).BuiltItems? ==> CleanItems(s, n, ProjectItems(s, parses, n, items).items)
    decreases items, 0
  {
    if items != [] {
      var element, init := s.graph[n].element, items[..|items| - 1];
      assert element in Children(s.graph[n]);
      ItemsAreClean(s, parses, ok, n, init);
      ResultIsClean(s, parses, ok, element, items[|items| - 1]);
      BareIsKept(s, parses, ok, element, Null);
      var before, after := ProjectItems(s, parses, n, init), ProjectItems(s, parses, n, items);
      if after.BuiltItems? { assert after.items[..|before.items|] == before.items; }
    }
  }

  // ---------------------------------------------------------------------------
  // Exactly the reported keys are dropped
  // ---------------------------------------------------------------------------

  /** The schema has a place for the value: it is not dropped whole. */
  predicate Placed(s: Schemas, parses: Parses, n: nat, v: Value)
    requires Grounded(s) && n < |s.graph|
    decreases s.depth[n]
  {
    var node := s.graph[n];
    match node
    case Wrapper(inner) =>
      assert inner in Children(node);
      v.Null? || v.Undefined? || Placed(s, parses, inner, v)
    case Lazy(target) =>
      assert target in Children(node);
      Placed(s, parses, target, v)
    case Opaque => true
    case Object(_, _) => v.Obj? || !CarriesKeys(v)
    case Record(_) => v.Obj? || !CarriesKeys(v)
    case Array(_) => v.Arr? || !CarriesKeys(v)
    case Union(options) =>
      var chosen := Chosen(s, parses, options, v);
      if chosen.Some? then Placed(s, parses, chosen.value, v) else !CarriesKeys(v)
    case _ => !CarriesKeys(v)
  }

  lemma {:induction false} PlacedExactly(s: Schemas, parses: Parses, ok: set<nat>, n: nat, v: Value)
    requires Grounded(s) && Licensed(s.graph, ok) && n in ok
    ensures Project(s, parses, n, v).Keep? <==> Placed(s, parses, n, v)
    decreases s.depth[n]
  {
    NeverThrows(s, parses, ok, n, v);
    var node := s.graph[n];
    match node {
      case Wrapper(inner) => assert inner in Children(node); PlacedExactly(s, parses, ok, inner, v);
      case Lazy(target) => assert target in Children(node); PlacedExactly(s, parses, ok, target, v);
      case Union(options) =>
        var chosen := Chosen(s, parses, options, v);
        if chosen.Some? { PlacedExactly(s, parses, ok, chosen.value, v); }
      case _ =>
    }
  }

  /** Somewhere a value with a place is assigned to the key `__proto__`, which stores nothing. */
  predicate Overwrites(s: Schemas, parses: Parses, n: nat, v: Value)
    requires Grounded(s) && n < |s.graph|
    decreases v, s.depth[n]
  {
    var node := s.graph[n];
    match node
    case Wrapper(inner) =>
      assert inner in Children(node);
      !v.Null? && !v.Undefined? && Overwrites(s, parses, inner, v)
    case Lazy(target) =>
      assert target in Children(node);
      Overwrites(s, parses, target, v)
    case Object(_, _) => v.Obj? && OverwritesEntries(s, parses, n, v.entries)
    case Record(_) => v.Obj? && OverwritesEntries(s, parses, n, v.entries)
    case Array(_) => v.Arr? && OverwritesItems(s, parses, n, v.items)
    case Union(options) =>
      var chosen := Chosen(s, parses, options, v);
      chosen.Some? && Overwrites(s, parses, chosen.value, v)
    case _ => false
  }

  predicate OverwritesEntries(s: Schemas, parses: Parses, n: nat, entries: seq<Entry>)
    requires Grounded(s) && n < |s.graph| && (s.graph[n].Object? || s.graph[n].Record?)
    decreases entries, 0
  {
    entries != []
    && var Entry(key, item) := entries[|entries| - 1];
       var field := Member(s.graph[n], key);
       || OverwritesEntries(s, parses, n, entries[..|entries| - 1])
       || (field.Some? && (Overwrites(s, parses, field.value, item)
                           || (key == "__proto__" && Placed(s, parses, field.value, item))))
  }

  predicate OverwritesItems(s: Schemas, parses: Parses, n: nat, items: seq<Value>)
    requires Grounded(s) && n < |s.graph| && s.graph[n].Array?
    decreases items, 0
  {
    assert s.graph[n].element in Children(s.graph[n]);
    items != []
    && (OverwritesItems(s, parses, n, items[..|items| - 1])
        || Overwrites(s, parses, s.graph[n].element, items[|items| - 1]))
  }

  /** A dropped value is always reported. */
  lemma {:induction false} DropIsReported(s: Schemas, parses: Parses, n: nat, v: Value, path: string)
    requires Grounded(s) && n < |s.graph| && Project(s, parses, n, v).Drop?
    ensures Stripped(s, parses, n, v, path) != []
    decreases v, s.depth[n]
  {
    var node := s.graph[n];
    match node {
      case Wrapper(inner) => assert inner in Children(node); DropIsReported(s, parses, inner, v, path);
      case Lazy(target) => assert target in Children(node); DropIsReported(s, parses, target, v, path);
      case Union(options) =>
        var chosen := Chosen(s, parses, options, v);
        if chosen.Some? { DropIsReported(s, parses, chosen.value, v, path); }
      case _ =>
    }
  }

  /** Exactness: a value comes back unchanged, key order included, exactly when nothing is
      reported and no `__proto__` key was written. */
  lemma {:induction false} UnchangedExactly(s: Schemas, parses: Parses, ok: set<nat>, n: nat, v: Value, path: string)
    requires Grounded(s) && Licensed(s.graph, ok) && n in ok
    ensures Project(s, parses, n, v) == Keep(v) <==>
            Stripped(s, parses, n, v, path) == [] && !Overwrites(s, parses, n, v)
    decreases v, s.depth[n]
  {
    var node := s.graph[n];
    match node {
      case Wrapper(inner) => assert inner in Children(node); UnchangedExactly(s, parses, ok, inner, v, path);
      case Lazy(target) => assert target in Children(node); UnchangedExactly(s, parses, ok, target, v, path);
      case Object(_, _) => if v.Obj? { EntriesUnchangedExactly(s, parses, ok, n, v.entries, path); }
      case Record(_) => if v.Obj? { EntriesUnchangedExactly(s, parses, ok, n, v.entries, path); }
      case Array(_) => if v.Arr? { ItemsUnchangedExactly(s, parses, ok, n, v.items, path); }
      case Union(options) =>
        var chosen := Chosen(s, parses, options, v);
        if chosen.Some? { UnchangedExactly(s, parses, ok, chosen.value, v, path); }
      case _ =>
    }
  }

  lemma {:induction false} EntriesShorten(s: Schemas, parses: Parses, n: nat, entries: seq<Entry>)
    requires Grounded(s) && n < |s.graph| && (s.graph[n].Object? || s.graph[n].Record?)
    ensures ProjectEntries(s, parses, n, entries).Built? ==> |ProjectEntries(s, parses, n, entries).entries| <= |entries|
    decreases |entries|
  {
    if entries != [] { EntriesShorten(s, parses, n, entries[..|entries| - 1]); }
  }

  lemma {:induction false} EntriesUnchangedExactly(s: Schemas, parses: Parses, ok: set<nat>, n: nat, entries: seq<Entry>, path: string)
    requires Grounded(s) && Licensed(s.graph, ok) && n in ok && (s.graph[n].Object? || s.graph[n].Record?)
    ensures ProjectEntries(s, parses, n, entries) == Built(true, entries) <==>
            StrippedEntries(s, parses, n, entries, path) == [] && !OverwritesEntries(s, parses, n, entries)
    decreases entries, 0
  {
    if entries != [] {
      var init := entries[..|entries| - 1];
      var Entry(key, item) := entries[|entries| - 1];
      var here := EntryPath(s.graph[n], path, key);
      EntriesUnchangedExactly(s, parses, ok, n, init, path);
      EntriesShorten(s, parses, n, init);
      assert entries == init + [Entry(key, item)];
      var field := Member(s.graph[n], key);
      if field.Some? {
        UnchangedExactly(s, parses, ok, field.value, item, here);
        NeverThrows(s, parses, ok, field.value, item);
        PlacedExactly(s, parses, ok, field.value, item);
        if Project(s, parses, field.value, item).Drop? { DropIsReported(s, parses, field.value, item, here); }
      }
      OneMoreEntry(s, parses, n, init, Entry(key, item));
    }
  }

  /** The entries come back unchanged just when the earlier ones do and the last is kept as it is. */
  lemma OneMoreEntry(s: Schemas, parses: Parses, n: nat, init: seq<Entry>, last: Entry)
    requires Grounded(s) && n < |s.graph| && (s.graph[n].Object? || s.graph[n].Record?)
    ensures var field := Member(s.graph[n], last.key);
            ProjectEntries(s, parses, n, init + [last]) == Built(true, init + [last]) <==>
            && ProjectEntries(s, parses, n, init) == Built(true, init)
            && field.Some? && last.key != "__proto__" && Project(s, parses, field.value, last.value) == Keep(last.value)
  {
    var entries := init + [last];
    assert entries[..|init|] == init && entries[|init|] == last;
    EntriesShorten(s, parses, n, init);
    var before, after := ProjectEntries(s, parses, n, init), ProjectEntries(s, parses, n, entries);
    if after == Built(true, entries) {
      assert before.Built? && |before.entries| <= |init| < |after.entries|;
      var field := Member(s.graph[n], last.key);
      var r := Project(s, parses, field.value, last.value);
      assert after == Built(before.plain, before.entries + [Entry(last.key, r.value)]);
      assert entries[..|before.entries|] == before.entries && entries[|before.entries|] == Entry(last.key, r.value);
    }
  }

  lemma {:induction false} ItemsUnchangedExactly(s: Schemas, parses: Parses, ok: set<nat>, n: nat, items: seq<Value>, path: string)
    requires Grounded(s) && Licensed(s.graph, ok) && n in ok && s.graph[n].Array?
    ensures ProjectItems(s, parses, n, items) == BuiltItems(items) <==>
            StrippedItems(s, parses, n, items, path) == [] && !OverwritesItems(s, parses, n, items)
    decreases items, 0
  {
    if items != [] {
      var element, init, last := s.graph[n].element, items[..|items| - 1], items[|items| - 1];
      assert element in Children(s.graph[n]);
      ItemsUnchangedExactly(s, parses, ok, n, init, path);
      UnchangedExactly(s, parses, ok, element, last, path + "[]");
      NeverThrows(s, parses, ok, element, last);
      ItemsNeverThrow(s, parses, ok, n, init);
      if Project(s, parses, element, last).Drop? {
        DropIsReported(s, parses, element, last, path + "[]");
        DroppedIsKeyed(s, parses, element, last);
      }
      assert items == init + [last];
      var before, after := ProjectItems(s, parses, n, init), ProjectItems(s, parses, n, items);
      if after == BuiltItems(items) {
        assert after.items[..|before.items|] == before.items && |before.items| == |init|;
        assert after.items[|init|] == last;
      }
    }
  }

  lemma {:induction false} DroppedIsKeyed(s: Schemas, parses: Parses, n: nat, v: Value)
    requires Grounded(s) && n < |s.graph| && Project(s, parses, n, v).Drop?
    ensures CarriesKeys(v)
    decreases v, s.depth[n]
  {
    var node := s.graph[n];
    match node {
      case Wrapper(inner) => assert inner in Children(node); DroppedIsKeyed(s, parses, inner, v);
      case Lazy(target) => assert target in Children(node); DroppedIsKeyed(s, parses, target, v);
      case Union(options) =>
        var chosen := Chosen(s, parses, options, v);
        if chosen.Some? { DroppedIsKeyed(s, parses, chosen.value, v); }
      case _ =>
    }
  }

  // ---------------------------------------------------------------------------
  // Values without the key `__proto__`
  // ---------------------------------------------------------------------------

  predicate ProtoFree(v: Value) {
    match v
    case Arr(items) => forall i :: 0 <= i < |items| ==> ProtoFree(items[i])
    case Obj(entries) => forall i :: 0 <= i < |entries| ==> entries[i].key != "__proto__" && ProtoFree(entries[i].value)
    case Foreign(entries) => forall i :: 0 <= i < |entries| ==> entries[i].key != "__proto__" && ProtoFree(entries[i].value)
    case _ => true
  }

  lemma {:induction false} ProtoFreeNeverOverwrites(s: Schemas, parses: Parses, n: nat, v: Value)
    requires Grounded(s) && n < |s.graph| && ProtoFree(v)
    ensures !Overwrites(s, parses, n, v)
    decreases v, s.depth[n]
  {
    var node := s.graph[n];
    match node {
      case Wrapper(inner) => assert inner in Children(node); ProtoFreeNeverOverwrites(s, parses, inner, v);
      case Lazy(target) => assert target in Children(node); ProtoFreeNeverOverwrites(s, parses, target, v);
      case Object(_, _) => if v.Obj? { ProtoFreeEntries(s, parses, n, v.entries); }
      case Record(_) => if v.Obj? { ProtoFreeEntries(s, parses, n, v.entries); }
      case Array(_) => if v.Arr? { ProtoFreeItems(s, parses, n, v.items); }
      case Union(options) =>
        var chosen := Chosen(s, parses, options, v);
        if chosen.Some? { ProtoFreeNeverOverwrites(s, parses, chosen.value, v); }
      case _ =>
    }
  }

  lemma {:induction false} ProtoFreeEntries(s: Schemas, parses: Parses, n: nat, entries: seq<Entry>)
    requires Grounded(s) && n < |s.graph| && (s.graph[n].Object? || s.graph[n].Record?)
    requires forall i :: 0 <= i < |entries| ==> entries[i].key != "__proto__" && ProtoFree(entries[i].value)
    ensures !OverwritesEntries(s, parses, n, entries)
    decreases entries, 0
  {
    if entries != [] {
      var Entry(key, item) := entries[|entries| - 1];
      ProtoFreeEntries(s, parses, n, entries[..|entries| - 1]);
      var field := Member(s.graph[n], key);
      if field.Some? { ProtoFreeNeverOverwrites(s, parses, field.value, item); }
    }
  }

  lemma {:induction false} ProtoFreeItems(s: Schemas, parses: Parses, n: nat, items: seq<Value>)
    requires Grounded(s) && n < |s.graph| && s.graph[n].Array?
    requires forall i :: 0 <= i < |items| ==> ProtoFree(items[i])
    ensures !OverwritesItems(s, parses, n, items)
    decreases items, 0
  {
    if items != [] {
      assert s.graph[n].element in Children(s.graph[n]);
      ProtoFreeItems(s, parses, n, items[..|items| - 1]);
      ProtoFreeNeverOverwrites(s, parses, s.graph[n].element, items[|items| - 1]);
    }
  }

  /** On such values the report tells the whole story: it is empty exactly when nothing changed. */
  lemma ReportTellsAll(s: Schemas, parses: Parses, ok: set<nat>, n: nat, v: Value, path: string)
    requires Grounded(s) && Licensed(s.graph, ok) && n in ok && ProtoFree(v)
    ensures Stripped(s, parses, n, v, path) == [] <==> Project(s, parses, n, v) == Keep(v)
  {
    UnchangedExactly(s, parses, ok, n, v, path);
    ProtoFreeNeverOverwrites(s, parses, n, v);
  }

  /** Without that: a record loses its `__proto__` key, and nothing is reported. */
  lemma ProtoKeyLostSilently(parses: Parses, path: string)
    ensures var s := Schemas([Record(1), Opaque], [0, 0]);
            var v := Obj([Entry("__proto__", Null)]);
            && Grounded(s) && Licensed(s.graph, {0, 1})
            && Stripped(s, parses, 0, v, path) == [] && Project(s, parses, 0, v) == Keep(Obj([]))
  {
    var s := Schemas([Record(1), Opaque], [0, 0]);
    assert Children(s.graph[0]) == [1] && Children(s.graph[1]) == [];
    AnythingUnderProto(s, parses, [Entry("__proto__", Null)], path);
  }

  lemma AnythingUnderProto(s: Schemas, parses: Parses, entries: seq<Entry>, path: string)
    requires Grounded(s) && |s.graph| == 2 && s.graph[0] == Record(1) && s.graph[1] == Opaque
    requires entries == [Entry("__proto__", Null)]
    ensures Stripped(s, parses, 0, Obj(entries), path) == [] && Project(s, parses, 0, Obj(entries)) == Keep(Obj([]))
  {
    EntriesSnoc(s, parses, 0, entries, 0, path);
    assert entries[..0] == [] && entries[..1] == entries;
    assert Project(s, parses, 1, Null) == Keep(Null) && Stripped(s, parses, 1, Null, EntryPath(s.graph[0], path, "__proto__")) == [];
  }

  // ---------------------------------------------------------------------------
  // Projecting twice
  // ---------------------------------------------------------------------------

  predicate UnionFree(g: Graph, ok: set<nat>) {
    forall n :: n in ok && n < |g| ==> !g[n].Union?
  }

  /** Assigned to `__proto__`, an object, array or date replaces the prototype. */
  predicate Replacing(v: Value) {
    CarriesKeys(v) || v.Date?
  }

  /** Somewhere the projection replaces the prototype of an object it builds and keeps. */
  predicate Replaces(s: Schemas, parses: Parses, n: nat, v: Value)
    requires Grounded(s) && n < |s.graph|
    decreases v, s.depth[n]
  {
    var node := s.graph[n];
    match node
    case Wrapper(inner) =>
      assert inner in Children(node);
      Replaces(s, parses, inner, v)
    case Lazy(target) =>
      assert target in Children(node);
      Replaces(s, parses, target, v)
    case Object(_, _) => v.Obj? && (ReplacesHere(s, parses, n, v.entries) || ReplacesInside(s, parses, n, v.entries))
    case Record(_) => v.Obj? && (ReplacesHere(s, parses, n, v.entries) || ReplacesInside(s, parses, n, v.entries))
    case Array(_) => v.Arr? && ReplacesItems(s, parses, n, v.items)
    case _ => false
  }

  predicate ReplacesHere(s: Schemas, parses: Parses, n: nat, entries: seq<Entry>)
    requires Grounded(s) && n < |s.graph| && (s.graph[n].Object? || s.graph[n].Record?)
    decreases entries, 0
  {
    entries != []
    && var Entry(key, item) := entries[|entries| - 1];
       var field := Member(s.graph[n], key);
       || ReplacesHere(s, parses, n, entries[..|entries| - 1])
       || (key == "__proto__" && field.Some? && Placed(s, parses, field.value, item) && Replacing(item))
  }

  predicate ReplacesInside(s: Schemas, parses: Parses, n: nat, entries: seq<Entry>)
    requires Grounded(s) && n < |s.graph| && (s.graph[n].Object? || s.graph[n].Record?)
    decreases entries, 0
  {
    entries != []
    && var Entry(key, item) := entries[|entries| - 1];
       var field := Member(s.graph[n], key);
       || ReplacesInside(s, parses, n, entries[..|entries| - 1])
       || (key != "__proto__" && field.Some? && Replaces(s, parses, field.value, item))
  }

  predicate ReplacesItems(s: Schemas, parses: Parses, n: nat, items: seq<Value>)
    requires Grounded(s) && n < |s.graph| && s.graph[n].Array?
    decreases items, 0
  {
    assert s.graph[n].element in Children(s.graph[n]);
    items != []
    && (ReplacesItems(s, parses, n, items[..|items| - 1]) || Replaces(s, parses, s.graph[n].element, items[|items| - 1]))
  }

  /** What is kept replaces a prototype just when it did before, and has keys just when it had. */
  lemma {:induction false} KeptKind(s: Schemas, parses: Parses, n: nat, v: Value)
    requires Grounded(s) && n < |s.graph| && Project(s, parses, n, v).Keep?
    ensures var r := Project(s, parses, n, v).value;
            CarriesKeys(r) == CarriesKeys(v) && r.Date? == v.Date? && (!CarriesKeys(v) ==> r == v)
    decreases v, s.depth[n]
  {
    var node := s.graph[n];
    match node {
      case Wrapper(inner) =>
        assert inner in Children(node);
        if !(v.Null? || v.Undefined?) { KeptKind(s, parses, inner, v); }
      case Lazy(target) => assert target in Children(node); KeptKind(s, parses, target, v);
      case Union(options) =>
        var chosen := Chosen(s, parses, options, v);
        if chosen.Some? { KeptKind(s, parses, chosen.value, v); }
      case _ =>
    }
  }

  /** A value dropped whole replaces nothing. */
  lemma {:induction false} DropReplacesNothing(s: Schemas, parses: Parses, n: nat, v: Value)
    requires Grounded(s) && n < |s.graph| && (Project(s, parses, n, v).Drop? || !CarriesKeys(v))
    ensures !Replaces(s, parses, n, v)
    decreases v, s.depth[n]
  {
    var node := s.graph[n];
    match node {
      case Wrapper(inner) => assert inner in Children(node); DropReplacesNothing(s, parses, inner, v);
      case Lazy(target) => assert target in Children(node); DropReplacesNothing(s, parses, target, v);
      case _ =>
    }
  }

  /** Without unions a projected value is kept as it is by a second projection exactly when the first
      replaced no prototype. */
  lemma {:induction false} SecondKeepsExactly(s: Schemas, parses: Parses, ok: set<nat>, n: nat, v: Value)
    requires Grounded(s) && Licensed(s.graph, ok) && n in ok && UnionFree(s.graph, ok)
    requires Project(s, parses, n, v).Keep?
    ensures var r := Project(s, parses, n, v).value;
            Project(s, parses, n, r) == Keep(r) <==> !Replaces(s, parses, n, v)
    decreases v, s.depth[n]
  {
    var node := s.graph[n];
    if !CarriesKeys(v) {
      BareIsKept(s, parses, ok, n, v);
      DropReplacesNothing(s, parses, n, v);
    } else {
      match node {
        case Wrapper(inner) =>
          assert inner in Children(node);
          SecondKeepsExactly(s, parses, ok, inner, v);
          KeptKind(s, parses, inner, v);
        case Lazy(target) => assert target in Children(node); SecondKeepsExactly(s, parses, ok, target, v);
        case Object(_, _) => SecondObjectExactly(s, parses, ok, n, v.entries);
        case Record(_) => SecondObjectExactly(s, parses, ok, n, v.entries);
        case Array(_) => SecondItemsExactly(s, parses, ok, n, v.items);
        case _ =>
      }
    }
  }

  lemma {:induction false} SecondObjectExactly(s: Schemas, parses: Parses, ok: set<nat>, n: nat, entries: seq<Entry>)
    requires Grounded(s) && Licensed(s.graph, ok) && n in ok && (s.graph[n].Object? || s.graph[n].Record?)
    requires UnionFree(s.graph, ok)
    ensures var b := ProjectEntries(s, parses, n, entries);
            b.Built? && (b.plain <==> !ReplacesHere(s, parses, n, entries))
            && (ProjectEntries(s, parses, n, b.entries) == Built(true, b.entries) <==> !ReplacesInside(s, parses, n, entries))
    decreases entries, 0
  {
    EntriesNeverThrow(s, parses, ok, n, entries);
    if entries != [] {
      var init := entries[..|entries| - 1];
      var Entry(key, item) := entries[|entries| - 1];
      SecondObjectExactly(s, parses, ok, n, init);
      var before, field := ProjectEntries(s, parses, n, init), Member(s.graph[n], key);
      if field.Some? {
        PlacedExactly(s, parses, ok, field.value, item);
        NeverThrows(s, parses, ok, field.value, item);
        var r := Project(s, parses, field.value, item);
        if r.Keep? {
          KeptKind(s, parses, field.value, item);
          SecondKeepsExactly(s, parses, ok, field.value, item);
          OneMoreEntry(s, parses, n, before.entries, Entry(key, r.value));
        } else {
          DropReplacesNothing(s, parses, field.value, item);
        }
      }
    }
  }

  /** The items come back unchanged just when the earlier ones do and the last is kept as it is. */
  lemma OneMoreItem(s: Schemas, parses: Parses, ok: set<nat>, n: nat, init: seq<Value>, last: Value)
    requires Grounded(s) && Licensed(s.graph, ok) && n in ok && s.graph[n].Array?
    ensures s.graph[n].element < |s.graph|
    ensures ProjectItems(s, parses, n, init + [last]) == BuiltItems(init + [last]) <==>
            ProjectItems(s, parses, n, init) == BuiltItems(init) && Project(s, parses, s.graph[n].element, last) == Keep(last)
  {
    var items, element := init + [last], s.graph[n].element;
    assert element in Children(s.graph[n]);
    assert items[..|init|] == init && items[|init|] == last;
    ItemsNeverThrow(s, parses, ok, n, init);
    NeverThrows(s, parses, ok, element, last);
    if Project(s, parses, element, last).Drop? { DroppedIsKeyed(s, parses, element, last); }
    var before, after := ProjectItems(s, parses, n, init), ProjectItems(s, parses, n, items);
    if after == BuiltItems(items) {
      assert after.items[..|before.items|] == before.items && |before.items| == |init|;
      assert after.items[|init|] == last;
    }
  }

  lemma {:induction false} SecondItemsExactly(s: Schemas, parses: Parses, ok: set<nat>, n: nat, items: seq<Value>)
    requires Grounded(s) && Licensed(s.graph, ok) && n in ok && s.graph[n].Array? && UnionFree(s.graph, ok)
    ensures var b := ProjectItems(s, parses, n, items);
            b.BuiltItems? && (ProjectItems(s, parses, n, b.items) == b <==> !ReplacesItems(s, parses, n, items))
    decreases items, 0
  {
    ItemsNeverThrow(s, parses, ok, n, items);
    if items != [] {
      var element, init, last := s.graph[n].element, items[..|items| - 1], items[|items| - 1];
      assert element in Children(s.graph[n]);
      SecondItemsExactly(s, parses, ok, n, init);
      NeverThrows(s, parses, ok, element, last);
      var before, r := ProjectItems(s, parses, n, init), Project(s, parses, element, last);
      if r.Keep? {
        SecondKeepsExactly(s, parses, ok, element, last);
        OneMoreItem(s, parses, ok, n, before.items, r.value);
      } else {
        DropReplacesNothing(s, parses, element, last);
        BareIsKept(s, parses, ok, element, Null);
        OneMoreItem(s, parses, ok, n, before.items, Null);
      }
    }
  }

  /** Idempotence: a second projection changes nothing and reports nothing exactly when the first
      replaced no prototype. */
  lemma ProjectingTwiceExactly(s: Schemas, parses: Parses, ok: set<nat>, n: nat, v: Value, path: string)
    requires Grounded(s) && Licensed(s.graph, ok) && n in ok && UnionFree(s.graph, ok)
    requires Project(s, parses, n, v).Keep?
    ensures var r := Project(s, parses, n, v).value;
            (Project(s, parses, n, r) == Keep(r) && Stripped(s, parses, n, r, path) == []) <==> !Replaces(s, parses, n, v)
  {
    SecondKeepsExactly(s, parses, ok, n, v);
    UnchangedExactly(s, parses, ok, n, Project(s, parses, n, v).value, path);
  }

  /** The whole contract: a schema the check accepts is projected without error on every value,
      and nothing undeclared is left. */
  method ProjectOntoContract(s: Schemas, parses: Parses, root: nat, v: Value)
    returns (verdict: Verdict, value: Value, stripped: seq<string>)
    requires Grounded(s) && root < |s.graph|
    ensures verdict.Refused? <==> exists n :: 0 <= n < |s.graph| && Reaches(s.graph, root, n) && !Supported(s.graph[n])
    ensures verdict.Accepted? ==> !Project(s, parses, root, v).Thrown? && Clean(s, root, value)
    ensures verdict.Accepted? ==>
              value == match Project(s, parses, root, v) case Keep(r) => r case _ => Undefined
    ensures verdict.Accepted? && ProtoFree(v) ==> (stripped == [] <==> Project(s, parses, root, v) == Keep(v))
  {
    ghost var ok;
    verdict, ok := AssertProjectable(s.graph, root);
    value, stripped := Undefined, [];
    if verdict.Accepted? {
      NeverThrows(s, parses, ok, root, v);
      ResultIsClean(s, parses, ok, root, v);
      BareIsKept(s, parses, ok, root, Undefined);
      var projector := new Projector(s, parses);
      var r := projector.OnValue(root, v, "");
      stripped := projector.stripped;
      if r.Keep? { value := r.value; }
      AddAllEmpty(Stripped(s, parses, root, v, ""));
      if ProtoFree(v) { ReportTellsAll(s, parses, ok, root, v, ""); }
    }
  }

  lemma {:induction false} AddAllEmpty(paths: seq<string>)
    ensures AddAll([], paths) == [] <==> paths == []
  {
    if paths != [] { AddAllEmpty(paths[..|paths| - 1]); }
  }
}
