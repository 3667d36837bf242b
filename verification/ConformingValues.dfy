/** What the projection keeps, told from the schema's own fields and options. */
module ConformingValues {
  import opened Prelude
  import opened SchemaCheck
  import opened ResponseContract
  import opened ProjectionLaws

  // ---------------------------------------------------------------------------
  // The schema declared for a key
  // ---------------------------------------------------------------------------

  /** A shape holds one field per key; of a list that repeats a key, the first. */
  predicate DeclaredBy(fields: seq<Field>, key: string, f: nat)
    requires f < |fields|
  {
    fields[f].key == key && forall g :: 0 <= g < f ==> fields[g].key != key
  }

  lemma {:induction false} LookupExactly(fields: seq<Field>, key: string)
    ensures Lookup(fields, key).None? <==> forall f :: 0 <= f < |fields| ==> fields[f].key != key
    ensures Lookup(fields, key).Some? ==>
              exists f :: 0 <= f < |fields| && DeclaredBy(fields, key, f) && fields[f].schema == Lookup(fields, key).value
  {
    if fields != [] {
      if fields[0].key == key {
        assert DeclaredBy(fields, key, 0);
      } else {
        var rest := fields[1..];
        LookupExactly(rest, key);
        assert forall f :: 0 < f < |fields| ==> fields[f] == rest[f - 1];
        if f :| 0 <= f < |rest| && DeclaredBy(rest, key, f) && fields[f + 1].schema == Lookup(fields, key).value {
          assert DeclaredBy(fields, key, f + 1);
        }
      }
    }
  }

  /** The node declares this schema for the key; a record declares its one for every key. */
  ghost predicate Declares(node: Node, key: string, schema: nat)
    requires node.Object? || node.Record?
  {
    match node
    case Object(fields, _) => exists f :: 0 <= f < |fields| && DeclaredBy(fields, key, f) && fields[f].schema == schema
    case Record(valueType) => schema == valueType
  }

  lemma MemberExactly(node: Node, key: string, schema: nat)
    requires node.Object? || node.Record?
    ensures Member(node, key) == Some(schema) <==> Declares(node, key, schema)
  {
    if node.Object? { LookupExactly(node.fields, key); }
  }

  // ---------------------------------------------------------------------------
  // What an object or record holds afterwards
  // ---------------------------------------------------------------------------

  /** The entry has a declared key other than `__proto__`, and its value a place under that schema. */
  ghost predicate Survives(s: Schemas, parses: Parses, n: nat, e: Entry)
    requires Grounded(s) && n < |s.graph| && (s.graph[n].Object? || s.graph[n].Record?)
  {
    e.key != "__proto__" && exists schema: nat :: HasPlace(s, parses, n, e, schema)
  }

  ghost predicate HasPlace(s: Schemas, parses: Parses, n: nat, e: Entry, schema: nat)
    requires Grounded(s) && n < |s.graph| && (s.graph[n].Object? || s.graph[n].Record?)
  {
    schema < |s.graph| && Declares(s.graph[n], e.key, schema) && Placed(s, parses, schema, e.value)
  }

  /** `after` is the entry with its value projected under the schema declared for its key. */
  ghost predicate Becomes(s: Schemas, parses: Parses, n: nat, before: Entry, after: Entry)
    requires Grounded(s) && n < |s.graph| && (s.graph[n].Object? || s.graph[n].Record?)
  {
    after.key == before.key
    && exists schema: nat :: schema < |s.graph| && Declares(s.graph[n], before.key, schema)
                             && Project(s, parses, schema, before.value) == Keep(after.value)
  }

  /** `out` holds, in order, what exactly the surviving entries become; `picks` says where they were. */
  ghost predicate Selects(s: Schemas, parses: Parses, n: nat, entries: seq<Entry>, picks: seq<nat>, out: seq<Entry>)
    requires Grounded(s) && n < |s.graph| && (s.graph[n].Object? || s.graph[n].Record?)
  {
    && |picks| == |out|
    && (forall p, q :: 0 <= p < q < |picks| ==> picks[p] < picks[q])
    && (forall p :: 0 <= p < |picks| ==> picks[p] < |entries| && Becomes(s, parses, n, entries[picks[p]], out[p]))
    && (forall i :: 0 <= i < |entries| ==> (i in picks <==> Survives(s, parses, n, entries[i])))
  }

  /** The result of an object or record holds exactly the entries that survive, in their order. */
  lemma {:induction false} KeepsExactly(s: Schemas, parses: Parses, ok: set<nat>, n: nat, entries: seq<Entry>) returns (picks: seq<nat>)
    requires Grounded(s) && Licensed(s.graph, ok) && n in ok && (s.graph[n].Object? || s.graph[n].Record?)
    ensures ProjectEntries(s, parses, n, entries).Built?
    ensures Selects(s, parses, n, entries, picks, ProjectEntries(s, parses, n, entries).entries)
    decreases |entries|
  {
    EntriesNeverThrow(s, parses, ok, n, entries);
    if entries == [] {
      picks := [];
    } else {
      var init := entries[..|entries| - 1];
      EntriesNeverThrow(s, parses, ok, n, init);
      picks := KeepsExactly(s, parses, ok, n, init);
      picks := PicksOneMore(s, parses, ok, n, entries, picks, ProjectEntries(s, parses, n, init), ProjectEntries(s, parses, n, entries));
    }
  }

  lemma PicksOneMore(s: Schemas, parses: Parses, ok: set<nat>, n: nat, entries: seq<Entry>, picks: seq<nat>, before: Built, after: Built)
    returns (more: seq<nat>)
    requires Grounded(s) && Licensed(s.graph, ok) && n in ok && (s.graph[n].Object? || s.graph[n].Record?) && entries != []
    requires before == ProjectEntries(s, parses, n, entries[..|entries| - 1]) && after == ProjectEntries(s, parses, n, entries)
    requires before.Built? && after.Built? && Selects(s, parses, n, entries[..|entries| - 1], picks, before.entries)
    ensures Selects(s, parses, n, entries, more, after.entries)
  {
    var last := entries[|entries| - 1];
    SurvivesExactly(s, parses, ok, n, last);
    if Survives(s, parses, n, last) {
      var schema := Member(s.graph[n], last.key).value;
      MemberExactly(s.graph[n], last.key, schema);
      var kept := Entry(last.key, Project(s, parses, schema, last.value).value);
      assert after.entries == before.entries + [kept];
      SelectsOneMore(s, parses, n, entries, picks, before.entries, kept);
      more := picks + [|entries| - 1];
    } else {
      assert after.entries == before.entries;
      SelectsTheSame(s, parses, n, entries, picks, before.entries);
      more := picks;
    }
  }

  lemma SurvivesExactly(s: Schemas, parses: Parses, ok: set<nat>, n: nat, e: Entry)
    requires Grounded(s) && Licensed(s.graph, ok) && n in ok && (s.graph[n].Object? || s.graph[n].Record?)
    ensures var field := Member(s.graph[n], e.key);
            Survives(s, parses, n, e) <==> e.key != "__proto__" && field.Some? && Project(s, parses, field.value, e.value).Keep?
    ensures Member(s.graph[n], e.key).Some? ==> !Project(s, parses, Member(s.graph[n], e.key).value, e.value).Thrown?
  {
    var field := Member(s.graph[n], e.key);
    if field.Some? {
      MemberExactly(s.graph[n], e.key, field.value);
      NeverThrows(s, parses, ok, field.value, e.value);
      PlacedExactly(s, parses, ok, field.value, e.value);
      if Placed(s, parses, field.value, e.value) { assert HasPlace(s, parses, n, e, field.value); }
    }
    if schema: nat :| HasPlace(s, parses, n, e, schema) { MemberExactly(s.graph[n], e.key, schema); }
  }

  lemma SelectsOneMore(s: Schemas, parses: Parses, n: nat, entries: seq<Entry>, picks: seq<nat>, out: seq<Entry>, last: Entry)
    requires Grounded(s) && n < |s.graph| && (s.graph[n].Object? || s.graph[n].Record?) && entries != []
    requires Selects(s, parses, n, entries[..|entries| - 1], picks, out)
    requires Survives(s, parses, n, entries[|entries| - 1]) && Becomes(s, parses, n, entries[|entries| - 1], last)
    ensures Selects(s, parses, n, entries, picks + [|entries| - 1], out + [last])
  {
    var init, more := entries[..|entries| - 1], picks + [|entries| - 1];
    forall p | 0 <= p < |more| ensures more[p] < |entries| && Becomes(s, parses, n, entries[more[p]], (out + [last])[p]) {
      if p < |picks| { assert init[picks[p]] == entries[picks[p]]; }
    }
    forall i | 0 <= i < |entries| ensures i in more <==> Survives(s, parses, n, entries[i]) {
      if i < |init| { assert init[i] == entries[i]; } else { assert more[|picks|] == i; }
    }
  }

  lemma SelectsTheSame(s: Schemas, parses: Parses, n: nat, entries: seq<Entry>, picks: seq<nat>, out: seq<Entry>)
    requires Grounded(s) && n < |s.graph| && (s.graph[n].Object? || s.graph[n].Record?) && entries != []
    requires Selects(s, parses, n, entries[..|entries| - 1], picks, out)
    requires !Survives(s, parses, n, entries[|entries| - 1])
    ensures Selects(s, parses, n, entries, picks, out)
  {
    var init := entries[..|entries| - 1];
    forall p | 0 <= p < |picks| ensures picks[p] < |entries| && Becomes(s, parses, n, entries[picks[p]], out[p]) {
      assert init[picks[p]] == entries[picks[p]];
    }
    forall i | 0 <= i < |entries| ensures i in picks <==> Survives(s, parses, n, entries[i]) {
      if i < |init| { assert init[i] == entries[i]; }
    }
  }

  /** A plain object projected onto an object or record schema: what it holds afterwards, and in which
      order. (Only a `__proto__` entry can replace its prototype.) */
  lemma ObjectHoldsExactly(s: Schemas, parses: Parses, ok: set<nat>, n: nat, v: Value) returns (picks: seq<nat>)
    requires Grounded(s) && Licensed(s.graph, ok) && n in ok && (s.graph[n].Object? || s.graph[n].Record?) && v.Obj?
    ensures var r := Project(s, parses, n, v);
            r.Keep? && (r.value.Obj? || r.value.Foreign?) && Selects(s, parses, n, v.entries, picks, r.value.entries)
  {
    picks := KeepsExactly(s, parses, ok, n, v.entries);
  }

  /** The path of an entry: keys joined by dots, `{}` for any key of a record. */
  function Path(node: Node, path: string, key: string): string {
    if node.Record? then path + "{}" else if path == "" then key else path + "." + key
  }

  /** What an entry reports: itself where its key is not declared, else what its value reports. */
  ghost predicate Reports(s: Schemas, parses: Parses, n: nat, e: Entry, path: string, p: string)
    requires Grounded(s) && n < |s.graph| && (s.graph[n].Object? || s.graph[n].Record?)
  {
    var here := Path(s.graph[n], path, e.key);
    || (p == here && forall schema: nat :: !Declares(s.graph[n], e.key, schema))
    || exists schema: nat :: schema < |s.graph| && Declares(s.graph[n], e.key, schema) && p in Stripped(s, parses, schema, e.value, here)
  }

  /** Some entry reports the path. */
  ghost predicate SomeReports(s: Schemas, parses: Parses, n: nat, entries: seq<Entry>, path: string, p: string)
    requires Grounded(s) && n < |s.graph| && (s.graph[n].Object? || s.graph[n].Record?)
  {
    exists i :: 0 <= i < |entries| && Reports(s, parses, n, entries[i], path, p)
  }

  /** The report of an object or record is exactly what its entries report. */
  lemma {:induction false} EntriesReportExactly(s: Schemas, parses: Parses, n: nat, entries: seq<Entry>, path: string, p: string)
    requires Grounded(s) && n < |s.graph| && (s.graph[n].Object? || s.graph[n].Record?)
    ensures p in StrippedEntries(s, parses, n, entries, path) <==> SomeReports(s, parses, n, entries, path, p)
  {
    if entries != [] {
      var init, last := entries[..|entries| - 1], entries[|entries| - 1];
      EntriesReportExactly(s, parses, n, init, path, p);
      LastIsReported(s, parses, n, entries, path, p);
      OneReports(s, parses, n, last, path, p);
      ReportsSnoc(s, parses, n, init, last, path, p);
      assert entries == init + [last];
    }
  }

  lemma LastIsReported(s: Schemas, parses: Parses, n: nat, entries: seq<Entry>, path: string, p: string)
    requires Grounded(s) && n < |s.graph| && (s.graph[n].Object? || s.graph[n].Record?) && entries != []
    ensures var e := entries[|entries| - 1];
            p in StrippedEntries(s, parses, n, entries, path) <==>
            || p in StrippedEntries(s, parses, n, entries[..|entries| - 1], path)
            || match Member(s.graph[n], e.key)
               case None => p == EntryPath(s.graph[n], path, e.key)
               case Some(field) => p in Stripped(s, parses, field, e.value, EntryPath(s.graph[n], path, e.key))
  {}

  lemma ReportsSnoc(s: Schemas, parses: Parses, n: nat, init: seq<Entry>, last: Entry, path: string, p: string)
    requires Grounded(s) && n < |s.graph| && (s.graph[n].Object? || s.graph[n].Record?)
    ensures SomeReports(s, parses, n, init + [last], path, p) <==>
            SomeReports(s, parses, n, init, path, p) || Reports(s, parses, n, last, path, p)
  {
    var entries := init + [last];
    assert entries[|init|] == last && forall i :: 0 <= i < |init| ==> entries[i] == init[i];
  }

  lemma OneReports(s: Schemas, parses: Parses, n: nat, e: Entry, path: string, p: string)
    requires Grounded(s) && n < |s.graph| && (s.graph[n].Object? || s.graph[n].Record?)
    ensures Reports(s, parses, n, e, path, p) <==>
            match Member(s.graph[n], e.key)
            case None => p == EntryPath(s.graph[n], path, e.key)
            case Some(field) => p in Stripped(s, parses, field, e.value, EntryPath(s.graph[n], path, e.key))
  {
    forall schema: nat ensures Member(s.graph[n], e.key) == Some(schema) <==> Declares(s.graph[n], e.key, schema) {
      MemberExactly(s.graph[n], e.key, schema);
    }
  }

  /** The report of an array is exactly what its items report. */
  lemma {:induction false} ItemsReportExactly(s: Schemas, parses: Parses, n: nat, items: seq<Value>, path: string, p: string)
    requires Grounded(s) && n < |s.graph| && s.graph[n].Array?
    ensures s.graph[n].element < |s.graph|
    ensures p in StrippedItems(s, parses, n, items, path) <==>
            exists i :: 0 <= i < |items| && p in Stripped(s, parses, s.graph[n].element, items[i], path + "[]")
  {
    assert s.graph[n].element in Children(s.graph[n]);
    if items != [] {
      var init := items[..|items| - 1];
      ItemsReportExactly(s, parses, n, init, path, p);
      assert forall i :: 0 <= i < |init| ==> init[i] == items[i];
    }
  }

  /** A keyed value where the schema has no place for one is reported by its own path. */
  lemma DroppedWholeIsNamed(s: Schemas, parses: Parses, n: nat, v: Value, path: string)
    requires Grounded(s) && n < |s.graph| && CarriesKeys(v)
    requires match s.graph[n]
             case Object(_, _) => !v.Obj?
             case Record(_) => !v.Obj?
             case Array(_) => !v.Arr?
             case Scalar(_) => true
             case _ => false
    ensures Project(s, parses, n, v) == Drop && Stripped(s, parses, n, v, path) == [if path == "" then "(root)" else path]
  {}

  // ---------------------------------------------------------------------------
  // Which option of a union is taken
  // ---------------------------------------------------------------------------

  /** The option accepts values of this one's kind, or any. */
  predicate FitsKind(s: Schemas, o: nat, v: Value)
    requires Grounded(s)
  {
    o < |s.graph| && (KindOfOption(s, o) == KindOf(v) || KindOfOption(s, o) == OpaqueKind)
  }

  /** The first option that parses the value, or where none does the first that fits its kind. */
  predicate Taken(s: Schemas, parses: Parses, options: seq<nat>, v: Value, i: nat)
    requires Grounded(s)
  {
    && i < |options|
    && if exists j :: 0 <= j < |options| && parses(options[j], v)
       then parses(options[i], v) && forall j :: 0 <= j < i ==> !parses(options[j], v)
       else FitsKind(s, options[i], v) && forall j :: 0 <= j < i ==> !FitsKind(s, options[j], v)
  }

  lemma {:induction false} FirstParsingAt(parses: Parses, options: seq<nat>, v: Value) returns (i: nat)
    ensures FirstParsing(parses, options, v).None? ==> forall j :: 0 <= j < |options| ==> !parses(options[j], v)
    ensures FirstParsing(parses, options, v).Some? ==>
              && i < |options| && options[i] == FirstParsing(parses, options, v).value && parses(options[i], v)
              && forall j :: 0 <= j < i ==> !parses(options[j], v)
  {
    i := 0;
    if options != [] && !parses(options[0], v) {
      var k := FirstParsingAt(parses, options[1..], v);
      assert forall j :: 0 < j < |options| ==> options[j] == options[1..][j - 1];
      i := k + 1;
    }
  }

  lemma {:induction false} FirstOfKindAt(s: Schemas, options: seq<nat>, v: Value) returns (i: nat)
    requires Grounded(s) && forall o :: o in options ==> o < |s.graph|
    ensures FirstOfKind(s, options, KindOf(v)).None? ==> forall j :: 0 <= j < |options| ==> !FitsKind(s, options[j], v)
    ensures FirstOfKind(s, options, KindOf(v)).Some? ==>
              && i < |options| && options[i] == FirstOfKind(s, options, KindOf(v)).value && FitsKind(s, options[i], v)
              && forall j :: 0 <= j < i ==> !FitsKind(s, options[j], v)
  {
    i := 0;
    if options != [] {
      assert options[0] in options && forall o :: o in options[1..] ==> o in options;
      if !FitsKind(s, options[0], v) {
        var k := FirstOfKindAt(s, options[1..], v);
        assert forall j :: 0 < j < |options| ==> options[j] == options[1..][j - 1];
        i := k + 1;
      }
    }
  }

  /** A union takes the first option that parses the value, as the schema library would; where none
      does, the first that accepts values of its kind. */
  lemma ChosenExactly(s: Schemas, parses: Parses, options: seq<nat>, v: Value)
    requires Grounded(s) && forall o :: o in options ==> o < |s.graph|
    ensures Chosen(s, parses, options, v).None? <==> forall i: nat :: !Taken(s, parses, options, v, i)
    ensures Chosen(s, parses, options, v).Some? ==>
              exists i: nat :: Taken(s, parses, options, v, i) && options[i] == Chosen(s, parses, options, v).value
  {
    var i := FirstParsingAt(parses, options, v);
    var k := FirstOfKindAt(s, options, v);
    if FirstParsing(parses, options, v).Some? {
      assert Taken(s, parses, options, v, i);
    } else if Chosen(s, parses, options, v).Some? {
      assert Taken(s, parses, options, v, k);
    }
  }

  /** The schema a chain of wrappers and lazies ends in. */
  function End(s: Schemas, n: nat): nat
    requires Grounded(s) && n < |s.graph|
    decreases s.depth[n]
  {
    match s.graph[n]
    case Wrapper(inner) =>
      assert inner in Children(s.graph[n]);
      End(s, inner)
    case Lazy(target) =>
      assert target in Children(s.graph[n]);
      End(s, target)
    case _ => n
  }

  /** For arrays and plain objects, unless it ends in another union, an option fits by kind exactly
      when it has a place for the value. */
  lemma {:induction false} KindTellsPlace(s: Schemas, parses: Parses, o: nat, v: Value)
    requires Grounded(s) && o < |s.graph| && (v.Arr? || v.Obj?) && End(s, o) < |s.graph| && !s.graph[End(s, o)].Union?
    ensures FitsKind(s, o, v) <==> Placed(s, parses, o, v)
    decreases s.depth[o]
  {
    match s.graph[o] {
      case Wrapper(inner) => assert inner in Children(s.graph[o]); KindTellsPlace(s, parses, inner, v);
      case Lazy(target) => assert target in Children(s.graph[o]); KindTellsPlace(s, parses, target, v);
      case _ =>
    }
  }

  // ---------------------------------------------------------------------------
  // Values that conform come back as they were
  // ---------------------------------------------------------------------------

  /** The value is one the schema describes, key for key: every object key is declared and its value
      conforms, and keyed values stand where the schema has them. */
  ghost predicate Conforms(s: Schemas, parses: Parses, n: nat, v: Value)
    requires Grounded(s) && n < |s.graph|
    decreases v, s.depth[n], 1
  {
    var node := s.graph[n];
    match node
    case Wrapper(inner) =>
      assert inner in Children(node);
      v.Null? || v.Undefined? || Conforms(s, parses, inner, v)
    case Lazy(target) =>
      assert target in Children(node);
      Conforms(s, parses, target, v)
    case Opaque => true
    case Object(_, _) =>
      if v.Obj? then forall i :: 0 <= i < |v.entries| ==> EntryConforms(s, parses, n, v.entries[i]) else !CarriesKeys(v)
    case Record(_) =>
      if v.Obj? then forall i :: 0 <= i < |v.entries| ==> EntryConforms(s, parses, n, v.entries[i]) else !CarriesKeys(v)
    case Array(element) =>
      assert element in Children(node);
      if v.Arr? then forall i :: 0 <= i < |v.items| ==> Conforms(s, parses, element, v.items[i]) else !CarriesKeys(v)
    case Union(options) =>
      assert forall o :: o in options ==> o in Children(node);
      || (!CarriesKeys(v) && forall i: nat :: !Taken(s, parses, options, v, i))
      || exists i: nat :: i < |options| && Taken(s, parses, options, v, i) && (assert options[i] in options; Conforms(s, parses, options[i], v))
    case Scalar(_) => !CarriesKeys(v)
    case Other(_) => false
  }

  ghost predicate EntryConforms(s: Schemas, parses: Parses, n: nat, e: Entry)
    requires Grounded(s) && n < |s.graph| && (s.graph[n].Object? || s.graph[n].Record?)
    decreases e, 0, 0
  {
    e.key != "__proto__"
    && exists schema: nat :: schema < |s.graph| && Declares(s.graph[n], e.key, schema) && Conforms(s, parses, schema, e.value)
  }

  /** A value comes back as it was exactly when it conforms. */
  lemma {:induction false} ConformingExactly(s: Schemas, parses: Parses, ok: set<nat>, n: nat, v: Value)
    requires Grounded(s) && Licensed(s.graph, ok) && n in ok
    ensures Project(s, parses, n, v) == Keep(v) <==> Conforms(s, parses, n, v)
    decreases v, s.depth[n], 1
  {
    var node := s.graph[n];
    match node {
      case Wrapper(inner) => assert inner in Children(node); ConformingExactly(s, parses, ok, inner, v);
      case Lazy(target) => assert target in Children(node); ConformingExactly(s, parses, ok, target, v);
      case Object(_, _) => if v.Obj? { EntriesConformExactly(s, parses, ok, n, v.entries); }
      case Record(_) => if v.Obj? { EntriesConformExactly(s, parses, ok, n, v.entries); }
      case Array(_) => if v.Arr? { ItemsConformExactly(s, parses, ok, n, v.items); }
      case Union(options) => UnionConformsExactly(s, parses, ok, n, v);
      case _ =>
    }
  }

  lemma {:induction false} UnionConformsExactly(s: Schemas, parses: Parses, ok: set<nat>, n: nat, v: Value)
    requires Grounded(s) && Licensed(s.graph, ok) && n in ok && s.graph[n].Union?
    ensures Project(s, parses, n, v) == Keep(v) <==> Conforms(s, parses, n, v)
    decreases v, s.depth[n], 0
  {
    var options := s.graph[n].options;
    assert forall o :: o in options ==> o in Children(s.graph[n]);
    ChosenExactly(s, parses, options, v);
    var chosen := Chosen(s, parses, options, v);
    if chosen.Some? {
      ConformingExactly(s, parses, ok, chosen.value, v);
      OneTaken(s, parses, options, v);
    }
  }

  lemma OneTaken(s: Schemas, parses: Parses, options: seq<nat>, v: Value)
    requires Grounded(s) && forall o :: o in options ==> o < |s.graph|
    ensures forall i, j :: Taken(s, parses, options, v, i) && Taken(s, parses, options, v, j) ==> i == j
  {}

  lemma {:induction false} EntriesConformExactly(s: Schemas, parses: Parses, ok: set<nat>, n: nat, entries: seq<Entry>)
    requires Grounded(s) && Licensed(s.graph, ok) && n in ok && (s.graph[n].Object? || s.graph[n].Record?)
    ensures ProjectEntries(s, parses, n, entries) == Built(true, entries) <==>
            forall i :: 0 <= i < |entries| ==> EntryConforms(s, parses, n, entries[i])
    decreases entries, 0, 0
  {
    if entries != [] {
      var init, last := entries[..|entries| - 1], entries[|entries| - 1];
      EntriesConformExactly(s, parses, ok, n, init);
      assert entries == init + [last];
      OneMoreEntry(s, parses, n, init, last);
      LastConforms(s, parses, ok, n, last);
      assert forall i :: 0 <= i < |init| ==> init[i] == entries[i];
    }
  }

  lemma {:induction false} LastConforms(s: Schemas, parses: Parses, ok: set<nat>, n: nat, e: Entry)
    requires Grounded(s) && Licensed(s.graph, ok) && n in ok && (s.graph[n].Object? || s.graph[n].Record?)
    ensures var field := Member(s.graph[n], e.key);
            EntryConforms(s, parses, n, e) <==>
            e.key != "__proto__" && field.Some? && Project(s, parses, field.value, e.value) == Keep(e.value)
    decreases e, 0, 0
  {
    var field := Member(s.graph[n], e.key);
    if field.Some? {
      MemberExactly(s.graph[n], e.key, field.value);
      ConformingExactly(s, parses, ok, field.value, e.value);
    }
    if schema: nat :| schema < |s.graph| && Declares(s.graph[n], e.key, schema) { MemberExactly(s.graph[n], e.key, schema); }
  }

  lemma {:induction false} ItemsConformExactly(s: Schemas, parses: Parses, ok: set<nat>, n: nat, items: seq<Value>)
    requires Grounded(s) && Licensed(s.graph, ok) && n in ok && s.graph[n].Array?
    ensures s.graph[n].element < |s.graph|
    ensures ProjectItems(s, parses, n, items) == BuiltItems(items) <==>
            forall i :: 0 <= i < |items| ==> Conforms(s, parses, s.graph[n].element, items[i])
    decreases items, 0, 0
  {
    assert s.graph[n].element in Children(s.graph[n]);
    if items != [] {
      var init, last := items[..|items| - 1], items[|items| - 1];
      ItemsConformExactly(s, parses, ok, n, init);
      ConformingExactly(s, parses, ok, s.graph[n].element, last);
      assert items == init + [last];
      OneMoreItem(s, parses, ok, n, init, last);
      AllOfSnoc(s, parses, s.graph[n].element, init, last);
    }
  }

  lemma AllOfSnoc(s: Schemas, parses: Parses, n: nat, init: seq<Value>, last: Value)
    requires Grounded(s) && n < |s.graph|
    ensures var items := init + [last];
            (forall i :: 0 <= i < |items| ==> Conforms(s, parses, n, items[i])) <==>
            (forall i :: 0 <= i < |init| ==> Conforms(s, parses, n, init[i])) && Conforms(s, parses, n, last)
  {
    var items := init + [last];
    assert items[|init|] == last && forall i :: 0 <= i < |init| ==> items[i] == init[i];
  }

  /** A conforming value is kept whole, and nothing of it is reported. */
  lemma ConformingIsUntouched(s: Schemas, parses: Parses, ok: set<nat>, n: nat, v: Value, path: string)
    requires Grounded(s) && Licensed(s.graph, ok) && n in ok && Conforms(s, parses, n, v)
    ensures Project(s, parses, n, v) == Keep(v) && Stripped(s, parses, n, v, path) == []
  {
    ConformingExactly(s, parses, ok, n, v);
    UnchangedExactly(s, parses, ok, n, v, path);
  }
}
