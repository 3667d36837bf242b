/** Projecting a response onto its schema: undeclared keys are dropped at every depth. */
module ResponseContract {
  import opened Prelude
  import opened SchemaCheck

  /** `Foreign` is an object that is not plain: a class instance, or one whose prototype was
      replaced. Entries are own enumerable keys in order. */
  datatype Value =
    | Null
    | Undefined
    | Primitive(text: string)
    | Date(text: string)
    | Arr(items: seq<Value>)
    | Obj(entries: seq<Entry>)
    | Foreign(entries: seq<Entry>)

  datatype Entry = Entry(key: string, value: Value)

  /** A projected value, the DROP marker, or the error for an unsupported schema. */
  datatype Projected = Keep(value: Value) | Drop | Thrown

  /** The object under construction, or the error. */
  datatype Built = Built(plain: bool, entries: seq<Entry>) | Broken

  datatype BuiltItems = BuiltItems(items: seq<Value>) | BrokenItems

  /** Schemas, and how many wrappers, lazies and unions can follow one another from each. */
  datatype Schemas = Schemas(graph: Graph, depth: seq<nat>)

  predicate PassesOn(node: Node) {
    node.Wrapper? || node.Lazy? || node.Union?
  }

  /** Every cycle passes through an object, an array or a record. */
  predicate Grounded(s: Schemas) {
    && Linked(s.graph) && |s.depth| == |s.graph|
    && forall n, c :: 0 <= n < |s.graph| && c in Children(s.graph[n]) && PassesOn(s.graph[n]) ==> s.depth[c] < s.depth[n]
  }

  /** Does a schema, on its own, parse a value? Decides between union options. */
  type Parses = (nat, Value) -> bool

  predicate CarriesKeys(v: Value) {
    v.Arr? || v.Obj? || v.Foreign?
  }

  function DropKeyed(v: Value): Projected {
    if CarriesKeys(v) then Drop else Keep(v)
  }

  function Lookup(fields: seq<Field>, key: string): Option<nat> {
    if fields == [] then None
    else if fields[0].key == key then Some(fields[0].schema)
    else Lookup(fields[1..], key)
  }

  lemma {:induction false} LookupIsChild(fields: seq<Field>, open: bool, key: string)
    ensures Lookup(fields, key).Some? ==>
              exists i :: 0 <= i < |fields| && fields[i].key == key && fields[i].schema == Lookup(fields, key).value
  {
    if fields != [] && fields[0].key != key {
      LookupIsChild(fields[1..], open, key);
      if Lookup(fields, key).Some? {
        var i :| 0 <= i < |fields[1..]| && fields[1..][i].key == key && fields[1..][i].schema == Lookup(fields, key).value;
        assert fields[i + 1].key == key;
      }
    }
  }

  /** The schema of an object's or record's own key. */
  function Member(node: Node, key: string): (r: Option<nat>)
    requires node.Object? || node.Record?
    ensures r.Some? ==> r.value in Children(node)
  {
    match node
    case Object(fields, open) =>
      LookupIsChild(fields, open, key);
      var r := Lookup(fields, key);
      assert r.Some? ==> r.value in Children(node) by {
        if r.Some? {
          var i :| 0 <= i < |fields| && fields[i].key == key && fields[i].schema == r.value;
          assert Children(node)[i] == r.value;
        }
      }
      r
    case Record(valueType) => Some(valueType)
  }

  /** `out[key] = value`: assigning `__proto__` replaces the prototype instead (null leaves the
      object plain, a primitive is ignored). */
  function Put(b: Built, key: string, v: Value): Built
    requires b.Built?
  {
    if key == "__proto__" then b.(plain := b.plain && (v.Null? || v.Undefined? || v.Primitive?))
    else b.(entries := b.entries + [Entry(key, v)])
  }

  function Finished(b: Built): Projected {
    match b
    case Broken => Thrown
    case Built(plain, entries) => Keep(if plain then Obj(entries) else Foreign(entries))
  }

  datatype OptionKind = ObjectKind | ArrayKind | ScalarKind | OpaqueKind

  function KindOf(v: Value): OptionKind {
    if v.Arr? then ArrayKind else if v.Obj? then ObjectKind else ScalarKind
  }

  /** The kind of value a union option accepts, through wrappers and lazies. */
  function KindOfOption(s: Schemas, n: nat): OptionKind
    requires Grounded(s) && n < |s.graph|
    decreases s.depth[n]
  {
    match s.graph[n]
    case Wrapper(inner) =>
      assert inner in Children(s.graph[n]);
      KindOfOption(s, inner)
    case Lazy(target) =>
      assert target in Children(s.graph[n]);
      KindOfOption(s, target)
    case Object(_, _) => ObjectKind
    case Record(_) => ObjectKind
    case Array(_) => ArrayKind
    case Opaque => OpaqueKind
    case _ => ScalarKind
  }

  /** The first option that parses the value, else the first of its kind (or opaque). */
  function Chosen(s: Schemas, parses: Parses, options: seq<nat>, v: Value): (r: Option<nat>)
    requires Grounded(s) && forall o :: o in options ==> o < |s.graph|
    ensures r.Some? ==> r.value in options
  {
    var first := FirstParsing(parses, options, v);
    if first.Some? then first else FirstOfKind(s, options, KindOf(v))
  }

  function FirstParsing(parses: Parses, options: seq<nat>, v: Value): (r: Option<nat>)
    ensures r.Some? ==> r.value in options
  {
    if options == [] then None
    else if parses(options[0], v) then Some(options[0])
    else FirstParsing(parses, options[1..], v)
  }

  function FirstOfKind(s: Schemas, options: seq<nat>, kind: OptionKind): (r: Option<nat>)
    requires Grounded(s) && forall o :: o in options ==> o < |s.graph|
    ensures r.Some? ==> r.value in options
  {
    if options == [] then None
    else
      assert options[0] in options && forall o :: o in options[1..] ==> o in options;
      if KindOfOption(s, options[0]) == kind || KindOfOption(s, options[0]) == OpaqueKind then Some(options[0])
      else FirstOfKind(s, options[1..], kind)
  }

  function Project(s: Schemas, parses: Parses, n: nat, v: Value): Projected
    requires Grounded(s) && n < |s.graph|
    decreases v, s.depth[n]
  {
    var node := s.graph[n];
    match node
    case Wrapper(inner) =>
      assert inner in Children(node);
      if v.Null? || v.Undefined? then Keep(v) else Project(s, parses, inner, v)
    case Lazy(target) =>
      assert target in Children(node);
      Project(s, parses, target, v)
    case Opaque => Keep(v)
    case Object(_, _) => if v.Obj? then Finished(ProjectEntries(s, parses, n, v.entries)) else DropKeyed(v)
    case Record(_) => if v.Obj? then Finished(ProjectEntries(s, parses, n, v.entries)) else DropKeyed(v)
    case Array(element) =>
      if v.Arr? then
        match ProjectItems(s, parses, n, v.items)
        case BrokenItems => Thrown
        case BuiltItems(items) => Keep(Arr(items))
      else DropKeyed(v)
    case Union(options) =>
      (match Chosen(s, parses, options, v)
       case None => DropKeyed(v)
       case Some(o) => Project(s, parses, o, v))
    case Scalar(_) => DropKeyed(v)
    case Other(_) => Thrown
  }

  function ProjectEntries(s: Schemas, parses: Parses, n: nat, entries: seq<Entry>): Built
    requires Grounded(s) && n < |s.graph| && (s.graph[n].Object? || s.graph[n].Record?)
    decreases entries, 0
  {
    if entries == [] then Built(true, [])
    else
      var Entry(key, item) := entries[|entries| - 1];
      match ProjectEntries(s, parses, n, entries[..|entries| - 1])
      case Broken => Broken
      case Built(plain, out) =>
        match Member(s.graph[n], key)
        case None => Built(plain, out)
        case Some(field) =>
          match Project(s, parses, field, item)
          case Thrown => Broken
          case Drop => Built(plain, out)
          case Keep(value) => Put(Built(plain, out), key, value)
  }

  function ProjectItems(s: Schemas, parses: Parses, n: nat, items: seq<Value>): BuiltItems
    requires Grounded(s) && n < |s.graph| && s.graph[n].Array?
    decreases items, 0
  {
    if items == [] then BuiltItems([])
    else
      assert s.graph[n].element in Children(s.graph[n]);
      match ProjectItems(s, parses, n, items[..|items| - 1])
      case BrokenItems => BrokenItems
      case BuiltItems(out) =>
        match Project(s, parses, s.graph[n].element, items[|items| - 1])
        case Thrown => BrokenItems
        case Drop => BuiltItems(out + [Null])
        case Keep(value) => BuiltItems(out + [value])
  }

  // ---------------------------------------------------------------------------
  // Which paths are reported as dropped
  // ---------------------------------------------------------------------------

  function Join(path: string, key: string): string {
    if path == "" then key else path + "." + key
  }

  function DroppedHere(v: Value, path: string): seq<string> {
    if CarriesKeys(v) then [if path == "" then "(root)" else path] else []
  }

  function Stripped(s: Schemas, parses: Parses, n: nat, v: Value, path: string): seq<string>
    requires Grounded(s) && n < |s.graph|
    decreases v, s.depth[n]
  {
    var node := s.graph[n];
    match node
    case Wrapper(inner) =>
      assert inner in Children(node);
      if v.Null? || v.Undefined? then [] else Stripped(s, parses, inner, v, path)
    case Lazy(target) =>
      assert target in Children(node);
      Stripped(s, parses, target, v, path)
    case Opaque => []
    case Object(_, _) => if v.Obj? then StrippedEntries(s, parses, n, v.entries, path) else DroppedHere(v, path)
    case Record(_) => if v.Obj? then StrippedEntries(s, parses, n, v.entries, path) else DroppedHere(v, path)
    case Array(_) => if v.Arr? then StrippedItems(s, parses, n, v.items, path) else DroppedHere(v, path)
    case Union(options) =>
      (match Chosen(s, parses, options, v)
       case None => DroppedHere(v, path)
       case Some(o) => Stripped(s, parses, o, v, path))
    case Scalar(_) => DroppedHere(v, path)
    case Other(_) => []
  }

  function EntryPath(node: Node, path: string, key: string): string {
    if node.Record? then path + "{}" else Join(path, key)
  }

  function StrippedEntries(s: Schemas, parses: Parses, n: nat, entries: seq<Entry>, path: string): seq<string>
    requires Grounded(s) && n < |s.graph| && (s.graph[n].Object? || s.graph[n].Record?)
    decreases entries, 0
  {
    if entries == [] then []
    else
      var Entry(key, item) := entries[|entries| - 1];
      StrippedEntries(s, parses, n, entries[..|entries| - 1], path)
      + match Member(s.graph[n], key)
        case None => [EntryPath(s.graph[n], path, key)]
        case Some(field) => Stripped(s, parses, field, item, EntryPath(s.graph[n], path, key))
  }

  function StrippedItems(s: Schemas, parses: Parses, n: nat, items: seq<Value>, path: string): seq<string>
    requires Grounded(s) && n < |s.graph| && s.graph[n].Array?
    decreases items, 0
  {
    if items == [] then []
    else
      assert s.graph[n].element in Children(s.graph[n]);
      StrippedItems(s, parses, n, items[..|items| - 1], path)
      + Stripped(s, parses, s.graph[n].element, items[|items| - 1], path + "[]")
  }

  /** `stripped.add` for each: a path is kept once, where it was first met. */
  function AddAll(known: seq<string>, paths: seq<string>): seq<string> {
    if paths == [] then known
    else
      var before, last := AddAll(known, paths[..|paths| - 1]), paths[|paths| - 1];
      if last in before then before else before + [last]
  }

  lemma {:induction false} AddAllConcat(known: seq<string>, a: seq<string>, b: seq<string>)
    ensures AddAll(known, a + b) == AddAll(AddAll(known, a), b)
  {
    if b == [] {
      assert a + b == a;
    } else {
      AddAllConcat(known, a, b[..|b| - 1]);
      assert (a + b)[..|a + b| - 1] == a + b[..|b| - 1];
    }
  }

  // ---------------------------------------------------------------------------
  // The projection as it runs, with one shared set of dropped paths
  // ---------------------------------------------------------------------------

  class Projector {
    const schemas: Schemas
    const parses: Parses
    var stripped: seq<string>

    constructor (schemas: Schemas, parses: Parses)
      ensures this.schemas == schemas && this.parses == parses && stripped == []
    {
      this.schemas := schemas;
      this.parses := parses;
      stripped := [];
    }

    method Add(path: string)
      modifies this
      ensures stripped == AddAll(old(stripped), [path])
    {
      assert [path][..0] == [];
      if path !in stripped { stripped := stripped + [path]; }
    }

    method DropWhole(v: Value, path: string) returns (r: Projected)
      modifies this
      ensures r == DropKeyed(v) && stripped == AddAll(old(stripped), DroppedHere(v, path))
    {
      r := DropKeyed(v);
      if CarriesKeys(v) { Add(if path == "" then "(root)" else path); }
    }

    method OnValue(n: nat, v: Value, path: string) returns (r: Projected)
      requires Grounded(schemas) && n < |schemas.graph|
      modifies this
      ensures r == Project(schemas, parses, n, v)
      ensures !r.Thrown? ==> stripped == AddAll(old(stripped), Stripped(schemas, parses, n, v, path))
      decreases v, schemas.depth[n], 1
    {
      var node := schemas.graph[n];
      match node {
        case Wrapper(inner) =>
          assert inner in Children(node);
          if v.Null? || v.Undefined? { return Keep(v); }
          r := OnValue(inner, v, path);
        case Lazy(target) =>
          assert target in Children(node);
          r := OnValue(target, v, path);
        case Opaque => r := Keep(v);
        case Object(_, _) => r := OnKeyed(n, v, path);
        case Record(_) => r := OnKeyed(n, v, path);
        case Array(_) =>
          if v.Arr? { r := OnItems(n, v.items, path); } else { r := DropWhole(v, path); }
        case Union(options) =>
          var chosen := Chosen(schemas, parses, options, v);
          match chosen {
            case None => r := DropWhole(v, path);
            case Some(o) => r := OnValue(o, v, path);
          }
        case Scalar(_) => r := DropWhole(v, path);
        case Other(_) => r := Thrown;
      }
    }

    method OnKeyed(n: nat, v: Value, path: string) returns (r: Projected)
      requires Grounded(schemas) && n < |schemas.graph| && (schemas.graph[n].Object? || schemas.graph[n].Record?)
      modifies this
      ensures r == Project(schemas, parses, n, v)
      ensures !r.Thrown? ==> stripped == AddAll(old(stripped), Stripped(schemas, parses, n, v, path))
      decreases v, schemas.depth[n], 0
    {
      if v.Obj? { r := OnEntries(n, v.entries, path); } else { r := DropWhole(v, path); }
    }

    method OnEntries(n: nat, entries: seq<Entry>, path: string) returns (r: Projected)
      requires Grounded(schemas) && n < |schemas.graph| && (schemas.graph[n].Object? || schemas.graph[n].Record?)
      modifies this
      ensures r == Finished(ProjectEntries(schemas, parses, n, entries))
      ensures !r.Thrown? ==> stripped == AddAll(old(stripped), StrippedEntries(schemas, parses, n, entries, path))
      decreases entries
    {
      var node := schemas.graph[n];
      var out := Built(true, []);
      for k := 0 to |entries|
        invariant out.Built? && out == ProjectEntries(schemas, parses, n, entries[..k])
        invariant stripped == AddAll(old(stripped), StrippedEntries(schemas, parses, n, entries[..k], path))
      {
        var key, item := entries[k].key, entries[k].value;
        ghost var sofar := StrippedEntries(schemas, parses, n, entries[..k], path);
        EntriesSnoc(schemas, parses, n, entries, k, path);
        var field := Member(node, key);
        match field {
          case None =>
            Add(EntryPath(node, path, key));
            AddAllConcat(old(stripped), sofar, [EntryPath(node, path, key)]);
          case Some(f) =>
            var projected := OnValue(f, item, EntryPath(node, path, key));
            if projected.Thrown? {
              BrokenStays(schemas, parses, n, entries, k + 1);
              return Thrown;
            }
            AddAllConcat(old(stripped), sofar, Stripped(schemas, parses, f, item, EntryPath(node, path, key)));
            if projected.Keep? { out := Put(out, key, projected.value); }
        }
      }
      assert entries[..|entries|] == entries;
      r := Finished(out);
    }

    method OnItems(n: nat, items: seq<Value>, path: string) returns (r: Projected)
      requires Grounded(schemas) && n < |schemas.graph| && schemas.graph[n].Array?
      modifies this
      ensures r == match ProjectItems(schemas, parses, n, items)
                   case BrokenItems => Thrown
                   case BuiltItems(out) => Keep(Arr(out))
      ensures !r.Thrown? ==> stripped == AddAll(old(stripped), StrippedItems(schemas, parses, n, items, path))
      decreases items
    {
      var element := schemas.graph[n].element;
      assert element in Children(schemas.graph[n]);
      var out := [];
      for k := 0 to |items|
        invariant BuiltItems(out) == ProjectItems(schemas, parses, n, items[..k])
        invariant stripped == AddAll(old(stripped), StrippedItems(schemas, parses, n, items[..k], path))
      {
        assert items[..k + 1][..k] == items[..k];
        var projected := OnValue(element, items[k], path + "[]");
        if projected.Thrown? {
          BrokenItemsStay(schemas, parses, n, items, k + 1);
          return Thrown;
        }
        AddAllConcat(old(stripped), StrippedItems(schemas, parses, n, items[..k], path),
                     Stripped(schemas, parses, element, items[k], path + "[]"));
        out := out + [if projected.Drop? then Null else projected.value];
      }
      assert items[..|items|] == items;
      r := Keep(Arr(out));
    }
  }

  lemma {:induction false} BrokenStays(s: Schemas, parses: Parses, n: nat, entries: seq<Entry>, k: nat)
    requires Grounded(s) && n < |s.graph| && (s.graph[n].Object? || s.graph[n].Record?)
    requires k <= |entries| && ProjectEntries(s, parses, n, entries[..k]).Broken?
    ensures ProjectEntries(s, parses, n, entries).Broken?
    decreases |entries|
  {
    if k < |entries| {
      assert entries[..|entries| - 1][..k] == entries[..k];
      BrokenStays(s, parses, n, entries[..|entries| - 1], k);
    } else {
      assert entries[..k] == entries;
    }
  }

  lemma {:induction false} BrokenItemsStay(s: Schemas, parses: Parses, n: nat, items: seq<Value>, k: nat)
    requires Grounded(s) && n < |s.graph| && s.graph[n].Array?
    requires k <= |items| && ProjectItems(s, parses, n, items[..k]).BrokenItems?
    ensures ProjectItems(s, parses, n, items).BrokenItems?
    decreases |items|
  {
    if k < |items| {
      assert items[..|items| - 1][..k] == items[..k];
      BrokenItemsStay(s, parses, n, items[..|items| - 1], k);
    } else {
      assert items[..k] == items;
    }
  }

  /** One entry more. */
  lemma EntriesSnoc(s: Schemas, parses: Parses, n: nat, entries: seq<Entry>, k: nat, path: string)
    requires Grounded(s) && n < |s.graph| && (s.graph[n].Object? || s.graph[n].Record?) && k < |entries|
    ensures var before, after := ProjectEntries(s, parses, n, entries[..k]), ProjectEntries(s, parses, n, entries[..k + 1]);
            match Member(s.graph[n], entries[k].key)
            case None => after == before
            case Some(field) =>
              before.Built? ==>
                match Project(s, parses, field, entries[k].value)
                case Thrown => after == Broken
                case Drop => after == before
                case Keep(value) => after == Put(before, entries[k].key, value)
    ensures StrippedEntries(s, parses, n, entries[..k + 1], path) ==
            StrippedEntries(s, parses, n, entries[..k], path)
            + match Member(s.graph[n], entries[k].key)
              case None => [EntryPath(s.graph[n], path, entries[k].key)]
              case Some(field) => Stripped(s, parses, field, entries[k].value, EntryPath(s.graph[n], path, entries[k].key))
  {
    assert entries[..k + 1][..k] == entries[..k];
  }
}
