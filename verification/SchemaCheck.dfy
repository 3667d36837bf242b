/** Response schemas as a finite, possibly cyclic graph, and the decoration-time check that walks it. */
module SchemaCheck {

  datatype Field = Field(key: string, schema: nat)

  /** One schema; `nat`s name the schemas it refers to. */
  datatype Node =
    | Wrapper(inner: nat)            // optional, nullable, default, readonly, ...
    | Lazy(target: nat)
    | Opaque                         // unknown, any
    | Scalar(isDate: bool)
    | Object(fields: seq<Field>, open: bool)
    | Array(element: nat)
    | Record(valueType: nat)
    | Union(options: seq<nat>)
    | Other(typeName: string)

  type Graph = seq<Node>

  function Children(node: Node): seq<nat> {
    match node
    case Wrapper(inner) => [inner]
    case Lazy(target) => [target]
    case Object(fields, _) => seq(|fields|, i requires 0 <= i < |fields| => fields[i].schema)
    case Array(element) => [element]
    case Record(valueType) => [valueType]
    case Union(options) => options
    case _ => []
  }

  /** Every reference names a schema of the graph. */
  predicate Linked(g: Graph) {
    forall n, c :: 0 <= n < |g| && c in Children(g[n]) ==> c < |g|
  }

  /** Kinds the projection can apply; open objects are refused. */
  predicate Supported(node: Node) {
    !node.Other? && !(node.Object? && node.open)
  }

  ghost predicate Path(g: Graph, p: seq<nat>) {
    && p != [] && (forall i :: 0 <= i < |p| ==> p[i] < |g|)
    && forall i :: 0 <= i < |p| - 1 ==> p[i + 1] in Children(g[p[i]])
  }

  ghost predicate Reaches(g: Graph, from: nat, to: nat) {
    exists p :: Path(g, p) && p[0] == from && p[|p| - 1] == to
  }

  lemma ReachesItself(g: Graph, n: nat)
    requires n < |g|
    ensures Reaches(g, n, n)
  {
    assert Path(g, [n]) && [n][0] == n;
  }

  lemma ReachesThrough(g: Graph, from: nat, child: nat, to: nat)
    requires from < |g| && child in Children(g[from]) && Reaches(g, child, to)
    ensures Reaches(g, from, to)
  {
    var p :| Path(g, p) && p[0] == child && p[|p| - 1] == to;
    var q := [from] + p;
    assert Path(g, q) by {
      forall i | 0 <= i < |q| - 1 ensures q[i + 1] in Children(g[q[i]]) {
        if i > 0 { assert p[i - 1 + 1] in Children(g[p[i - 1]]); }
      }
    }
    assert q[0] == from && q[|q| - 1] == to;
  }

  /** Supported schemas whose children are in the set again. */
  ghost predicate Licensed(g: Graph, ok: set<nat>) {
    forall n :: n in ok ==> n < |g| && Supported(g[n]) && forall c :: c in Children(g[n]) ==> c in ok
  }

  lemma {:induction false} LicenseCoversPath(g: Graph, ok: set<nat>, p: seq<nat>, i: nat)
    requires Licensed(g, ok) && Path(g, p) && p[0] in ok && i < |p|
    ensures p[i] in ok
  {
    if i > 0 {
      LicenseCoversPath(g, ok, p, i - 1);
      assert p[i - 1 + 1] in Children(g[p[i - 1]]);
    }
  }

  ghost function AllSchemas(count: nat): (r: set<nat>)
    ensures forall n :: n in r <==> 0 <= n < count
  {
    if count == 0 then {} else AllSchemas(count - 1) + {count - 1}
  }

  datatype Verdict = Accepted | Refused(schema: nat)

  /** The walk with the set of schemas it has met. */
  class Checker {
    const graph: Graph
    var seen: set<nat>

    ghost predicate Valid()
      reads this
    {
      Linked(graph) && forall n :: n in seen ==> n < |graph|
    }

    ghost function Unseen(): set<nat>
      reads this
    {
      AllSchemas(|graph|) - seen
    }

    constructor (graph: Graph)
      requires Linked(graph)
      ensures Valid() && this.graph == graph && seen == {}
    {
      this.graph := graph;
      seen := {};
    }

    /** Schemas met since `before` are supported and lead only to schemas met. */
    ghost predicate Settled(before: set<nat>)
      reads this
      requires Valid()
    {
      forall n :: n in seen && n !in before ==> Supported(graph[n]) && forall c :: c in Children(graph[n]) ==> c in seen
    }

    method Walk(n: nat) returns (v: Verdict)
      requires Valid() && n < |graph|
      modifies this
      ensures Valid() && old(seen) <= seen
      ensures v.Accepted? ==> n in seen && Settled(old(seen))
      ensures v.Refused? ==> v.schema < |graph| && !Supported(graph[v.schema]) && Reaches(graph, n, v.schema)
      decreases Unseen(), 0
    {
      if n in seen { return Accepted; }
      seen := seen + {n};
      assert n in old(Unseen()) && n !in Unseen();
      if !Supported(graph[n]) {
        ReachesItself(graph, n);
        return Refused(n);
      }
      label entered:
      v := WalkAll(Children(graph[n]));
      match v {
        case Accepted =>
          assert forall m :: m in seen && m !in old(seen) ==> m == n || m !in old@entered(seen);
        case Refused(bad) =>
          ghost var c :| c in Children(graph[n]) && Reaches(graph, c, bad);
          ReachesThrough(graph, n, c, bad);
      }
    }

    method WalkAll(children: seq<nat>) returns (v: Verdict)
      requires Valid() && forall c :: c in children ==> c < |graph|
      modifies this
      ensures Valid() && old(seen) <= seen
      ensures v.Accepted? ==> (forall c :: c in children ==> c in seen) && Settled(old(seen))
      ensures v.Refused? ==> v.schema < |graph| && !Supported(graph[v.schema])
                             && exists c :: c in children && Reaches(graph, c, v.schema)
      decreases Unseen(), 1
    {
      for k := 0 to |children|
        invariant Valid() && old(seen) <= seen
        invariant forall i :: 0 <= i < k ==> children[i] in seen
        invariant Settled(old(seen))
      {
        assert children[k] in children;
        v := Walk(children[k]);
        if v.Refused? { return; }
      }
      v := Accepted;
    }
  }

  /** The check accepts a schema exactly when every schema reachable from it is supported; what
      it has met is then a license for the projection. */
  method AssertProjectable(g: Graph, root: nat) returns (v: Verdict, ghost ok: set<nat>)
    requires Linked(g) && root < |g|
    ensures v.Accepted? <==>
            forall n :: 0 <= n < |g| && Reaches(g, root, n) ==> !g[n].Other? && (g[n].Object? ==> !g[n].open)
    ensures v.Accepted? ==> root in ok && Licensed(g, ok)
    ensures v.Refused? ==> v.schema < |g| && !Supported(g[v.schema]) && Reaches(g, root, v.schema)
  {
    var checker := new Checker(g);
    v := checker.Walk(root);
    ok := checker.seen;
    if v.Accepted? {
      forall n | 0 <= n < |g| && Reaches(g, root, n) ensures Supported(g[n]) {
        var p :| Path(g, p) && p[0] == root && p[|p| - 1] == n;
        LicenseCoversPath(g, ok, p, |p| - 1);
      }
    }
  }
}
