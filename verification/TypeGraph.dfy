/** The types an API mentions: a possibly cyclic graph of elements and fields, walked depth
    first (private/apigen/tstypes.go). */
module TypeGraph {

  type TypeId = nat

  datatype Kind = Bool | Int | Uint8 | Uint | Float | String | Ptr | Slice | Array | Struct | Unsupported

  /** A struct field; `json` are the space-separated parts of its json tag. */
  datatype Field = Field(name: string, json: seq<string>, typ: TypeId)

  datatype TypeDef = TypeDef(name: string, kind: Kind, elem: TypeId, fields: seq<Field>)

  /** All types by reflection, and the names of those that come from the common module. */
  datatype Graph = Graph(defs: map<TypeId, TypeDef>, common: map<TypeId, string>)

  predicate HasElem(k: Kind) {
    k.Ptr? || k.Slice? || k.Array?
  }

  /** Every element and field type is itself in the graph. */
  ghost predicate Closed(g: Graph) {
    forall t :: t in g.defs ==>
      && (HasElem(g.defs[t].kind) ==> g.defs[t].elem in g.defs)
      && (g.defs[t].kind.Struct? ==> forall i :: 0 <= i < |g.defs[t].fields| ==> g.defs[t].fields[i].typ in g.defs)
  }

  /** `u` is the element or the type of a field of `t`; common classes are not expanded. */
  ghost predicate Edge(g: Graph, t: TypeId, u: TypeId) {
    && t in g.defs && t !in g.common
    && (|| (HasElem(g.defs[t].kind) && u == g.defs[t].elem)
        || (g.defs[t].kind.Struct? && exists i :: 0 <= i < |g.defs[t].fields| && g.defs[t].fields[i].typ == u))
  }

  /** The walk panics on a type that is neither common nor of a supported kind. */
  predicate Bad(g: Graph, t: TypeId)
    requires t in g.defs
  {
    t !in g.common && g.defs[t].kind.Unsupported?
  }

  // ----- reachability

  ghost predicate Path(g: Graph, p: seq<TypeId>) {
    p != [] && forall i :: 0 <= i < |p| - 1 ==> Edge(g, p[i], p[i + 1])
  }

  ghost predicate ReachableFrom(g: Graph, t: TypeId, u: TypeId) {
    exists p :: Path(g, p) && p[0] == t && p[|p| - 1] == u
  }

  ghost predicate Reachable(g: Graph, top: set<TypeId>, u: TypeId) {
    exists t :: t in top && ReachableFrom(g, t, u)
  }

  lemma ReachesItself(g: Graph, t: TypeId)
    ensures ReachableFrom(g, t, t)
  {
    assert Path(g, [t]);
  }

  lemma ReachesThrough(g: Graph, t: TypeId, u: TypeId, v: TypeId)
    requires Edge(g, t, u) && ReachableFrom(g, u, v)
    ensures ReachableFrom(g, t, v)
  {
    var p :| Path(g, p) && p[0] == u && p[|p| - 1] == v;
    assert Path(g, [t] + p);
  }

  /** A set that is closed under edges contains whatever is reachable from it. */
  lemma {:induction false} ClosedSetHolds(g: Graph, s: set<TypeId>, p: seq<TypeId>)
    requires Path(g, p) && p[0] in s && forall t, u :: t in s && Edge(g, t, u) ==> u in s
    ensures p[|p| - 1] in s
    decreases |p|
  {
    if |p| > 1 {
      assert Edge(g, p[0], p[1]);
      assert Path(g, p[1..]);
      ClosedSetHolds(g, s, p[1..]);
    }
  }

  // ----- the closure

  /** A set with the given types, and with the elements and the field types of everything in it that is no common
      class. */
  ghost predicate ClosedUnder(g: Graph, top: set<TypeId>, s: set<TypeId>) {
    && top <= s
    && forall t :: t in s && t in g.defs && t !in g.common ==> PartsIn(g.defs[t], s)
  }

  predicate PartsIn(def: TypeDef, s: set<TypeId>) {
    && (def.kind in {Ptr, Slice, Array} ==> def.elem in s)
    && (def.kind == Struct ==> forall i :: 0 <= i < |def.fields| ==> def.fields[i].typ in s)
  }

  /** The least such set. */
  ghost predicate IsClosure(g: Graph, top: set<TypeId>, us: set<TypeId>) {
    ClosedUnder(g, top, us) && forall s :: ClosedUnder(g, top, s) ==> us <= s
  }

  /** What is reachable is the closure. */
  lemma ReachableIsClosure(g: Graph, top: set<TypeId>, us: set<TypeId>)
    requires forall u :: u in us <==> Reachable(g, top, u)
    ensures IsClosure(g, top, us)
  {
    forall t | t in top
      ensures t in us
    {
      ReachesItself(g, t);
    }
    forall t, u | t in us && Edge(g, t, u)
      ensures u in us
    {
      EdgeReaches(g, top, t, u);
    }
    forall t | t in us && t in g.defs && t !in g.common
      ensures PartsIn(g.defs[t], us)
    {
      assert g.defs[t].kind in {Ptr, Slice, Array} ==> Edge(g, t, g.defs[t].elem);
      assert g.defs[t].kind == Struct ==> forall i :: 0 <= i < |g.defs[t].fields| ==>
        Edge(g, t, g.defs[t].fields[i].typ);
    }
    forall s | ClosedUnder(g, top, s)
      ensures us <= s
    {
      ClosureIsLeast(g, top, us, s);
    }
  }

  lemma EdgeReaches(g: Graph, top: set<TypeId>, t: TypeId, u: TypeId)
    requires Reachable(g, top, t) && Edge(g, t, u)
    ensures Reachable(g, top, u)
  {
    var s :| s in top && ReachableFrom(g, s, t);
    var p :| Path(g, p) && p[0] == s && p[|p| - 1] == t;
    assert Path(g, p + [u]);
    assert ReachableFrom(g, s, u);
  }

  lemma ClosureIsLeast(g: Graph, top: set<TypeId>, us: set<TypeId>, s: set<TypeId>)
    requires (forall u :: u in us ==> Reachable(g, top, u)) && ClosedUnder(g, top, s)
    ensures us <= s
  {
    forall t, u | t in s && Edge(g, t, u)
      ensures u in s
    {
      assert PartsIn(g.defs[t], s);
    }
    forall u | u in us
      ensures u in s
    {
      var t :| t in top && ReachableFrom(g, t, u);
      var p :| Path(g, p) && p[0] == t && p[|p| - 1] == u;
      ClosedSetHolds(g, s, p);
    }
  }

  // ----- the walk

  /** `all` lists the seen types without repetition. */
  ghost predicate Lists(all: seq<TypeId>, seen: set<TypeId>) {
    && (forall t :: t in seen <==> t in all)
    && forall i, j :: 0 <= i < j < |all| ==> all[i] != all[j]
  }

  ghost predicate EdgesInto(g: Graph, ts: set<TypeId>, seen: set<TypeId>) {
    forall t, u :: t in ts && Edge(g, t, u) ==> u in seen
  }

  ghost predicate AllReachable(g: Graph, t: TypeId, us: set<TypeId>) {
    forall u :: u in us ==> ReachableFrom(g, t, u)
  }

  class Walker {
    const g: Graph
    var seen: set<TypeId>
    var all: seq<TypeId>

    constructor (g: Graph)
      ensures this.g == g && seen == {} && all == []
    {
      this.g, seen, all := g, {}, [];
    }

    ghost predicate Valid()
      reads this
    {
      Closed(g) && seen <= g.defs.Keys && Lists(all, seen)
    }

    /** Visits everything reachable from `t` that has not been seen. Without a panic, all edges of
        the newly seen types lead to seen types; a panic is caused by a newly seen bad type. */
    method Walk(t: TypeId) returns (ok: bool)
      requires Valid() && t in g.defs
      modifies this
      ensures Valid() && old(seen) <= seen && t in seen
      ensures AllReachable(g, t, seen - old(seen))
      ensures ok ==> EdgesInto(g, seen - old(seen), seen) && forall u :: u in seen - old(seen) ==> !Bad(g, u)
      ensures !ok ==> exists u :: u in seen - old(seen) && Bad(g, u)
      decreases g.defs.Keys - seen, 0
    {
      if t in seen {
        return true;
      }
      ghost var before := seen;
      seen := seen + {t};
      all := all + [t];
      ReachesItself(g, t);
      if t in g.common {
        return true;
      }
      var def := g.defs[t];
      if HasElem(def.kind) {
        ok := Walk(def.elem);
        ReachesAll(g, t, def.elem, seen - before - {t});
        assert seen - before == (seen - (before + {t})) + {t};
      } else if def.kind.Struct? {
        ok := WalkFields(t, def.fields);
        assert seen - before == (seen - (before + {t})) + {t};
      } else {
        ok := !def.kind.Unsupported?;
      }
    }

    /** Visits the types of all fields in turn. */
    method WalkFields(t: TypeId, fields: seq<Field>) returns (ok: bool)
      requires Valid() && t in seen && t !in g.common && g.defs[t].kind.Struct? && g.defs[t].fields == fields
      modifies this
      ensures Valid() && old(seen) <= seen
      ensures AllReachable(g, t, seen - old(seen))
      ensures ok ==> EdgesInto(g, seen - old(seen), seen) && forall u :: u in seen - old(seen) ==> !Bad(g, u)
      ensures ok ==> forall i :: 0 <= i < |fields| ==> fields[i].typ in seen
      ensures !ok ==> exists u :: u in seen - old(seen) && Bad(g, u)
      decreases g.defs.Keys - seen, 1
    {
      ghost var before := seen;
      for i := 0 to |fields|
        invariant Valid() && before <= seen
        invariant AllReachable(g, t, seen - before)
        invariant EdgesInto(g, seen - before, seen) && forall u :: u in seen - before ==> !Bad(g, u)
        invariant forall j :: 0 <= j < i ==> fields[j].typ in seen
      {
        ghost var mid := seen;
        assert g.defs.Keys - seen == old(g.defs.Keys - seen) || g.defs.Keys - seen < old(g.defs.Keys - seen);
        ok := Walk(fields[i].typ);
        assert Edge(g, t, fields[i].typ);
        ReachesAll(g, t, fields[i].typ, seen - mid);
        assert seen - before == (mid - before) + (seen - mid);
        if !ok {
          return false;
        }
      }
      ok := true;
    }
  }

  lemma ReachesAll(g: Graph, t: TypeId, u: TypeId, vs: set<TypeId>)
    requires Edge(g, t, u) && AllReachable(g, u, vs)
    ensures AllReachable(g, t, vs)
  {
    forall v | v in vs
      ensures ReachableFrom(g, t, v)
    {
      ReachesThrough(g, t, u, v);
    }
  }
}
