/** TypeScript definitions for all types an API reaches (private/apigen/tstypes.go). */
module TypeDefinitions {
  import opened Wrappers
  import opened Sequences
  import opened Sorting
  import opened TypeGraph

  // ----- sorting by name

  function Name(g: Graph, t: TypeId): string {
    if t in g.defs then g.defs[t].name else ""
  }

  /** The comparison that definitions are sorted by. */
  function NameLess(g: Graph): (TypeId, TypeId) -> bool {
    (a: TypeId, b: TypeId) => StringLess(Name(g, a), Name(g, b))
  }

  lemma NameLessCompares(g: Graph)
    ensures Comparison(NameLess(g))
  {
    forall a, b | NameLess(g)(a, b)
      ensures !NameLess(g)(b, a)
    {
      StringsCompare(Name(g, a), Name(g, b));
    }
    forall a, b, c | !NameLess(g)(c, b) && !NameLess(g)(b, a)
      ensures !NameLess(g)(c, a)
    {
      NotLessTransitive(Codes(Name(g, c)), Codes(Name(g, b)), Codes(Name(g, a)));
    }
  }

  /** In ascending order of the names. */
  ghost predicate InNameOrder(g: Graph, ts: seq<TypeId>)
    requires forall t :: t in ts ==> t in g.defs
  {
    forall i, j :: 0 <= i < j < |ts| ==> !StringLess(g.defs[ts[j]].name, g.defs[ts[i]].name)
  }

  lemma SortedIsInNameOrder(g: Graph, ts: seq<TypeId>)
    requires Sorted(NameLess(g), ts) && forall t :: t in ts ==> t in g.defs
    ensures InNameOrder(g, ts)
  {
    forall i, j | 0 <= i < j < |ts|
      ensures !StringLess(g.defs[ts[j]].name, g.defs[ts[i]].name)
    {
      assert !NameLess(g)(ts[j], ts[i]) && ts[i] in ts && ts[j] in ts;
    }
  }

  // ----- All

  /** All returns every type reachable from the registered ones, each once and sorted by name; it
      panics exactly when one of them is of an unsupported kind. */
  method All(g: Graph, top: set<TypeId>) returns (all: Option<seq<TypeId>>)
    requires Closed(g) && top <= g.defs.Keys
    ensures all.None? <==> exists u :: u in g.defs && Reachable(g, top, u) && Bad(g, u)
    ensures all.Some? ==>
      && (forall u :: u in all.value <==> Reachable(g, top, u))
      && (forall u :: u in all.value ==> u in g.defs)
      && (forall i, j :: 0 <= i < j < |all.value| ==> all.value[i] != all.value[j])
      && Sorted(NameLess(g), all.value) && InNameOrder(g, all.value)
      && IsClosure(g, top, set u | u in all.value)
  {
    var w := new Walker(g);
    var left := top;
    while left != {}
      invariant w.g == g && fresh(w) && w.Valid() && left <= top
      invariant forall t :: t in top - left ==> t in w.seen
      invariant EdgesInto(g, w.seen, w.seen) && forall u :: u in w.seen ==> !Bad(g, u)
      invariant forall u :: u in w.seen ==> Reachable(g, top, u)
      decreases left
    {
      var t :| t in left;
      left := left - {t};
      ghost var before := w.seen;
      var ok := w.Walk(t);
      assert forall u :: u in w.seen - before ==> Reachable(g, top, u);
      if !ok {
        return None;
      }
      assert w.seen == before + (w.seen - before);
    }
    SeenIsReachable(g, top, w.seen);
    DistinctCount(w.all);
    NameLessCompares(g);
    var sorted := Sort(NameLess(g), w.all);
    DistinctCount(sorted);
    SameMembers(sorted, w.all);
    SortedIsInNameOrder(g, sorted);
    ReachableIsClosure(g, top, set u | u in sorted);
    return Some(sorted);
  }

  lemma SeenIsReachable(g: Graph, top: set<TypeId>, seen: set<TypeId>)
    requires top <= seen && EdgesInto(g, seen, seen)
    ensures forall u :: Reachable(g, top, u) ==> u in seen
  {
    forall u | Reachable(g, top, u)
      ensures u in seen
    {
      var t :| t in top && ReachableFrom(g, t, u);
      var p :| Path(g, p) && p[0] == t && p[|p| - 1] == u;
      ClosedSetHolds(g, seen, p);
    }
  }
}
