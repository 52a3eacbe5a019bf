/** The TypeScript names of Go types (private/apigen/tstypes.go). */
module TypeNames {
  import opened Wrappers
  import opened TypeGraph

  const PRIMITIVES: set<string> := {"string", "number", "boolean"}

  /** No type is a pure cycle of pointers, slices and arrays: elements lead to smaller ranks. */
  ghost predicate ElementsEnd(g: Graph, rank: TypeId -> nat) {
    forall t :: t in g.defs && t !in g.common && HasElem(g.defs[t].kind) ==> rank(g.defs[t].elem) < rank(t)
  }

  /** The TypeScript name of a type; None where the source panics. */
  function TypeName(g: Graph, ghost rank: TypeId -> nat, t: TypeId): Option<string>
    requires Closed(g) && ElementsEnd(g, rank) && t in g.defs
    decreases rank(t)
  {
    var def := g.defs[t];
    if t in g.common then Some(g.common[t])
    else
      match def.kind
      case Ptr => TypeName(g, rank, def.elem)
      case Slice =>
        // a byte slice is marshalled as a string
        if g.defs[def.elem].kind.Uint8? then Some("string")
        else (match TypeName(g, rank, def.elem) case None => None case Some(s) => Some(s + "[]"))
      case Array => (match TypeName(g, rank, def.elem) case None => None case Some(s) => Some(s + "[]"))
      case String => Some("string")
      case Int => Some("number")
      case Uint8 => Some("number")
      case Uint => Some("number")
      case Float => Some("number")
      case Bool => Some("boolean")
      case Struct => Some(def.name)
      case Unsupported => None
  }

  /** A class is written for every struct that is not a common class. */
  predicate Emitted(g: Graph, t: TypeId) {
    t in g.defs && t !in g.common && g.defs[t].kind.Struct?
  }

  /** One pair of brackets for each array. */
  function Brackets(k: nat): (s: string)
    ensures |s| == 2 * k && forall i :: 0 <= i < |s| ==> s[i] == if i % 2 == 0 then '[' else ']'
  {
    if k == 0 then "" else Brackets(k - 1) + "[]"
  }

  /** The base of a type name: what is left without the array brackets. */
  ghost predicate Base(g: Graph, us: set<TypeId>, base: string) {
    || base in PRIMITIVES
    || (exists u :: u in us && u in g.common && g.common[u] == base)
    || (exists u :: u in us && Emitted(g, u) && g.defs[u].name == base)
  }

  /** The name of a type whose closure holds no bad type exists, and is a primitive, a common class
      or a struct of that closure, followed by array brackets. */
  lemma {:induction false} TypeNameIsKnown(g: Graph, rank: TypeId -> nat, us: set<TypeId>, t: TypeId)
      returns (base: string, k: nat)
    requires Closed(g) && ElementsEnd(g, rank) && t in us && us <= g.defs.Keys
    requires EdgesInto(g, us, us) && forall u :: u in us ==> !Bad(g, u)
    ensures TypeName(g, rank, t) == Some(base + Brackets(k)) && Base(g, us, base)
    decreases rank(t)
  {
    var def := g.defs[t];
    if t in g.common {
      base, k := g.common[t], 0;
    } else if def.kind.Struct? {
      assert Emitted(g, t);
      base, k := def.name, 0;
    } else if HasElem(def.kind) && !(def.kind.Slice? && g.defs[def.elem].kind.Uint8?) {
      assert Edge(g, t, def.elem);
      base, k := TypeNameIsKnown(g, rank, us, def.elem);
      if !def.kind.Ptr? {
        k := k + 1;
        assert base + Brackets(k - 1) + "[]" == base + Brackets(k);
      }
    } else {
      assert !Bad(g, t);
      base, k := TypeName(g, rank, t).value, 0;
    }
    if k == 0 {
      assert base + Brackets(0) == base;
    }
  }

  // ----- what a name says about its type

  /** Pointers, slices and arrays are named after their elements, except for slices of bytes. */
  predicate NamedByElement(g: Graph, t: TypeId) {
    && t in g.defs && t !in g.common && HasElem(g.defs[t].kind) && !IsByteSlice(g, t)
  }

  predicate IsByteSlice(g: Graph, t: TypeId) {
    && t in g.defs && t !in g.common && g.defs[t].kind == Slice
    && g.defs[t].elem in g.defs && g.defs[g.defs[t].elem].kind == Uint8
  }

  /** The types from a type to the one that its name comes from, each the element of the one before. */
  ghost predicate Unwraps(g: Graph, p: seq<TypeId>) {
    && p != [] && !NamedByElement(g, p[|p| - 1])
    && forall i :: 0 <= i < |p| - 1 ==> NamedByElement(g, p[i]) && p[i + 1] == g.defs[p[i]].elem
  }

  /** How many of the types on the way are slices or arrays. */
  function ArraysOn(g: Graph, p: seq<TypeId>): nat {
    if |p| <= 1 then 0
    else (if p[0] in g.defs && g.defs[p[0]].kind in {Slice, Array} then 1 else 0) + ArraysOn(g, p[1..])
  }

  /** The name of a type that is not named by an element: that of the common class, of the struct, or the primitive
      that holds the values of its kind. */
  predicate EndIsNamed(g: Graph, t: TypeId, base: string) {
    && t in g.defs
    && if t in g.common then base == g.common[t]
       else if g.defs[t].kind == Struct then base == g.defs[t].name
       else
         && (base == "string" <==> g.defs[t].kind == String || IsByteSlice(g, t))
         && (base == "number" <==> g.defs[t].kind in {Int, Uint8, Uint, Float})
         && (base == "boolean" <==> g.defs[t].kind == Bool)
         && base in {"string", "number", "boolean"}
  }

  ghost predicate NamedVia(g: Graph, p: seq<TypeId>, base: string, name: string) {
    Unwraps(g, p) && EndIsNamed(g, p[|p| - 1], base) && name == base + Brackets(ArraysOn(g, p))
  }

  /** The name that a type is meant to have. */
  ghost predicate IsNamed(g: Graph, t: TypeId, name: string) {
    exists p, base :: NamedVia(g, p, base, name) && p[0] == t
  }

  /** Every name that is printed is the one that the type is meant to have. */
  lemma {:induction false} NameIsMeant(g: Graph, rank: TypeId -> nat, t: TypeId)
      returns (p: seq<TypeId>, base: string)
    requires Closed(g) && ElementsEnd(g, rank) && t in g.defs && TypeName(g, rank, t).Some?
    ensures NamedVia(g, p, base, TypeName(g, rank, t).value) && p[0] == t
    decreases rank(t)
  {
    var def := g.defs[t];
    if NamedByElement(g, t) {
      var rest;
      rest, base := NameIsMeant(g, rank, def.elem);
      p := [t] + rest;
      ElementFirst(g, t, rest, base, TypeName(g, rank, def.elem).value);
    } else {
      p, base := [t], TypeName(g, rank, t).value;
      assert base + Brackets(0) == base;
    }
  }

  lemma ElementFirst(g: Graph, t: TypeId, rest: seq<TypeId>, base: string, name: string)
    requires NamedByElement(g, t) && NamedVia(g, rest, base, name) && rest[0] == g.defs[t].elem
    ensures NamedVia(g, [t] + rest, base, if g.defs[t].kind.Ptr? then name else name + "[]")
  {
    var p, k := [t] + rest, ArraysOn(g, rest);
    assert p[1..] == rest;
    assert base + Brackets(k) + "[]" == base + Brackets(k + 1);
  }

  lemma {:induction false} UnwrapsOneWay(g: Graph, p: seq<TypeId>, q: seq<TypeId>)
    requires Unwraps(g, p) && Unwraps(g, q) && p[0] == q[0]
    ensures p == q
  {
    if |p| == 1 || |q| == 1 {
      assert p == [p[0]] || q == [q[0]];
    } else {
      assert p == [p[0]] + p[1..] && q == [q[0]] + q[1..];
      UnwrapsOneWay(g, p[1..], q[1..]);
    }
  }

  /** A type is meant to have one name only. */
  lemma MeantNameIsUnique(g: Graph, t: TypeId, a: string, b: string)
    requires IsNamed(g, t, a) && IsNamed(g, t, b)
    ensures a == b
  {
    var p, base :| NamedVia(g, p, base, a) && p[0] == t;
    var q, base' :| NamedVia(g, q, base', b) && q[0] == t;
    UnwrapsOneWay(g, p, q);
    assert base == base';
  }
}
