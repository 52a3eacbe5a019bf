/** The generated TypeScript: one class for every reachable struct, importing the common
    classes it uses (private/apigen/tstypes.go). The text layout is not modelled. */
module TypeScript {
  import opened Wrappers
  import opened Sequences
  import opened Sorting
  import opened TypeGraph
  import opened TypeDefinitions
  import opened TypeNames

  datatype FieldDef = FieldDef(json: string, optional: bool, typeName: string)
  datatype ClassDef = ClassDef(name: string, fields: seq<FieldDef>)
  datatype Definitions = Definitions(imports: seq<string>, classes: seq<ClassDef>)

  // ----- classes

  predicate IsNillable(kind: Kind) {
    kind.Ptr? || kind.Slice?
  }

  predicate Declared(fields: seq<Field>) {
    forall i :: 0 <= i < |fields| ==> fields[i].json != []
  }

  /** The fields that are printed, in order: all but those tagged "-". */
  function Printed(fields: seq<Field>): seq<Field>
    requires Declared(fields)
  {
    if fields == [] then []
    else
      var last := fields[|fields| - 1];
      Printed(fields[..|fields| - 1]) + (if last.json[0] == "-" then [] else [last])
  }

  /** The lines of a class agree with the printed fields. */
  ghost predicate LinesOf(g: Graph, rank: TypeId -> nat, t: TypeId, lines: seq<FieldDef>, fields: seq<Field>)
    requires Closed(g) && ElementsEnd(g, rank) && t in g.defs
  {
    && |lines| == |fields|
    && forall i :: 0 <= i < |lines| ==>
      && fields[i].json != [] && fields[i].typ in g.defs
      && lines[i].json == fields[i].json[0] && Some(lines[i].typeName) == TypeName(g, rank, fields[i].typ)
      && lines[i].optional == IsNillable(g.defs[t].kind)
  }

  /** The class of a struct, said of its fields one by one: the fields whose json name is not "-" have a line each, in
      their order, under their json name and with the name that their type is meant to have, and no mark. */
  ghost predicate IsWritten(g: Graph, t: TypeId, c: ClassDef)
    requires t in g.defs
  {
    c.name == g.defs[t].name && exists at :: LinesAt(g, g.defs[t].fields, c.fields, at)
  }

  /** The i-th line is that of field at[i]. */
  ghost predicate LinesAt(g: Graph, fields: seq<Field>, lines: seq<FieldDef>, at: seq<nat>) {
    && PlacesOf(fields, at) && |at| == |lines|
    && forall k :: 0 <= k < |lines| ==>
      && lines[k].json == fields[at[k]].json[0] && IsNamed(g, fields[at[k]].typ, lines[k].typeName)
      && !lines[k].optional
  }

  /** The places of the fields that have a line. */
  ghost predicate PlacesOf(fields: seq<Field>, at: seq<nat>) {
    && Increasing(at)
    && (forall k :: 0 <= k < |at| ==> at[k] < |fields|)
    && (forall i :: 0 <= i < |fields| ==> fields[i].json != [] && (i in at <==> fields[i].json[0] != "-"))
  }

  ghost predicate PrintedAt(fields: seq<Field>, printed: seq<Field>, at: seq<nat>) {
    PlacesOf(fields, at) && |at| == |printed| && forall k :: 0 <= k < |at| ==> printed[k] == fields[at[k]]
  }

  lemma {:induction false} PrintedPlaces(fields: seq<Field>) returns (at: seq<nat>)
    requires Declared(fields)
    ensures PrintedAt(fields, Printed(fields), at)
  {
    if fields == [] {
      at := [];
    } else {
      var init, last := fields[..|fields| - 1], fields[|fields| - 1];
      var before := PrintedPlaces(init);
      assert fields == init + [last];
      if last.json[0] == "-" {
        at := before;
        DroppedPlace(init, last, Printed(init), before);
        assert Printed(fields) == Printed(init) + [];
      } else {
        at := before + [|init|];
        NextPlace(init, last, Printed(init), before);
      }
    }
  }

  lemma NextPlace(init: seq<Field>, last: Field, printed: seq<Field>, before: seq<nat>)
    requires PrintedAt(init, printed, before) && last.json != [] && last.json[0] != "-"
    ensures PrintedAt(init + [last], printed + [last], before + [|init|])
  {
    var at := before + [|init|];
    assert forall i :: i in at <==> i in before || i == |init|;
    assert forall i :: i in before ==> i < |init|;
  }

  lemma DroppedPlace(init: seq<Field>, last: Field, printed: seq<Field>, before: seq<nat>)
    requires PrintedAt(init, printed, before) && last.json != [] && last.json[0] == "-"
    ensures PrintedAt(init + [last], printed, before)
  {
    assert forall i :: i in before ==> i < |init|;
  }

  lemma ClassIsWritten(g: Graph, rank: TypeId -> nat, t: TypeId, c: ClassDef)
    requires Closed(g) && ElementsEnd(g, rank) && ClassOf(g, rank, t, c)
    ensures IsWritten(g, t, c)
  {
    var fields := g.defs[t].fields;
    var at := PrintedPlaces(fields);
    forall k | 0 <= k < |c.fields|
      ensures IsNamed(g, fields[at[k]].typ, c.fields[k].typeName)
    {
      var p, base := NameIsMeant(g, rank, fields[at[k]].typ);
    }
    assert LinesAt(g, fields, c.fields, at);
  }

  lemma FieldIsNamed(g: Graph, rank: TypeId -> nat, us: set<TypeId>, t: TypeId, i: nat)
    requires Closed(g) && ElementsEnd(g, rank) && t in us && us <= g.defs.Keys
    requires EdgesInto(g, us, us) && (forall u :: u in us ==> !Bad(g, u)) && Emitted(g, t) && i < |g.defs[t].fields|
    ensures g.defs[t].fields[i].typ in g.defs && TypeName(g, rank, g.defs[t].fields[i].typ).Some?
  {
    assert Edge(g, t, g.defs[t].fields[i].typ);
    var base, k := TypeNameIsKnown(g, rank, us, g.defs[t].fields[i].typ);
  }

  /** Writes the class of one struct; it panics exactly on a field without a json declaration. */
  method WriteClass(g: Graph, ghost rank: TypeId -> nat, ghost us: set<TypeId>, t: TypeId) returns (c: Option<ClassDef>)
    requires Closed(g) && ElementsEnd(g, rank) && t in us && us <= g.defs.Keys
    requires EdgesInto(g, us, us) && (forall u :: u in us ==> !Bad(g, u)) && Emitted(g, t)
    ensures c.Some? <==> Declared(g.defs[t].fields)
    ensures c.Some? ==> c.value.name == g.defs[t].name && LinesOf(g, rank, t, c.value.fields, Printed(g.defs[t].fields))
    ensures c.Some? ==> IsWritten(g, t, c.value)
  {
    var fields := g.defs[t].fields;
    var lines: seq<FieldDef> := [];
    for i := 0 to |fields|
      invariant Declared(fields[..i]) && LinesOf(g, rank, t, lines, Printed(fields[..i]))
    {
      assert fields[..i + 1][..i] == fields[..i];
      if |fields[i].json| == 0 {
        return None;
      }
      if fields[i].json[0] == "-" {
        continue;
      }
      FieldIsNamed(g, rank, us, t, i);
      var name := TypeName(g, rank, fields[i].typ).value;
      lines := lines + [FieldDef(fields[i].json[0], IsNillable(g.defs[t].kind), name)];
    }
    assert fields[..|fields|] == fields;
    c := Some(ClassDef(g.defs[t].name, lines));
    ClassIsWritten(g, rank, t, c.value);
  }

  /** The import line: the names of all common classes that are reached. */
  method Imports(g: Graph, all: seq<TypeId>) returns (imports: seq<string>)
    ensures forall name :: name in imports <==> exists u :: u in all && u in g.common && g.common[u] == name
  {
    imports := [];
    for i := 0 to |all|
      invariant forall name :: name in imports <==>
        exists j :: 0 <= j < i && all[j] in g.common && g.common[all[j]] == name
    {
      if all[i] in g.common {
        imports := imports + [g.common[all[i]]];
      }
    }
    assert forall u :: u in all <==> exists j :: 0 <= j < |all| && all[j] == u;
  }

  ghost predicate HasClass(classes: seq<ClassDef>, name: string) {
    exists i :: 0 <= i < |classes| && classes[i].name == name
  }

  /** A printed type name: a primitive, an imported common class or an emitted class, as an array or not. */
  ghost predicate Resolves(defs: Definitions, typeName: string) {
    exists base: string, k: nat ::
      typeName == base + Brackets(k) && (base in PRIMITIVES || base in defs.imports || HasClass(defs.classes, base))
  }

  /** The class that is written for a struct, with a line for each printed field. */
  ghost predicate ClassOf(g: Graph, rank: TypeId -> nat, t: TypeId, c: ClassDef)
    requires Closed(g) && ElementsEnd(g, rank)
  {
    && Emitted(g, t) && Declared(g.defs[t].fields)
    && c.name == g.defs[t].name && LinesOf(g, rank, t, c.fields, Printed(g.defs[t].fields))
  }

  lemma ReachableIsClosed(g: Graph, top: set<TypeId>, us: set<TypeId>)
    requires forall u :: u in us <==> Reachable(g, top, u)
    ensures EdgesInto(g, us, us)
  {
    forall t, u | t in us && Edge(g, t, u)
      ensures u in us
    {
      EdgeReaches(g, top, t, u);
    }
  }

  lemma {:induction false} PrintedMember(fields: seq<Field>, f: Field)
    requires Declared(fields) && f in Printed(fields)
    ensures exists i :: 0 <= i < |fields| && fields[i] == f
  {
    var init, last := fields[..|fields| - 1], fields[|fields| - 1];
    if f in Printed(init) {
      PrintedMember(init, f);
      var i :| 0 <= i < |init| && init[i] == f;
      assert fields[i] == f;
    } else {
      assert last == f;
    }
  }

  /** The definitions have everything that the types of a set may be called. */
  ghost predicate Covers(g: Graph, us: set<TypeId>, defs: Definitions) {
    && (forall u :: u in us && Emitted(g, u) ==> HasClass(defs.classes, g.defs[u].name))
    && (forall u :: u in us && u in g.common ==> g.common[u] in defs.imports)
  }

  lemma BaseResolves(g: Graph, us: set<TypeId>, defs: Definitions, base: string, k: nat)
    requires Covers(g, us, defs) && Base(g, us, base)
    ensures Resolves(defs, base + Brackets(k))
  {
  }

  /** Every type name on the lines of a struct resolves. */
  lemma LinesResolve(g: Graph, rank: TypeId -> nat, us: set<TypeId>, t: TypeId, defs: Definitions, c: ClassDef, j: nat)
    requires Closed(g) && ElementsEnd(g, rank) && us <= g.defs.Keys && t in us
    requires EdgesInto(g, us, us) && forall u :: u in us ==> !Bad(g, u)
    requires Covers(g, us, defs) && ClassOf(g, rank, t, c) && j < |c.fields|
    ensures Resolves(defs, c.fields[j].typeName) && !c.fields[j].optional
  {
    var f := Printed(g.defs[t].fields)[j];
    PrintedMember(g.defs[t].fields, f);
    assert Edge(g, t, f.typ);
    var base, k := TypeNameIsKnown(g, rank, us, f.typ);
    BaseResolves(g, us, defs, base, k);
  }

  /** The types that get a class, in order. */
  function StructsOf(g: Graph, all: seq<TypeId>): seq<TypeId> {
    if all == [] then []
    else
      var last := all[|all| - 1];
      StructsOf(g, all[..|all| - 1]) + (if Emitted(g, last) then [last] else [])
  }

  ghost predicate Distinct(ts: seq<TypeId>) {
    forall i, j :: 0 <= i < j < |ts| ==> ts[i] != ts[j]
  }

  lemma {:induction false} StructsAreChosen(g: Graph, all: seq<TypeId>)
    ensures forall u :: u in StructsOf(g, all) <==> u in all && Emitted(g, u)
    ensures Distinct(all) ==> Distinct(StructsOf(g, all))
    ensures Sorted(NameLess(g), all) ==> Sorted(NameLess(g), StructsOf(g, all))
  {
    if all == [] {
      assert StructsOf(g, all) == [];
    } else {
      var init, last := all[..|all| - 1], all[|all| - 1];
      StructsAreChosen(g, init);
      assert all == init + [last];
      ChosenBefore(g, init, last, StructsOf(g, init));
      ChosenAppend(g, StructsOf(g, init), last);
    }
  }

  lemma ChosenAppend(g: Graph, chosen: seq<TypeId>, last: TypeId)
    ensures Distinct(chosen) && last !in chosen ==> Distinct(chosen + [last])
    ensures Sorted(NameLess(g), chosen) && (forall u :: u in chosen ==> !NameLess(g)(last, u)) ==>
      Sorted(NameLess(g), chosen + [last])
  {
  }

  lemma ChosenBefore(g: Graph, init: seq<TypeId>, last: TypeId, chosen: seq<TypeId>)
    requires forall u :: u in chosen ==> u in init
    ensures Distinct(init + [last]) ==> Distinct(init) && last !in chosen
    ensures Sorted(NameLess(g), init + [last]) ==>
      Sorted(NameLess(g), init) && forall u :: u in chosen ==> !NameLess(g)(last, u)
  {
    var all := init + [last];
    assert forall i :: 0 <= i < |init| ==> all[i] == init[i];
    assert all[|init|] == last;
  }

  /** The definitions for a set of types: one class for each of its structs, in order. */
  method Classes(g: Graph, ghost rank: TypeId -> nat, all: seq<TypeId>, ghost us: set<TypeId>)
      returns (classes: Option<seq<ClassDef>>, ghost structs: seq<TypeId>)
    requires Closed(g) && ElementsEnd(g, rank) && us <= g.defs.Keys && forall u :: u in us <==> u in all
    requires EdgesInto(g, us, us) && forall u :: u in us ==> !Bad(g, u)
    ensures classes.None? ==> exists u :: u in us && Blocks(g, u)
    ensures classes.Some? ==> structs == StructsOf(g, all) && ClassesMade(g, rank, us, structs, classes.value)
  {
    var cs: seq<ClassDef> := [];
    structs := [];
    for i := 0 to |all|
      invariant structs == StructsOf(g, all[..i]) && ClassesMade(g, rank, us, structs, cs)
    {
      assert all[i] in us;
      assert all[..i + 1][..i] == all[..i];
      if Emitted(g, all[i]) {
        var c := WriteClass(g, rank, us, all[i]);
        if c.None? {
          BlocksExactly(g, all[i]);
          return None, [];
        }
        cs, structs := cs + [c.value], structs + [all[i]];
      }
    }
    assert all[..|all|] == all;
    classes := Some(cs);
  }

  /** Each class is that of one of the types. */
  ghost predicate ClassesMade(g: Graph, rank: TypeId -> nat, us: set<TypeId>, structs: seq<TypeId>, cs: seq<ClassDef>)
    requires Closed(g) && ElementsEnd(g, rank) && us <= g.defs.Keys
  {
    && |structs| == |cs|
    && forall k :: 0 <= k < |structs| ==> structs[k] in us && ClassOf(g, rank, structs[k], cs[k])
  }

  lemma MadeClassesCover(g: Graph, rank: TypeId -> nat, us: set<TypeId>, structs: seq<TypeId>, classes: seq<ClassDef>)
    requires Closed(g) && ElementsEnd(g, rank) && us <= g.defs.Keys && ClassesMade(g, rank, us, structs, classes)
    requires forall u :: u in us && Emitted(g, u) ==> u in structs
    ensures forall u :: u in us && Emitted(g, u) ==> Declared(g.defs[u].fields) && HasClass(classes, g.defs[u].name)
  {
    forall u | u in us && Emitted(g, u)
      ensures Declared(g.defs[u].fields) && HasClass(classes, g.defs[u].name)
    {
      var i :| 0 <= i < |structs| && structs[i] == u;
      assert ClassOf(g, rank, structs[i], classes[i]);
    }
  }

  // ----- optional marks

  /** Whether the field of a line may be nil. */
  predicate MayBeNil(g: Graph, f: Field) {
    f.typ in g.defs && g.defs[f.typ].kind in {Ptr, Slice}
  }

  /** A line is marked optional exactly when its field may be nil. */
  ghost predicate MarksAgree(g: Graph, rank: TypeId -> nat, t: TypeId, c: ClassDef)
    requires Closed(g) && ElementsEnd(g, rank) && ClassOf(g, rank, t, c)
  {
    forall j :: 0 <= j < |c.fields| ==> (c.fields[j].optional <==> MayBeNil(g, Printed(g.defs[t].fields)[j]))
  }

  /** No printed field of a struct may be nil. */
  ghost predicate NothingNil(g: Graph, t: TypeId) {
    Emitted(g, t) && Declared(g.defs[t].fields) ==>
      forall j :: 0 <= j < |Printed(g.defs[t].fields)| ==> !MayBeNil(g, Printed(g.defs[t].fields)[j])
  }

  /** The marks of a class are right exactly when no printed field may be nil: the code asks the
      struct, which never may, instead of the field. */
  lemma MarksAreRight(g: Graph, rank: TypeId -> nat, t: TypeId, c: ClassDef)
    requires Closed(g) && ElementsEnd(g, rank) && ClassOf(g, rank, t, c)
    ensures MarksAgree(g, rank, t, c) <==> NothingNil(g, t)
  {
    assert forall j :: 0 <= j < |c.fields| ==> !c.fields[j].optional;
  }

  /** A struct with a pointer to a number is written with a field that may not be missing. */
  lemma PointerIsNotOptional(rank: TypeId -> nat, c: ClassDef)
    requires ElementsEnd(PointerExample(), rank) && ClassOf(PointerExample(), rank, 0, c)
    ensures c == ClassDef("A", [FieldDef("f", false, "number")]) &&
      MayBeNil(PointerExample(), PointerExample().defs[0].fields[0])
  {
    var g := PointerExample();
    var fields := g.defs[0].fields;
    assert fields[..0] == [] && Printed(fields[..0]) == [];
    assert Printed(fields) == fields;
    assert TypeName(g, rank, 2) == Some("number");
    assert c.fields[0].typeName == "number";
  }

  function PointerExample(): Graph {
    Graph(
      map[0 := TypeDef("A", Struct, 0, [Field("F", ["f"], 1)]), 1 := TypeDef("", Ptr, 2, []),
        2 := TypeDef("int", Int, 0, [])],
      map[])
  }

  // ----- names

  /** The struct whose name a type prints, in brackets or not. */
  ghost function NamedStruct(g: Graph, rank: TypeId -> nat, t: TypeId): Option<TypeId>
    requires Closed(g) && ElementsEnd(g, rank) && t in g.defs
    decreases rank(t)
  {
    var def := g.defs[t];
    if t in g.common then None
    else if def.kind.Struct? then Some(t)
    else if !HasElem(def.kind) || (def.kind.Slice? && g.defs[def.elem].kind.Uint8?) then None
    else NamedStruct(g, rank, def.elem)
  }

  lemma {:induction false} PrintsName(g: Graph, rank: TypeId -> nat, us: set<TypeId>, t: TypeId) returns (k: nat)
    requires Closed(g) && ElementsEnd(g, rank) && t in us && us <= g.defs.Keys && EdgesInto(g, us, us)
    requires NamedStruct(g, rank, t).Some?
    ensures var u := NamedStruct(g, rank, t).value;
            u in us && Emitted(g, u) && TypeName(g, rank, t) == Some(g.defs[u].name + Brackets(k))
    decreases rank(t)
  {
    var def := g.defs[t];
    if def.kind.Struct? {
      k := 0;
      assert def.name + Brackets(0) == def.name;
    } else {
      assert Edge(g, t, def.elem);
      k := PrintsName(g, rank, us, def.elem);
      if !def.kind.Ptr? {
        var name := g.defs[NamedStruct(g, rank, t).value].name;
        k := k + 1;
        assert name + Brackets(k - 1) + "[]" == name + Brackets(k);
      }
    }
  }

  /** The line of a field whose type holds a struct prints the name of that struct, which has a class. */
  ghost predicate PrintsItsStruct(g: Graph, rank: TypeId -> nat, structs: seq<TypeId>, f: Field, line: FieldDef)
    requires Closed(g) && ElementsEnd(g, rank) && f.typ in g.defs
  {
    NamedStruct(g, rank, f.typ).Some? ==>
      var u := NamedStruct(g, rank, f.typ).value;
      && u in structs && u in g.defs
      && exists k: nat :: line.typeName == g.defs[u].name + Brackets(k)
  }

  ghost predicate LinesPrintStructs(g: Graph, rank: TypeId -> nat, structs: seq<TypeId>, t: TypeId, c: ClassDef)
    requires Closed(g) && ElementsEnd(g, rank) && ClassOf(g, rank, t, c)
  {
    forall j :: 0 <= j < |c.fields| ==> PrintsItsStruct(g, rank, structs, Printed(g.defs[t].fields)[j], c.fields[j])
  }

  lemma ClassPrintsStructs(g: Graph, rank: TypeId -> nat, us: set<TypeId>, structs: seq<TypeId>, t: TypeId, c: ClassDef)
    requires Closed(g) && ElementsEnd(g, rank) && t in us && us <= g.defs.Keys && EdgesInto(g, us, us)
    requires ClassOf(g, rank, t, c) && forall u :: u in structs <==> u in us && Emitted(g, u)
    ensures LinesPrintStructs(g, rank, structs, t, c)
  {
    forall j | 0 <= j < |c.fields|
      ensures PrintsItsStruct(g, rank, structs, Printed(g.defs[t].fields)[j], c.fields[j])
    {
      var f := Printed(g.defs[t].fields)[j];
      PrintedMember(g.defs[t].fields, f);
      assert Edge(g, t, f.typ);
      if NamedStruct(g, rank, f.typ).Some? {
        var k := PrintsName(g, rank, us, f.typ);
      }
    }
  }

  /** The name that a reachable type brings into the definitions. */
  function DeclaredName(g: Graph, t: TypeId): Option<string> {
    if t in g.common then Some(g.common[t])
    else if Emitted(g, t) then Some(g.defs[t].name)
    else None
  }

  /** No other type of the set brings in the name of this one, and it is no primitive. */
  ghost predicate NameIsUnique(g: Graph, us: set<TypeId>, u: TypeId)
    requires u in g.defs
  {
    g.defs[u].name !in PRIMITIVES && forall v :: v in us && v != u ==> DeclaredName(g, v) != Some(g.defs[u].name)
  }

  /** The name of a struct stands for its class and for nothing else. */
  ghost predicate StandsForItself(g: Graph, structs: seq<TypeId>, defs: Definitions, u: TypeId)
    requires |structs| == |defs.classes| && u in g.defs
  {
    && g.defs[u].name !in PRIMITIVES && g.defs[u].name !in defs.imports
    && forall i :: 0 <= i < |structs| ==> (defs.classes[i].name == g.defs[u].name <==> structs[i] == u)
  }

  /** Names are resolved by name only: a struct's name stands for its class alone exactly when no other
      type brings in the same name. */
  lemma NamesStandForStructs(g: Graph, rank: TypeId -> nat, us: set<TypeId>, structs: seq<TypeId>, defs: Definitions,
                             u: TypeId)
    requires Closed(g) && ElementsEnd(g, rank) && us <= g.defs.Keys && ClassesMade(g, rank, us, structs, defs.classes)
    requires forall v :: v in structs <==> v in us && Emitted(g, v)
    requires forall name :: name in defs.imports <==> exists v :: v in us && v in g.common && g.common[v] == name
    requires u in structs
    ensures StandsForItself(g, structs, defs, u) <==> NameIsUnique(g, us, u)
  {
    var name := g.defs[u].name;
    if StandsForItself(g, structs, defs, u) {
      forall v | v in us && v != u
        ensures DeclaredName(g, v) != Some(name)
      {
        if v !in g.common && Emitted(g, v) {
          var i :| 0 <= i < |structs| && structs[i] == v;
          assert ClassOf(g, rank, structs[i], defs.classes[i]);
        }
      }
    }
    if NameIsUnique(g, us, u) {
      forall i | 0 <= i < |structs|
        ensures defs.classes[i].name == name <==> structs[i] == u
      {
        assert ClassOf(g, rank, structs[i], defs.classes[i]);
        assert structs[i] != u ==> DeclaredName(g, structs[i]) != Some(name);
      }
    }
  }

  // ----- generation

  ghost function AllReachable(g: Graph, top: set<TypeId>): set<TypeId> {
    set u | u in g.defs && Reachable(g, top, u)
  }

  lemma ReachableInGraph(g: Graph, top: set<TypeId>)
    requires Closed(g) && top <= g.defs.Keys
    ensures forall u :: Reachable(g, top, u) ==> u in g.defs
  {
    SeenIsReachable(g, top, g.defs.Keys);
  }

  /** Fields print the names of their structs, and each of these stands for its own class alone exactly
      when no other type of the set brings in the same name. */
  ghost predicate NamesAsTheyAre(g: Graph, rank: TypeId -> nat, us: set<TypeId>, structs: seq<TypeId>,
                                 defs: Definitions)
    requires Closed(g) && ElementsEnd(g, rank) && us <= g.defs.Keys
  {
    && ClassesMade(g, rank, us, structs, defs.classes)
    && (forall i :: 0 <= i < |structs| ==> LinesPrintStructs(g, rank, structs, structs[i], defs.classes[i]))
    && forall u :: u in structs ==> (StandsForItself(g, structs, defs, u) <==> NameIsUnique(g, us, u))
  }

  /** Exactly the structs of a set that are no common classes, in ascending order of their names. */
  ghost predicate StructsInOrder(g: Graph, us: set<TypeId>, structs: seq<TypeId>)
    requires us <= g.defs.Keys
  {
    && (forall u :: u in structs <==> u in us && u !in g.common && g.defs[u].kind == Struct)
    && InNameOrder(g, structs)
  }

  ghost predicate AllWritten(g: Graph, structs: seq<TypeId>, classes: seq<ClassDef>) {
    |structs| == |classes| && forall i :: 0 <= i < |structs| ==>
      structs[i] in g.defs && IsWritten(g, structs[i], classes[i])
  }

  lemma ChosenInOrder(g: Graph, us: set<TypeId>, structs: seq<TypeId>)
    requires us <= g.defs.Keys && Sorted(NameLess(g), structs) && forall v :: v in structs <==> v in us && Emitted(g, v)
    ensures StructsInOrder(g, us, structs)
  {
    SortedIsInNameOrder(g, structs);
  }

  lemma ClassesAreWritten(g: Graph, rank: TypeId -> nat, us: set<TypeId>, structs: seq<TypeId>, classes: seq<ClassDef>)
    requires Closed(g) && ElementsEnd(g, rank) && us <= g.defs.Keys && ClassesMade(g, rank, us, structs, classes)
    ensures AllWritten(g, structs, classes)
  {
    forall i | 0 <= i < |structs|
      ensures IsWritten(g, structs[i], classes[i])
    {
      ClassIsWritten(g, rank, structs[i], classes[i]);
    }
  }

  /** The definitions for what is reachable. They are closed: every type name printed for a field resolves.
      Every reachable struct has its class once, in the order of the names, and nothing else has one. No
      field is marked optional, which is right exactly when no printed field may be nil. A field prints the
      name of its struct, which stands for the class of that struct alone exactly when no other reachable
      type brings in the same name. */
  ghost predicate Generated(g: Graph, rank: TypeId -> nat, us: set<TypeId>, structs: seq<TypeId>, defs: Definitions)
    requires Closed(g) && ElementsEnd(g, rank) && us <= g.defs.Keys
  {
    && ClassesMade(g, rank, us, structs, defs.classes) && Distinct(structs) && Sorted(NameLess(g), structs)
    && (forall u :: u in structs <==> u in us && Emitted(g, u))
    && StructsInOrder(g, us, structs) && AllWritten(g, structs, defs.classes)
    && (forall i, j :: 0 <= i < |structs| && 0 <= j < |defs.classes[i].fields| ==>
         Resolves(defs, defs.classes[i].fields[j].typeName) && !defs.classes[i].fields[j].optional)
    && ((forall i :: 0 <= i < |structs| ==> MarksAgree(g, rank, structs[i], defs.classes[i])) <==>
        forall u :: u in us ==> NothingNil(g, u))
    && NamesAsTheyAre(g, rank, us, structs, defs)
  }

  /** Generates the definitions for everything reachable from the given types. It panics exactly when a
      reachable type is unsupported or a reachable struct has an undeclared field. */
  method Generate(g: Graph, ghost rank: TypeId -> nat, top: set<TypeId>)
      returns (defs: Option<Definitions>, ghost structs: seq<TypeId>)
    requires Closed(g) && ElementsEnd(g, rank) && top <= g.defs.Keys
    ensures defs.None? <==> exists u :: u in g.defs && Reachable(g, top, u) && Blocks(g, u)
    ensures IsClosure(g, top, AllReachable(g, top))
    ensures defs.Some? ==> Generated(g, rank, AllReachable(g, top), structs, defs.value)
  {
    ReachableInGraph(g, top);
    ReachableIsClosure(g, top, AllReachable(g, top));
    var found := All(g, top);
    if found.None? {
      ghost var u :| u in g.defs && Reachable(g, top, u) && Bad(g, u);
      BlocksExactly(g, u);
      return None, [];
    }
    ghost var us := AllReachable(g, top);
    ReachableIsClosed(g, top, us);
    var imports := Imports(g, found.value);
    var classes;
    classes, structs := Classes(g, rank, found.value, us);
    if classes.None? {
      return None, [];
    }
    StructsAreChosen(g, found.value);
    MadeClassesCover(g, rank, us, structs, classes.value);
    NothingBlocks(g, us);
    defs := Some(Definitions(imports, classes.value));
    AllIsGenerated(g, rank, us, structs, defs.value);
  }

  lemma AllIsGenerated(g: Graph, rank: TypeId -> nat, us: set<TypeId>, structs: seq<TypeId>, defs: Definitions)
    requires Closed(g) && ElementsEnd(g, rank) && us <= g.defs.Keys && EdgesInto(g, us, us)
    requires (forall u :: u in us ==> !Bad(g, u)) && ClassesMade(g, rank, us, structs, defs.classes)
    requires Distinct(structs) && Sorted(NameLess(g), structs)
    requires forall v :: v in structs <==> v in us && Emitted(g, v)
    requires forall name :: name in defs.imports <==> exists v :: v in us && v in g.common && g.common[v] == name
    requires Covers(g, us, defs)
    ensures Generated(g, rank, us, structs, defs)
  {
    ClassesAreWritten(g, rank, us, structs, defs.classes);
    ChosenInOrder(g, us, structs);
    AllLinesResolve(g, rank, us, structs, defs);
    AllMarksAreRight(g, rank, us, structs, defs.classes);
    AllNamesAreRight(g, rank, us, structs, defs);
  }

  lemma AllNamesAreRight(g: Graph, rank: TypeId -> nat, us: set<TypeId>, structs: seq<TypeId>, defs: Definitions)
    requires Closed(g) && ElementsEnd(g, rank) && us <= g.defs.Keys && EdgesInto(g, us, us)
    requires ClassesMade(g, rank, us, structs, defs.classes)
    requires forall v :: v in structs <==> v in us && Emitted(g, v)
    requires forall name :: name in defs.imports <==> exists v :: v in us && v in g.common && g.common[v] == name
    ensures NamesAsTheyAre(g, rank, us, structs, defs)
  {
    forall i | 0 <= i < |structs|
      ensures LinesPrintStructs(g, rank, structs, structs[i], defs.classes[i])
    {
      ClassPrintsStructs(g, rank, us, structs, structs[i], defs.classes[i]);
    }
    forall u | u in structs
      ensures StandsForItself(g, structs, defs, u) <==> NameIsUnique(g, us, u)
    {
      NamesStandForStructs(g, rank, us, structs, defs, u);
    }
  }

  lemma AllMarksAreRight(g: Graph, rank: TypeId -> nat, us: set<TypeId>, structs: seq<TypeId>, classes: seq<ClassDef>)
    requires Closed(g) && ElementsEnd(g, rank) && us <= g.defs.Keys && ClassesMade(g, rank, us, structs, classes)
    requires forall u :: u in structs <==> u in us && Emitted(g, u)
    ensures (forall i :: 0 <= i < |structs| ==> MarksAgree(g, rank, structs[i], classes[i])) <==>
      forall u :: u in us ==> NothingNil(g, u)
  {
    forall i | 0 <= i < |structs|
      ensures MarksAgree(g, rank, structs[i], classes[i]) <==> NothingNil(g, structs[i])
    {
      MarksAreRight(g, rank, structs[i], classes[i]);
    }
    if forall i :: 0 <= i < |structs| ==> MarksAgree(g, rank, structs[i], classes[i]) {
      forall u | u in us
        ensures NothingNil(g, u)
      {
        if Emitted(g, u) {
          var i :| 0 <= i < |structs| && structs[i] == u;
          assert NothingNil(g, structs[i]);
        }
      }
    } else {
      var i :| 0 <= i < |structs| && !MarksAgree(g, rank, structs[i], classes[i]);
      assert structs[i] in us && !NothingNil(g, structs[i]);
    }
  }

  lemma AllLinesResolve(g: Graph, rank: TypeId -> nat, us: set<TypeId>, structs: seq<TypeId>, defs: Definitions)
    requires Closed(g) && ElementsEnd(g, rank) && us <= g.defs.Keys
    requires EdgesInto(g, us, us) && forall u :: u in us ==> !Bad(g, u)
    requires Covers(g, us, defs) && ClassesMade(g, rank, us, structs, defs.classes)
    ensures forall i, j :: 0 <= i < |structs| && 0 <= j < |defs.classes[i].fields| ==>
      Resolves(defs, defs.classes[i].fields[j].typeName) && !defs.classes[i].fields[j].optional
  {
    forall i, j | 0 <= i < |structs| && 0 <= j < |defs.classes[i].fields|
      ensures Resolves(defs, defs.classes[i].fields[j].typeName) && !defs.classes[i].fields[j].optional
    {
      LinesResolve(g, rank, us, structs[i], defs, defs.classes[i], j);
    }
  }

  /** What makes the generator panic. */
  ghost predicate Blocks(g: Graph, u: TypeId)
    requires u in g.defs
  {
    && u !in g.common
    && (g.defs[u].kind == Unsupported
        || (g.defs[u].kind == Struct && exists i :: 0 <= i < |g.defs[u].fields| && g.defs[u].fields[i].json == []))
  }

  lemma BlocksExactly(g: Graph, u: TypeId)
    requires u in g.defs
    ensures Blocks(g, u) <==> Bad(g, u) || (Emitted(g, u) && !Declared(g.defs[u].fields))
  {
  }

  lemma NothingBlocks(g: Graph, us: set<TypeId>)
    requires us <= g.defs.Keys && forall u :: u in us ==> !Bad(g, u) && (Emitted(g, u) ==> Declared(g.defs[u].fields))
    ensures forall u :: u in us ==> !Blocks(g, u)
  {
    forall u | u in us
      ensures !Blocks(g, u)
    {
      BlocksExactly(g, u);
    }
  }
}
