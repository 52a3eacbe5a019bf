/** The old YAML configuration flattened into entries and accesses
    (cmd/uplink/external_migrate.go). */
module LegacyConfig {
  import opened Wrappers
  import opened Sequences
  import opened ExternalConfig

  datatype Kind = Document | Sequence | Mapping | Scalar | Alias

  /** A YAML node; a mapping holds keys and values in turn. */
  datatype Node = Node(kind: Kind, value: string, content: seq<Node>)

  /** A scalar, its key, and the keys of the mappings around it. */
  datatype Leaf = Leaf(stack: seq<string>, key: string, value: string)

  function Join(parts: seq<string>): string {
    if parts == [] then ""
    else if |parts| == 1 then parts[0]
    else Join(parts[..|parts| - 1]) + "." + parts[|parts| - 1]
  }

  /** Mappings of scalar keys to scalars and such mappings. */
  predicate WellFormed(node: Node)
    decreases node
  {
    && node.kind == Mapping && |node.content| % 2 == 0
    && forall i :: 0 <= i < |node.content| ==>
      if i % 2 == 0 then node.content[i].kind == Scalar
      else node.content[i].kind == Scalar || WellFormed(node.content[i])
  }

  /** The scalars of a mapping in pre-order. */
  function Leaves(node: Node, stack: seq<string>): seq<Leaf>
    decreases node, |node.content| + 1
  {
    LeavesTo(node, stack, |node.content| / 2)
  }

  /** The scalars of the first n pairs of a mapping. */
  function LeavesTo(node: Node, stack: seq<string>, n: nat): seq<Leaf>
    requires n <= |node.content| / 2
    decreases node, n
  {
    if n == 0 then []
    else LeavesTo(node, stack, n - 1) + LeavesOfPair(node.content[2 * n - 2], node.content[2 * n - 1], stack)
  }

  function LeavesOfPair(key: Node, value: Node, stack: seq<string>): seq<Leaf>
    decreases value, |value.content| + 2
  {
    match value.kind
    case Scalar => [Leaf(stack, key.value, value.value)]
    case Mapping => Leaves(value, stack + [key.value])
    case _ => []
  }

  // ----- access data is taken out

  const ACCESS := "access"
  const ACCESSES := "accesses"
  const ACCESSES_DOT := "accesses."

  predicate IsDefault(l: Leaf) {
    l.key == ACCESS
  }

  /** The name a leaf gives an access, if it does. */
  function AccessName(l: Leaf): Option<string> {
    if IsDefault(l) then None
    else if ACCESSES_DOT <= l.key then Some(l.key[|ACCESSES_DOT|..])
    else if Join(l.stack) == ACCESSES then Some(l.key)
    else None
  }

  predicate IsEntry(l: Leaf) {
    !IsDefault(l) && AccessName(l).None?
  }

  function EntryOf(l: Leaf): Entry {
    Entry(Join(l.stack), l.key, l.value)
  }

  function EntriesOf(ls: seq<Leaf>): seq<Entry> {
    seq(|ls|, i requires 0 <= i < |ls| => EntryOf(ls[i]))
  }

  /** What the walk has collected. */
  datatype Collected = Collected(defaultName: string, accesses: map<string, string>, entries: seq<Entry>)

  function Take(c: Collected, l: Leaf): Collected {
    if IsDefault(l) then c.(defaultName := l.value)
    else
      match AccessName(l)
      case Some(name) => c.(accesses := c.accesses[name := l.value])
      case None => c.(entries := c.entries + [EntryOf(l)])
  }

  function TakeAll(c: Collected, ls: seq<Leaf>): Collected {
    if ls == [] then c else Take(TakeAll(c, ls[..|ls| - 1]), ls[|ls| - 1])
  }

  lemma {:induction false} TakeAllConcat(c: Collected, a: seq<Leaf>, b: seq<Leaf>)
    ensures TakeAll(c, a + b) == TakeAll(TakeAll(c, a), b)
  {
    if b == [] {
      assert a + b == a;
    } else {
      assert (a + b)[..|a + b| - 1] == a + b[..|b| - 1];
      TakeAllConcat(c, a, b[..|b| - 1]);
    }
  }

  const NOTHING := Collected("", map[], [])

  // ----- what is collected

  /** The leaves that are no access data, in order. */
  function Rest(ls: seq<Leaf>): seq<Leaf> {
    if ls == [] then []
    else if IsEntry(ls[|ls| - 1]) then Rest(ls[..|ls| - 1]) + [ls[|ls| - 1]]
    else Rest(ls[..|ls| - 1])
  }

  /** Entries are exactly the leaves that are no access data, in order; an access has the value of the
      last leaf that names it, and the default name is the last one given. */
  ghost predicate Faithful(c: Collected, ls: seq<Leaf>) {
    && c.entries == EntriesOf(Rest(ls))
    && (forall name :: name in c.accesses <==> exists i :: 0 <= i < |ls| && AccessName(ls[i]) == Some(name))
    && (forall i: nat, name :: Names(ls, i, name) ==> name in c.accesses && c.accesses[name] == ls[i].value)
    && (forall i: nat :: GivesDefault(ls, i) ==> c.defaultName == ls[i].value)
    && ((forall i :: 0 <= i < |ls| ==> !IsDefault(ls[i])) ==> c.defaultName == "")
  }

  /** The i-th leaf is the last that names an access. */
  ghost predicate Names(ls: seq<Leaf>, i: nat, name: string) {
    i < |ls| && AccessName(ls[i]) == Some(name) && forall j :: i < j < |ls| ==> AccessName(ls[j]) != Some(name)
  }

  /** The i-th leaf is the last that gives the default name. */
  ghost predicate GivesDefault(ls: seq<Leaf>, i: nat) {
    i < |ls| && IsDefault(ls[i]) && forall j :: i < j < |ls| ==> !IsDefault(ls[j])
  }

  lemma {:induction false} CollectsFaithfully(ls: seq<Leaf>)
    ensures Faithful(TakeAll(NOTHING, ls), ls)
  {
    if ls == [] {
      assert Faithful(NOTHING, []);
    } else {
      var init, last := ls[..|ls| - 1], ls[|ls| - 1];
      assert ls == init + [last];
      CollectsFaithfully(init);
      TakeFaithful(TakeAll(NOTHING, init), init, last);
    }
  }

  lemma EntriesOfAppend(ls: seq<Leaf>, l: Leaf)
    ensures EntriesOf(ls + [l]) == EntriesOf(ls) + [EntryOf(l)]
  {
  }

  lemma TakeFaithful(c: Collected, init: seq<Leaf>, last: Leaf)
    requires Faithful(c, init)
    ensures Faithful(Take(c, last), init + [last])
  {
    var ls := init + [last];
    var d := Take(c, last);
    assert ls[..|ls| - 1] == init;
    assert ls[|init|] == last;
    EntriesOfAppend(Rest(init), last);
    forall i: nat, name | Names(ls, i, name)
      ensures name in d.accesses && d.accesses[name] == ls[i].value
    {
      if i < |init| { assert Names(init, i, name); }
    }
    forall i: nat | GivesDefault(ls, i)
      ensures d.defaultName == ls[i].value
    {
      if i < |init| { assert GivesDefault(init, i); }
    }
    if forall i :: 0 <= i < |ls| ==> !IsDefault(ls[i]) {
      assert forall i :: 0 <= i < |init| ==> init[i] == ls[i];
    }
    forall name
      ensures name in d.accesses <==> exists i :: 0 <= i < |ls| && AccessName(ls[i]) == Some(name)
    {
      AccessNames(init, last, name);
    }
  }

  lemma AccessNames(init: seq<Leaf>, last: Leaf, name: string)
    ensures (exists i :: 0 <= i < |init + [last]| && AccessName((init + [last])[i]) == Some(name)) <==>
            (exists i :: 0 <= i < |init| && AccessName(init[i]) == Some(name)) || AccessName(last) == Some(name)
  {
    var ls := init + [last];
    if AccessName(last) == Some(name) {
      assert ls[|init|] == last;
    }
    if i :| 0 <= i < |init| && AccessName(init[i]) == Some(name) {
      assert ls[i] == init[i];
    }
  }

  // ----- the leaves of a document

  /** A leaf at a position: the pair to take in each mapping on the way. */
  ghost predicate LeafAt(node: Node, stack: seq<string>, position: seq<nat>, l: Leaf)
    decreases node, 0
  {
    && position != [] && 2 * position[0] + 1 < |node.content|
    && PairAt(node.content[2 * position[0]], node.content[2 * position[0] + 1], stack, position[1..], l)
  }

  ghost predicate PairAt(key: Node, value: Node, stack: seq<string>, position: seq<nat>, l: Leaf)
    decreases value, 1
  {
    if position == [] then value.kind == Scalar && l == Leaf(stack, key.value, value.value)
    else value.kind == Mapping && LeafAt(value, stack + [key.value], position, l)
  }

  lemma {:induction false} LeavesSound(node: Node, stack: seq<string>, n: nat, l: Leaf) returns (position: seq<nat>)
    requires n <= |node.content| / 2 && l in LeavesTo(node, stack, n)
    ensures LeafAt(node, stack, position, l) && position[0] < n
    decreases node, n
  {
    if l in LeavesTo(node, stack, n - 1) {
      position := LeavesSound(node, stack, n - 1, l);
    } else {
      var key, value := node.content[2 * n - 2], node.content[2 * n - 1];
      var rest := [];
      assert l in LeavesOfPair(key, value, stack);
      if value.kind == Mapping {
        assert l in Leaves(value, stack + [key.value]);
        rest := LeavesSound(value, stack + [key.value], |value.content| / 2, l);
      }
      position := [n - 1] + rest;
      assert position[1..] == rest && 2 * position[0] == 2 * n - 2;
    }
  }

  lemma {:induction false} LeavesComplete(node: Node, stack: seq<string>, position: seq<nat>, l: Leaf, n: nat)
    requires LeafAt(node, stack, position, l) && position[0] < n <= |node.content| / 2
    ensures l in LeavesTo(node, stack, n)
    decreases node, n
  {
    if position[0] < n - 1 {
      LeavesComplete(node, stack, position, l, n - 1);
    } else if |position| > 1 {
      var key, value := node.content[2 * n - 2], node.content[2 * n - 1];
      LeavesComplete(value, stack + [key.value], position[1..], l, |value.content| / 2);
      assert l in Leaves(value, stack + [key.value]);
      assert l in LeavesOfPair(key, value, stack);
    }
  }

  ghost predicate InDocument(node: Node, stack: seq<string>, l: Leaf) {
    exists position :: LeafAt(node, stack, position, l)
  }

  /** The walk finds exactly the scalars at the positions of the document. */
  lemma LeavesAreExactly(node: Node, stack: seq<string>, l: Leaf)
    ensures l in Leaves(node, stack) <==> InDocument(node, stack, l)
  {
    if l in Leaves(node, stack) {
      var found := LeavesSound(node, stack, |node.content| / 2, l);
    }
    if InDocument(node, stack, l) {
      var position :| LeafAt(node, stack, position, l);
      assert position[0] < |node.content| / 2;
      LeavesComplete(node, stack, position, l, |node.content| / 2);
    }
  }

  // ----- migrated values under their dotted paths

  function FullPath(l: Leaf): string {
    Join(l.stack + [l.key])
  }

  lemma JoinIsEmpty(stack: seq<string>)
    ensures Join(stack) == "" <==> stack == [] || stack == [""]
  {
  }

  /** An entry is loaded under the full path of its leaf, except right below a single empty key. */
  lemma LoadedUnderFullPath(l: Leaf)
    ensures Dotted(EntryOf(l)) == FullPath(l) <==> l.stack != [""]
    ensures l.stack == [""] ==> FullPath(l) == "." + Dotted(EntryOf(l))
  {
    JoinIsEmpty(l.stack);
    var parts := l.stack + [l.key];
    assert parts[..|parts| - 1] == l.stack;
  }

  /** The values of the leaves with a path, in order. */
  function ValuesOf(ls: seq<Leaf>, path: string): seq<string> {
    if ls == [] then []
    else
      var init, last := ls[..|ls| - 1], ls[|ls| - 1];
      if FullPath(last) == path then ValuesOf(init, path) + [last.value] else ValuesOf(init, path)
  }

  /** What the last leaf adds to a path, as an entry and as a leaf. */
  lemma ValuesStep(init: seq<Leaf>, l: Leaf, path: string)
    ensures ValuesAt(EntriesOf(init + [l]), path) ==
      ValuesAt(EntriesOf(init), path) + (if Dotted(EntryOf(l)) == path then [l.value] else [])
    ensures ValuesOf(init + [l], path) == ValuesOf(init, path) + (if FullPath(l) == path then [l.value] else [])
  {
    EntriesOfAppend(init, l);
    var es := EntriesOf(init) + [EntryOf(l)];
    assert es[..|es| - 1] == EntriesOf(init);
    assert (init + [l])[..|init|] == init;
  }

  lemma {:induction false} LoadsFullPaths(ls: seq<Leaf>, path: string)
    requires forall i :: 0 <= i < |ls| ==> ls[i].stack != [""]
    ensures ValuesAt(EntriesOf(ls), path) == ValuesOf(ls, path)
  {
    if ls == [] {
      assert EntriesOf(ls) == [];
    } else {
      var init, last := ls[..|ls| - 1], ls[|ls| - 1];
      LoadsFullPaths(init, path);
      assert ls == init + [last];
      ValuesStep(init, last, path);
      LoadedUnderFullPath(last);
    }
  }

  predicate BelowEmpty(l: Leaf, key: string) {
    l.stack == [""] && l.key == key
  }

  /** A leaf below a single empty key adds to its full path and not to the path it is loaded under. */
  lemma StepOfLongest(l: Leaf, key: string)
    requires l.stack == [""] ==> |l.key| <= |key|
    ensures BelowEmpty(l, key) ==> FullPath(l) == "." + key && Dotted(EntryOf(l)) != "." + key
    ensures Dotted(EntryOf(l)) == "." + key ==> FullPath(l) == "." + key
  {
    LoadedUnderFullPath(l);
    if l.stack == [""] {
      JoinIsEmpty(l.stack);
      assert Dotted(EntryOf(l)) == l.key;
    }
  }

  /** A leaf below a single empty key, none of whose kind has a longer key, is missed at its path. */
  lemma {:induction false} LongestIsMissed(ls: seq<Leaf>, key: string)
    requires forall i :: 0 <= i < |ls| && ls[i].stack == [""] ==> |ls[i].key| <= |key|
    ensures |ValuesAt(EntriesOf(ls), "." + key)| <= |ValuesOf(ls, "." + key)|
    ensures (exists i :: 0 <= i < |ls| && BelowEmpty(ls[i], key)) ==>
      |ValuesAt(EntriesOf(ls), "." + key)| < |ValuesOf(ls, "." + key)|
  {
    if ls == [] {
      assert EntriesOf(ls) == [];
    } else {
      var init, last := ls[..|ls| - 1], ls[|ls| - 1];
      LongestIsMissed(init, key);
      assert ls == init + [last];
      ValuesStep(init, last, "." + key);
      StepOfLongest(last, key);
      if i :| 0 <= i < |ls| && BelowEmpty(ls[i], key) && i < |init| {
        assert BelowEmpty(init[i], key);
      }
    }
  }

  lemma {:induction false} LongestBelowEmpty(ls: seq<Leaf>) returns (k: nat)
    requires exists i :: 0 <= i < |ls| && ls[i].stack == [""]
    ensures k < |ls| && ls[k].stack == [""]
    ensures forall i :: 0 <= i < |ls| && ls[i].stack == [""] ==> |ls[i].key| <= |ls[k].key|
  {
    k := |ls| - 1;
    if exists i :: 0 <= i < |ls| - 1 && ls[i].stack == [""] {
      var init := ls[..|ls| - 1];
      assert forall i :: 0 <= i < |ls| - 1 ==> init[i] == ls[i];
      var best := LongestBelowEmpty(init);
      if ls[k].stack != [""] || |ls[best].key| > |ls[k].key| { k := best; }
    }
  }

  ghost predicate KeepsValues(ls: seq<Leaf>) {
    forall path :: ValuesAt(EntriesOf(ls), path) == ValuesOf(ls, path)
  }

  /** Loading the migrated entries gives every dotted path the values its leaves had, in order, exactly
      when no leaf lies right below a single empty key. */
  lemma MigrationKeepsValues(ls: seq<Leaf>)
    ensures KeepsValues(ls) <==> forall i :: 0 <= i < |ls| ==> ls[i].stack != [""]
  {
    if forall i :: 0 <= i < |ls| ==> ls[i].stack != [""] {
      forall path
        ensures ValuesAt(EntriesOf(ls), path) == ValuesOf(ls, path)
      {
        LoadsFullPaths(ls, path);
      }
    } else {
      var k := LongestBelowEmpty(ls);
      assert BelowEmpty(ls[k], ls[k].key);
      LongestIsMissed(ls, ls[k].key);
      assert ValuesAt(EntriesOf(ls), "." + ls[k].key) != ValuesOf(ls, "." + ls[k].key);
    }
  }
}
