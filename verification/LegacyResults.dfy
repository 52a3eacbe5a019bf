/** What is read from the old configuration, said of the scalars of the document one by one
    (cmd/uplink/external_migrate.go). */
module LegacyResults {
  import opened Wrappers
  import opened Sequences
  import opened ExternalConfig
  import opened LegacyConfig

  // ----- the scalars of a document, in order

  /** Leaves at increasing positions, which are all the positions of the document. */
  ghost predicate LeavesInOrder(node: Node, stack: seq<string>, positions: seq<seq<nat>>, ls: seq<Leaf>) {
    && AtPositions(node, stack, positions, ls)
    && forall position, l :: LeafAt(node, stack, position, l) ==> position in positions
  }

  ghost predicate AtPositions(node: Node, stack: seq<string>, positions: seq<seq<nat>>, ls: seq<Leaf>) {
    && |positions| == |ls|
    && (forall k :: 0 <= k < |ls| ==> LeafAt(node, stack, positions[k], ls[k]))
    && forall k, l :: 0 <= k < l < |ls| ==> Less(positions[k], positions[l])
  }

  /** The positions of the scalars of the first n pairs. */
  function PositionsTo(node: Node, n: nat): seq<seq<nat>>
    requires n <= |node.content| / 2
    decreases node, n
  {
    if n == 0 then []
    else PositionsTo(node, n - 1) + Below(n - 1, PositionsOf(node.content[2 * n - 1]))
  }

  /** The positions of the scalars of a value, from that value on. */
  function PositionsOf(value: Node): seq<seq<nat>>
    decreases value, |value.content| + 2
  {
    match value.kind
    case Scalar => [[]]
    case Mapping => PositionsTo(value, |value.content| / 2)
    case _ => []
  }

  function Below(n: nat, positions: seq<seq<nat>>): (r: seq<seq<nat>>)
    ensures |r| == |positions| && forall k :: 0 <= k < |positions| ==> r[k] == [n] + positions[k]
  {
    seq(|positions|, k requires 0 <= k < |positions| => [n] + positions[k])
  }

  /** Leaves of one pair at increasing positions. */
  ghost predicate PairInOrder(key: Node, value: Node, stack: seq<string>, positions: seq<seq<nat>>, ls: seq<Leaf>) {
    && |positions| == |ls|
    && (forall k :: 0 <= k < |ls| ==> PairAt(key, value, stack, positions[k], ls[k]))
    && forall k, l :: 0 <= k < l < |ls| ==> Less(positions[k], positions[l])
  }

  lemma {:induction false} PairPositions(key: Node, value: Node, stack: seq<string>)
    ensures PairInOrder(key, value, stack, PositionsOf(value), LeavesOfPair(key, value, stack))
    decreases value, |value.content| + 2
  {
    match value.kind
    case Scalar =>
    case Mapping =>
      MappingPositions(value, stack + [key.value], |value.content| / 2);
      var positions, ls := PositionsOf(value), LeavesOfPair(key, value, stack);
      assert ls == Leaves(value, stack + [key.value]) == LeavesTo(value, stack + [key.value], |value.content| / 2);
      forall k | 0 <= k < |ls|
        ensures PairAt(key, value, stack, positions[k], ls[k])
      {
        assert LeafAt(value, stack + [key.value], positions[k], ls[k]);
      }
    case _ =>
  }

  ghost predicate BelowPair(positions: seq<seq<nat>>, n: nat) {
    forall k :: 0 <= k < |positions| ==> positions[k] != [] && positions[k][0] < n
  }

  lemma {:induction false} MappingPositions(node: Node, stack: seq<string>, n: nat)
    requires n <= |node.content| / 2
    ensures AtPositions(node, stack, PositionsTo(node, n), LeavesTo(node, stack, n))
    ensures BelowPair(PositionsTo(node, n), n)
    decreases node, n
  {
    if n == 0 {
    } else {
      var key, value := node.content[2 * n - 2], node.content[2 * n - 1];
      MappingPositions(node, stack, n - 1);
      PairPositions(key, value, stack);
      NextPairPositions(node, stack, n, PositionsTo(node, n - 1), LeavesTo(node, stack, n - 1),
                        PositionsOf(value), LeavesOfPair(key, value, stack));
    }
  }

  lemma NextPairPositions(node: Node, stack: seq<string>, n: nat, before: seq<seq<nat>>, ls: seq<Leaf>,
                          positions: seq<seq<nat>>, more: seq<Leaf>)
    requires 1 <= n <= |node.content| / 2 && AtPositions(node, stack, before, ls) && BelowPair(before, n - 1)
    requires PairInOrder(node.content[2 * n - 2], node.content[2 * n - 1], stack, positions, more)
    ensures AtPositions(node, stack, before + Below(n - 1, positions), ls + more)
    ensures BelowPair(before + Below(n - 1, positions), n)
  {
    var all, leaves := before + Below(n - 1, positions), ls + more;
    forall k | |ls| <= k < |leaves|
      ensures LeafAt(node, stack, all[k], leaves[k])
    {
      assert all[k] == [n - 1] + positions[k - |ls|] && all[k][1..] == positions[k - |ls|];
    }
    forall k, l | 0 <= k < l < |leaves|
      ensures Less(all[k], all[l])
    {
      if |ls| <= k {
        assert all[k][1..] == positions[k - |ls|] && all[l][1..] == positions[l - |ls|];
      }
    }
  }

  /** The leaves are the scalars of the document, each once, in the order of the document. */
  lemma LeavesAreInOrder(node: Node, stack: seq<string>)
    ensures LeavesInOrder(node, stack, PositionsTo(node, |node.content| / 2), Leaves(node, stack))
  {
    var n := |node.content| / 2;
    MappingPositions(node, stack, n);
    forall position, l | LeafAt(node, stack, position, l)
      ensures position in PositionsTo(node, n)
    {
      PositionIsListed(node, stack, position, l, n);
    }
  }

  lemma {:induction false} PositionIsListed(node: Node, stack: seq<string>, position: seq<nat>, l: Leaf, n: nat)
    requires LeafAt(node, stack, position, l) && position[0] < n <= |node.content| / 2
    ensures position in PositionsTo(node, n)
    decreases node, n
  {
    if position[0] < n - 1 {
      PositionIsListed(node, stack, position, l, n - 1);
    } else {
      var key, value := node.content[2 * n - 2], node.content[2 * n - 1];
      var rest := position[1..];
      assert position == [n - 1] + rest;
      if rest != [] {
        PositionIsListed(value, stack + [key.value], rest, l, |value.content| / 2);
      }
      assert rest in PositionsOf(value);
      var k :| 0 <= k < |PositionsOf(value)| && PositionsOf(value)[k] == rest;
      assert Below(n - 1, PositionsOf(value))[k] == position;
    }
  }

  // ----- which documents are well-formed

  /** The way to a node that a mapping may not hold: a mapping has keys and values in turn, all keys are scalars, and
      values are scalars or mappings. */
  ghost predicate IllAt(node: Node, path: seq<nat>)
    decreases node
  {
    if path == [] then node.kind != Mapping || |node.content| % 2 != 0
    else
      && path[0] < |node.content| && node.content[path[0]].kind != Scalar
      && if path[0] % 2 == 0 then |path| == 1 else IllAt(node.content[path[0]], path[1..])
  }

  lemma {:induction false} IllFormedSomewhere(node: Node) returns (path: seq<nat>)
    requires !WellFormed(node)
    ensures IllAt(node, path)
    decreases node
  {
    if node.kind != Mapping || |node.content| % 2 != 0 {
      path := [];
    } else {
      var i :| 0 <= i < |node.content| && node.content[i].kind != Scalar
               && (i % 2 == 0 || !WellFormed(node.content[i]));
      if i % 2 == 0 {
        path := [i];
      } else {
        var rest := IllFormedSomewhere(node.content[i]);
        path := [i] + rest;
        assert path[1..] == rest;
      }
    }
  }

  lemma {:induction false} IllFormedThere(node: Node, path: seq<nat>)
    requires IllAt(node, path)
    ensures !WellFormed(node)
    decreases node
  {
    if path != [] && path[0] % 2 == 1 {
      IllFormedThere(node.content[path[0]], path[1..]);
    }
  }

  ghost predicate NothingIll(node: Node) {
    forall path {:trigger IllAt(node, path)} :: !IllAt(node, path)
  }

  /** A mapping is well-formed when nothing is wrong anywhere. */
  lemma WellFormedExactly(node: Node)
    ensures WellFormed(node) <==> NothingIll(node)
  {
    if !WellFormed(node) {
      var path := IllFormedSomewhere(node);
      assert !NothingIll(node);
    } else {
      forall path {:trigger IllAt(node, path)}
        ensures !IllAt(node, path)
      {
        if IllAt(node, path) {
          IllFormedThere(node, path);
        }
      }
    }
  }

  // ----- what becomes of each scalar

  /** A key with dots in between its parts. */
  ghost predicate IsDotted(parts: seq<string>, s: string) {
    if parts == [] then s == ""
    else if |parts| == 1 then s == parts[0]
    else exists rest :: s == parts[0] + "." + rest && IsDotted(parts[1..], rest)
  }

  /** The scalar names an access: its key says so itself, or it is right below "accesses". The default name is not
      one of them. */
  predicate NamesAccess(l: Leaf, name: string) {
    && l.key != "access"
    && (l.key == "accesses." + name || (!("accesses." <= l.key) && l.stack == ["accesses"] && l.key == name))
  }

  ghost predicate IsPlain(l: Leaf) {
    l.key != "access" && forall name :: !NamesAccess(l, name)
  }

  ghost predicate LastNaming(ls: seq<Leaf>, i: nat, name: string) {
    i < |ls| && NamesAccess(ls[i], name) && forall j :: i < j < |ls| ==> !NamesAccess(ls[j], name)
  }

  ghost predicate LastDefault(ls: seq<Leaf>, i: nat) {
    i < |ls| && ls[i].key == "access" && forall j :: i < j < |ls| ==> ls[j].key != "access"
  }

  /** The entries are those of the plain scalars, in order, in the section that the keys around them make. */
  ghost predicate EntriesAt(ls: seq<Leaf>, entries: seq<Entry>, at: seq<nat>) {
    && Increasing(at) && |at| == |entries|
    && (forall k :: 0 <= k < |at| ==> at[k] < |ls|)
    && (forall i :: 0 <= i < |ls| ==> (i in at <==> IsPlain(ls[i])))
    && forall k :: 0 <= k < |entries| ==> EntryIs(ls[at[k]], entries[k])
  }

  ghost predicate EntryIs(l: Leaf, e: Entry) {
    IsDotted(l.stack, e.section) && e.key == l.key && e.value == l.value
  }

  /** What is found of the scalars: each access has the value of the last one that names it, the default name is the
      last one given, and the plain ones become entries. */
  ghost predicate IsFound(ls: seq<Leaf>, c: Collected) {
    && (forall name :: name in c.accesses <==> exists i :: 0 <= i < |ls| && NamesAccess(ls[i], name))
    && (forall i: nat, name :: LastNaming(ls, i, name) ==> name in c.accesses && c.accesses[name] == ls[i].value)
    && (forall i: nat :: LastDefault(ls, i) ==> c.defaultName == ls[i].value)
    && ((forall i :: 0 <= i < |ls| ==> ls[i].key != "access") ==> c.defaultName == "")
    && exists at :: EntriesAt(ls, c.entries, at)
  }

  lemma {:induction false} JoinFirst(parts: seq<string>)
    requires |parts| >= 2
    ensures Join(parts) == parts[0] + "." + Join(parts[1..])
  {
    var init, last := parts[..|parts| - 1], parts[|parts| - 1];
    if |parts| > 2 {
      JoinFirst(init);
      assert init[1..] == parts[1..][..|parts| - 2];
      assert Join(parts[1..]) == Join(init[1..]) + "." + last;
      assert Join(parts) == parts[0] + "." + Join(init[1..]) + "." + last;
      assert parts[0] + "." + Join(init[1..]) + "." + last == parts[0] + "." + (Join(init[1..]) + "." + last);
    } else {
      assert init == [parts[0]] && parts[1..] == [last];
    }
  }

  lemma {:induction false} JoinIsDotted(parts: seq<string>)
    ensures IsDotted(parts, Join(parts))
  {
    if |parts| >= 2 {
      JoinFirst(parts);
      JoinIsDotted(parts[1..]);
    }
  }

  /** Only the key "accesses" alone makes the section of the accesses. */
  lemma AccessesAlone(stack: seq<string>)
    ensures Join(stack) == "accesses" <==> stack == ["accesses"]
  {
    if |stack| >= 2 {
      JoinFirst(stack);
      assert '.' == Join(stack)[|stack[0]|];
      assert '.' !in "accesses";
      assert Join(stack)[|stack[0]|] in Join(stack);
    } else if |stack| == 1 {
      assert stack == [stack[0]];
    }
  }

  lemma NameIsMeant(l: Leaf, name: string)
    ensures AccessName(l) == Some(name) <==> NamesAccess(l, name)
  {
    AccessesAlone(l.stack);
    if ACCESSES_DOT <= l.key {
      assert l.key == ACCESSES_DOT + l.key[|ACCESSES_DOT|..];
      assert (ACCESSES_DOT + name)[|ACCESSES_DOT|..] == name;
    }
  }

  lemma EntryIsPlain(l: Leaf)
    ensures IsEntry(l) <==> IsPlain(l)
    ensures EntryIs(l, EntryOf(l))
  {
    JoinIsDotted(l.stack);
    if AccessName(l).Some? {
      NameIsMeant(l, AccessName(l).value);
    }
    forall name
      ensures AccessName(l) == Some(name) <==> NamesAccess(l, name)
    {
      NameIsMeant(l, name);
    }
  }

  lemma {:induction false} RestIsAt(ls: seq<Leaf>) returns (at: seq<nat>)
    ensures EntriesAt(ls, EntriesOf(Rest(ls)), at)
  {
    if ls == [] {
      at := [];
    } else {
      var init, last := ls[..|ls| - 1], ls[|ls| - 1];
      var before := RestIsAt(init);
      assert ls == init + [last];
      EntryIsPlain(last);
      if IsEntry(last) {
        at := before + [|init|];
        EntriesOfAppend(Rest(init), last);
        NextEntry(init, last, EntriesOf(Rest(init)), before);
      } else {
        at := before;
        NoEntry(init, last, EntriesOf(Rest(init)), before);
      }
    }
  }

  lemma NextEntry(init: seq<Leaf>, last: Leaf, entries: seq<Entry>, before: seq<nat>)
    requires EntriesAt(init, entries, before) && IsPlain(last) && EntryIs(last, EntryOf(last))
    ensures EntriesAt(init + [last], entries + [EntryOf(last)], before + [|init|])
  {
    var at := before + [|init|];
    assert forall i :: i in at <==> i in before || i == |init|;
    assert forall i :: i in before ==> i < |init|;
  }

  lemma NoEntry(init: seq<Leaf>, last: Leaf, entries: seq<Entry>, before: seq<nat>)
    requires EntriesAt(init, entries, before) && !IsPlain(last)
    ensures EntriesAt(init + [last], entries, before)
  {
    assert forall i :: i in before ==> i < |init|;
  }

  /** What is collected is what is meant to be found. */
  lemma FaithfulIsFound(ls: seq<Leaf>, c: Collected)
    requires Faithful(c, ls)
    ensures IsFound(ls, c)
  {
    var at := RestIsAt(ls);
    NamesAreMeant(ls);
    forall i: nat, name | LastNaming(ls, i, name)
      ensures name in c.accesses && c.accesses[name] == ls[i].value
    {
      assert Names(ls, i, name);
    }
    forall i: nat | LastDefault(ls, i)
      ensures c.defaultName == ls[i].value
    {
      assert GivesDefault(ls, i);
    }
  }

  lemma NamesAreMeant(ls: seq<Leaf>)
    ensures forall i, name :: 0 <= i < |ls| ==> (AccessName(ls[i]) == Some(name) <==> NamesAccess(ls[i], name))
  {
    forall i, name | 0 <= i < |ls|
      ensures AccessName(ls[i]) == Some(name) <==> NamesAccess(ls[i], name)
    {
      NameIsMeant(ls[i], name);
    }
  }

  /** The result of parsing a mapping: its scalars, in order, and what is found of them. */
  ghost predicate ParsedAs(node: Node, c: Collected) {
    exists positions, ls :: LeavesInOrder(node, [], positions, ls) && IsFound(ls, c)
  }
}
