/** Reading the old configuration, and choosing the name of the default access
    (cmd/uplink/external_migrate.go). */
module LegacyMigration {
  import opened Wrappers
  import opened Decimal
  import opened ExternalConfig
  import opened ConfigFile
  import opened LegacyConfig
  import opened LegacyResults

  class Parser {
    var defaultName: string
    var accesses: map<string, string>
    var entries: seq<Entry>

    constructor ()
      ensures Found() == NOTHING
    {
      defaultName, accesses, entries := "", map[], [];
    }

    /** What has been collected so far. */
    function Found(): Collected
      reads this
    {
      Collected(defaultName, accesses, entries)
    }

    /** Walks the pairs of a mapping; the section is the dotted stack. */
    method Walk(node: Node, stack: seq<string>) returns (ok: bool)
      modifies this
      ensures ok <==> WellFormed(node)
      ensures ok ==> Found() == TakeAll(old(Found()), Leaves(node, stack))
      decreases node, 1
    {
      if node.kind != Mapping {
        return false;
      }
      if |node.content| % 2 != 0 {
        return false;
      }
      var section := Join(stack);
      ghost var start := Found();
      for n := 0 to |node.content| / 2
        invariant Found() == TakeAll(start, LeavesTo(node, stack, n))
        invariant GoodTo(node, n)
      {
        var good := WalkPair(node, n, section, stack);
        if !good {
          return false;
        }
        NextPair(start, node, stack, n);
      }
      AllGood(node);
      ok := true;
    }

    /** One key with its value: the first must be a scalar, the second a scalar or a mapping. */
    method WalkPair(node: Node, n: nat, section: string, stack: seq<string>) returns (ok: bool)
      requires 2 * n + 1 < |node.content| && section == Join(stack)
      modifies this
      ensures ok ==> GoodAt(node, 2 * n) && GoodAt(node, 2 * n + 1)
      ensures !ok ==> !WellFormed(node)
      ensures ok ==> Found() == TakeAll(old(Found()), LeavesOfPair(node.content[2 * n], node.content[2 * n + 1], stack))
      decreases node, 0
    {
      var key, value := node.content[2 * n], node.content[2 * n + 1];
      if key.kind != Scalar {
        OneBad(node, 2 * n);
        return false;
      }
      match value.kind {
      case Scalar =>
        ghost var before := Found();
        TakeScalar(section, stack, key.value, value.value);
        TakeOne(before, Leaf(stack, key.value, value.value));
      case Mapping =>
        var inner := Walk(value, stack + [key.value]);
        if !inner {
          OneBad(node, 2 * n + 1);
          return false;
        }
      case _ =>
        OneBad(node, 2 * n + 1);
        return false;
      }
      ok := true;
    }

    /** A scalar is intercepted as access data or becomes an entry. */
    method TakeScalar(section: string, ghost stack: seq<string>, key: string, value: string)
      requires section == Join(stack)
      modifies this
      ensures Found() == Take(old(Found()), Leaf(stack, key, value))
    {
      if key == ACCESS {
        defaultName := value;
      } else if ACCESSES_DOT <= key {
        accesses := accesses[key[|ACCESSES_DOT|..] := value];
      } else if section == ACCESSES {
        accesses := accesses[key := value];
      } else {
        entries := entries + [Entry(section, key, value)];
      }
    }
  }

  /** What makes the i-th child of a mapping acceptable. */
  predicate GoodAt(node: Node, i: nat)
    requires i < |node.content|
  {
    if i % 2 == 0 then node.content[i].kind == Scalar
    else node.content[i].kind == Scalar || WellFormed(node.content[i])
  }

  /** The first n pairs are acceptable. */
  ghost predicate GoodTo(node: Node, n: nat)
    requires n <= |node.content| / 2
  {
    forall i :: 0 <= i < 2 * n ==> GoodAt(node, i)
  }

  lemma NextPair(c: Collected, node: Node, stack: seq<string>, n: nat)
    requires n < |node.content| / 2
    ensures GoodTo(node, n) && GoodAt(node, 2 * n) && GoodAt(node, 2 * n + 1) ==> GoodTo(node, n + 1)
    ensures TakeAll(c, LeavesTo(node, stack, n + 1)) ==
            TakeAll(TakeAll(c, LeavesTo(node, stack, n)),
                    LeavesOfPair(node.content[2 * n], node.content[2 * n + 1], stack))
  {
    TakeAllConcat(c, LeavesTo(node, stack, n), LeavesOfPair(node.content[2 * n], node.content[2 * n + 1], stack));
  }

  lemma AllGood(node: Node)
    requires node.kind == Mapping && |node.content| % 2 == 0 && GoodTo(node, |node.content| / 2)
    ensures WellFormed(node)
  {
    forall i | 0 <= i < |node.content|
      ensures if i % 2 == 0 then node.content[i].kind == Scalar
        else node.content[i].kind == Scalar || WellFormed(node.content[i])
    {
      assert GoodAt(node, i);
    }
  }

  lemma OneBad(node: Node, i: nat)
    requires i < |node.content| && !GoodAt(node, i)
    ensures !WellFormed(node)
  {
  }

  lemma TakeOne(c: Collected, l: Leaf)
    ensures TakeAll(c, [l]) == Take(c, l)
  {
    assert [l][..0] == [];
  }

  /** A document with a single well-formed mapping is parsed, anything else is refused; what is parsed
      is faithful to the leaves of the document. */
  method ParseLegacyConfig(node: Node) returns (r: Option<Collected>)
    ensures r.Some? <==> node.kind == Document && |node.content| == 1 && WellFormed(node.content[0])
    ensures r.Some? <==> node.kind == Document && |node.content| == 1 && NothingIll(node.content[0])
    ensures r.Some? ==> Faithful(r.value, Leaves(node.content[0], [])) && ParsedAs(node.content[0], r.value)
  {
    if node.kind != Document {
      return None;
    }
    if |node.content| != 1 {
      return None;
    }
    WellFormedExactly(node.content[0]);
    if node.content[0].kind != Mapping {
      return None;
    }
    var p := new Parser();
    var ok := p.Walk(node.content[0], []);
    if !ok {
      return None;
    }
    r := Some(p.Found());
    ParsesAsMeant(node.content[0]);
  }

  lemma ParsesAsMeant(node: Node)
    ensures var c := TakeAll(NOTHING, Leaves(node, [])); Faithful(c, Leaves(node, [])) && ParsedAs(node, c)
  {
    var ls := Leaves(node, []);
    CollectsFaithfully(ls);
    LeavesAreInOrder(node, []);
    FaithfulIsFound(ls, TakeAll(NOTHING, ls));
  }

  // ----- the default access

  /** The names that are tried: main, main-2, main-3 and so on. */
  function Candidate(i: nat): string {
    if i < 2 then "main" else "main-" + Dec(i)
  }

  lemma CandidatesDiffer(i: nat, j: nat)
    requires 1 <= i < j
    ensures Candidate(i) != Candidate(j)
  {
    if i >= 2 {
      if Candidate(i) == Candidate(j) {
        assert Candidate(i)[5..] == Dec(i) && Candidate(j)[5..] == Dec(j);
        DecInjective(i, j);
      }
    } else {
      assert |Candidate(j)| > 4;
    }
  }

  /** The names tried before the i-th. */
  ghost function Tried(i: nat): set<string> {
    set j | 1 <= j < i :: Candidate(j)
  }

  lemma {:induction false} TriedCount(i: nat)
    requires i >= 1
    ensures |Tried(i)| == i - 1
  {
    if i == 1 {
      assert Tried(i) == {};
    } else {
      TriedCount(i - 1);
      assert Tried(i) == Tried(i - 1) + {Candidate(i - 1)};
      if Candidate(i - 1) in Tried(i - 1) {
        var j :| 1 <= j < i - 1 && Candidate(j) == Candidate(i - 1);
        CandidatesDiffer(j, i - 1);
      }
    }
  }

  lemma SubsetCount(a: set<string>, b: set<string>)
    requires a <= b
    ensures |a| <= |b|
  {
    assert b == a + (b - a);
  }

  /** The name is "main", or "main-n" for the least n from 2 on that is not in use while "main" is. */
  ghost predicate IsFirstFree(accesses: map<string, string>, name: string) {
    && name !in accesses
    && (name == "main" || ("main" in accesses && exists n: nat :: IsNumbered(accesses, name, n)))
  }

  ghost predicate IsNumbered(accesses: map<string, string>, name: string, n: nat) {
    n >= 2 && name == "main-" + Dec(n) && forall j: nat {:trigger Dec(j)} :: 2 <= j < n ==> "main-" + Dec(j) in accesses
  }

  lemma NamesTried(accesses: map<string, string>, name: string, n: nat)
    requires n >= 1 && name == Candidate(n) && name !in accesses
    requires forall j :: 1 <= j < n ==> Candidate(j) in accesses
    ensures IsFirstFree(accesses, name)
  {
    if n >= 2 {
      assert Candidate(1) in accesses;
      forall j: nat {:trigger Dec(j)} | 2 <= j < n
        ensures "main-" + Dec(j) in accesses
      {
        assert Candidate(j) in accesses;
      }
      assert IsNumbered(accesses, name, n);
    }
  }

  /** Finds a name that maps to the access. A missing name is taken for an access itself and bound to
      the first candidate that is free; no more than all names can be taken, so the search ends. */
  method CheckAccessMapping(accessName: string, accesses: map<string, string>)
      returns (newName: string, changed: bool, after: map<string, string>)
    ensures newName in after
    ensures !changed <==> accessName in accesses
    ensures !changed ==> newName == accessName && after == accesses
    ensures changed ==>
      && newName !in accesses && after == accesses[newName := accessName]
      && exists n ::
           1 <= n <= |accesses| + 1 && newName == Candidate(n) && forall j :: 1 <= j < n ==> Candidate(j) in accesses
    ensures changed ==> IsFirstFree(accesses, newName)
  {
    if accessName in accesses {
      return accessName, false, accesses;
    }
    newName := "main";
    var i := 2;
    assert Tried(1) == {};
    while newName in accesses
      invariant i >= 2 && newName == Candidate(i - 1)
      invariant forall j :: 1 <= j < i - 1 ==> Candidate(j) in accesses
      decreases |accesses| + 2 - i
    {
      assert Tried(i) <= accesses.Keys;
      TriedCount(i);
      SubsetCount(Tried(i), accesses.Keys);
      newName := "main-" + Dec(i);
      i := i + 1;
    }
    assert Tried(i - 1) <= accesses.Keys;
    TriedCount(i - 1);
    SubsetCount(Tried(i - 1), accesses.Keys);
    NamesTried(accesses, newName, i - 1);
    changed, after := true, accesses[newName := accessName];
  }

  /** Names in use stay bound as they were, the result names the access, and a second check changes nothing. */
  method CheckTwice(accessName: string, accesses: map<string, string>)
      returns (first: string, once: map<string, string>, second: string, changedAgain: bool, twice: map<string, string>)
    ensures first in once && forall k :: k in accesses ==> k in once && once[k] == accesses[k]
    ensures once[first] == if accessName in accesses then accesses[accessName] else accessName
    ensures second == first && !changedAgain && twice == once
  {
    var changed;
    first, changed, once := CheckAccessMapping(accessName, accesses);
    second, changedAgain, twice := CheckAccessMapping(first, once);
  }

  // ----- the migration as a whole

  /** A configuration says what the leaves say: every full path has the values of its leaves, in order. */
  ghost predicate SaysTheSame(values: Values, ls: seq<Leaf>) {
    forall path {:trigger ValuesOf(ls, path)} :: (if path in values then values[path] else []) == ValuesOf(ls, path)
  }

  lemma LoadedSaysTheSame(values: Values, ls: seq<Leaf>)
    requires Holds(values, EntriesOf(ls))
    ensures SaysTheSame(values, ls) <==> forall i :: 0 <= i < |ls| ==> ls[i].stack != [""]
  {
    MigrationKeepsValues(ls);
    forall path
      ensures (if path in values then values[path] else []) == ValuesAt(EntriesOf(ls), path)
    {
    }
  }

  /** What checking the default name makes of the collected accesses: they stay as they are, and a
      default that is not one of them is bound to a new name. */
  ghost predicate DefaultBound(found: Collected, defaultName: string, accesses: map<string, string>) {
    if found.defaultName in found.accesses then defaultName == found.defaultName && accesses == found.accesses
    else defaultName !in found.accesses && accesses == found.accesses[defaultName := found.defaultName]
  }

  /** Migrates a document and loads the new file. What is found is faithful to the document's leaves.
      The accesses are those found, with the default name pointing into them: without a key for it, to
      the empty string. The loaded values are those of the leaves that are no access data, exactly when
      none of these lies right below a single empty key. */
  method MigrateAndLoad(node: Node)
      returns (ok: bool, defaultName: string, accesses: map<string, string>, loaded: External, ghost found: Collected)
    ensures ok <==> node.kind == Document && |node.content| == 1 && WellFormed(node.content[0])
    ensures ok ==> Faithful(found, Leaves(node.content[0], [])) && DefaultBound(found, defaultName, accesses)
    ensures ok ==> ParsedAs(node.content[0], found)
    ensures ok && (forall l :: l in Leaves(node.content[0], []) ==> !IsDefault(l)) && "" !in found.accesses ==>
      accesses[defaultName] == ""
    ensures ok ==> loaded.values.Some? && loaded.loaded
    ensures ok ==> var ls := Rest(Leaves(node.content[0], []));
      SaysTheSame(loaded.values.value, ls) <==> forall i :: 0 <= i < |ls| ==> ls[i].stack != [""]
  {
    defaultName, accesses, found := "", map[], NOTHING;
    loaded := new External(None);
    var parsed := ParseLegacyConfig(node);
    ok := parsed.Some?;
    if !ok {
      return;
    }
    found := parsed.value;
    var changed;
    defaultName, changed, accesses := CheckAccessMapping(parsed.value.defaultName, parsed.value.accesses);
    loaded := SaveAndLoad(parsed.value.entries);
    LoadedSaysTheSame(loaded.values.value, Rest(Leaves(node.content[0], [])));
  }

  /** Writes the new file, which a later command loads. */
  method SaveAndLoad(entries: seq<Entry>) returns (loaded: External)
    ensures fresh(loaded) && loaded.values.Some? && loaded.loaded && Holds(loaded.values.value, entries)
  {
    var ex := new External(None);
    var saved := ex.SaveEntries(entries, false, None);
    loaded := new External(ex.file);
    var read := loaded.LoadConfig(false);
  }
}
