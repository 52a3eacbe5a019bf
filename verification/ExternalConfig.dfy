/** The configuration file: entries in sections, and values by dotted path
    (cmd/uplink/external_config.go). */
module ExternalConfig {
  import opened Wrappers
  import opened Sequences
  import opened Sorting

  datatype Entry = Entry(section: string, key: string, value: string)

  /** The path under which loading files an entry. */
  function Dotted(e: Entry): string {
    if e.section == "" then e.key else e.section + "." + e.key
  }

  /** Saving splits a path at its last dot. */
  function Split(path: string, value: string): Entry {
    var at := LastIndex(path, '.');
    if at < 0 then Entry("", path, value) else Entry(path[..at], path[at + 1..], value)
  }

  /** A split path joins to itself again exactly when its last dot is not its first character. */
  lemma SplitJoins(path: string, value: string)
    ensures Dotted(Split(path, value)) == path <==> LastIndex(path, '.') != 0
    ensures LastIndex(path, '.') == 0 ==> Dotted(Split(path, value)) == path[1..] && '.' !in path[1..]
  {
    var at := LastIndex(path, '.');
    if at >= 0 {
      assert path == path[..at] + "." + path[at + 1..];
    }
  }

  /** The values of a path, in the order of the file. */
  function ValuesAt(entries: seq<Entry>, path: string): seq<string> {
    if entries == [] then []
    else
      var init, last := entries[..|entries| - 1], entries[|entries| - 1];
      if Dotted(last) == path then ValuesAt(init, path) + [last.value] else ValuesAt(init, path)
  }

  type Values = map<string, seq<string>>

  /** Values are what a list of entries says. */
  ghost predicate Holds(values: Values, entries: seq<Entry>) {
    forall p {:trigger ValuesAt(entries, p)} ::
      (p in values <==> ValuesAt(entries, p) != []) && (p in values ==> values[p] == ValuesAt(entries, p))
  }

  function Add(values: Values, e: Entry): Values {
    values[Dotted(e) := (if Dotted(e) in values then values[Dotted(e)] else []) + [e.value]]
  }

  lemma AddHolds(values: Values, entries: seq<Entry>, e: Entry)
    requires Holds(values, entries)
    ensures Holds(Add(values, e), entries + [e])
  {
    assert (entries + [e])[..|entries|] == entries;
    forall p
      ensures ValuesAt(entries + [e], p) == ValuesAt(entries, p) + (if Dotted(e) == p then [e.value] else [])
    {
    }
  }

  /** The values of the entries under a path, in the order of the file. */
  ghost predicate ValuesOfEntries(entries: seq<Entry>, path: string, vs: seq<string>) {
    exists at :: ValuesOfPlaces(entries, path, vs, at)
  }

  ghost predicate ValuesOfPlaces(entries: seq<Entry>, path: string, vs: seq<string>, at: seq<nat>) {
    && Increasing(at) && |at| == |vs|
    && (forall k :: 0 <= k < |at| ==> at[k] < |entries| && vs[k] == entries[at[k]].value)
    && forall i :: 0 <= i < |entries| ==> (i in at <==> IsUnder(entries[i], path))
  }

  /** The path of an entry is its key, behind its section and a dot if it has one. */
  predicate IsUnder(e: Entry, path: string) {
    (e.section == "" && path == e.key) || (e.section != "" && path == e.section + "." + e.key)
  }

  lemma {:induction false} ValuesAreInOrder(entries: seq<Entry>, path: string) returns (at: seq<nat>)
    ensures ValuesOfPlaces(entries, path, ValuesAt(entries, path), at)
  {
    if entries == [] {
      at := [];
    } else {
      var init, last := entries[..|entries| - 1], entries[|entries| - 1];
      var before := ValuesAreInOrder(init, path);
      assert entries == init + [last];
      if IsUnder(last, path) {
        at := before + [|init|];
        NextValue(init, last, path, ValuesAt(init, path), before);
      } else {
        at := before;
        NoValue(init, last, path, ValuesAt(init, path), before);
      }
    }
  }

  lemma NextValue(init: seq<Entry>, last: Entry, path: string, vs: seq<string>, before: seq<nat>)
    requires ValuesOfPlaces(init, path, vs, before) && IsUnder(last, path)
    ensures ValuesOfPlaces(init + [last], path, vs + [last.value], before + [|init|])
  {
    var at := before + [|init|];
    assert forall i :: i in at <==> i in before || i == |init|;
    assert forall i :: i in before ==> i < |init|;
  }

  lemma NoValue(init: seq<Entry>, last: Entry, path: string, vs: seq<string>, before: seq<nat>)
    requires ValuesOfPlaces(init, path, vs, before) && !IsUnder(last, path)
    ensures ValuesOfPlaces(init + [last], path, vs, before)
  {
    assert forall i :: i in before ==> i < |init|;
  }

  /** Values are exactly those of the entries, path by path. */
  ghost predicate ReadFrom(values: Values, entries: seq<Entry>) {
    && (forall p :: p in values ==> values[p] != [] && ValuesOfEntries(entries, p, values[p]))
    && forall i :: 0 <= i < |entries| ==> forall p :: IsUnder(entries[i], p) ==> p in values
  }

  lemma {:induction false} SomeValue(entries: seq<Entry>, i: nat, path: string)
    requires i < |entries| && IsUnder(entries[i], path)
    ensures ValuesAt(entries, path) != []
  {
    if i < |entries| - 1 {
      SomeValue(entries[..|entries| - 1], i, path);
    }
  }

  lemma HeldIsRead(values: Values, entries: seq<Entry>)
    requires Holds(values, entries)
    ensures ReadFrom(values, entries)
  {
    forall p | p in values
      ensures values[p] != [] && ValuesOfEntries(entries, p, values[p])
    {
      assert values[p] == ValuesAt(entries, p);
      var at := ValuesAreInOrder(entries, p);
    }
    forall i, p | 0 <= i < |entries| && IsUnder(entries[i], p)
      ensures p in values
    {
      SomeValue(entries, i, p);
    }
  }

  // ----- what a saved file says

  function Splits(ks: seq<string>, values: map<string, string>): seq<Entry>
    requires forall k :: k in ks ==> k in values
  {
    seq(|ks|, i requires 0 <= i < |ks| => assert ks[i] in ks; Split(ks[i], values[ks[i]]))
  }

  /** Every path once, in some order. */
  ghost predicate Enumerates(ks: seq<string>, values: map<string, string>) {
    && (forall k :: k in ks <==> k in values)
    && forall i, j :: 0 <= i < j < |ks| ==> ks[i] != ks[j]
  }

  /** One entry for every path, in some order. */
  ghost predicate Written(values: map<string, string>, entries: seq<Entry>) {
    exists ks :: Enumerates(ks, values) && multiset(entries) == multiset(Splits(ks, values))
  }

  function InMemory(values: map<string, string>): Values {
    map k | k in values :: [values[k]]
  }

  lemma {:induction false} NoValues(entries: seq<Entry>, path: string)
    requires forall j :: 0 <= j < |entries| ==> Dotted(entries[j]) != path
    ensures ValuesAt(entries, path) == []
  {
    if entries == [] {
    } else {
      NoValues(entries[..|entries| - 1], path);
    }
  }

  lemma {:induction false} OneValue(entries: seq<Entry>, path: string, i: nat)
    requires i < |entries| && Dotted(entries[i]) == path
    requires forall j :: 0 <= j < |entries| && j != i ==> Dotted(entries[j]) != path
    ensures ValuesAt(entries, path) == [entries[i].value]
  {
    var init := entries[..|entries| - 1];
    if i == |entries| - 1 {
      NoValues(init, path);
    } else {
      OneValue(init, path, i);
    }
  }

  predicate From(values: map<string, string>, k: string, e: Entry) {
    k in values && e == Split(k, values[k])
  }

  ghost predicate FromSome(values: map<string, string>, e: Entry) {
    exists k :: From(values, k, e)
  }

  lemma EntriesComeFromPaths(values: map<string, string>, entries: seq<Entry>, ks: seq<string>)
    requires Enumerates(ks, values) && multiset(entries) == multiset(Splits(ks, values))
    ensures forall j :: 0 <= j < |entries| ==> FromSome(values, entries[j])
    ensures forall k :: k in values ==> exists j :: 0 <= j < |entries| && From(values, k, entries[j])
  {
    var es := Splits(ks, values);
    SameMembers(entries, es);
    forall j | 0 <= j < |entries|
      ensures FromSome(values, entries[j])
    {
      assert entries[j] in entries;
      var i :| 0 <= i < |es| && es[i] == entries[j];
      assert ks[i] in ks && From(values, ks[i], entries[j]);
    }
    forall k | k in values
      ensures exists j :: 0 <= j < |entries| && From(values, k, entries[j])
    {
      var i :| 0 <= i < |ks| && ks[i] == k;
      assert es[i] in es && From(values, k, es[i]);
    }
  }

  predicate Joins(k: string) {
    LastIndex(k, '.') != 0
  }

  lemma EntriesAreDistinct(values: map<string, string>, entries: seq<Entry>, ks: seq<string>)
    requires Enumerates(ks, values) && multiset(entries) == multiset(Splits(ks, values))
    requires forall k :: k in values ==> Joins(k)
    ensures forall i, j :: 0 <= i < j < |entries| ==> entries[i] != entries[j]
  {
    var es := Splits(ks, values);
    forall i, j | 0 <= i < j < |es|
      ensures es[i] != es[j]
    {
      assert ks[i] in ks && ks[j] in ks;
      SplitJoins(ks[i], values[ks[i]]);
      SplitJoins(ks[j], values[ks[j]]);
    }
    DistinctCount(es);
    DistinctCount(entries);
  }

  lemma PathIsRead(values: map<string, string>, entries: seq<Entry>, p: string)
    requires Written(values, entries) && forall k :: k in values ==> Joins(k)
    ensures ValuesAt(entries, p) == if p in values then [values[p]] else []
  {
    var ks :| Enumerates(ks, values) && multiset(entries) == multiset(Splits(ks, values));
    EntriesComeFromPaths(values, entries, ks);
    EntriesAreDistinct(values, entries, ks);
    forall j | 0 <= j < |entries| && Dotted(entries[j]) == p
      ensures p in values && entries[j] == Split(p, values[p])
    {
      var k :| From(values, k, entries[j]);
      SplitJoins(k, values[k]);
    }
    if p in values {
      SplitJoins(p, values[p]);
      var i :| 0 <= i < |entries| && From(values, p, entries[i]);
      OneValue(entries, p, i);
    } else {
      NoValues(entries, p);
    }
  }

  /** No entry is read under a path whose last dot is its first character. */
  lemma NeverReadAs(k: string, value: string, p: string)
    requires !Joins(p)
    ensures Dotted(Split(k, value)) != p
  {
    SplitJoins(k, value);
    assert p[0] == '.';
  }

  lemma PathIsMissed(values: map<string, string>, entries: seq<Entry>, p: string)
    requires forall j :: 0 <= j < |entries| ==> FromSome(values, entries[j])
    ensures Joins(p) || ValuesAt(entries, p) == []
  {
    if !Joins(p) {
      forall j | 0 <= j < |entries|
        ensures Dotted(entries[j]) != p
      {
        var k :| From(values, k, entries[j]);
        NeverReadAs(k, values[k], p);
      }
      NoValues(entries, p);
    }
  }

  /** What SaveConfig keeps in memory is what loading its file gives, exactly when no path has its last
      dot at its start: such a path is read back without the dot. */
  lemma MemoryMatchesFile(values: map<string, string>, entries: seq<Entry>)
    requires Written(values, entries)
    ensures Holds(InMemory(values), entries) <==> forall k :: k in values ==> Joins(k)
  {
    if forall k :: k in values ==> Joins(k) {
      forall p
        ensures ValuesAt(entries, p) == if p in values then [values[p]] else []
      {
        PathIsRead(values, entries, p);
      }
    } else {
      var p :| p in values && !Joins(p);
      var ks :| Enumerates(ks, values) && multiset(entries) == multiset(Splits(ks, values));
      EntriesComeFromPaths(values, entries, ks);
      PathIsMissed(values, entries, p);
    }
  }

  // ----- the order of a saved file

  /** Ordered by section, and by key within a section. */
  ghost predicate InFileOrder(entries: seq<Entry>) {
    forall i, j :: 0 <= i < j < |entries| ==>
      && !StringLess(entries[j].section, entries[i].section)
      && (entries[j].section == entries[i].section ==> !StringLess(entries[j].key, entries[i].key))
  }

  predicate EntryLess(a: Entry, b: Entry) {
    if a.section == b.section then StringLess(a.key, b.key) else StringLess(a.section, b.section)
  }

  lemma EntryLessCompares()
    ensures Comparison(EntryLess)
  {
    forall a, b | EntryLess(a, b)
      ensures !EntryLess(b, a)
    {
      StringsCompare(a.key, b.key);
      StringsCompare(a.section, b.section);
    }
    forall a, b, c | !EntryLess(c, b) && !EntryLess(b, a)
      ensures !EntryLess(c, a)
    {
      if a.section == b.section == c.section {
        NotLessTransitive(Codes(c.key), Codes(b.key), Codes(a.key));
      } else {
        StringsCompare(c.section, b.section);
        StringsCompare(b.section, a.section);
        NotLessTransitive(Codes(c.section), Codes(b.section), Codes(a.section));
      }
    }
  }
}
