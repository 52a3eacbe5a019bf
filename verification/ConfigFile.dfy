/** Loading and saving the configuration of the uplink command
    (cmd/uplink/external_config.go). */
module ConfigFile {
  import opened Wrappers
  import opened Sequences
  import opened Sorting
  import opened ExternalConfig

  /** The entries a file holds; reading a broken file reports an error after them. */
  datatype File = File(entries: seq<Entry>, broken: bool)

  class External {
    var values: Option<Values>  // None until the first load
    var loaded: bool
    var file: Option<File>

    constructor (file: Option<File>)
      ensures this.file == file && values.None? && !loaded
    {
      this.file, values, loaded := file, None, false;
    }

    /** Loads the file once. An error is not remembered: the next call finds the values read so far
        and reports none. */
    method LoadConfig(cannotOpen: bool) returns (ok: bool)
      modifies `values, `loaded
      ensures old(values).Some? ==> ok && values == old(values) && loaded == old(loaded)
      ensures old(values).None? && file.None? && !cannotOpen ==> ok && values == Some(map[]) && loaded == old(loaded)
      ensures old(values).None? && cannotOpen ==> !ok && values == Some(map[]) && loaded == old(loaded)
      ensures old(values).None? && file.Some? && !cannotOpen ==>
        && values.Some? && Holds(values.value, file.value.entries) && ReadFrom(values.value, file.value.entries)
        && ok == !file.value.broken && loaded == (ok || old(loaded))
    {
      if values.Some? {
        return true;
      }
      values := Some(map[]);
      if cannotOpen {
        return false;
      }
      if file.None? {
        return true;
      }
      var entries := file.value.entries;
      for i := 0 to |entries|
        modifies `values
        invariant values.Some? && Holds(values.value, entries[..i])
      {
        assert entries[..i + 1] == entries[..i] + [entries[i]];
        AddHolds(values.value, entries[..i], entries[i]);
        values := Some(Add(values.value, entries[i]));
      }
      assert entries[..|entries|] == entries;
      HeldIsRead(values.value, entries);
      if file.value.broken {
        return false;
      }
      loaded := true;
      ok := true;
    }

    /** Writes one entry for every path, ordered by section and key, and keeps the values in memory.
        A failing write may leave any file behind and keeps the old values. */
    method SaveConfig(newValues: map<string, string>, fails: bool, leftover: Option<File>) returns (ok: bool)
      modifies `values, `file
      ensures ok == !fails
      ensures ok ==> file.Some? && !file.value.broken && Sorted(EntryLess, file.value.entries)
      ensures ok ==> Written(newValues, file.value.entries) && InFileOrder(file.value.entries)
      ensures ok ==> values == Some(InMemory(newValues))
      ensures !ok ==> values == old(values) && file == leftover
    {
      var entries, left := [], newValues.Keys;
      ghost var ks: seq<string> := [];
      while left != {}
        invariant left <= newValues.Keys
        invariant (forall k :: k in ks <==> k in newValues && k !in left)
        invariant forall i, j :: 0 <= i < j < |ks| ==> ks[i] != ks[j]
        invariant entries == Splits(ks, newValues)
        decreases left
      {
        var k :| k in left;
        left := left - {k};
        entries := entries + [Split(k, newValues[k])];
        ks := ks + [k];
      }
      assert Enumerates(ks, newValues);
      EntryLessCompares();
      entries := Sort(EntryLess, entries);
      assert InFileOrder(entries) by {
        SortedIsInFileOrder(entries);
      }
      ok := SaveEntries(entries, fails, leftover);
      if !ok {
        return;
      }
      values := Some(InMemory(newValues));
    }

    method SaveEntries(entries: seq<Entry>, fails: bool, leftover: Option<File>) returns (ok: bool)
      modifies `file
      ensures ok == !fails && file == if ok then Some(File(entries, false)) else leftover
    {
      ok := !fails;
      file := if ok then Some(File(entries, false)) else leftover;
    }
  }

  lemma SortedIsInFileOrder(entries: seq<Entry>)
    requires Sorted(EntryLess, entries)
    ensures InFileOrder(entries)
  {
    forall i, j | 0 <= i < j < |entries|
      ensures !StringLess(entries[j].section, entries[i].section)
      ensures entries[j].section == entries[i].section ==> !StringLess(entries[j].key, entries[i].key)
    {
      assert !EntryLess(entries[j], entries[i]);
      StringsCompare(entries[i].section, entries[j].section);
    }
  }

  /** A saved configuration, loaded by another run of the command, is what the first run kept in
      memory exactly when no path has its last dot at its start. */
  method SaveThenLoad(first: External, newValues: map<string, string>) returns (second: External)
    modifies first
    ensures first.values.Some? && fresh(second) && second.values.Some? && second.loaded
    ensures second.values == first.values <==> forall k :: k in newValues ==> Joins(k)
  {
    var saved := first.SaveConfig(newValues, false, None);
    second := new External(first.file);
    var loaded := second.LoadConfig(false);
    MemoryMatchesFile(newValues, first.file.value.entries);
    HoldsOnce(second.values.value, InMemory(newValues), first.file.value.entries);
  }

  /** Loading again reports what the first load did exactly when that one could open its file and read
      it to the end; a second load never reports an error and never changes the values. */
  method LoadTwice(ex: External, cannotOpen: bool, cannotOpenAgain: bool)
      returns (first: bool, second: bool, between: Option<Values>)
    modifies ex
    ensures second && ex.values == between
    ensures second == first <==> old(ex.values).Some? || (!cannotOpen && (ex.file.Some? ==> !ex.file.value.broken))
  {
    first := ex.LoadConfig(cannotOpen);
    between := ex.values;
    second := ex.LoadConfig(cannotOpenAgain);
  }

  lemma HoldsOnce(a: Values, b: Values, entries: seq<Entry>)
    requires Holds(a, entries)
    ensures a == b <==> Holds(b, entries)
  {
    if Holds(b, entries) {
      forall p
        ensures p in a <==> p in b
        ensures p in a ==> a[p] == b[p]
      {
        assert p in a <==> ValuesAt(entries, p) != [];
      }
    }
  }
}
