/** Run, ValidateSteps, TargetVersion and ValidateVersions as the loops they are,
    over databases that change in place (private/migrate/versions.go). */
module MigrationRunner {
  import opened Wrappers
  import opened Migration
  import opened MigrationViews
  import opened MigrationEffects

  /** ValidateSteps accepts exactly strictly increasing versions: the scan from the right stops at
      a step whose version is at most that of the step before it. */
  method ValidateSteps<S(!new)>(m: Migration<S>) returns (sorted: bool)
    ensures sorted <==> StrictlyIncreasing(m.steps)
  {
    var n := |m.steps|;
    var i := n - 1;
    while i > 0
      invariant -1 <= i < n || (i == -1 && n == 0)
      invariant forall j, k :: 0 <= j < k < n && j >= i ==> m.steps[j].version < m.steps[k].version
      decreases i
    {
      if m.steps[i].version <= m.steps[i - 1].version {
        return false;
      }
      i := i - 1;
    }
    return true;
  }

  /** TargetVersion keeps the steps up to a version. */
  method TargetVersion<S(!new)>(m: Migration<S>, version: int) returns (t: Migration<S>)
    ensures t == TargetOf(m, version)
  {
    t := m.(steps := []);
    for i := 0 to |m.steps|
      invariant t == m.(steps := UpTo(m.steps[..i], version))
    {
      assert m.steps[..i + 1][..i] == m.steps[..i];
      if m.steps[i].version <= version {
        t := t.(steps := t.steps + [m.steps[i]]);
      }
    }
    assert m.steps[..|m.steps|] == m.steps;
  }

  /** The databases a migration works on. */
  class Databases<S(!new)> {
    var dbs: World<S>
    ghost var executed: seq<nat>  // the steps whose action took effect, over all runs

    constructor (dbs: World<S>)
      ensures this.dbs == dbs && executed == []
    {
      this.dbs, executed := dbs, [];
    }

    method EnsureVersionTable(db: DbId)
      requires db in dbs
      modifies this
      ensures dbs == EnsureTable(old(dbs), db) && executed == old(executed)
    {
      if dbs[db].table.None? {
        dbs := dbs[db := dbs[db].(table := Some([]))];
      }
    }

    /** Run applies the steps that are beyond the latest version of their database, each with its
        version row in one transaction, and stops at the first failure. */
    method Run(m: Migration<S>, faults: nat -> Fault) returns (ok: bool)
      requires Connected(m, dbs)
      modifies this
      ensures !StrictlyIncreasing(m.steps) ==> !ok && dbs == old(dbs) && executed == old(executed)
      ensures StrictlyIncreasing(m.steps) ==>
        var r := RunFrom(m, old(dbs), 0, faults);
        dbs == r.world && ok == r.ok && executed == old(executed) + r.executed
      ensures StrictlyIncreasing(m.steps) ==>
        && old(executed) <= executed
        && IsRun(m, old(dbs), faults, RunResult(dbs, executed[|old(executed)|..], ok))
    {
      var sorted := ValidateSteps(m);
      if !sorted {
        return false;
      }
      IsRunAfter(m, dbs, faults, executed);
      ok := RunSteps(m, faults);
    }

    /** The loop over the steps. */
    method RunSteps(m: Migration<S>, faults: nat -> Fault) returns (ok: bool)
      requires Connected(m, dbs)
      modifies this
      ensures var r := RunFrom(m, old(dbs), 0, faults);
              dbs == r.world && ok == r.ok && executed == old(executed) + r.executed
    {
      ghost var start := dbs;
      ghost var done: seq<nat> := [];
      for i := 0 to |m.steps|
        invariant Connected(m, dbs)
        invariant executed == old(executed) + done
        invariant RunFrom(m, start, 0, faults) == Resumed(done, RunFrom(m, dbs, i, faults))
      {
        var step := m.steps[i];
        ghost var before := dbs;
        ghost var outcome := RunStep(m, before, i, faults(i)).1;
        RoundResult(m, before, i, faults, done);
        if step.hasCreateDB && faults(i).CreateDBFails? {
          return false;
        }
        if step.db.None? {
          return false;
        }
        var db := step.db.value;
        if !ValidTableName(m.table) || faults(i).TableFails? {
          return false;
        }
        EnsureVersionTable(db);
        if faults(i).QueryFails? {
          return false;
        }
        // a query that is lost inside its transaction reads as -1
        var version := if faults(i).QueryLost? then -1 else Latest(dbs[db].table);
        if step.version <= version {
          continue;
        }
        if faults(i).ActionFails? {
          // the transaction is rolled back
          return false;
        }
        dbs := dbs[db := Database(Some(dbs[db].table.value + [step.version]), step.action(dbs[db].content))];
        executed := executed + [i];
        done := done + [i];
      }
      return true;
    }

    /** CurrentVersion makes sure that the version table exists and reads the latest version; a failing
        transaction is an error, a query lost inside its transaction reads as -1. */
    method CurrentVersion(m: Migration<S>, db: DbId, fault: Fault) returns (version: Option<int>)
      requires db in dbs
      modifies this
      ensures executed == old(executed) && OnlyTables(old(dbs), dbs)
      ensures version == VersionRead(m, old(dbs), db, fault)
    {
      if !ValidTableName(m.table) || fault.TableFails? {
        return None;
      }
      EnsureVersionTable(db);
      if fault.QueryFails? {
        return None;
      }
      version := Some(if fault.QueryLost? then -1 else Latest(dbs[db].table));
    }

    /** ValidateVersions succeeds exactly when the steps are in order and every database is read to
        stand at the version of its last step. It may create version tables, and changes nothing else. */
    method ValidateVersions(m: Migration<S>, faults: DbId -> Fault) returns (ok: bool)
      requires Connected(m, dbs) && forall i :: 0 <= i < |m.steps| ==> m.steps[i].db.Some?
      modifies this
      ensures executed == old(executed) && OnlyTables(old(dbs), dbs)
      ensures ok <==> StrictlyIncreasing(m.steps) && VersionsReadAsExpected(m, old(dbs), faults)
    {
      var sorted := ValidateSteps(m);
      if !sorted {
        return false;
      }
      var expected := ExpectedVersions(m);
      ExpectedConnected(m, dbs);
      var left := expected.Keys;
      while left != {}
        invariant left <= expected.Keys && OnlyTables(old(dbs), dbs)
        invariant executed == old(executed)
        invariant forall d :: d in expected && d !in left ==>
          VersionRead(m, old(dbs), d, faults(d)) == Some(expected[d])
        decreases left
      {
        var d :| d in left;
        left := left - {d};
        var current := CurrentVersion(m, d, faults(d));
        TablesKeepReading(m, old(dbs), dbs, d, faults(d));
        if current != Some(expected[d]) {
          return false;
        }
      }
      return true;
    }
  }

  lemma TablesKeepReading<S(!new)>(m: Migration<S>, w: World<S>, w': World<S>, d: DbId, fault: Fault)
    requires OnlyTables(w, w') && d in w
    ensures VersionRead(m, w', d, fault) == VersionRead(m, w, d, fault)
  {
  }

  method ExpectedVersions<S(!new)>(m: Migration<S>) returns (expected: map<DbId, int>)
    requires forall i :: 0 <= i < |m.steps| ==> m.steps[i].db.Some?
    ensures expected == Expected(m.steps)
  {
    expected := map[];
    for i := 0 to |m.steps|
      invariant expected == Expected(m.steps[..i])
    {
      assert m.steps[..i + 1][..i] == m.steps[..i];
      expected := expected[m.steps[i].db.value := m.steps[i].version];
    }
    assert m.steps[..|m.steps|] == m.steps;
  }

  lemma ExpectedConnected<S(!new)>(m: Migration<S>, w: World<S>)
    requires Connected(m, w) && StrictlyIncreasing(m.steps) && forall i :: 0 <= i < |m.steps| ==> m.steps[i].db.Some?
    ensures forall d :: d in Expected(m.steps) ==> d in w
    ensures m.steps != [] <==> Expected(m.steps) != map[]
  {
    ExpectedIsLast(m.steps);
    if m.steps != [] {
      assert m.steps[0].db.value in Expected(m.steps);
    }
  }

  /** A result that is the continuation of steps executed before. */
  ghost function Resumed<S>(done: seq<nat>, r: RunResult<S>): RunResult<S> {
    r.(executed := done + r.executed)
  }

  /** The same databases, except that version tables may have been created. */
  ghost predicate OnlyTables<S(!new)>(w: World<S>, w': World<S>) {
    && w.Keys == w'.Keys
    && forall d :: d in w ==> w'[d] == w[d] || (w[d].table.None? && w'[d] == w[d].(table := Some([])))
  }

  lemma IsRunAfter<S(!new)>(m: Migration<S>, w: World<S>, faults: nat -> Fault, earlier: seq<nat>)
    requires Connected(m, w)
    ensures var r := RunFrom(m, w, 0, faults);
            && earlier <= earlier + r.executed
            && IsRun(m, w, faults, RunResult(r.world, (earlier + r.executed)[|earlier|..], r.ok))
  {
    var r := RunFrom(m, w, 0, faults);
    RunIsDescribed(m, w, 0, faults);
    assert (earlier + r.executed)[|earlier|..] == r.executed;
    assert RunResult(r.world, r.executed, r.ok) == r;
  }

  lemma RoundResult<S(!new)>(m: Migration<S>, w: World<S>, i: nat, faults: nat -> Fault, done: seq<nat>)
    requires Connected(m, w) && i < |m.steps|
    ensures var (w1, outcome) := RunStep(m, w, i, faults(i));
            && Connected(m, w1)
            && Resumed(done, RunFrom(m, w, i, faults)) ==
              if outcome.Failed? then RunResult(w1, done, false)
              else if outcome.Ran? then Resumed(done + [i], RunFrom(m, w1, i + 1, faults))
              else Resumed(done, RunFrom(m, w1, i + 1, faults))
  {
    RunStepKeepsDatabases(m, w, i, faults(i));
    var (w1, outcome) := RunStep(m, w, i, faults(i));
    if !outcome.Failed? {
      assert done + ([i] + RunFrom(m, w1, i + 1, faults).executed) ==
        done + [i] + RunFrom(m, w1, i + 1, faults).executed;
      assert [] + RunFrom(m, w1, i + 1, faults).executed == RunFrom(m, w1, i + 1, faults).executed;
    } else {
      assert done + [] == done;
    }
  }
}
