/** The other views of a migration: the version check, partial migrations and the
    steps' order agree with what Run does (private/migrate/versions.go). */
module MigrationViews {
  import opened Wrappers
  import opened Migration

  // ----- TargetVersion

  /** The steps up to a version. */
  function UpTo<S>(steps: seq<Step<S>>, version: int): seq<Step<S>> {
    if steps == [] then []
    else
      var last := steps[|steps| - 1];
      UpTo(steps[..|steps| - 1], version) + (if last.version <= version then [last] else [])
  }

  /** For increasing versions the steps up to a version are a prefix of all steps. */
  lemma {:induction false} UpToIsPrefix<S(!new)>(steps: seq<Step<S>>, version: int) returns (n: nat)
    requires StrictlyIncreasing(steps)
    ensures n <= |steps| && UpTo(steps, version) == steps[..n]
    ensures forall i :: 0 <= i < |steps| ==> (steps[i].version <= version <==> i < n)
  {
    if steps == [] {
      return 0;
    }
    var init := steps[..|steps| - 1];
    n := UpToIsPrefix(init, version);
    assert forall i :: 0 <= i < |init| ==> steps[i] == init[i];
    if steps[|steps| - 1].version <= version {
      if init != [] {
        assert init[|init| - 1].version < steps[|steps| - 1].version;
      }
      n := |steps|;
    }
  }

  function TargetOf<S>(m: Migration<S>, version: int): Migration<S> {
    m.(steps := UpTo(m.steps, version))
  }

  ghost predicate Truncated<S(!new)>(m: Migration<S>, t: Migration<S>, n: nat) {
    n <= |m.steps| && t.table == m.table && t.steps == m.steps[..n]
  }

  lemma {:induction false} SharedPrefix<S(!new)>(m: Migration<S>, t: Migration<S>, n: nat, w: World<S>, k: nat)
    requires Truncated(m, t, n) && k <= n && Connected(m, w) && Connected(t, w)
    ensures Prefix(t, w, k) == Prefix(m, w, k)
    ensures PendingSteps(t, w, n - k, n) == PendingSteps(m, w, n - k, n)
    decreases k
  {
    if k == 0 {
    } else {
      SharedPrefix(m, t, n, w, k - 1);
      assert t.steps[k - 1] == m.steps[k - 1];
      assert t.steps[n - k] == m.steps[n - k];
    }
  }

  lemma TargetReaches<S(!new)>(m: Migration<S>, t: Migration<S>, n: nat, w: World<S>, w1: World<S>)
    requires Truncated(m, t, n) && Connected(m, w) && Connected(t, w)
    requires At(t, w, w1, n) && w1 == Prefix(m, w, n)
    ensures At(m, w, w1, n)
  {
    assert forall j :: 0 <= j < n ==> t.steps[j] == m.steps[j];
  }

  lemma TargetRun<S(!new)>(m: Migration<S>, t: Migration<S>, n: nat, w: World<S>, faults: nat -> Fault)
    requires Truncated(m, t, n) && Connected(m, w) && Connected(t, w) && StrictlyIncreasing(t.steps)
    requires ReadsWell(t, w, 0, faults)
    ensures var r := RunFrom(t, w, 0, faults);
            r.world.Keys == w.Keys && (r.ok ==> At(m, w, r.world, n) && r.executed == PendingSteps(m, w, 0, n))
  {
    SharedPrefix(m, t, n, w, n);
    var k := RunAdvances(t, w, w, 0, 0, faults);
    var r := RunFrom(t, w, 0, faults);
    AtIsConnected(t, w, r.world, k);
    if r.ok {
      TargetReaches(m, t, n, w, r.world);
    }
  }

  lemma FullRunFrom<S(!new)>(m: Migration<S>, w: World<S>, n: nat, w1: World<S>, faults: nat -> Fault)
    requires Connected(m, w) && Connected(m, w1) && StrictlyIncreasing(m.steps) && At(m, w, w1, n)
    requires RunFrom(m, w1, 0, faults).ok && ReadsWell(m, w1, 0, faults)
    ensures var full := RunFrom(m, w, 0, i => NoFault);
            && RunFrom(m, w1, 0, faults).world == full.world
            && PendingSteps(m, w, 0, n) + RunFrom(m, w1, 0, faults).executed == full.executed
  {
    var j := RunAdvances(m, w, w1, n, 0, faults);
    FaultlessRunSucceeds(m, w, 0);
    FaultlessReadsWell(m, w, 0);
    var j' := RunAdvances(m, w, w, 0, 0, i => NoFault);
    PendingStepsSplit(m, w, 0, n, |m.steps|);
  }

  /** Two runs together do what one uninterrupted full run does. */
  ghost predicate AsOneRun<S(!new)>(m: Migration<S>, w: World<S>, first: RunResult<S>, second: RunResult<S>)
    requires Connected(m, w)
  {
    var full := RunFrom(m, w, 0, i => NoFault);
    second.world == full.world && first.executed + second.executed == full.executed
  }

  /** Migrating to a version first and then all the way is migrating all the way: the same
      databases, and every step executed that one full run executes, once and in order. This holds
      when neither run misreads a lost query, and on databases without versions below -1 only then. */
  lemma TargetThenFull<S(!new)>(m: Migration<S>, version: int, w: World<S>, faults: nat -> Fault, faults': nat -> Fault)
    requires Connected(m, w) && StrictlyIncreasing(m.steps)
    ensures Connected(TargetOf(m, version), w)
    ensures var r := RunFrom(TargetOf(m, version), w, 0, faults);
            && Connected(m, r.world)
            && (r.ok && RunFrom(m, r.world, 0, faults').ok ==>
              var well := ReadsWell(TargetOf(m, version), w, 0, faults) && ReadsWell(m, r.world, 0, faults');
              && (well ==> AsOneRun(m, w, r, RunFrom(m, r.world, 0, faults')))
              && (VersionsStart(m, w) ==> (AsOneRun(m, w, r, RunFrom(m, r.world, 0, faults')) <==> well)))
  {
    var n := UpToIsPrefix(m.steps, version);
    var t := TargetOf(m, version);
    var r := RunFrom(t, w, 0, faults);
    RunFromKeepsKeys(t, w, 0, faults);
    if r.ok && RunFrom(m, r.world, 0, faults').ok {
      if !ReadsWell(t, w, 0, faults) {
        if VersionsStart(m, w) && AsOneRun(m, w, r, RunFrom(m, r.world, 0, faults')) {
          FullRunIsSound(m, w);
          FirstMisreads(m, t, n, w, faults);
          SoundPart(m, w, r.executed, RunFrom(m, r.world, 0, faults').executed);
        }
      } else {
        TargetRun(m, t, n, w, faults);
        if ReadsWell(m, r.world, 0, faults') {
          FullRunFrom(m, w, n, r.world, faults');
        } else if VersionsStart(m, w) && AsOneRun(m, w, r, RunFrom(m, r.world, 0, faults')) {
          FullRunIsSound(m, w);
          SecondMisreads(m, w, n, r, faults');
        }
      }
    }
  }

  lemma {:induction false} RunFromKeepsKeys<S(!new)>(m: Migration<S>, w: World<S>, i: nat, faults: nat -> Fault)
    requires i <= |m.steps| && Connected(m, w)
    ensures RunFrom(m, w, i, faults).world.Keys == w.Keys
    decreases |m.steps| - i
  {
    if i == |m.steps| {
    } else {
      RunStepKeepsDatabases(m, w, i, faults(i));
      RunFromKeepsKeys(m, RunStep(m, w, i, faults(i)).0, i + 1, faults);
    }
  }

  lemma FullRunIsSound<S(!new)>(m: Migration<S>, w: World<S>)
    requires Connected(m, w) && StrictlyIncreasing(m.steps)
    ensures Sound(m, w, RunFrom(m, w, 0, i => NoFault).executed)
  {
    FaultlessReadsWell(m, w, 0);
    var k := RunAdvances(m, w, w, 0, 0, i => NoFault);
    PendingStepsAreSound(m, w, 0, k);
  }

  lemma FirstMisreads<S(!new)>(m: Migration<S>, t: Migration<S>, n: nat, w: World<S>, faults: nat -> Fault)
    requires Truncated(m, t, n) && Connected(m, w) && Connected(t, w) && StrictlyIncreasing(m.steps)
    requires VersionsStart(m, w)
    requires !ReadsWell(t, w, 0, faults)
    ensures !Sound(m, w, RunFrom(t, w, 0, faults).executed)
  {
    assert forall i :: 0 <= i < n ==> t.steps[i] == m.steps[i];
    var j := MisreadRunExecutes(t, w, w, 0, 0, faults);
    var executed := RunFrom(t, w, 0, faults).executed;
    var p :| 0 <= p < |executed| && executed[p] == j;
  }

  lemma SecondMisreads<S(!new)>(m: Migration<S>, w: World<S>, n: nat, r: RunResult<S>, faults: nat -> Fault)
    requires Connected(m, w) && Connected(m, r.world) && StrictlyIncreasing(m.steps) && VersionsStart(m, w)
    requires At(m, w, r.world, n) && r.executed == PendingSteps(m, w, 0, n) && !ReadsWell(m, r.world, 0, faults)
    ensures !Sound(m, w, r.executed + RunFrom(m, r.world, 0, faults).executed)
  {
    var more := RunFrom(m, r.world, 0, faults).executed;
    var j := MisreadRunExecutes(m, w, r.world, n, 0, faults);
    if Sound(m, w, r.executed + more) {
      SoundPart(m, w, r.executed, more);
      PendingStepsAreSound(m, w, 0, n);
      assert false;
    }
  }

  // ----- ValidateVersions

  /** The version expected of each database: that of its last step. */
  function Expected<S>(steps: seq<Step<S>>): map<DbId, int>
    requires forall i :: 0 <= i < |steps| ==> steps[i].db.Some?
  {
    if steps == [] then map[]
    else
      var last := steps[|steps| - 1];
      Expected(steps[..|steps| - 1])[last.db.value := last.version]
  }

  lemma {:induction false} ExpectedIsLast<S(!new)>(steps: seq<Step<S>>)
    requires StrictlyIncreasing(steps) && forall i :: 0 <= i < |steps| ==> steps[i].db.Some?
    ensures forall i :: 0 <= i < |steps| ==>
      steps[i].db.value in Expected(steps) && steps[i].version <= Expected(steps)[steps[i].db.value]
    ensures forall d :: d in Expected(steps) ==>
      exists i :: 0 <= i < |steps| && steps[i].db == Some(d) && steps[i].version == Expected(steps)[d]
  {
    if steps == [] {
    } else {
      var init := steps[..|steps| - 1];
      assert forall i :: 0 <= i < |init| ==> init[i] == steps[i];
      ExpectedIsLast(init);
      forall d | d in Expected(steps)
        ensures exists i :: 0 <= i < |steps| && steps[i].db == Some(d) && steps[i].version == Expected(steps)[d]
      {
        if d == steps[|steps| - 1].db.value {
          assert steps[|steps| - 1].db == Some(d);
        } else {
          var i :| 0 <= i < |init| && init[i].db == Some(d) && init[i].version == Expected(init)[d];
          assert steps[i].db == Some(d);
        }
      }
    }
  }

  /** Every database stands at the version of its last step. */
  ghost predicate VersionsMatch<S(!new)>(m: Migration<S>, w: World<S>)
    requires Connected(m, w) && forall i :: 0 <= i < |m.steps| ==> m.steps[i].db.Some?
  {
    forall d :: d in Expected(m.steps) ==> d in w && Latest(w[d].table) == Expected(m.steps)[d]
  }

  /** What CurrentVersion reports of a database; None is an error. */
  function VersionRead<S>(m: Migration<S>, w: World<S>, d: DbId, fault: Fault): Option<int>
    requires d in w
  {
    if !ValidTableName(m.table) || fault.TableFails? || fault.QueryFails? then None
    else Some(VersionSeen(w[d].table, fault))
  }

  /** What ValidateVersions checks of the databases. */
  ghost predicate VersionsReadAsExpected<S(!new)>(m: Migration<S>, w: World<S>, faults: DbId -> Fault)
    requires Connected(m, w) && forall i :: 0 <= i < |m.steps| ==> m.steps[i].db.Some?
  {
    forall d :: d in Expected(m.steps) ==> d in w && VersionRead(m, w, d, faults(d)) == Some(Expected(m.steps)[d])
  }

  /** The query of a database is not answered by its latest version. */
  predicate Unread(fault: Fault) {
    fault.TableFails? || fault.QueryFails? || fault.QueryLost?
  }

  /** For versions from 0 on, validation accepts exactly databases whose versions match and are all
      read: a lost query reads as -1 and makes it refuse. */
  lemma ValidationIsExact<S(!new)>(m: Migration<S>, w: World<S>, faults: DbId -> Fault)
    requires Connected(m, w) && StrictlyIncreasing(m.steps)
    requires forall i :: 0 <= i < |m.steps| ==> m.steps[i].db.Some? && m.steps[i].version >= 0
    ensures VersionsReadAsExpected(m, w, faults) <==>
      && VersionsMatch(m, w) && (m.steps != [] ==> ValidTableName(m.table))
      && forall d :: d in Expected(m.steps) ==> !Unread(faults(d))
  {
    ExpectedIsLast(m.steps);
    if m.steps != [] {
      assert m.steps[0].db.value in Expected(m.steps);
    }
  }

  /** A database whose query is lost is accepted at any version when the version of its last step is -1,
      and is refused at any version otherwise. */
  lemma LostQueryMayValidate<S(!new)>(m: Migration<S>, w: World<S>, last: nat, faults: DbId -> Fault)
    requires Connected(m, w) && StrictlyIncreasing(m.steps) && ValidTableName(m.table)
    requires forall i :: 0 <= i < |m.steps| ==> m.steps[i].db.Some?
    requires last < |m.steps| && forall i :: last < i < |m.steps| ==> m.steps[i].db != m.steps[last].db
    requires faults(m.steps[last].db.value).QueryLost? && OthersReadAsExpected(m, w, m.steps[last].db.value, faults)
    ensures VersionsReadAsExpected(m, w, faults) <==> m.steps[last].version == -1
  {
    var d := m.steps[last].db.value;
    ExpectedIsLast(m.steps);
    var i :| 0 <= i < |m.steps| && m.steps[i].db == Some(d) && m.steps[i].version == Expected(m.steps)[d];
    assert i == last;
  }

  ghost predicate OthersReadAsExpected<S(!new)>(m: Migration<S>, w: World<S>, d: DbId, faults: DbId -> Fault)
    requires Connected(m, w) && forall i :: 0 <= i < |m.steps| ==> m.steps[i].db.Some?
  {
    forall e :: e in Expected(m.steps) && e != d ==>
      e in w && VersionRead(m, w, e, faults(e)) == Some(Expected(m.steps)[e])
  }

  /** The step is the last one on its database. */
  ghost predicate LastOnItsDatabase<S(!new)>(m: Migration<S>, i: nat) {
    i < |m.steps| && m.steps[i].db.Some? && forall j :: i < j < |m.steps| ==> m.steps[j].db != m.steps[i].db
  }

  /** The database of the step is not beyond it, and it is not skipped by a lost query, which takes a
      version below 0 and a database that is further below. */
  predicate Reaches<S(!new)>(m: Migration<S>, w: World<S>, i: nat, faults: nat -> Fault)
    requires i < |m.steps| && m.steps[i].db.Some? && m.steps[i].db.value in w
  {
    var version, latest := m.steps[i].version, Latest(w[m.steps[i].db.value].table);
    latest == version || (latest < version && !(version < 0 && faults(i).QueryLost?))
  }

  /** After a complete migration the versions match exactly when every database reaches its last step:
      it was not beyond it, and a lost query has not skipped it. */
  lemma RunThenValidate<S(!new)>(m: Migration<S>, w: World<S>, faults: nat -> Fault)
    requires Connected(m, w) && StrictlyIncreasing(m.steps) && RunFrom(m, w, 0, faults).ok
    ensures forall i :: 0 <= i < |m.steps| ==> m.steps[i].db.Some?
    ensures Connected(m, RunFrom(m, w, 0, faults).world)
    ensures VersionsMatch(m, RunFrom(m, w, 0, faults).world) <==>
      forall i: nat :: LastOnItsDatabase(m, i) ==> Reaches(m, w, i, faults)
  {
    CompleteRunIsConnected(m, w, 0, faults);
    RunFromKeepsDatabases(m, w, 0, faults);
    var w' := RunFrom(m, w, 0, faults).world;
    MatchAtLastSteps(m, w');
    forall i: nat | LastOnItsDatabase(m, i)
      ensures StandsAt(m, w', i) <==> Reaches(m, w, i, faults)
    {
      RunReaches(m, w, 0, faults, i);
    }
  }

  ghost predicate StandsAt<S(!new)>(m: Migration<S>, w: World<S>, i: nat)
    requires Connected(m, w) && i < |m.steps| && m.steps[i].db.Some?
  {
    Latest(w[m.steps[i].db.value].table) == m.steps[i].version
  }

  lemma MatchAtLastSteps<S(!new)>(m: Migration<S>, w: World<S>)
    requires Connected(m, w) && StrictlyIncreasing(m.steps) && (forall j :: 0 <= j < |m.steps| ==> m.steps[j].db.Some?)
    ensures VersionsMatch(m, w) <==> forall i: nat :: LastOnItsDatabase(m, i) ==> StandsAt(m, w, i)
  {
    forall i: nat | LastOnItsDatabase(m, i)
      ensures m.steps[i].db.value in Expected(m.steps)
      ensures Expected(m.steps)[m.steps[i].db.value] == m.steps[i].version
    {
      ExpectedOfLast(m, i);
    }
    if forall i: nat :: LastOnItsDatabase(m, i) ==> StandsAt(m, w, i) {
      forall d | d in Expected(m.steps)
        ensures d in w && Latest(w[d].table) == Expected(m.steps)[d]
      {
        var i := LastStepOn(m, d);
        assert StandsAt(m, w, i);
      }
    }
  }

  lemma ExpectedOfLast<S(!new)>(m: Migration<S>, i: nat)
    requires StrictlyIncreasing(m.steps) && (forall j :: 0 <= j < |m.steps| ==> m.steps[j].db.Some?)
    requires LastOnItsDatabase(m, i)
    ensures m.steps[i].db.value in Expected(m.steps) && Expected(m.steps)[m.steps[i].db.value] == m.steps[i].version
  {
    ExpectedIsLast(m.steps);
    var d := m.steps[i].db.value;
    var j :| 0 <= j < |m.steps| && m.steps[j].db == Some(d) && m.steps[j].version == Expected(m.steps)[d];
    assert j == i;
  }

  lemma LastStepOn<S(!new)>(m: Migration<S>, d: DbId) returns (i: nat)
    requires StrictlyIncreasing(m.steps) && (forall j :: 0 <= j < |m.steps| ==> m.steps[j].db.Some?)
    requires d in Expected(m.steps)
    ensures LastOnItsDatabase(m, i) && m.steps[i].db == Some(d)
  {
    ExpectedIsLast(m.steps);
    i :| 0 <= i < |m.steps| && m.steps[i].db == Some(d) && m.steps[i].version == Expected(m.steps)[d];
  }

  lemma {:induction false} CompleteRunIsConnected<S(!new)>(m: Migration<S>, w: World<S>, i: nat, faults: nat -> Fault)
    requires Connected(m, w) && i <= |m.steps| && RunFrom(m, w, i, faults).ok
    ensures forall j :: i <= j < |m.steps| ==> m.steps[j].db.Some?
    decreases |m.steps| - i
  {
    if i == |m.steps| {
    } else {
      RunStepKeepsDatabases(m, w, i, faults(i));
      CompleteRunIsConnected(m, RunStep(m, w, i, faults(i)).0, i + 1, faults);
    }
  }

  /** A run changes nothing about the version of a database without steps to come. */
  lemma {:induction false} RunLeaves<S(!new)>(m: Migration<S>, w: World<S>, i: nat, faults: nat -> Fault, d: DbId)
    requires Connected(m, w) && i <= |m.steps| && d in w && forall j :: i <= j < |m.steps| ==> m.steps[j].db != Some(d)
    ensures d in RunFrom(m, w, i, faults).world
    ensures Latest(RunFrom(m, w, i, faults).world[d].table) == Latest(w[d].table)
    decreases |m.steps| - i
  {
    if i == |m.steps| {
    } else {
      var (w1, outcome) := RunStep(m, w, i, faults(i));
      RunStepLatest(m, w, i, faults(i), d);
      RunStepKeepsDatabases(m, w, i, faults(i));
      if !outcome.Failed? {
        RunLeaves(m, w1, i + 1, faults, d);
      }
    }
  }

  /** A complete run leaves a database at the version of its last step, or beyond it where it was beyond,
      unless a lost query skips that step. */
  lemma {:induction false} RunReaches<S(!new)>(m: Migration<S>, w: World<S>, i: nat, faults: nat -> Fault, last: nat)
    requires Connected(m, w) && StrictlyIncreasing(m.steps) && i <= last && LastOnItsDatabase(m, last)
    requires RunFrom(m, w, i, faults).ok
    ensures m.steps[last].db.value in RunFrom(m, w, i, faults).world
    ensures Latest(RunFrom(m, w, i, faults).world[m.steps[last].db.value].table) == m.steps[last].version
      <==> Reaches(m, w, last, faults)
    decreases last - i
  {
    var d, w1 := m.steps[last].db.value, RunStep(m, w, i, faults(i)).0;
    RunStepLatest(m, w, i, faults(i), d);
    RunFromUnfolds(m, w, i, faults);
    if i == last {
      RunLeaves(m, w1, i + 1, faults, d);
    } else {
      assert m.steps[i].version < m.steps[last].version;
      RunReaches(m, w1, i + 1, faults, last);
    }
  }

  /** When the versions match, a run executes no action exactly when it misreads no lost query. */
  lemma ValidatedRunsNothing<S(!new)>(m: Migration<S>, w: World<S>, faults: nat -> Fault)
    requires Connected(m, w) && StrictlyIncreasing(m.steps)
    requires forall i :: 0 <= i < |m.steps| ==> m.steps[i].db.Some?
    requires VersionsMatch(m, w)
    ensures RunFrom(m, w, 0, faults).executed == [] <==> ReadsWell(m, w, 0, faults)
  {
    ExpectedIsLast(m.steps);
    NothingPendingRuns(m, w, 0, faults);
  }

  lemma {:induction false} NothingPendingRuns<S(!new)>(m: Migration<S>, w: World<S>, i: nat, faults: nat -> Fault)
    requires Connected(m, w) && i <= |m.steps| && forall j :: i <= j < |m.steps| ==> !Pending(m, w, j)
    ensures RunFrom(m, w, i, faults).executed == [] <==> ReadsWell(m, w, i, faults)
    decreases |m.steps| - i
  {
    if i == |m.steps| {
    } else {
      var (w1, outcome) := RunStep(m, w, i, faults(i));
      RunStepKeepsDatabases(m, w, i, faults(i));
      LostQueryMatters(m, w, i, faults(i));
      if !outcome.Failed? {
        RunFromUnfolds(m, w, i, faults);
        if Misread(m, w, i, faults(i)) {
          assert !Pending(m, w, i);
          RunStepLatest(m, w, i, Answered(faults(i)), m.steps[i].db.value);
          assert outcome.Ran?;
        } else {
          assert !Pending(m, w, i);
          RunStepLatest(m, w, i, faults(i), m.steps[i].db.value);
          forall j | i < j < |m.steps| && m.steps[j].db.Some?
            ensures !Pending(m, w1, j)
          {
            assert !Pending(m, w, j);
            RunStepLatest(m, w, i, faults(i), m.steps[j].db.value);
          }
          NothingPendingRuns(m, w1, i + 1, faults);
        }
      }
    }
  }
}
