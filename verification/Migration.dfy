/** The schema migration engine: versioned steps over several databases, each with its own
    version table, run in transactions that may fail and be repeated (private/migrate/versions.go). */
module Migration {
  import opened Wrappers

  type DbId = nat

  /** A database: its version table, if it has been created, and everything else in it. */
  datatype Database<S> = Database(table: Option<seq<int>>, content: S)

  type World<S> = map<DbId, Database<S>>

  /** A step; `db` is None while the connection it points to is nil. An action is a
      deterministic transformer of its own database. */
  datatype Step<!S> = Step(db: Option<DbId>, version: int, hasCreateDB: bool, action: S -> S)

  datatype Migration<!S> = Migration(table: string, steps: seq<Step<S>>)

  /** What may go wrong while one step is processed. A failed transaction changes nothing. The version
      query can fail with its transaction, which stops the run; or only inside a transaction that still
      commits, and then the latest version is taken to be -1 and the run goes on. */
  datatype Fault = NoFault | CreateDBFails | TableFails | QueryFails | QueryLost | ActionFails

  datatype Outcome = Skipped | Ran | Failed

  /** The table name is non-empty and made of lower-case letters and underscores. */
  predicate ValidTableName(table: string) {
    table != "" && forall c :: c in table ==> 'a' <= c <= 'z' || c == '_'
  }

  ghost predicate StrictlyIncreasing<S(!new)>(steps: seq<Step<S>>) {
    forall i, j :: 0 <= i < j < |steps| ==> steps[i].version < steps[j].version
  }

  /** Every step points to a database that exists, or to none yet. */
  ghost predicate Connected<S(!new)>(m: Migration<S>, w: World<S>) {
    forall i :: 0 <= i < |m.steps| && m.steps[i].db.Some? ==> m.steps[i].db.value in w
  }

  function Max(s: seq<int>): (r: int)
    requires s != []
    ensures r in s && forall i :: 0 <= i < |s| ==> s[i] <= r
  {
    if |s| == 1 then s[0]
    else
      var rest := Max(s[..|s| - 1]);
      assert rest in s;
      if s[|s| - 1] > rest then s[|s| - 1] else rest
  }

  /** The latest version in a table: -1 when there are no rows. */
  function Latest(table: Option<seq<int>>): int {
    if table.None? || table.value == [] then -1 else Max(table.value)
  }

  function EnsureTable<S>(w: World<S>, db: DbId): World<S>
    requires db in w
  {
    if w[db].table.None? then w[db := w[db].(table := Some([]))] else w
  }

  /** The version that getLatestVersion returns. */
  function VersionSeen(table: Option<seq<int>>, fault: Fault): int {
    if fault.QueryLost? then -1 else Latest(table)
  }

  /** One round of the loop in Run. */
  function RunStep<S(!new)>(m: Migration<S>, w: World<S>, i: nat, fault: Fault): (World<S>, Outcome)
    requires i < |m.steps| && Connected(m, w)
  {
    var step := m.steps[i];
    if step.hasCreateDB && fault.CreateDBFails? then (w, Failed)
    else if step.db.None? then (w, Failed)
    else if !ValidTableName(m.table) || fault.TableFails? then (w, Failed)
    else
      var db := step.db.value;
      var w1 := EnsureTable(w, db);
      if fault.QueryFails? then (w1, Failed)
      else if step.version <= VersionSeen(w1[db].table, fault) then (w1, Skipped)
      else if fault.ActionFails? then (w1, Failed)
      else (w1[db := Database(Some(w1[db].table.value + [step.version]), step.action(w1[db].content))], Ran)
  }

  lemma RunStepKeepsDatabases<S(!new)>(m: Migration<S>, w: World<S>, i: nat, fault: Fault)
    requires i < |m.steps| && Connected(m, w)
    ensures RunStep(m, w, i, fault).0.Keys == w.Keys && Connected(m, RunStep(m, w, i, fault).0)
  {
  }

  /** What one Run does from the i-th step on: the databases it leaves, the steps whose action
      took effect, and whether it came through. */
  datatype RunResult<!S> = RunResult(world: World<S>, executed: seq<nat>, ok: bool)

  function RunFrom<S(!new)>(m: Migration<S>, w: World<S>, i: nat, faults: nat -> Fault): RunResult<S>
    requires i <= |m.steps| && Connected(m, w)
    decreases |m.steps| - i
  {
    if i == |m.steps| then RunResult(w, [], true)
    else
      RunStepKeepsDatabases(m, w, i, faults(i));
      var (w1, outcome) := RunStep(m, w, i, faults(i));
      if outcome.Failed? then RunResult(w1, [], false)
      else
        var rest := RunFrom(m, w1, i + 1, faults);
        RunResult(rest.world, (if outcome.Ran? then [i] else []) + rest.executed, rest.ok)
  }

  // ----- uninterrupted prefixes

  /** The databases after the first k steps without any fault. */
  ghost function Prefix<S(!new)>(m: Migration<S>, w: World<S>, k: nat): (r: World<S>)
    requires k <= |m.steps| && Connected(m, w)
    ensures Connected(m, r) && r.Keys == w.Keys
    decreases k
  {
    if k == 0 then w
    else
      RunStepKeepsDatabases(m, Prefix(m, w, k - 1), k - 1, NoFault);
      RunStep(m, Prefix(m, w, k - 1), k - 1, NoFault).0
  }

  /** A step is pending when its version is beyond the latest of its database. */
  predicate Pending<S>(m: Migration<S>, w: World<S>, i: nat)
    requires i < |m.steps|
  {
    m.steps[i].db.Some? && m.steps[i].db.value in w && m.steps[i].version > Latest(w[m.steps[i].db.value].table)
  }

  /** The pending steps among those from i up to k, in order. */
  function PendingSteps<S>(m: Migration<S>, w: World<S>, i: nat, k: nat): seq<nat>
    requires i <= k <= |m.steps|
    decreases k - i
  {
    if i == k then [] else (if Pending(m, w, i) then [i] else []) + PendingSteps(m, w, i + 1, k)
  }

  lemma MaxAppend(s: seq<int>, v: int)
    ensures Max(s + [v]) == if s == [] || v > Max(s) then v else Max(s)
  {
    assert (s + [v])[..|s|] == s;
  }

  lemma LatestAppend(rows: seq<int>, v: int)
    requires rows == [] ==> v > -1
    ensures Latest(Some(rows + [v])) == if v > Latest(Some(rows)) then v else Latest(Some(rows))
  {
    var more := rows + [v];
    MaxAppend(rows, v);
    assert more != [] && Latest(Some(more)) == Max(more);
  }

  /** A lost version query matters: the step is beyond -1 although it is not pending, and is executed
      again, or it is pending without being beyond -1, and is skipped. */
  predicate Misread<S>(m: Migration<S>, w: World<S>, i: nat, fault: Fault)
    requires i < |m.steps|
  {
    fault.QueryLost? && m.steps[i].db.Some? && ValidTableName(m.table) && (Pending(m, w, i) <==> m.steps[i].version < 0)
  }

  /** The fault without a lost query. */
  function Answered(fault: Fault): Fault {
    if fault.QueryLost? then NoFault else fault
  }

  /** A lost query changes a round exactly when it is misread. */
  lemma LostQueryMatters<S(!new)>(m: Migration<S>, w: World<S>, i: nat, fault: Fault)
    requires i < |m.steps| && Connected(m, w)
    ensures var (lost, answered) := (RunStep(m, w, i, fault), RunStep(m, w, i, Answered(fault)));
            if Misread(m, w, i, fault) then lost.1.Ran? != answered.1.Ran? && !lost.1.Failed? && !answered.1.Failed?
            else lost == answered
  {
  }

  /** Processing a step changes the latest version of its own database only, and lifts it to the
      version of the step exactly when the step runs and is beyond it. */
  lemma RunStepLatest<S(!new)>(m: Migration<S>, w: World<S>, i: nat, fault: Fault, db: DbId)
    requires i < |m.steps| && Connected(m, w) && db in w
    ensures var (w1, outcome) := RunStep(m, w, i, fault);
            && db in w1
            && (!Misread(m, w, i, fault) ==> (outcome.Ran? <==> !outcome.Failed? && Pending(m, w, i)))
            && (var l := Latest(w[db].table);
                Latest(w1[db].table) ==
                  if outcome.Ran? && m.steps[i].db.value == db && m.steps[i].version > l then m.steps[i].version else l)
            && (w[db].table.Some? || (!outcome.Failed? && m.steps[i].db == Some(db)) ==> w1[db].table.Some?)
  {
    if RunStep(m, w, i, fault).1.Ran? {
      LatestAppend(EnsureTable(w, m.steps[i].db.value)[m.steps[i].db.value].table.value, m.steps[i].version);
    }
  }

  /** A version of a step on the database before the k-th. */
  ghost predicate VersionOfStep<S(!new)>(m: Migration<S>, k: nat, db: DbId, l: int)
    requires k <= |m.steps|
  {
    exists j :: 0 <= j < k && m.steps[j].db == Some(db) && m.steps[j].version == l
  }

  lemma {:induction false} PrefixLatest<S(!new)>(m: Migration<S>, w: World<S>, k: nat, db: DbId)
    requires k <= |m.steps| && Connected(m, w) && StrictlyIncreasing(m.steps) && db in w
    ensures var l := Latest(Prefix(m, w, k)[db].table);
            l >= Latest(w[db].table) && (l == Latest(w[db].table) || VersionOfStep(m, k, db, l))
    decreases k
  {
    if k == 0 {
      assert Prefix(m, w, 0) == w;
    } else {
      PrefixLatest(m, w, k - 1, db);
      var before := Latest(Prefix(m, w, k - 1)[db].table);
      RunStepLatest(m, Prefix(m, w, k - 1), k - 1, NoFault, db);
      if before > Latest(w[db].table) {
        var j :| 0 <= j < k - 1 && m.steps[j].db == Some(db) && m.steps[j].version == before;
        assert VersionOfStep(m, k, db, before);
      }
    }
  }

  /** A step is pending when its turn comes exactly when it was pending at the start. */
  lemma PendingAtItsTurn<S(!new)>(m: Migration<S>, w: World<S>, k: nat)
    requires k < |m.steps| && Connected(m, w) && StrictlyIncreasing(m.steps)
    ensures Pending(m, Prefix(m, w, k), k) <==> Pending(m, w, k)
  {
    if m.steps[k].db.Some? {
      var db := m.steps[k].db.value;
      PrefixLatest(m, w, k, db);
      var l := Latest(Prefix(m, w, k)[db].table);
      if l > Latest(w[db].table) {
        var j :| 0 <= j < k && m.steps[j].version == l;
        assert m.steps[j].version < m.steps[k].version;
      }
    }
  }

  /** Once a step has been processed without failing, no later prefix has it pending, and its
      database has a version table. */
  lemma {:induction false} ProcessedStaysProcessed<S(!new)>(m: Migration<S>, w: World<S>, i: nat, k: nat)
    requires i < k <= |m.steps| && Connected(m, w) && StrictlyIncreasing(m.steps)
    requires m.steps[i].db.Some? && ValidTableName(m.table)
    ensures !Pending(m, Prefix(m, w, k), i) && Prefix(m, w, k)[m.steps[i].db.value].table.Some?
    decreases k
  {
    var db := m.steps[i].db.value;
    var before := Prefix(m, w, k - 1);
    RunStepLatest(m, before, k - 1, NoFault, db);
    if i < k - 1 {
      ProcessedStaysProcessed(m, w, i, k - 1);
      assert m.steps[i].version < m.steps[k - 1].version;
    } else {
      assert !RunStep(m, before, i, NoFault).1.Failed?;
    }
  }

  // ----- interrupted runs

  /** The databases are where the first k steps lead, apart from a version table that a
      failed round may already have created for the next step. */
  ghost predicate At<S(!new)>(m: Migration<S>, w0: World<S>, w: World<S>, k: nat)
    requires Connected(m, w0)
  {
    && k <= |m.steps|
    && (k > 0 ==> ValidTableName(m.table)) && (forall j :: 0 <= j < k ==> m.steps[j].db.Some?)
    && w in AlmostPrefix(m, w0, k)
  }

  ghost function AlmostPrefix<S(!new)>(m: Migration<S>, w0: World<S>, k: nat): iset<World<S>>
    requires Connected(m, w0) && k <= |m.steps|
  {
    var p := Prefix(m, w0, k);
    if k < |m.steps| && m.steps[k].db.Some? then iset{p, EnsureTable(p, m.steps[k].db.value)} else iset{p}
  }

  lemma AtIsConnected<S(!new)>(m: Migration<S>, w0: World<S>, w: World<S>, k: nat)
    requires Connected(m, w0) && At(m, w0, w, k)
    ensures Connected(m, w) && w.Keys == w0.Keys
  {
  }

  /** Steps that have been processed are passed over without any change. */
  lemma PassesOver<S(!new)>(m: Migration<S>, w0: World<S>, w: World<S>, k: nat, i: nat, fault: Fault)
    requires Connected(m, w0) && Connected(m, w) && StrictlyIncreasing(m.steps) && At(m, w0, w, k) && i < k
    requires !Misread(m, w, i, fault)
    ensures var (w1, outcome) := RunStep(m, w, i, fault); w1 == w && !outcome.Ran?
  {
    LostQueryMatters(m, w, i, fault);
    ProcessedStaysProcessed(m, w0, i, k);
    var db := m.steps[i].db.value;
    assert w[db] == Prefix(m, w0, k)[db];
  }

  /** A round ends as it would without a fault, or fails; a version table that is already there does not matter. */
  lemma RoundEndings<S(!new)>(m: Migration<S>, p: World<S>, k: nat, fault: Fault)
    requires Connected(m, p) && k < |m.steps| && !fault.QueryLost?
    ensures var (w1, outcome) := RunStep(m, p, k, fault);
            if outcome.Failed? then w1 == p || (m.steps[k].db.Some? && w1 == EnsureTable(p, m.steps[k].db.value))
            else (w1, outcome) == RunStep(m, p, k, NoFault) && m.steps[k].db.Some? && ValidTableName(m.table)
    ensures m.steps[k].db.Some? ==>
      var e := EnsureTable(p, m.steps[k].db.value);
      Connected(m, e) && RunStep(m, e, k, fault).1 == RunStep(m, p, k, fault).1 &&
      RunStep(m, e, k, fault).0 == if RunStep(m, p, k, fault).1.Failed? then e else RunStep(m, p, k, fault).0
  {
  }

  /** The next step either fails and leaves the databases where they are, or leads to the next prefix. */
  lemma TakesNextStep<S(!new)>(m: Migration<S>, w0: World<S>, w: World<S>, k: nat, fault: Fault)
    requires Connected(m, w0) && Connected(m, w) && StrictlyIncreasing(m.steps) && At(m, w0, w, k) && k < |m.steps|
    requires !Misread(m, w, k, fault)
    ensures var (w1, outcome) := RunStep(m, w, k, fault);
            if outcome.Failed? then At(m, w0, w1, k)
            else w1 == Prefix(m, w0, k + 1) && At(m, w0, w1, k + 1) && (outcome.Ran? <==> Pending(m, w0, k))
  {
    var p := Prefix(m, w0, k);
    LostQueryMatters(m, w, k, fault);
    RoundEndings(m, p, k, Answered(fault));
    var (w1, outcome) := RunStep(m, w, k, fault);
    if !outcome.Failed? {
      assert (w1, outcome) == RunStep(m, p, k, NoFault);
      PendingAtItsTurn(m, w0, k);
    }
  }

  lemma StopsAt<S(!new)>(m: Migration<S>, w0: World<S>, w: World<S>, k: nat, i: nat, faults: nat -> Fault)
    requires Connected(m, w0) && Connected(m, w) && StrictlyIncreasing(m.steps) && At(m, w0, w, k) && i <= k
    requires i < |m.steps|
    requires RunStep(m, w, i, faults(i)).1.Failed? && !Misread(m, w, i, faults(i))
    ensures Advanced(m, w0, k, k, RunFrom(m, w, i, faults))
  {
    if i < k {
      PassesOver(m, w0, w, k, i, faults(i));
    } else {
      TakesNextStep(m, w0, w, k, faults(k));
    }
    assert RunFrom(m, w, i, faults) == RunResult(RunStep(m, w, i, faults(i)).0, [], false);
  }

  lemma PassesOn<S(!new)>(m: Migration<S>, w0: World<S>, w: World<S>, k: nat, i: nat, faults: nat -> Fault, k': nat)
    requires Connected(m, w0) && Connected(m, w) && StrictlyIncreasing(m.steps) && At(m, w0, w, k) && i < k
    requires !RunStep(m, w, i, faults(i)).1.Failed? && !Misread(m, w, i, faults(i))
    requires Advanced(m, w0, k, k', RunFrom(m, w, i + 1, faults))
    ensures Advanced(m, w0, k, k', RunFrom(m, w, i, faults))
  {
    PassesOver(m, w0, w, k, i, faults(i));
    RunFromUnfolds(m, w, i, faults);
    assert RunFrom(m, w, i, faults) == RunFrom(m, w, i + 1, faults);
  }

  lemma StepsOn<S(!new)>(m: Migration<S>, w0: World<S>, w: World<S>, k: nat, faults: nat -> Fault, k': nat)
    requires Connected(m, w0) && Connected(m, w) && StrictlyIncreasing(m.steps) && At(m, w0, w, k) && k < |m.steps|
    requires !RunStep(m, w, k, faults(k)).1.Failed? && !Misread(m, w, k, faults(k))
    requires Advanced(m, w0, k + 1, k', RunFrom(m, Prefix(m, w0, k + 1), k + 1, faults))
    ensures Advanced(m, w0, k, k', RunFrom(m, w, k, faults))
  {
    TakesNextStep(m, w0, w, k, faults(k));
    RunFromUnfolds(m, w, k, faults);
  }

  /** No round that a run reaches from the i-th step on misreads a lost query. */
  predicate ReadsWell<S(!new)>(m: Migration<S>, w: World<S>, i: nat, faults: nat -> Fault)
    requires i <= |m.steps| && Connected(m, w)
    decreases |m.steps| - i
  {
    if i == |m.steps| then true
    else
      RunStepKeepsDatabases(m, w, i, faults(i));
      var (w1, outcome) := RunStep(m, w, i, faults(i));
      !Misread(m, w, i, faults(i)) && (outcome.Failed? || ReadsWell(m, w1, i + 1, faults))
  }

  /** From databases that stand after k steps, a run from step i <= k that misreads nothing executes exactly the pending
      steps up to where it stops, and leaves the databases there. */
  lemma {:induction false} RunAdvances<S(!new)>(m: Migration<S>, w0: World<S>, w: World<S>, k: nat, i: nat,
                                                faults: nat -> Fault)
      returns (k': nat)
    requires Connected(m, w0) && Connected(m, w) && StrictlyIncreasing(m.steps) && At(m, w0, w, k) && i <= k
    requires ReadsWell(m, w, i, faults)
    ensures Advanced(m, w0, k, k', RunFrom(m, w, i, faults))
    decreases |m.steps| - i
  {
    if i == |m.steps| {
      return k;
    }
    if RunStep(m, w, i, faults(i)).1.Failed? {
      StopsAt(m, w0, w, k, i, faults);
      return k;
    }
    if i < k {
      PassesOver(m, w0, w, k, i, faults(i));
      k' := RunAdvances(m, w0, w, k, i + 1, faults);
      PassesOn(m, w0, w, k, i, faults, k');
    } else {
      TakesNextStep(m, w0, w, k, faults(k));
      var next := Prefix(m, w0, k + 1);
      k' := RunAdvances(m, w0, next, k + 1, k + 1, faults);
      StepsOn(m, w0, w, k, faults, k');
    }
  }

  lemma RunFromUnfolds<S(!new)>(m: Migration<S>, w: World<S>, i: nat, faults: nat -> Fault)
    requires Connected(m, w) && i < |m.steps| && !RunStep(m, w, i, faults(i)).1.Failed?
    ensures var (w1, outcome) := RunStep(m, w, i, faults(i));
            && Connected(m, w1)
            && RunFrom(m, w, i, faults).world == RunFrom(m, w1, i + 1, faults).world
            && RunFrom(m, w, i, faults).ok == RunFrom(m, w1, i + 1, faults).ok
            && RunFrom(m, w, i, faults).executed ==
               (if outcome.Ran? then [i] else []) + RunFrom(m, w1, i + 1, faults).executed
  {
    RunStepKeepsDatabases(m, w, i, faults(i));
  }

  ghost predicate Advanced<S(!new)>(m: Migration<S>, w0: World<S>, k: nat, k': nat, r: RunResult<S>)
    requires Connected(m, w0)
  {
    && k <= k' <= |m.steps|
    && At(m, w0, r.world, k')
    && r.executed == PendingSteps(m, w0, k, k')
    && (r.ok ==> k' == |m.steps| && r.world == Prefix(m, w0, k'))
  }

  lemma RunFromKeepsDatabases<S(!new)>(m: Migration<S>, w: World<S>, i: nat, faults: nat -> Fault)
    requires i <= |m.steps| && Connected(m, w)
    ensures Connected(m, RunFrom(m, w, i, faults).world)
    decreases |m.steps| - i
  {
    if i < |m.steps| {
      RunStepKeepsDatabases(m, w, i, faults(i));
      RunFromKeepsDatabases(m, RunStep(m, w, i, faults(i)).0, i + 1, faults);
    }
  }

  /** Any number of Run calls, each with its own faults: the databases, everything executed over
      all of them, and whether the last one came through. */
  ghost function RunAll<S(!new)>(m: Migration<S>, w: World<S>, runs: seq<nat -> Fault>): (r: RunResult<S>)
    requires Connected(m, w)
    ensures Connected(m, r.world)
    decreases |runs|
  {
    if runs == [] then RunResult(w, [], false)
    else
      var before := RunAll(m, w, runs[..|runs| - 1]);
      var r := RunFrom(m, before.world, 0, runs[|runs| - 1]);
      RunFromKeepsDatabases(m, before.world, 0, runs[|runs| - 1]);
      RunResult(r.world, before.executed + r.executed, r.ok)
  }

  /** No run of the list misreads a lost query. */
  ghost predicate AllReadWell<S(!new)>(m: Migration<S>, w: World<S>, runs: seq<nat -> Fault>)
    requires Connected(m, w)
    decreases |runs|
  {
    runs != [] ==>
      AllReadWell(m, w, runs[..|runs| - 1]) && ReadsWell(m, RunAll(m, w, runs[..|runs| - 1]).world, 0, runs[|runs| - 1])
  }

  lemma {:induction false} PendingStepsSplit<S>(m: Migration<S>, w: World<S>, i: nat, j: nat, k: nat)
    requires i <= j <= k <= |m.steps|
    ensures PendingSteps(m, w, i, k) == PendingSteps(m, w, i, j) + PendingSteps(m, w, j, k)
    decreases j - i
  {
    if i == j {
    } else {
      PendingStepsSplit(m, w, i + 1, j, k);
    }
  }

  /** Interrupted migrations recover. After any number of runs, stopped wherever they were, the
      databases stand after some prefix of the steps, and exactly the pending steps of that prefix
      have taken effect, once and in order, provided that no lost query has been misread. */
  lemma {:induction false} InterruptedRunsRecover<S(!new)>(m: Migration<S>, w: World<S>, runs: seq<nat -> Fault>)
      returns (k: nat)
    requires Connected(m, w) && StrictlyIncreasing(m.steps) && AllReadWell(m, w, runs)
    ensures Recovers(m, w, RunAll(m, w, runs), k)
    decreases |runs|
  {
    if runs == [] {
      return 0;
    }
    var earlier := runs[..|runs| - 1];
    var j := InterruptedRunsRecover(m, w, earlier);
    k := RunAdvances(m, w, RunAll(m, w, earlier).world, j, 0, runs[|runs| - 1]);
    PendingStepsSplit(m, w, 0, j, k);
  }

  /** The databases stand after the first k steps, whose pending ones have been executed. */
  ghost predicate Recovers<S(!new)>(m: Migration<S>, w: World<S>, r: RunResult<S>, k: nat)
    requires Connected(m, w)
  {
    && At(m, w, r.world, k)
    && r.executed == PendingSteps(m, w, 0, k)
    && (r.ok ==> k == |m.steps| && r.world == Prefix(m, w, k))
  }

  /** When the last run comes through, the databases and the executed steps are those of one
      uninterrupted run, whatever happened before, provided that no lost query has been misread. */
  lemma RecoveryEqualsOneRun<S(!new)>(m: Migration<S>, w: World<S>, runs: seq<nat -> Fault>)
    requires Connected(m, w) && StrictlyIncreasing(m.steps) && RunAll(m, w, runs).ok
    ensures AllReadWell(m, w, runs) ==> RunFrom(m, w, 0, i => NoFault) == RunAll(m, w, runs)
    ensures VersionsStart(m, w) ==> (RunFrom(m, w, 0, i => NoFault) == RunAll(m, w, runs) <==> AllReadWell(m, w, runs))
  {
    if AllReadWell(m, w, runs) {
      var k := InterruptedRunsRecover(m, w, runs);
      FaultlessReadsWell(m, w, 0);
      var j := RunAdvances(m, w, w, 0, 0, i => NoFault);
      FaultlessRunSucceeds(m, w, 0);
    } else if VersionsStart(m, w) {
      FaultlessReadsWell(m, w, 0);
      var j := RunAdvances(m, w, w, 0, 0, i => NoFault);
      MisreadingShows(m, w, runs);
      PendingStepsAreSound(m, w, 0, j);
    }
  }

  lemma {:induction false} FaultlessReadsWell<S(!new)>(m: Migration<S>, w: World<S>, i: nat)
    requires Connected(m, w) && i <= |m.steps|
    ensures ReadsWell(m, w, i, i => NoFault)
    decreases |m.steps| - i
  {
    if i == |m.steps| {
    } else {
      RunStepKeepsDatabases(m, w, i, NoFault);
      FaultlessReadsWell(m, RunStep(m, w, i, NoFault).0, i + 1);
    }
  }

  lemma {:induction false} FaultlessRunSucceeds<S(!new)>(m: Migration<S>, w: World<S>, i: nat)
    requires Connected(m, w) && i <= |m.steps|
    requires i < |m.steps| ==> ValidTableName(m.table)
    requires forall j :: i <= j < |m.steps| ==> m.steps[j].db.Some?
    ensures RunFrom(m, w, i, i => NoFault).ok
    decreases |m.steps| - i
  {
    if i == |m.steps| {
    } else {
      RunStepKeepsDatabases(m, w, i, NoFault);
      FaultlessRunSucceeds(m, RunStep(m, w, i, NoFault).0, i + 1);
    }
  }

  // ----- lost queries

  /** No database holds a version below -1, the version that a lost query is taken for. Runs never write one. */
  ghost predicate VersionsStart<S(!new)>(m: Migration<S>, w: World<S>)
    requires Connected(m, w)
  {
    forall i :: 0 <= i < |m.steps| && m.steps[i].db.Some? ==> Latest(w[m.steps[i].db.value].table) >= -1
  }

  lemma VersionsStillStart<S(!new)>(m: Migration<S>, w: World<S>, i: nat, fault: Fault)
    requires Connected(m, w) && i < |m.steps| && VersionsStart(m, w) && Connected(m, RunStep(m, w, i, fault).0)
    ensures VersionsStart(m, RunStep(m, w, i, fault).0)
  {
    forall j | 0 <= j < |m.steps| && m.steps[j].db.Some?
      ensures Latest(RunStep(m, w, i, fault).0[m.steps[j].db.value].table) >= -1
    {
      RunStepLatest(m, w, i, fault, m.steps[j].db.value);
    }
  }

  /** Executed steps were pending at the start, and none was executed twice. */
  ghost predicate Sound<S(!new)>(m: Migration<S>, w: World<S>, executed: seq<nat>) {
    && (forall p :: 0 <= p < |executed| ==> executed[p] < |m.steps| && Pending(m, w, executed[p]))
    && forall p, q :: 0 <= p < q < |executed| ==> executed[p] != executed[q]
  }

  lemma {:induction false} PendingStepsAreSound<S(!new)>(m: Migration<S>, w: World<S>, i: nat, k: nat)
    requires i <= k <= |m.steps|
    ensures Sound(m, w, PendingSteps(m, w, i, k))
    ensures forall j :: j in PendingSteps(m, w, i, k) <==> i <= j < k && Pending(m, w, j)
    decreases k - i
  {
    if i == k {
    } else {
      PendingStepsAreSound(m, w, i + 1, k);
    }
  }

  lemma SoundPart<S(!new)>(m: Migration<S>, w: World<S>, a: seq<nat>, b: seq<nat>)
    requires Sound(m, w, a + b)
    ensures Sound(m, w, a)
    ensures forall j :: j in b ==> j !in a && j < |m.steps| && Pending(m, w, j)
  {
    assert forall p :: 0 <= p < |a| ==> (a + b)[p] == a[p];
    assert forall p :: 0 <= p < |b| ==> (a + b)[|a| + p] == b[p];
  }

  /** A run that misreads a lost query executes a step that had been processed or was never pending. */
  lemma {:induction false} MisreadRunExecutes<S(!new)>(m: Migration<S>, w0: World<S>, w: World<S>, k: nat, i: nat,
                                                       faults: nat -> Fault)
      returns (j: nat)
    requires Connected(m, w0) && Connected(m, w) && StrictlyIncreasing(m.steps) && At(m, w0, w, k) && i <= k
    requires VersionsStart(m, w0) && i <= |m.steps| && !ReadsWell(m, w, i, faults)
    ensures j in RunFrom(m, w, i, faults).executed && i <= j < |m.steps| && (j < k || !Pending(m, w0, j))
    decreases |m.steps| - i
  {
    LostQueryMatters(m, w, i, faults(i));
    if Misread(m, w, i, faults(i)) {
      RunsWhenMisread(m, w0, w, k, i, faults(i));
      RunFromUnfolds(m, w, i, faults);
      return i;
    }
    RunFromUnfolds(m, w, i, faults);
    if i < k {
      PassesOver(m, w0, w, k, i, faults(i));
      j := MisreadRunExecutes(m, w0, w, k, i + 1, faults);
    } else {
      TakesNextStep(m, w0, w, k, faults(k));
      j := MisreadRunExecutes(m, w0, RunStep(m, w, k, faults(k)).0, k + 1, k + 1, faults);
    }
  }

  lemma RunsWhenMisread<S(!new)>(m: Migration<S>, w0: World<S>, w: World<S>, k: nat, i: nat, fault: Fault)
    requires Connected(m, w0) && Connected(m, w) && StrictlyIncreasing(m.steps) && At(m, w0, w, k) && i <= k
    requires i < |m.steps|
    requires VersionsStart(m, w0) && Misread(m, w, i, fault)
    ensures RunStep(m, w, i, fault).1.Ran? && (i < k || !Pending(m, w0, i))
  {
    var db := m.steps[i].db.value;
    PrefixLatest(m, w0, k, db);
    assert Latest(w[db].table) == Latest(Prefix(m, w0, k)[db].table);
    if i == k {
      PendingAtItsTurn(m, w0, k);
    }
  }

  /** When a lost query has been misread in any of the runs, some step has been executed twice or
      without having been pending. */
  lemma {:induction false} MisreadingShows<S(!new)>(m: Migration<S>, w: World<S>, runs: seq<nat -> Fault>)
    requires Connected(m, w) && StrictlyIncreasing(m.steps) && VersionsStart(m, w) && !AllReadWell(m, w, runs)
    ensures !Sound(m, w, RunAll(m, w, runs).executed)
    decreases |runs|
  {
    var earlier, last := runs[..|runs| - 1], runs[|runs| - 1];
    var before := RunAll(m, w, earlier);
    var r := RunFrom(m, before.world, 0, last);
    if Sound(m, w, before.executed + r.executed) {
      SoundPart(m, w, before.executed, r.executed);
      if AllReadWell(m, w, earlier) {
        var k := InterruptedRunsRecover(m, w, earlier);
        var j := MisreadRunExecutes(m, w, before.world, k, 0, last);
        PendingStepsAreSound(m, w, 0, k);
      } else {
        MisreadingShows(m, w, earlier);
      }
      assert false;
    }
  }

  /** The databases stand after some prefix of the steps, whose pending ones have been executed. */
  ghost predicate HasRecovered<S(!new)>(m: Migration<S>, w: World<S>, r: RunResult<S>)
    requires Connected(m, w)
  {
    exists k: nat :: Recovers(m, w, r, k)
  }

  lemma RecoveredIsSound<S(!new)>(m: Migration<S>, w: World<S>, r: RunResult<S>)
    requires Connected(m, w) && HasRecovered(m, w, r)
    ensures Sound(m, w, r.executed)
  {
    var k: nat :| Recovers(m, w, r, k);
    PendingStepsAreSound(m, w, 0, k);
  }

  /** The exact condition of recovery. Unless a lost query is misread, any number of runs with any
      faults recover. On databases without versions below -1 they do so only then: otherwise some step
      has taken effect twice or without having been pending. */
  lemma RecoveryIsExact<S(!new)>(m: Migration<S>, w: World<S>, runs: seq<nat -> Fault>)
    requires Connected(m, w) && StrictlyIncreasing(m.steps)
    ensures var r := RunAll(m, w, runs);
            && (AllReadWell(m, w, runs) ==> HasRecovered(m, w, r))
            && (VersionsStart(m, w) ==> (HasRecovered(m, w, r) <==> AllReadWell(m, w, runs)))
            && (VersionsStart(m, w) ==> (Sound(m, w, r.executed) <==> AllReadWell(m, w, runs)))
  {
    var r := RunAll(m, w, runs);
    if AllReadWell(m, w, runs) {
      var k := InterruptedRunsRecover(m, w, runs);
      RecoveredIsSound(m, w, r);
    } else if VersionsStart(m, w) {
      MisreadingShows(m, w, runs);
      if HasRecovered(m, w, r) { RecoveredIsSound(m, w, r); }
    }
  }

  /** A step that is applied already takes effect a second time when its version query is lost. */
  lemma LostQueryRepeatsAStep()
    ensures var m := Migration("versions", [Step(Some(0), 0, false, (x: int) => x + 1)]);
            var w: World<int> := map[0 := Database(Some([0]), 1)];
            && Connected(m, w) && StrictlyIncreasing(m.steps) && !Pending(m, w, 0)
            && RunFrom(m, w, 0, i => QueryLost).executed == [0]
            && RunFrom(m, w, 0, i => QueryLost).world[0] == Database(Some([0, 0]), 2)
            && RunFrom(m, w, 0, i => NoFault) == RunResult(w, [], true)
  {
    var m := Migration("versions", [Step(Some(0), 0, false, (x: int) => x + 1)]);
    var w: World<int> := map[0 := Database(Some([0]), 1)];
    var w1 := RunStep(m, w, 0, QueryLost).0;
    assert [0] + [0] == [0, 0];
    assert RunFrom(m, w1, 1, i => QueryLost) == RunResult(w1, [], true);
    assert RunFrom(m, w, 1, i => NoFault) == RunResult(w, [], true);
  }

  // ----- fresh databases

  function Range(lo: nat, hi: nat): seq<nat>
    decreases hi - lo
  {
    if lo >= hi then [] else [lo] + Range(lo + 1, hi)
  }

  /** No version has been applied to the database of any step. */
  ghost predicate Fresh<S(!new)>(m: Migration<S>, w: World<S>)
    requires Connected(m, w)
  {
    forall j :: 0 <= j < |m.steps| ==> m.steps[j].db.Some? && Latest(w[m.steps[j].db.value].table) == -1
  }

  lemma {:induction false} PendingOnFresh<S(!new)>(m: Migration<S>, w: World<S>, i: nat, k: nat)
    requires Connected(m, w) && Fresh(m, w) && i <= k <= |m.steps|
    ensures (forall j :: i <= j < k ==> m.steps[j].version >= 0) <==> PendingSteps(m, w, i, k) == Range(i, k)
    ensures |PendingSteps(m, w, i, k)| <= |Range(i, k)|
    decreases k - i
  {
    if i == k {
    } else {
      PendingOnFresh(m, w, i + 1, k);
      var rest := PendingSteps(m, w, i + 1, k);
      if Pending(m, w, i) {
        assert ([i] + rest)[1..] == rest && ([i] + Range(i + 1, k))[1..] == Range(i + 1, k);
      }
    }
  }

  /** On fresh databases a run without faults succeeds, and it executes every step exactly when no version
      is negative: a negative version passes ValidateSteps, but its step is skipped. */
  lemma FreshRunsEverything<S(!new)>(m: Migration<S>, w: World<S>)
    requires Connected(m, w) && StrictlyIncreasing(m.steps) && ValidTableName(m.table) && Fresh(m, w)
    ensures RunFrom(m, w, 0, i => NoFault).ok
    ensures RunFrom(m, w, 0, i => NoFault).executed == Range(0, |m.steps|) <==>
      forall j :: 0 <= j < |m.steps| ==> m.steps[j].version >= 0
  {
    FaultlessReadsWell(m, w, 0);
    FaultlessRunSucceeds(m, w, 0);
    var k := RunAdvances(m, w, w, 0, 0, i => NoFault);
    PendingOnFresh(m, w, 0, |m.steps|);
  }

  lemma {:induction false} RunSkipsNegative<S(!new)>(m: Migration<S>, w: World<S>, i: nat, faults: nat -> Fault)
    requires Connected(m, w) && i <= |m.steps| && VersionsStart(m, w)
    ensures Connected(m, RunFrom(m, w, i, faults).world) && VersionsStart(m, RunFrom(m, w, i, faults).world)
    ensures forall j :: j in RunFrom(m, w, i, faults).executed ==> i <= j < |m.steps| && m.steps[j].version >= 0
    decreases |m.steps| - i
  {
    if i == |m.steps| {
    } else {
      var (w1, outcome) := RunStep(m, w, i, faults(i));
      RunStepKeepsDatabases(m, w, i, faults(i));
      VersionsStillStart(m, w, i, faults(i));
      if !outcome.Failed? {
        RunFromUnfolds(m, w, i, faults);
        RunSkipsNegative(m, w1, i + 1, faults);
      }
    }
  }

  /** Whatever goes wrong, a step with a negative version is never executed, unless a database already
      holds a version below -1. */
  lemma {:induction false} NegativeIsNeverExecuted<S(!new)>(m: Migration<S>, w: World<S>, runs: seq<nat -> Fault>)
    requires Connected(m, w) && VersionsStart(m, w)
    ensures VersionsStart(m, RunAll(m, w, runs).world)
    ensures forall j :: j in RunAll(m, w, runs).executed ==> j < |m.steps| && m.steps[j].version >= 0
    decreases |runs|
  {
    if runs == [] {
    } else {
      var earlier := runs[..|runs| - 1];
      NegativeIsNeverExecuted(m, w, earlier);
      RunSkipsNegative(m, RunAll(m, w, earlier).world, 0, runs[|runs| - 1]);
    }
  }

  /** On databases that stand after the first k steps of a fresh start, exactly the steps from k on are pending. */
  lemma PendingAfterPrefix<S(!new)>(m: Migration<S>, blank: World<S>, w: World<S>, k: nat, i: nat)
    requires Connected(m, blank) && StrictlyIncreasing(m.steps) && At(m, blank, w, k) && i < |m.steps|
    requires m.steps[i].db.Some? && Latest(blank[m.steps[i].db.value].table) == -1 && m.steps[i].version >= 0
    ensures Pending(m, w, i) <==> i >= k
  {
    var db := m.steps[i].db.value;
    if i < k {
      ProcessedStaysProcessed(m, blank, i, k);
    } else {
      PrefixLatest(m, blank, k, db);
      var l := Latest(Prefix(m, blank, k)[db].table);
      if l > -1 {
        var j :| 0 <= j < k && m.steps[j].db == Some(db) && m.steps[j].version == l;
        assert m.steps[j].version < m.steps[i].version;
      }
    }
  }

  lemma {:induction false} PendingIsBlock<S>(m: Migration<S>, w: World<S>, k: nat, i: nat, k': nat)
    requires i <= k' <= |m.steps| && forall j :: i <= j < k' ==> (Pending(m, w, j) <==> j >= k)
    ensures PendingSteps(m, w, i, k') == Range(if i < k then k else i, k')
    decreases k' - i
  {
    if i == k' {
    } else {
      PendingIsBlock(m, w, k, i + 1, k');
    }
  }

  /** Runs that start from a prefix of the steps execute a contiguous block right behind it, so that
      the steps applied so far are always a prefix of all steps, exactly when no lost query is misread. */
  lemma AppliedStepsStayAPrefix<S(!new)>(m: Migration<S>, blank: World<S>, w: World<S>, k: nat, runs: seq<nat -> Fault>)
    requires Connected(m, blank) && Connected(m, w) && StrictlyIncreasing(m.steps) && At(m, blank, w, k)
    requires forall j :: 0 <= j < |m.steps| ==>
      m.steps[j].db.Some? && Latest(blank[m.steps[j].db.value].table) == -1 && m.steps[j].version >= 0
    ensures IsBlock(RunAll(m, w, runs).executed, k) <==> AllReadWell(m, w, runs)
    ensures AllReadWell(m, w, runs) && RunAll(m, w, runs).ok ==> RunAll(m, w, runs).executed == Range(k, |m.steps|)
  {
    FreshPending(m, blank, w, k);
    if AllReadWell(m, w, runs) {
      BlockWithoutMisreading(m, w, k, runs);
    } else {
      GapWhenMisread(m, w, k, runs);
    }
  }

  lemma BlockWithoutMisreading<S(!new)>(m: Migration<S>, w: World<S>, k: nat, runs: seq<nat -> Fault>)
    requires Connected(m, w) && StrictlyIncreasing(m.steps) && AllReadWell(m, w, runs)
    requires forall j :: 0 <= j < |m.steps| ==> (Pending(m, w, j) <==> j >= k)
    ensures IsBlock(RunAll(m, w, runs).executed, k)
    ensures RunAll(m, w, runs).ok ==> RunAll(m, w, runs).executed == Range(k, |m.steps|)
  {
    var k' := InterruptedRunsRecover(m, w, runs);
    PendingIsBlock(m, w, k, 0, k');
    assert RunAll(m, w, runs).executed == Range(if 0 < k then k else 0, k');
  }

  lemma GapWhenMisread<S(!new)>(m: Migration<S>, w: World<S>, k: nat, runs: seq<nat -> Fault>)
    requires Connected(m, w) && StrictlyIncreasing(m.steps) && VersionsStart(m, w) && !AllReadWell(m, w, runs)
    requires forall j :: 0 <= j < |m.steps| ==> (Pending(m, w, j) <==> j >= k)
    ensures !IsBlock(RunAll(m, w, runs).executed, k)
  {
    var executed := RunAll(m, w, runs).executed;
    MisreadingShows(m, w, runs);
    AllExecuteOnlySteps(m, w, runs);
    if IsBlock(executed, k) {
      BlockIsSound(m, w, k, executed);
    }
  }

  lemma FreshPending<S(!new)>(m: Migration<S>, blank: World<S>, w: World<S>, k: nat)
    requires Connected(m, blank) && Connected(m, w) && StrictlyIncreasing(m.steps) && At(m, blank, w, k)
    requires forall j :: 0 <= j < |m.steps| ==>
      m.steps[j].db.Some? && Latest(blank[m.steps[j].db.value].table) == -1 && m.steps[j].version >= 0
    ensures VersionsStart(m, w) && forall j :: 0 <= j < |m.steps| ==> (Pending(m, w, j) <==> j >= k)
  {
    forall j | 0 <= j < |m.steps|
      ensures Pending(m, w, j) <==> j >= k
      ensures Latest(w[m.steps[j].db.value].table) >= -1
    {
      PendingAfterPrefix(m, blank, w, k, j);
      PrefixLatest(m, blank, k, m.steps[j].db.value);
    }
  }

  lemma BlockIsSound<S(!new)>(m: Migration<S>, w: World<S>, k: nat, executed: seq<nat>)
    requires IsBlock(executed, k) && forall j :: j in executed ==> j < |m.steps|
    requires forall j :: 0 <= j < |m.steps| ==> (Pending(m, w, j) <==> j >= k)
    ensures Sound(m, w, executed)
  {
    var k' :| executed == Range(k, k');
    RangeIs(k, k');
    assert forall p :: 0 <= p < |executed| ==> executed[p] in executed;
  }

  lemma {:induction false} ExecutesOnlySteps<S(!new)>(m: Migration<S>, w: World<S>, i: nat, faults: nat -> Fault)
    requires Connected(m, w) && i <= |m.steps|
    ensures forall j :: j in RunFrom(m, w, i, faults).executed ==> i <= j < |m.steps|
    decreases |m.steps| - i
  {
    if i == |m.steps| {
    } else {
      RunStepKeepsDatabases(m, w, i, faults(i));
      ExecutesOnlySteps(m, RunStep(m, w, i, faults(i)).0, i + 1, faults);
    }
  }

  lemma {:induction false} AllExecuteOnlySteps<S(!new)>(m: Migration<S>, w: World<S>, runs: seq<nat -> Fault>)
    requires Connected(m, w)
    ensures forall j :: j in RunAll(m, w, runs).executed ==> j < |m.steps|
    decreases |runs|
  {
    if runs == [] {
    } else {
      var earlier := runs[..|runs| - 1];
      AllExecuteOnlySteps(m, w, earlier);
      ExecutesOnlySteps(m, RunAll(m, w, earlier).world, 0, runs[|runs| - 1]);
    }
  }

  /** Some steps from the k-th on without a gap. */
  ghost predicate IsBlock(executed: seq<nat>, k: nat) {
    exists k' {:trigger Range(k, k')} :: executed == Range(k, k')
  }

  lemma {:induction false} RangeIs(lo: nat, hi: nat)
    ensures |Range(lo, hi)| == if lo >= hi then 0 else hi - lo
    ensures forall i :: 0 <= i < |Range(lo, hi)| ==> Range(lo, hi)[i] == lo + i
    decreases hi - lo
  {
    if lo >= hi {
    } else {
      RangeIs(lo + 1, hi);
    }
  }
}
