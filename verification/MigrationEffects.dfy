/** What a run does, said of the steps and their faults one by one: which steps take effect, what makes it
    stop, and what it leaves in every database (private/migrate/versions.go). */
module MigrationEffects {
  import opened Wrappers
  import opened Migration
  import opened Sequences

  /** The rows of a version table. */
  function Rows(table: Option<seq<int>>): seq<int> {
    if table.None? then [] else table.value
  }

  /** Nothing goes wrong with a round before its version is compared. */
  predicate Passes<S>(m: Migration<S>, j: nat, fault: Fault)
    requires j < |m.steps|
  {
    && !(m.steps[j].hasCreateDB && fault == CreateDBFails) && m.steps[j].db.Some?
    && ValidTableName(m.table) && fault != TableFails && fault != QueryFails
  }

  /** The version is beyond every row; without rows it is beyond -1. */
  predicate Beyond(rows: seq<int>, version: int) {
    if rows == [] then version > -1 else forall k :: 0 <= k < |rows| ==> rows[k] < version
  }

  predicate On<S>(m: Migration<S>, j: nat, d: DbId) {
    j < |m.steps| && m.steps[j].db == Some(d)
  }

  /** The versions of the executed steps on a database, in order. */
  function VersionsOf<S>(m: Migration<S>, executed: seq<nat>, d: DbId): seq<int>
  {
    if executed == [] then []
    else (if On(m, executed[0], d) then [m.steps[executed[0]].version] else []) + VersionsOf(m, executed[1..], d)
  }

  /** What the actions of the executed steps on a database, in order, make of its content. */
  function Acted<S>(m: Migration<S>, executed: seq<nat>, d: DbId, content: S): S
  {
    if executed == [] then content
    else Acted(m, executed[1..], d, if On(m, executed[0], d) then m.steps[executed[0]].action(content) else content)
  }

  /** The executed steps before the j-th. */
  function Before(executed: seq<nat>, j: nat): (before: seq<nat>)
    ensures forall i :: i in before <==> i in executed && i < j
  {
    if executed == [] then [] else (if executed[0] < j then [executed[0]] else []) + Before(executed[1..], j)
  }

  /** The step is to be executed at its turn: its version is beyond all that its database holds by then, or
      beyond -1 when the query is lost. */
  predicate Due<S>(m: Migration<S>, w: World<S>, executed: seq<nat>, j: nat, fault: Fault)
    requires j < |m.steps|
  {
    && m.steps[j].db.Some? && m.steps[j].db.value in w
    && var d := m.steps[j].db.value;
       Beyond(if fault == QueryLost then [] else Rows(w[d].table) + VersionsOf(m, Before(executed, j), d),
              m.steps[j].version)
  }

  /** What happens in the rounds from i up to the one where the run stops: exactly the steps that are due are
      executed, and none of them fails; the run stops where a round does not pass or a due action fails. */
  ghost predicate RoundsAre<S(!new)>(m: Migration<S>, w: World<S>, i: nat, faults: nat -> Fault, executed: seq<nat>,
                                     stop: nat)
  {
    && i <= stop <= |m.steps|
    && (forall j :: j in executed ==> i <= j < stop)
    && Increasing(executed)
    && (forall j {:trigger RoundIs(m, w, faults(j), executed, j)} :: i <= j < stop ==>
         RoundIs(m, w, faults(j), executed, j))
    && (stop < |m.steps| ==>
         !Passes(m, stop, faults(stop)) || (Due(m, w, executed, stop, faults(stop)) && faults(stop) == ActionFails))
  }

  ghost predicate RoundIs<S(!new)>(m: Migration<S>, w: World<S>, fault: Fault, executed: seq<nat>, j: nat)
    requires j < |m.steps|
  {
    && Passes(m, j, fault)
    && (j in executed <==> Due(m, w, executed, j, fault))
    && (j in executed ==> fault != ActionFails)
  }

  /** Every database has its old rows followed by the versions of the executed steps on it, and the content that
      their actions make of its old one. */
  ghost predicate Holds<S(!new)>(m: Migration<S>, w: World<S>, w': World<S>, executed: seq<nat>)
  {
    && w'.Keys == w.Keys
    && forall d {:trigger HoldsAt(m, w, w', executed, d)} :: d in w ==> HoldsAt(m, w, w', executed, d)
  }

  ghost predicate HoldsAt<S(!new)>(m: Migration<S>, w: World<S>, w': World<S>, executed: seq<nat>, d: DbId)
    requires d in w && d in w'
  {
    && Rows(w'[d].table) == Rows(w[d].table) + VersionsOf(m, executed, d)
    && w'[d].content == Acted(m, executed, d, w[d].content)
  }

  /** A version table is there after the run if it was before or a round that passed created it, and only if it was
      before or a round up to the last one asked for it. */
  ghost predicate TablesAre<S(!new)>(m: Migration<S>, w: World<S>, w': World<S>, i: nat, stop: nat)
    requires w'.Keys == w.Keys
  {
    forall d {:trigger TableIs(m, w, w', i, stop, d)} :: d in w ==> TableIs(m, w, w', i, stop, d)
  }

  ghost predicate TableIs<S(!new)>(m: Migration<S>, w: World<S>, w': World<S>, i: nat, stop: nat, d: DbId)
    requires d in w && d in w'
  {
    && (w[d].table.Some? || AskedFor(m, i, stop, d) ==> w'[d].table.Some?)
    && (w'[d].table.Some? ==> w[d].table.Some? || AskedFor(m, i, stop + 1, d))
  }

  /** A round from i up to k is about this database. */
  ghost predicate AskedFor<S(!new)>(m: Migration<S>, i: nat, k: nat, d: DbId) {
    exists j :: i <= j < k && On(m, j, d)
  }

  /** All that a run is about: its rounds, what they leave, and its result. */
  ghost predicate Describes<S(!new)>(m: Migration<S>, w: World<S>, i: nat, faults: nat -> Fault, r: RunResult<S>,
                                     stop: nat)
  {
    && (forall j :: j in r.executed ==> j < |m.steps|)
    && RoundsAre(m, w, i, faults, r.executed, stop)
    && Holds(m, w, r.world, r.executed)
    && TablesAre(m, w, r.world, i, stop)
    && (r.ok <==> stop == |m.steps|)
  }

  /** A run from the first step on. */
  ghost predicate IsRun<S(!new)>(m: Migration<S>, w: World<S>, faults: nat -> Fault, r: RunResult<S>) {
    IsDescribed(m, w, 0, faults, r)
  }

  /** A run from the i-th step on, up to where it stops. */
  ghost predicate IsDescribed<S(!new)>(m: Migration<S>, w: World<S>, i: nat, faults: nat -> Fault, r: RunResult<S>) {
    exists stop :: Describes(m, w, i, faults, r, stop)
  }

  // ----- every run is described

  lemma {:induction false} NothingBefore(executed: seq<nat>, j: nat)
    requires forall i :: i in executed ==> i >= j
    ensures Before(executed, j) == []
  {
    if executed == [] {
    } else {
      assert executed[0] in executed && forall i :: i in executed[1..] ==> i in executed;
      NothingBefore(executed[1..], j);
    }
  }

  lemma FirstBefore(i: nat, rest: seq<nat>, j: nat)
    requires i < j
    ensures Before([i] + rest, j) == [i] + Before(rest, j)
  {
    assert ([i] + rest)[1..] == rest;
  }

  lemma FirstActs<S>(m: Migration<S>, i: nat, rest: seq<nat>, d: DbId, content: S)
    requires i < |m.steps|
    ensures VersionsOf(m, [i] + rest, d) == (if On(m, i, d) then [m.steps[i].version] else []) + VersionsOf(m, rest, d)
    ensures Acted(m, [i] + rest, d, content) ==
      Acted(m, rest, d, if On(m, i, d) then m.steps[i].action(content) else content)
  {
    assert ([i] + rest)[1..] == rest;
  }

  lemma BeyondIsPending<S>(m: Migration<S>, w: World<S>, j: nat)
    requires j < |m.steps| && m.steps[j].db.Some? && m.steps[j].db.value in w
    ensures Beyond(Rows(w[m.steps[j].db.value].table), m.steps[j].version) <==>
      m.steps[j].version > Latest(w[m.steps[j].db.value].table)
  {
  }

  /** The outcome of the first round. */
  lemma FirstRound<S(!new)>(m: Migration<S>, w: World<S>, i: nat, fault: Fault, executed: seq<nat>)
    requires i < |m.steps| && Connected(m, w) && forall j :: j in executed ==> j >= i
    ensures var outcome := RunStep(m, w, i, fault).1;
            && (outcome.Failed? <==> !Passes(m, i, fault) || (Due(m, w, executed, i, fault) && fault == ActionFails))
            && (outcome.Ran? <==> Passes(m, i, fault) && Due(m, w, executed, i, fault) && fault != ActionFails)
  {
    NothingBefore(executed, i);
    if m.steps[i].db.Some? {
      BeyondIsPending(m, w, i);
      var rows := Rows(w[m.steps[i].db.value].table);
      assert rows + VersionsOf(m, [], m.steps[i].db.value) == rows;
    }
  }

  /** What the first round leaves in a database. */
  lemma RoundLeaves<S(!new)>(m: Migration<S>, w: World<S>, i: nat, fault: Fault, d: DbId)
    requires i < |m.steps| && Connected(m, w) && d in w
    ensures var (w1, outcome) := RunStep(m, w, i, fault);
            && d in w1 && w1.Keys == w.Keys
            && Rows(w1[d].table) ==
               Rows(w[d].table) + (if outcome.Ran? && On(m, i, d) then [m.steps[i].version] else [])
            && w1[d].content == (if outcome.Ran? && On(m, i, d) then m.steps[i].action(w[d].content) else w[d].content)
            && (w[d].table.Some? || (On(m, i, d) && !outcome.Failed?) ==> w1[d].table.Some?)
            && (w[d].table.None? && w1[d].table.Some? ==> On(m, i, d))
  {
  }

  /** The steps that a run executes, with the first round in front. */
  function With(outcome: Outcome, i: nat, rest: seq<nat>): seq<nat> {
    (if outcome.Ran? then [i] else []) + rest
  }

  /** Elements of the executed steps, with the first round in front. */
  lemma WithHas(outcome: Outcome, i: nat, rest: seq<nat>)
    requires (forall j :: j in rest ==> i < j) && Increasing(rest)
    ensures forall j :: j in With(outcome, i, rest) <==> (j == i && outcome.Ran?) || j in rest
    ensures Increasing(With(outcome, i, rest))
  {
    var executed := With(outcome, i, rest);
    if outcome.Ran? {
      forall p, q | 0 <= p < q < |executed|
        ensures executed[p] < executed[q]
      {
        assert executed[q] == rest[q - 1] && rest[q - 1] in rest;
      }
    } else {
      assert executed == rest;
    }
  }

  lemma RowsMoveOn<S(!new)>(m: Migration<S>, w: World<S>, i: nat, fault: Fault, rest: seq<nat>, d: DbId)
    requires i < |m.steps| && Connected(m, w) && d in w
    ensures var (w1, outcome) := RunStep(m, w, i, fault);
            && d in w1
            && Rows(w1[d].table) + VersionsOf(m, rest, d) ==
               Rows(w[d].table) + VersionsOf(m, With(outcome, i, rest), d)
            && Acted(m, rest, d, w1[d].content) == Acted(m, With(outcome, i, rest), d, w[d].content)
  {
    var (w1, outcome) := RunStep(m, w, i, fault);
    RoundLeaves(m, w, i, fault, d);
    assert [] + rest == rest;
    if outcome.Ran? {
      FirstActs(m, i, rest, d, w[d].content);
      var first := if On(m, i, d) then [m.steps[i].version] else [];
      Associates(Rows(w[d].table), first, VersionsOf(m, rest, d));
    } else {
      assert Rows(w[d].table) + [] == Rows(w[d].table);
    }
  }

  lemma WithBefore(outcome: Outcome, i: nat, rest: seq<nat>, j: nat)
    requires i < j
    ensures Before(With(outcome, i, rest), j) == With(outcome, i, Before(rest, j))
  {
    assert [] + rest == rest && [] + Before(rest, j) == Before(rest, j);
    FirstBefore(i, rest, j);
  }

  lemma LaterRoundIs<S(!new)>(m: Migration<S>, w: World<S>, i: nat, fault: Fault, rest: seq<nat>, j: nat, f: Fault)
    requires i < j < |m.steps| && Connected(m, w)
    ensures var (w1, outcome) := RunStep(m, w, i, fault);
            Due(m, w1, rest, j, f) <==> Due(m, w, With(outcome, i, rest), j, f)
  {
    if m.steps[j].db.Some? {
      WithBefore(RunStep(m, w, i, fault).1, i, rest, j);
      RowsMoveOn(m, w, i, fault, Before(rest, j), m.steps[j].db.value);
      RoundLeaves(m, w, i, fault, m.steps[j].db.value);
    }
  }

  lemma RoundsGoOn<S(!new)>(m: Migration<S>, w: World<S>, i: nat, faults: nat -> Fault, rest: seq<nat>, stop: nat)
    requires i < |m.steps| && Connected(m, w) && !RunStep(m, w, i, faults(i)).1.Failed?
    requires RoundsAre(m, RunStep(m, w, i, faults(i)).0, i + 1, faults, rest, stop)
    ensures RoundsAre(m, w, i, faults, With(RunStep(m, w, i, faults(i)).1, i, rest), stop)
  {
    var (w1, outcome) := RunStep(m, w, i, faults(i));
    var executed := With(outcome, i, rest);
    WithHas(outcome, i, rest);
    FirstRound(m, w, i, faults(i), executed);
    assert RoundIs(m, w, faults(i), executed, i);
    forall j {:trigger RoundIs(m, w, faults(j), executed, j)} | i <= j < stop
      ensures RoundIs(m, w, faults(j), executed, j)
    {
      if j > i {
        assert RoundIs(m, w1, faults(j), rest, j);
        LaterRoundIs(m, w, i, faults(i), rest, j, faults(j));
      }
    }
    if stop < |m.steps| {
      LaterRoundIs(m, w, i, faults(i), rest, stop, faults(stop));
    }
  }

  lemma HoldsOn<S(!new)>(m: Migration<S>, w: World<S>, i: nat, faults: nat -> Fault, rest: seq<nat>, w': World<S>)
    requires i < |m.steps| && Connected(m, w) && Holds(m, RunStep(m, w, i, faults(i)).0, w', rest)
    ensures Holds(m, w, w', With(RunStep(m, w, i, faults(i)).1, i, rest))
  {
    var (w1, outcome) := RunStep(m, w, i, faults(i));
    RunStepKeepsDatabases(m, w, i, faults(i));
    forall d | d in w
      ensures HoldsAt(m, w, w', With(outcome, i, rest), d)
    {
      RowsMoveOn(m, w, i, faults(i), rest, d);
      assert HoldsAt(m, w1, w', rest, d);
    }
  }

  lemma TablesGoOn<S(!new)>(m: Migration<S>, w: World<S>, i: nat, faults: nat -> Fault, stop: nat, w': World<S>)
    requires i < |m.steps| && Connected(m, w) && !RunStep(m, w, i, faults(i)).1.Failed? && i < stop <= |m.steps|
    requires var w1 := RunStep(m, w, i, faults(i)).0;
             w1.Keys == w.Keys && w'.Keys == w.Keys && TablesAre(m, w1, w', i + 1, stop)
    ensures TablesAre(m, w, w', i, stop)
  {
    var w1 := RunStep(m, w, i, faults(i)).0;
    forall d | d in w
      ensures TableIs(m, w, w', i, stop, d)
    {
      RoundLeaves(m, w, i, faults(i), d);
      assert TableIs(m, w1, w', i + 1, stop, d);
      AskedNext(m, i, stop, d);
      AskedNext(m, i, stop + 1, d);
    }
  }

  lemma AskedNext<S(!new)>(m: Migration<S>, i: nat, k: nat, d: DbId)
    requires i < k
    ensures AskedFor(m, i, k, d) <==> On(m, i, d) || AskedFor(m, i + 1, k, d)
  {
  }

  lemma StopsHere<S(!new)>(m: Migration<S>, w: World<S>, i: nat, faults: nat -> Fault)
    requires i < |m.steps| && Connected(m, w) && RunStep(m, w, i, faults(i)).1.Failed?
    ensures Describes(m, w, i, faults, RunFrom(m, w, i, faults), i)
  {
    var w1 := RunStep(m, w, i, faults(i)).0;
    assert RunFrom(m, w, i, faults) == RunResult(w1, [], false);
    FirstRound(m, w, i, faults(i), []);
    forall d | d in w
      ensures HoldsAt(m, w, w1, [], d) && TableIs(m, w, w1, i, i, d)
    {
      RoundLeaves(m, w, i, faults(i), d);
    }
  }

  lemma RunGoesOnTo<S(!new)>(m: Migration<S>, w: World<S>, i: nat, faults: nat -> Fault, stop: nat)
    requires i < |m.steps| && Connected(m, w) && !RunStep(m, w, i, faults(i)).1.Failed?
    requires var w1 := RunStep(m, w, i, faults(i)).0;
             Connected(m, w1) && Describes(m, w1, i + 1, faults, RunFrom(m, w1, i + 1, faults), stop)
    ensures Describes(m, w, i, faults, RunFrom(m, w, i, faults), stop)
  {
    var (w1, outcome) := RunStep(m, w, i, faults(i));
    var rest := RunFrom(m, w1, i + 1, faults);
    RunFromUnfolds(m, w, i, faults);
    assert RunFrom(m, w, i, faults) == RunResult(rest.world, With(outcome, i, rest.executed), rest.ok);
    WithHas(outcome, i, rest.executed);
    RoundsGoOn(m, w, i, faults, rest.executed, stop);
    RunStepKeepsDatabases(m, w, i, faults(i));
    HoldsOn(m, w, i, faults, rest.executed, rest.world);
    TablesGoOn(m, w, i, faults, stop, rest.world);
  }

  lemma NothingRuns<S(!new)>(m: Migration<S>, w: World<S>, faults: nat -> Fault)
    requires Connected(m, w)
    ensures var n := |m.steps|; Describes(m, w, n, faults, RunFrom(m, w, n, faults), n)
  {
    forall d | d in w
      ensures HoldsAt(m, w, w, [], d) && TableIs(m, w, w, |m.steps|, |m.steps|, d)
    {
    }
    assert RunFrom(m, w, |m.steps|, faults) == RunResult(w, [], true);
  }

  /** Every run is as described, from whatever databases and with whatever faults. */
  lemma {:induction false} RunIsDescribed<S(!new)>(m: Migration<S>, w: World<S>, i: nat, faults: nat -> Fault)
    requires i <= |m.steps| && Connected(m, w)
    ensures IsDescribed(m, w, i, faults, RunFrom(m, w, i, faults))
    decreases |m.steps| - i, 1
  {
    if i == |m.steps| {
      NothingRuns(m, w, faults);
    } else if RunStep(m, w, i, faults(i)).1.Failed? {
      StopsHere(m, w, i, faults);
    } else {
      RunGoesOn(m, w, i, faults);
    }
  }

  lemma {:induction false} RunGoesOn<S(!new)>(m: Migration<S>, w: World<S>, i: nat, faults: nat -> Fault)
    requires i < |m.steps| && Connected(m, w) && !RunStep(m, w, i, faults(i)).1.Failed?
    ensures IsDescribed(m, w, i, faults, RunFrom(m, w, i, faults))
    decreases |m.steps| - i, 0
  {
    var w1 := RunStep(m, w, i, faults(i)).0;
    RunStepKeepsDatabases(m, w, i, faults(i));
    RunIsDescribed(m, w1, i + 1, faults);
    var stop :| Describes(m, w1, i + 1, faults, RunFrom(m, w1, i + 1, faults), stop);
    RunGoesOnTo(m, w, i, faults, stop);
  }
}
