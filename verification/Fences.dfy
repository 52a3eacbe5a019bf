/** The start-up protocol of simulated processes: every process waits for fences of others, and
    releases its own, in any interleaving and with any failure (cmd/storx-sim/process.go). */
module Fences {
  import opened Wrappers

  datatype FenceKind = Started | Exited

  /** The fence of one kind of one process. */
  datatype Fence = Fence(process: nat, kind: FenceKind)

  /** What Exec depends on: the fences to wait for, whether there are arguments for the command, and
      whether Started is released right at the launch or only once the address answers. */
  datatype Process = Process(wait: seq<Fence>, hasArguments: bool, startsAtOnce: bool)

  /** Where the goroutine of a process is. On every way out it releases Exited and then Started. */
  datatype Phase = AwaitingFence(k: nat) | Delaying | Preparing | Starting | Running | Leaving | ExitReleased | Finished

  datatype State = State(phases: seq<Phase>, released: set<Fence>, launched: set<nat>, cancelled: bool)

  datatype Action =
    | PassFence(p: nat) | StopWaiting(p: nat) | AllPassed(p: nat)
    | DelayOver(p: nat) | DelayCancelled(p: nat)
    | PrepareFails(p: nat) | Prepared(p: nat)
    | StartFails(p: nat) | Launch(p: nat)
    | AddressAnswers(p: nat) | ProcessExits(p: nat)
    | ReleaseExited(p: nat) | ReleaseStarted(p: nat)
    | CancelAll

  /** Every fence belongs to a process of the list. */
  ghost predicate WellFormed(ps: seq<Process>) {
    forall p, k :: 0 <= p < |ps| && 0 <= k < |ps[p].wait| ==> ps[p].wait[k].process < |ps|
  }

  function Init(ps: seq<Process>): State {
    State(seq(|ps|, p => AwaitingFence(0)), {}, {}, false)
  }

  function To(s: State, p: nat, phase: Phase): State
    requires p < |s.phases|
  {
    s.(phases := s.phases[p := phase])
  }

  /** One step of one process, or a cancellation; None when it is not enabled. */
  function Apply(ps: seq<Process>, s: State, a: Action): Option<State>
    requires |s.phases| == |ps|
  {
    if a.CancelAll? then Some(s.(cancelled := true))
    else if a.p >= |ps| then None
    else
      var p, phase, proc := a.p, s.phases[a.p], ps[a.p];
      match a
      case PassFence(_) =>
        if phase.AwaitingFence? && phase.k < |proc.wait| && proc.wait[phase.k] in s.released
        then Some(To(s, p, AwaitingFence(phase.k + 1))) else None
      case StopWaiting(_) =>
        if phase.AwaitingFence? && phase.k < |proc.wait| && s.cancelled then Some(To(s, p, Leaving)) else None
      case AllPassed(_) =>
        if phase.AwaitingFence? && phase.k >= |proc.wait| then Some(To(s, p, Delaying)) else None
      case DelayOver(_) => if phase.Delaying? then Some(To(s, p, Preparing)) else None
      case DelayCancelled(_) => if phase.Delaying? && s.cancelled then Some(To(s, p, Leaving)) else None
      case PrepareFails(_) => if phase.Preparing? then Some(To(s, p, Leaving)) else None
      case Prepared(_) =>
        // without arguments for the command there is nothing to run
        if phase.Preparing? then Some(To(s, p, if proc.hasArguments then Starting else Leaving)) else None
      case StartFails(_) => if phase.Starting? then Some(To(s, p, Leaving)) else None
      case Launch(_) =>
        if phase.Starting? then
          Some(To(s, p, Running).(
            launched := s.launched + {p},
            released := if proc.startsAtOnce then s.released + {Fence(p, Started)} else s.released))
        else None
      case AddressAnswers(_) =>
        // the address answered, or did not within the startup time, which also stops the process
        if p in s.launched && Fence(p, Started) !in s.released then
          Some(s.(released := s.released + {Fence(p, Started)})) else None
      case ProcessExits(_) => if phase.Running? then Some(To(s, p, Leaving)) else None
      case ReleaseExited(_) =>
        if phase.Leaving? then Some(To(s, p, ExitReleased).(released := s.released + {Fence(p, Exited)})) else None
      case ReleaseStarted(_) =>
        if phase.ExitReleased? then Some(To(s, p, Finished).(released := s.released + {Fence(p, Started)})) else None
  }

  function Execute(ps: seq<Process>, actions: seq<Action>): (s: Option<State>)
    ensures s.Some? ==> |s.value.phases| == |ps|
  {
    if actions == [] then Some(Init(ps))
    else
      var before := Execute(ps, actions[..|actions| - 1]);
      if before.None? then None else Apply(ps, before.value, actions[|actions| - 1])
  }

  // ----- safety

  ghost predicate WaitedFor(ps: seq<Process>, s: State, p: nat, k: nat)
    requires p < |ps|
  {
    forall j :: 0 <= j < k && j < |ps[p].wait| ==> ps[p].wait[j] in s.released
  }

  /** The fences of one process are in step with where it is. */
  ghost predicate ProcessInv(ps: seq<Process>, s: State, p: nat)
    requires |s.phases| == |ps| && p < |ps|
  {
    var phase := s.phases[p];
    && (Fence(p, Exited) in s.released <==> phase.ExitReleased? || phase.Finished?)
    && (Fence(p, Started) in s.released ==> p in s.launched || phase.Finished?)
    && (phase.Finished? ==> Fence(p, Started) in s.released)
    && (phase.AwaitingFence? ==> phase.k <= |ps[p].wait| && WaitedFor(ps, s, p, phase.k))
    && (phase.Delaying? || phase.Preparing? || phase.Starting? || phase.Running? ==> WaitedFor(ps, s, p, |ps[p].wait|))
    && (p in s.launched ==>
         && WaitedFor(ps, s, p, |ps[p].wait|)
         && (phase.Running? || phase.Leaving? || phase.ExitReleased? || phase.Finished?))
    && (phase.Running? ==> p in s.launched)
  }

  ghost predicate Inv(ps: seq<Process>, s: State) {
    && |s.phases| == |ps|
    && (forall p :: 0 <= p < |ps| ==> ProcessInv(ps, s, p))
    && (forall p :: p in s.launched ==> p < |ps|)
  }

  lemma StepKeepsProcess(ps: seq<Process>, s: State, a: Action, p: nat)
    requires Inv(ps, s) && Apply(ps, s, a).Some? && p < |ps|
    ensures ProcessInv(ps, Apply(ps, s, a).value, p)
  {
    assert ProcessInv(ps, s, p);
    var s' := Apply(ps, s, a).value;
    assert s.released <= s'.released;
  }

  lemma StepKeepsInv(ps: seq<Process>, s: State, a: Action)
    requires Inv(ps, s) && Apply(ps, s, a).Some?
    ensures Inv(ps, Apply(ps, s, a).value)
  {
    forall p | 0 <= p < |ps|
      ensures ProcessInv(ps, Apply(ps, s, a).value, p)
    {
      StepKeepsProcess(ps, s, a, p);
    }
  }

  lemma {:induction false} Reachable(ps: seq<Process>, actions: seq<Action>)
    requires Execute(ps, actions).Some?
    ensures Inv(ps, Execute(ps, actions).value)
  {
    if actions == [] {
    } else {
      Reachable(ps, actions[..|actions| - 1]);
      StepKeepsInv(ps, Execute(ps, actions[..|actions| - 1]).value, actions[|actions| - 1]);
    }
  }

  // ----- what the fences say about a run

  /** What has happened in a run, as far as one process is concerned, is what its state says: it has been launched,
      and its fences are released, exactly by the events that are meant to do so. A process that starts at once
      is up with its launch, any other one with the answer of its address; both count as started when they are
      through. */
  ghost predicate EventsAgree(ps: seq<Process>, actions: seq<Action>, s: State, p: nat)
    requires |s.phases| == |ps| && p < |ps|
  {
    && (p in s.launched <==> Launch(p) in actions)
    && (Fence(p, Exited) in s.released <==> ReleaseExited(p) in actions)
    && (Fence(p, Started) in s.released <==>
         || ReleaseStarted(p) in actions
         || (if ps[p].startsAtOnce then Launch(p) in actions else AddressAnswers(p) in actions))
    && (AddressAnswers(p) in actions ==> Launch(p) in actions)
    && (s.cancelled <==> CancelAll in actions)
  }

  /** How far a process has come: it waits, is delayed, prepares and is started, in this order. */
  ghost predicate StagesAgree(actions: seq<Action>, s: State, p: nat)
    requires p < |s.phases|
  {
    var phase := s.phases[p];
    && (phase.Delaying? || phase.Preparing? || phase.Starting? || phase.Running? ==> AllPassed(p) in actions)
    && (phase.Preparing? || phase.Starting? || phase.Running? ==> DelayOver(p) in actions)
    && (phase.Starting? || phase.Running? ==> Prepared(p) in actions)
    && (Launch(p) in actions ==> AllPassed(p) in actions && DelayOver(p) in actions && Prepared(p) in actions)
    && (StopWaiting(p) in actions || DelayCancelled(p) in actions ==> CancelAll in actions)
  }

  /** How a process ends: a launched one has exited before it releases its Exited fence, and Started comes last. */
  ghost predicate EndAgrees(actions: seq<Action>, s: State, p: nat)
    requires p < |s.phases|
  {
    var phase := s.phases[p];
    && (Launch(p) in actions && (phase.Leaving? || phase.ExitReleased? || phase.Finished?) ==>
         ProcessExits(p) in actions)
    && (ReleaseExited(p) in actions <==> phase.ExitReleased? || phase.Finished?)
    && (ReleaseStarted(p) in actions <==> phase.Finished?)
  }

  ghost predicate Agrees(ps: seq<Process>, actions: seq<Action>, s: State, p: nat)
    requires |s.phases| == |ps| && p < |ps|
  {
    EventsAgree(ps, actions, s, p) && StagesAgree(actions, s, p) && EndAgrees(actions, s, p)
  }

  lemma EventsGoOn(ps: seq<Process>, s: State, actions: seq<Action>, a: Action, p: nat)
    requires Inv(ps, s) && Apply(ps, s, a).Some? && p < |ps| && EventsAgree(ps, actions, s, p)
    ensures var s' := Apply(ps, s, a).value; |s'.phases| == |ps| && EventsAgree(ps, actions + [a], s', p)
  {
    assert ProcessInv(ps, s, p);
    assert forall b :: b in actions + [a] <==> b in actions || b == a;
  }

  lemma StagesGoOn(ps: seq<Process>, s: State, actions: seq<Action>, a: Action, p: nat)
    requires Inv(ps, s) && Apply(ps, s, a).Some? && p < |ps|
    requires StagesAgree(actions, s, p) && (s.cancelled ==> CancelAll in actions)
    ensures var s' := Apply(ps, s, a).value; |s'.phases| == |ps| && StagesAgree(actions + [a], s', p)
  {
    assert forall b :: b in actions + [a] <==> b in actions || b == a;
  }

  lemma EndGoesOn(ps: seq<Process>, s: State, actions: seq<Action>, a: Action, p: nat)
    requires Inv(ps, s) && Apply(ps, s, a).Some? && p < |ps|
    requires EndAgrees(actions, s, p) && (p in s.launched <==> Launch(p) in actions)
    ensures var s' := Apply(ps, s, a).value; |s'.phases| == |ps| && EndAgrees(actions + [a], s', p)
  {
    assert ProcessInv(ps, s, p);
    assert forall b :: b in actions + [a] <==> b in actions || b == a;
  }

  /** In every run the state of every process agrees with what has happened. */
  lemma {:induction false} FencesTellEvents(ps: seq<Process>, actions: seq<Action>, p: nat)
    requires Execute(ps, actions).Some? && p < |ps|
    ensures Agrees(ps, actions, Execute(ps, actions).value, p)
  {
    if actions == [] {
    } else {
      var earlier, last := actions[..|actions| - 1], actions[|actions| - 1];
      Reachable(ps, earlier);
      FencesTellEvents(ps, earlier, p);
      EventsGoOn(ps, Execute(ps, earlier).value, earlier, last, p);
      StagesGoOn(ps, Execute(ps, earlier).value, earlier, last, p);
      EndGoesOn(ps, Execute(ps, earlier).value, earlier, last, p);
      assert actions == earlier + [last];
    }
  }

  /** In every run: a process has been launched only if every fence it waits for is released; a
      process that is through has released both of its fences; and a fence is released exactly by the
      events that are meant to release it. */
  lemma FencesAreKept(ps: seq<Process>, actions: seq<Action>)
    requires Execute(ps, actions).Some?
    ensures var s := Execute(ps, actions).value;
            && (forall p, k :: p in s.launched && p < |ps| && 0 <= k < |ps[p].wait| ==> ps[p].wait[k] in s.released)
            && (forall p :: 0 <= p < |ps| && s.phases[p].Finished? ==>
                 Fence(p, Started) in s.released && Fence(p, Exited) in s.released)
            && (forall p :: 0 <= p < |ps| && Fence(p, Started) in s.released ==>
                 p in s.launched || s.phases[p].Finished?)
            && (forall p :: 0 <= p < |ps| && Fence(p, Exited) in s.released ==>
                 s.phases[p].ExitReleased? || s.phases[p].Finished?)
            && (forall p :: 0 <= p < |ps| ==> EventsAgree(ps, actions, s, p))
  {
    Reachable(ps, actions);
    var s := Execute(ps, actions).value;
    forall p | 0 <= p < |ps|
      ensures p in s.launched ==> forall k :: 0 <= k < |ps[p].wait| ==> ps[p].wait[k] in s.released
      ensures s.phases[p].Finished? ==> Fence(p, Started) in s.released && Fence(p, Exited) in s.released
      ensures Fence(p, Started) in s.released ==> p in s.launched || s.phases[p].Finished?
      ensures Fence(p, Exited) in s.released ==> s.phases[p].ExitReleased? || s.phases[p].Finished?
      ensures EventsAgree(ps, actions, s, p)
    {
      assert ProcessInv(ps, s, p);
      FencesTellEvents(ps, actions, p);
    }
  }

  /** The stage of a process is that of the last of its events. */
  ghost predicate StageIsReached(ps: seq<Process>, actions: seq<Action>, s: State, p: nat)
    requires |s.phases| == |ps| && p < |ps|
  {
    IsBeforeStart(actions, s, p) && IsAtStart(ps, actions, s, p)
  }

  ghost predicate IsBeforeStart(actions: seq<Action>, s: State, p: nat)
    requires p < |s.phases|
  {
    var phase := s.phases[p];
    && (phase.AwaitingFence? ==> AllPassed(p) !in actions && StopWaiting(p) !in actions)
    && (phase.Delaying? <==> AllPassed(p) in actions && DelayOver(p) !in actions && DelayCancelled(p) !in actions)
    && (phase.Preparing? <==> DelayOver(p) in actions && Prepared(p) !in actions && PrepareFails(p) !in actions)
  }

  ghost predicate IsAtStart(ps: seq<Process>, actions: seq<Action>, s: State, p: nat)
    requires |s.phases| == |ps| && p < |ps|
  {
    var phase := s.phases[p];
    && (phase.Starting? <==>
         && Prepared(p) in actions && ps[p].hasArguments
         && Launch(p) !in actions && StartFails(p) !in actions)
    && (phase.Running? <==> Launch(p) in actions && ProcessExits(p) !in actions)
  }

  /** No event comes before the one that leads to it. */
  ghost predicate EventsInOrder(actions: seq<Action>, p: nat) {
    && (DelayOver(p) in actions || DelayCancelled(p) in actions ==> AllPassed(p) in actions)
    && (Prepared(p) in actions || PrepareFails(p) in actions ==> DelayOver(p) in actions)
    && (Launch(p) in actions || StartFails(p) in actions ==> Prepared(p) in actions)
    && (ProcessExits(p) in actions ==> Launch(p) in actions)
  }

  lemma BeforeStartGoesOn(ps: seq<Process>, s: State, actions: seq<Action>, a: Action, p: nat)
    requires Inv(ps, s) && Apply(ps, s, a).Some? && p < |ps|
    requires IsBeforeStart(actions, s, p) && EventsInOrder(actions, p)
    ensures var s' := Apply(ps, s, a).value; |s'.phases| == |ps| && IsBeforeStart(actions + [a], s', p)
  {
    assert forall b :: b in actions + [a] <==> b in actions || b == a;
  }

  lemma AtStartGoesOn(ps: seq<Process>, s: State, actions: seq<Action>, a: Action, p: nat)
    requires Inv(ps, s) && Apply(ps, s, a).Some? && p < |ps|
    requires StageIsReached(ps, actions, s, p) && EventsInOrder(actions, p)
    ensures var s' := Apply(ps, s, a).value; |s'.phases| == |ps| && IsAtStart(ps, actions + [a], s', p)
  {
    assert forall b :: b in actions + [a] <==> b in actions || b == a;
  }

  lemma OrderGoesOn(ps: seq<Process>, s: State, actions: seq<Action>, a: Action, p: nat)
    requires Inv(ps, s) && Apply(ps, s, a).Some? && p < |ps|
    requires StageIsReached(ps, actions, s, p) && EventsInOrder(actions, p)
    ensures EventsInOrder(actions + [a], p)
  {
    assert forall b :: b in actions + [a] <==> b in actions || b == a;
  }

  lemma {:induction false} StagesAreReached(ps: seq<Process>, actions: seq<Action>, p: nat)
    requires Execute(ps, actions).Some? && p < |ps|
    ensures StageIsReached(ps, actions, Execute(ps, actions).value, p) && EventsInOrder(actions, p)
  {
    if actions == [] {
    } else {
      var earlier, last := actions[..|actions| - 1], actions[|actions| - 1];
      Reachable(ps, earlier);
      StagesAreReached(ps, earlier, p);
      BeforeStartGoesOn(ps, Execute(ps, earlier).value, earlier, last, p);
      AtStartGoesOn(ps, Execute(ps, earlier).value, earlier, last, p);
      OrderGoesOn(ps, Execute(ps, earlier).value, earlier, last, p);
      assert actions == earlier + [last];
    }
  }

  predicate Enabled(ps: seq<Process>, s: State, a: Action)
    requires |s.phases| == |ps|
  {
    Apply(ps, s, a).Some?
  }

  /** At every stage a process may go on or fail, whatever else has happened; a delay can be cut short only by a
      cancellation, and the address of a launched process may answer until the process is through. */
  ghost predicate EveryStepMayFollow(ps: seq<Process>, actions: seq<Action>, s: State, p: nat)
    requires |s.phases| == |ps| && p < |ps|
  {
    && (AllPassed(p) in actions && DelayOver(p) !in actions && DelayCancelled(p) !in actions ==>
         && Enabled(ps, s, DelayOver(p))
         && (Enabled(ps, s, DelayCancelled(p)) <==> CancelAll in actions))
    && (DelayOver(p) in actions && Prepared(p) !in actions && PrepareFails(p) !in actions ==>
         Enabled(ps, s, Prepared(p)) && Enabled(ps, s, PrepareFails(p)))
    && (Prepared(p) in actions && ps[p].hasArguments && Launch(p) !in actions && StartFails(p) !in actions ==>
         Enabled(ps, s, Launch(p)) && Enabled(ps, s, StartFails(p)))
    && (Launch(p) in actions && ProcessExits(p) !in actions ==> Enabled(ps, s, ProcessExits(p)))
    && (Launch(p) in actions && !ps[p].startsAtOnce && AddressAnswers(p) !in actions &&
         ReleaseStarted(p) !in actions ==>
         Enabled(ps, s, AddressAnswers(p)))
  }

  lemma EveryStageMayFail(ps: seq<Process>, actions: seq<Action>, p: nat)
    requires Execute(ps, actions).Some? && p < |ps|
    ensures EveryStepMayFollow(ps, actions, Execute(ps, actions).value, p)
  {
    StagesAreReached(ps, actions, p);
    FencesTellEvents(ps, actions, p);
    StageMayFail(ps, actions, Execute(ps, actions).value, p);
  }

  lemma StageMayFail(ps: seq<Process>, actions: seq<Action>, s: State, p: nat)
    requires |s.phases| == |ps| && p < |ps| && StageIsReached(ps, actions, s, p) && EventsAgree(ps, actions, s, p)
    ensures EveryStepMayFollow(ps, actions, s, p)
  {
  }

  lemma {:induction false} PrefixExecutes(ps: seq<Process>, actions: seq<Action>, k: nat)
    requires k <= |actions| && Execute(ps, actions).Some?
    ensures Execute(ps, actions[..k]).Some?
    ensures k < |actions| ==> Apply(ps, Execute(ps, actions[..k]).value, actions[k]).Some?
    decreases |actions|
  {
    if k == |actions| {
      assert actions[..k] == actions;
    } else {
      var earlier := actions[..|actions| - 1];
      if k < |earlier| {
        PrefixExecutes(ps, earlier, k);
        assert earlier[..k] == actions[..k] && earlier[k] == actions[k];
      } else {
        assert earlier == actions[..k];
      }
    }
  }

  /** The process is up: its address has answered, or it has started without one, or it is through. */
  predicate Up(ps: seq<Process>, actions: seq<Action>, p: nat)
    requires p < |ps|
  {
    || ReleaseStarted(p) in actions
    || (Launch(p) in actions && (ps[p].startsAtOnce || AddressAnswers(p) in actions))
  }

  /** The process is through, and has exited if it was launched. */
  predicate Over(actions: seq<Action>, p: nat) {
    ReleaseExited(p) in actions && (Launch(p) in actions ==> ProcessExits(p) in actions)
  }

  /** Whenever a process is launched, every process it waits for is up, or over, by then, and it has been delayed and
      prepared after its waits. */
  lemma LaunchComesAfter(ps: seq<Process>, actions: seq<Action>, n: nat, p: nat)
    requires WellFormed(ps) && Execute(ps, actions).Some? && n < |actions| && actions[n] == Launch(p)
    ensures p < |ps|
    ensures forall k :: 0 <= k < |ps[p].wait| ==>
      var f := ps[p].wait[k];
      if f.kind.Started? then Up(ps, actions[..n], f.process) else Over(actions[..n], f.process)
    ensures AllPassed(p) in actions[..n] && DelayOver(p) in actions[..n] && Prepared(p) in actions[..n]
  {
    var earlier := actions[..n];
    PrefixExecutes(ps, actions, n);
    Reachable(ps, earlier);
    FencesTellEvents(ps, earlier, p);
    var s := Execute(ps, earlier).value;
    assert ProcessInv(ps, s, p);
    forall k | 0 <= k < |ps[p].wait|
      ensures var f := ps[p].wait[k];
              if f.kind.Started? then Up(ps, earlier, f.process) else Over(earlier, f.process)
    {
      WaitHasHappened(ps, earlier, ps[p].wait[k]);
    }
  }

  lemma WaitHasHappened(ps: seq<Process>, actions: seq<Action>, f: Fence)
    requires Execute(ps, actions).Some? && f.process < |ps| && f in Execute(ps, actions).value.released
    ensures if f.kind.Started? then Up(ps, actions, f.process) else Over(actions, f.process)
  {
    Reachable(ps, actions);
    FencesTellEvents(ps, actions, f.process);
    var s := Execute(ps, actions).value;
    match f.kind {
      case Started => assert f == Fence(f.process, Started);
      case Exited => assert f == Fence(f.process, Exited);
    }
  }

  // ----- progress

  /** The wait graph has no cycle: every process waits only for processes of smaller rank. */
  ghost predicate Acyclic(ps: seq<Process>, rank: nat -> nat) {
    && WellFormed(ps)
    && forall p, k :: 0 <= p < |ps| && 0 <= k < |ps[p].wait| ==> rank(ps[p].wait[k].process) < rank(p)
  }

  /** A step that an unfinished process can take itself, unless it waits for an unreleased fence. */
  function OwnStep(ps: seq<Process>, s: State, p: nat): Action
    requires |s.phases| == |ps| && p < |ps|
  {
    match s.phases[p]
    case AwaitingFence(k) => if k < |ps[p].wait| then PassFence(p) else AllPassed(p)
    case Delaying => DelayOver(p)
    case Preparing => Prepared(p)
    case Starting => Launch(p)
    case Running => ProcessExits(p)
    case Leaving => ReleaseExited(p)
    case ExitReleased => ReleaseStarted(p)
    case Finished => CancelAll
  }

  /** With an acyclic wait graph no reachable state with an unfinished process is stuck: whoever waits,
      waits for an unfinished process of smaller rank, and the smallest of those can move. */
  lemma {:induction false} NotStuck(ps: seq<Process>, rank: nat -> nat, s: State, p: nat) returns (a: Action)
    requires Inv(ps, s) && Acyclic(ps, rank) && p < |ps| && !s.phases[p].Finished?
    ensures !a.CancelAll? && Apply(ps, s, a).Some?
    decreases rank(p)
  {
    assert ProcessInv(ps, s, p);
    var phase := s.phases[p];
    if phase.AwaitingFence? && phase.k < |ps[p].wait| && ps[p].wait[phase.k] !in s.released {
      var f := ps[p].wait[phase.k];
      var q := f.process;
      assert ProcessInv(ps, s, q);
      match f.kind {
        case Started => assert f == Fence(q, Started);
        case Exited => assert f == Fence(q, Exited);
      }
      a := NotStuck(ps, rank, s, q);
    } else {
      a := OwnStep(ps, s, p);
    }
  }

  /** Steps a process may still take. */
  function Steps(ps: seq<Process>, s: State, p: nat): nat
    requires |s.phases| == |ps| && p < |ps|
  {
    (match s.phases[p]
     case AwaitingFence(k) => 8 + (if k <= |ps[p].wait| then |ps[p].wait| - k else 0)
     case Delaying => 7 case Preparing => 6 case Starting => 5 case Running => 4
     case Leaving => 3 case ExitReleased => 2 case Finished => 0)
    + (if Fence(p, Started) in s.released then 0 else 1)
  }

  function TotalSteps(ps: seq<Process>, s: State, n: nat): nat
    requires |s.phases| == |ps| && n <= |ps|
  {
    if n == 0 then 0 else TotalSteps(ps, s, n - 1) + Steps(ps, s, n - 1)
  }

  lemma OwnStepsDecrease(ps: seq<Process>, s: State, a: Action, p: nat)
    requires Inv(ps, s) && Apply(ps, s, a).Some? && !a.CancelAll? && p < |ps|
    ensures var s' := Apply(ps, s, a).value;
            |s'.phases| == |ps| && if p == a.p then Steps(ps, s', p) < Steps(ps, s, p)
              else Steps(ps, s', p) == Steps(ps, s, p)
  {
    assert ProcessInv(ps, s, p);
  }

  lemma {:induction false} TotalStepsDecrease(ps: seq<Process>, s: State, a: Action, n: nat)
    requires Inv(ps, s) && Apply(ps, s, a).Some? && !a.CancelAll? && n <= |ps|
    ensures var s' := Apply(ps, s, a).value;
            |s'.phases| == |ps|
            && if a.p < n then TotalSteps(ps, s', n) < TotalSteps(ps, s, n)
               else TotalSteps(ps, s', n) == TotalSteps(ps, s, n)
  {
    if n == 0 {
    } else {
      TotalStepsDecrease(ps, s, a, n - 1);
      OwnStepsDecrease(ps, s, a, n - 1);
    }
  }

  lemma EveryStepIsUsedUp(ps: seq<Process>, s: State)
    requires Inv(ps, s)
    ensures forall a :: Apply(ps, s, a).Some? && !a.CancelAll? ==>
      |Apply(ps, s, a).value.phases| == |ps| && TotalSteps(ps, Apply(ps, s, a).value, |ps|) < TotalSteps(ps, s, |ps|)
  {
    forall a | Apply(ps, s, a).Some? && !a.CancelAll?
      ensures |Apply(ps, s, a).value.phases| == |ps| &&
        TotalSteps(ps, Apply(ps, s, a).value, |ps|) < TotalSteps(ps, s, |ps|)
    {
      TotalStepsDecrease(ps, s, a, |ps|);
    }
  }

  /** No process can take a step any more. */
  ghost predicate Quiet(ps: seq<Process>, s: State)
    requires |s.phases| == |ps|
  {
    forall a: Action :: a.CancelAll? || Apply(ps, s, a).None?
  }

  lemma QuietIsFinished(ps: seq<Process>, rank: nat -> nat, s: State)
    requires Acyclic(ps, rank) && Inv(ps, s) && Quiet(ps, s)
    ensures forall p :: 0 <= p < |ps| ==>
      s.phases[p].Finished? && Fence(p, Started) in s.released && Fence(p, Exited) in s.released
  {
    forall p | 0 <= p < |ps|
      ensures s.phases[p].Finished? && Fence(p, Started) in s.released && Fence(p, Exited) in s.released
    {
      assert ProcessInv(ps, s, p);
      if !s.phases[p].Finished? {
        var a := NotStuck(ps, rank, s, p);
      }
    }
  }

  /** The steps by which a process with arguments leaves without having been launched. */
  predicate GivesUp(a: Action, p: nat) {
    a == StopWaiting(p) || a == DelayCancelled(p) || a == PrepareFails(p) || a == StartFails(p)
  }

  ghost predicate GaveUp(actions: seq<Action>, p: nat) {
    exists k :: 0 <= k < |actions| && GivesUp(actions[k], p)
  }

  predicate LeftUnlaunched(s: State, p: nat)
    requires p < |s.phases|
  {
    (s.phases[p].Leaving? || s.phases[p].ExitReleased? || s.phases[p].Finished?) && p !in s.launched
  }

  /** Only a process with arguments comes as far as its start. */
  predicate LaunchIsMeant(ps: seq<Process>, s: State, p: nat)
    requires |s.phases| == |ps| && p < |ps|
  {
    s.phases[p].Starting? || p in s.launched ==> ps[p].hasArguments
  }

  lemma StepLeaves(ps: seq<Process>, s: State, a: Action, p: nat)
    requires Inv(ps, s) && Apply(ps, s, a).Some? && p < |ps| && LaunchIsMeant(ps, s, p)
    ensures var s' := Apply(ps, s, a).value;
            && |s'.phases| == |ps| && LaunchIsMeant(ps, s', p)
            && (ps[p].hasArguments ==> (LeftUnlaunched(s', p) <==> LeftUnlaunched(s, p) || GivesUp(a, p)))
  {
    assert ProcessInv(ps, s, p);
  }

  lemma GaveUpLast(actions: seq<Action>, p: nat)
    requires actions != []
    ensures GaveUp(actions, p) <==> GaveUp(actions[..|actions| - 1], p) || GivesUp(actions[|actions| - 1], p)
  {
    var earlier := actions[..|actions| - 1];
    if GaveUp(earlier, p) {
      var k :| 0 <= k < |earlier| && GivesUp(earlier[k], p);
      assert GivesUp(actions[k], p);
    }
    if GaveUp(actions, p) {
      var k :| 0 <= k < |actions| && GivesUp(actions[k], p);
      assert k < |earlier| ==> GivesUp(earlier[k], p);
    }
  }

  /** In every run a process with arguments leaves without having been launched exactly when its waiting
      or its delay was cancelled or it failed to prepare or to start; one without arguments never runs. */
  lemma {:induction false} LeavesOnlyByGivingUp(ps: seq<Process>, actions: seq<Action>, p: nat)
    requires Execute(ps, actions).Some? && p < |ps|
    ensures LaunchIsMeant(ps, Execute(ps, actions).value, p)
    ensures ps[p].hasArguments ==> (LeftUnlaunched(Execute(ps, actions).value, p) <==> GaveUp(actions, p))
  {
    if actions == [] {
    } else {
      var earlier := actions[..|actions| - 1];
      Reachable(ps, earlier);
      LeavesOnlyByGivingUp(ps, earlier, p);
      StepLeaves(ps, Execute(ps, earlier).value, actions[|actions| - 1], p);
      GaveUpLast(actions, p);
    }
  }

  /** The process is through with both of its fences released, and it was launched if it was to run
      anything and did not give up. */
  ghost predicate IsThrough(ps: seq<Process>, actions: seq<Action>, s: State, p: nat)
    requires |s.phases| == |ps| && p < |ps|
  {
    && s.phases[p].Finished? && Fence(p, Started) in s.released && Fence(p, Exited) in s.released
    && (p in s.launched <==> ps[p].hasArguments && !GaveUp(actions, p))
  }

  /** Every step of a process uses up one of finitely many, so with an acyclic wait graph every run
      that goes on as long as it can ends with all processes finished and all fences released; those
      with arguments have been launched, unless they gave up. */
  lemma EveryRunFinishes(ps: seq<Process>, rank: nat -> nat, actions: seq<Action>)
    requires Acyclic(ps, rank) && Execute(ps, actions).Some?
    ensures var s := Execute(ps, actions).value;
            && |s.phases| == |ps|
            && (forall a :: Apply(ps, s, a).Some? && !a.CancelAll? ==>
                 && |Apply(ps, s, a).value.phases| == |ps|
                 && TotalSteps(ps, Apply(ps, s, a).value, |ps|) < TotalSteps(ps, s, |ps|))
            && (Quiet(ps, s) ==> forall p :: 0 <= p < |ps| ==> IsThrough(ps, actions, s, p))
  {
    Reachable(ps, actions);
    var s := Execute(ps, actions).value;
    EveryStepIsUsedUp(ps, s);
    if Quiet(ps, s) {
      QuietIsFinished(ps, rank, s);
      forall p | 0 <= p < |ps|
        ensures IsThrough(ps, actions, s, p)
      {
        LeavesOnlyByGivingUp(ps, actions, p);
      }
    }
  }

  /** Processes that wait for each other. */
  ghost predicate WaitCycle(ps: seq<Process>, c: set<nat>) {
    forall p :: p in c ==> p < |ps| && exists k :: 0 <= k < |ps[p].wait| && ps[p].wait[k].process in c
  }

  /** None of them has got past its waiting, and none of their fences is released. */
  ghost predicate Blocked(s: State, c: set<nat>) {
    && (forall p :: p in c ==> p < |s.phases| && s.phases[p].AwaitingFence? && p !in s.launched)
    && (forall f: Fence :: f in s.released ==> f.process !in c)
  }

  /** Acyclicity is needed: as long as nothing is cancelled, processes on a wait cycle never get anywhere. */
  lemma {:induction false} CyclesBlock(ps: seq<Process>, c: set<nat>, actions: seq<Action>)
    requires WaitCycle(ps, c) && Execute(ps, actions).Some? && !Execute(ps, actions).value.cancelled
    ensures Blocked(Execute(ps, actions).value, c)
  {
    if actions == [] {
    } else {
      var earlier, a := actions[..|actions| - 1], actions[|actions| - 1];
      CyclesBlock(ps, c, earlier);
      Reachable(ps, earlier);
      var s := Execute(ps, earlier).value;
      if !a.CancelAll? && a.p in c {
        assert ProcessInv(ps, s, a.p);
        var k :| 0 <= k < |ps[a.p].wait| && ps[a.p].wait[k].process in c;
        assert ps[a.p].wait[k] !in s.released;
      }
    }
  }
}
