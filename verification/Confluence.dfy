/** The whole-run theorems: every run is short, never stuck, and ends in the wave-by-wave result. */
module Confluence {
  import opened Wrappers
  import opened Collections
  import opened TaskGraphs
  import opened GraphBuild
  import opened Readiness
  import opened RunSafety
  import opened RunProgress
  import opened RunConfluence
  import opened RunOutcome

  ghost predicate ValidMoves(g: DependencyGraph, f: Fates, run: RunState, moves: seq<Move>)
    requires Indexed(g) && FatesFit(g, f)
    decreases |moves|
  {
    moves == [] || (Enabled(g, f, run, moves[0]) && ValidMoves(g, f, Moved(f, run, moves[0]), moves[1..]))
  }

  ghost function MovedAll(g: DependencyGraph, f: Fates, run: RunState, moves: seq<Move>): RunState
    requires Indexed(g) && FatesFit(g, f) && ValidMoves(g, f, run, moves)
    decreases |moves|
  {
    if moves == [] then run else MovedAll(g, f, Moved(f, run, moves[0]), moves[1..])
  }

  /** Every task has an outcome. */
  ghost predicate Over(g: DependencyGraph, run: RunState) {
    forall t :: t in g.dependenciesOf ==> StateOf(run, t).In(TERMINAL)
  }

  ghost function Unstarted(g: DependencyGraph, run: RunState): set<TaskId> {
    set t | t in g.dependenciesOf && NeverRun(run, t)
  }

  ghost function Underway(g: DependencyGraph, run: RunState): set<TaskId> {
    set t | t in g.dependenciesOf && StateOf(run, t).In({InProgress})
  }

  /** The steps a run can still take: two for each task to start, one for each attempt to end. */
  ghost function StepsLeft(g: DependencyGraph, run: RunState): nat {
    2 * |Unstarted(g, run)| + |Underway(g, run)|
  }

  lemma SettingUsesStep(g: DependencyGraph, run: RunState, t: TaskId, state: TaskRunState)
    requires t in g.dependenciesOf && NeverRun(run, t) && state.status.Some?
    ensures StepsLeft(g, run[t := state]) < StepsLeft(g, run)
  {
    var later := run[t := state];
    assert Unstarted(g, later) == Unstarted(g, run) - {t} && t in Unstarted(g, run);
    assert Underway(g, later) <= Underway(g, run) + {t} by {
      assert forall s :: s != t ==> StateOf(later, s) == StateOf(run, s);
    }
    SubsetCardinality(Underway(g, later), Underway(g, run) + {t});
  }

  lemma EndingUsesStep(g: DependencyGraph, run: RunState, t: TaskId, state: TaskRunState)
    requires t in g.dependenciesOf && StateOf(run, t).In({InProgress}) && state.In({Success, Failed, Skipped})
    ensures StepsLeft(g, run[t := state]) < StepsLeft(g, run)
  {
    var later := run[t := state];
    assert Unstarted(g, later) == Unstarted(g, run);
    assert Underway(g, later) == Underway(g, run) - {t};
  }

  lemma MoveUsesStep(g: DependencyGraph, f: Fates, run: RunState, move: Move)
    requires Indexed(g) && FatesFit(g, f) && Enabled(g, f, run, move)
    ensures StepsLeft(g, Moved(f, run, move)) < StepsLeft(g, run)
  {
    match move
    case Begin(t) => SettingUsesStep(g, run, t, RUNNING);
    case Refuse(t) => SettingUsesStep(g, run, t, SKIP);
    case End(t) => EndingUsesStep(g, run, t, f.outcome[t]);
    case GiveUp(t, failuresFinal, dead) =>
      assert t in Doomed(g, run, failuresFinal, dead);
      SettingUsesStep(g, run, t, SKIP);
  }

  lemma {:induction false} MovesKeepAgreement(g: DependencyGraph, f: Fates, start: RunState, final: RunState,
                                              run: RunState, moves: seq<Move>)
    requires Indexed(g) && Acyclic(g) && FatesFit(g, f) && Judged(g, f, start, final)
    requires Agrees(g, f, start, final, run) && ValidMoves(g, f, run, moves)
    ensures Agrees(g, f, start, final, MovedAll(g, f, run, moves))
    ensures |moves| + StepsLeft(g, MovedAll(g, f, run, moves)) <= StepsLeft(g, run)
    decreases |moves|
  {
    if moves != [] {
      MoveKeepsAgreement(g, f, start, final, run, moves[0]);
      MoveUsesStep(g, f, run, moves[0]);
      MovesKeepAgreement(g, f, start, final, Moved(f, run, moves[0]), moves[1..]);
    }
  }

  lemma FinalIsJudged(g: DependencyGraph, f: Fates, start: RunState)
    requires Indexed(g) && Acyclic(g) && FatesFit(g, f)
    ensures Judged(g, f, start, Final(g, f, start))
  {
    forall t | t in g.dependenciesOf
      ensures StateOf(Final(g, f, start), t)
              == if NeverRun(start, t) then Verdict(g, f, Final(g, f, start), t) else StateOf(start, t)
    {
      FinalIsVerdict(g, f, start, t);
    }
  }

  lemma StartAgrees(g: DependencyGraph, f: Fates, start: RunState, final: RunState)
    requires Indexed(g) && FatesFit(g, f) && CanBegin(g, start) && Judged(g, f, start, final)
    ensures Agrees(g, f, start, final, start)
  {
    forall t | t in g.dependenciesOf ensures TaskAgrees(g, f, start, final, start, t) {
      assert StateOf(final, t) == if NeverRun(start, t) then Verdict(g, f, final, t) else StateOf(start, t);
    }
  }

  lemma StepsAtStart(g: DependencyGraph, start: RunState)
    requires Indexed(g) && CanBegin(g, start)
    ensures StepsLeft(g, start) <= 2 * |g.taskIds|
  {
    assert Underway(g, start) == {};
    SubsetCardinality(Unstarted(g, start), g.dependenciesOf.Keys);
    DistinctCardinality(g.taskIds);
  }

  ghost predicate SameStates(g: DependencyGraph, a: RunState, b: RunState) {
    forall t :: t in g.dependenciesOf ==> StateOf(a, t) == StateOf(b, t)
  }

  lemma OverIsFinal(g: DependencyGraph, f: Fates, start: RunState, final: RunState, end: RunState)
    requires Indexed(g) && FatesFit(g, f) && Agrees(g, f, start, final, end) && Over(g, end)
    ensures SameStates(g, end, final)
  {
    forall t | t in g.dependenciesOf ensures StateOf(end, t) == StateOf(final, t) {
      assert TaskAgrees(g, f, start, final, end, t);
    }
  }

  /** Confluence: however its steps are ordered, a run that is over has exactly the states that evaluating the
      tasks wave by wave gives, and no run takes more than two steps for each task. */
  lemma RunsAreConfluent(g: DependencyGraph, f: Fates, start: RunState, moves: seq<Move>)
    requires Valid(g) && FatesFit(g, f) && CanBegin(g, start) && ValidMoves(g, f, start, moves)
    ensures |moves| <= 2 * |g.taskIds|
    ensures Over(g, MovedAll(g, f, start, moves))
            ==> SameStates(g, MovedAll(g, f, start, moves), Final(g, f, start))
  {
    AgreementFromStart(g, f, start, moves);
    if Over(g, MovedAll(g, f, start, moves)) {
      OverIsFinal(g, f, start, Final(g, f, start), MovedAll(g, f, start, moves));
    }
  }

  lemma AgreementFromStart(g: DependencyGraph, f: Fates, start: RunState, moves: seq<Move>)
    requires Valid(g) && FatesFit(g, f) && CanBegin(g, start) && ValidMoves(g, f, start, moves)
    ensures Judged(g, f, start, Final(g, f, start))
    ensures Agrees(g, f, start, Final(g, f, start), MovedAll(g, f, start, moves))
    ensures |moves| <= 2 * |g.taskIds|
  {
    FinalIsJudged(g, f, start);
    StartAgrees(g, f, start, Final(g, f, start));
    MovesKeepAgreement(g, f, start, Final(g, f, start), start, moves);
    StepsAtStart(g, start);
  }

  ghost predicate NothingCancelled(g: DependencyGraph, run: RunState) {
    forall t :: t in g.dependenciesOf ==> !StateOf(run, t).In({Cancelled})
  }

  /** Between steps, a run that is not over can give up a reported task, or start or refuse a ready one. */
  lemma RestingStepExists(g: DependencyGraph, f: Fates, run: RunState) returns (move: Move)
    requires Valid(g) && FatesFit(g, f) && Resting(g, run)
    requires exists t :: t in g.dependenciesOf && NeverRun(run, t)
    ensures Enabled(g, f, run, move)
  {
    var dead := LeastDoomedExists(g, run, true, {});
    if dead != {} {
      var t :| t in dead;
      assert t in Doomed(g, run, true, dead);
      move := GiveUp(t, true, dead);
    } else {
      NoDeadlock(g, run, dead);
      assert WithSkipped(run, dead) == run;
      var t :| t in g.dependenciesOf && NeverRun(run, t) && IsReady(g, run, map[], t);
      move := if Admitted(g, f, run, t) then Begin(t) else Refuse(t);
    }
  }

  lemma RestingUnlessUnderway(g: DependencyGraph, f: Fates, start: RunState, final: RunState, run: RunState)
    requires Indexed(g) && FatesFit(g, f) && Judged(g, f, start, final) && Agrees(g, f, start, final, run)
    requires NothingCancelled(g, start) && Underway(g, run) == {}
    ensures Resting(g, run)
  {
    forall t | t in g.dependenciesOf
      ensures NeverRun(run, t) || StateOf(run, t).In({Success, Failed, Skipped})
    {
      assert TaskAgrees(g, f, start, final, run, t);
      assert t !in Underway(g, run);
    }
  }

  /** A run that is not over has a step to take. */
  lemma StepExists(g: DependencyGraph, f: Fates, start: RunState, final: RunState, run: RunState) returns (move: Move)
    requires Valid(g) && FatesFit(g, f) && Judged(g, f, start, final) && Agrees(g, f, start, final, run)
    requires NothingCancelled(g, start) && !Over(g, run)
    ensures Enabled(g, f, run, move)
  {
    if Underway(g, run) != {} {
      var t :| t in Underway(g, run);
      move := End(t);
    } else {
      RestingUnlessUnderway(g, f, start, final, run);
      move := RestingStepExists(g, f, run);
    }
  }

  /** From every state a run reaches it can be driven to its end, and that end is the wave-by-wave result. */
  lemma {:induction false} RunCanEnd(g: DependencyGraph, f: Fates, start: RunState, final: RunState, run: RunState)
    returns (moves: seq<Move>)
    requires Valid(g) && FatesFit(g, f) && Judged(g, f, start, final) && Agrees(g, f, start, final, run)
    requires NothingCancelled(g, start)
    ensures ValidMoves(g, f, run, moves) && Over(g, MovedAll(g, f, run, moves))
    decreases StepsLeft(g, run)
  {
    moves := [];
    if !Over(g, run) {
      var move := StepExists(g, f, start, final, run);
      MoveKeepsAgreement(g, f, start, final, run, move);
      MoveUsesStep(g, f, run, move);
      var rest := RunCanEnd(g, f, start, final, Moved(f, run, move));
      moves := [move] + rest;
      assert moves[1..] == rest;
    }
  }

  /** With nothing cancelled, a run stops only when it is over: a run with no step left is the wave-by-wave result. */
  lemma StoppedRunsAreFinal(g: DependencyGraph, f: Fates, start: RunState, moves: seq<Move>)
    requires Valid(g) && FatesFit(g, f) && CanBegin(g, start) && NothingCancelled(g, start)
    requires ValidMoves(g, f, start, moves)
    requires forall move :: !Enabled(g, f, MovedAll(g, f, start, moves), move)
    ensures SameStates(g, MovedAll(g, f, start, moves), Final(g, f, start))
  {
    AgreementFromStart(g, f, start, moves);
    RunsAreConfluent(g, f, start, moves);
    if !Over(g, MovedAll(g, f, start, moves)) {
      var move := StepExists(g, f, start, Final(g, f, start), MovedAll(g, f, start, moves));
    }
  }

  /** Every run so far can be carried on to its end. */
  lemma RunsCanEnd(g: DependencyGraph, f: Fates, start: RunState, moves: seq<Move>) returns (rest: seq<Move>)
    requires Valid(g) && FatesFit(g, f) && CanBegin(g, start) && NothingCancelled(g, start)
    requires ValidMoves(g, f, start, moves)
    ensures ValidMoves(g, f, MovedAll(g, f, start, moves), rest)
    ensures Over(g, MovedAll(g, f, MovedAll(g, f, start, moves), rest))
  {
    AgreementFromStart(g, f, start, moves);
    rest := RunCanEnd(g, f, start, Final(g, f, start), MovedAll(g, f, start, moves));
  }
}
