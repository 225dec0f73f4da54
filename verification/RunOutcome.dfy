/** Every order of steps leads to the wave-by-wave result, in a bounded number of steps. */
module RunOutcome {
  import opened Collections
  import opened TaskGraphs
  import opened Readiness
  import opened RunSafety
  import opened RunConfluence

  /** One step of the scheduler: start or refuse a ready task at its gate, end an attempt, or skip a reported task. */
  datatype Move =
    | Begin(task: TaskId)
    | Refuse(task: TaskId)
    | End(task: TaskId)
    | GiveUp(task: TaskId, failuresFinal: bool, dead: set<TaskId>)

  ghost predicate Enabled(g: DependencyGraph, f: Fates, run: RunState, move: Move)
    requires Indexed(g) && FatesFit(g, f)
  {
    && move.task in g.dependenciesOf
    && match move
       case Begin(t) => NeverRun(run, t) && IsReady(g, run, map[], t) && Admitted(g, f, run, t)
       case Refuse(t) => NeverRun(run, t) && IsReady(g, run, map[], t) && !Admitted(g, f, run, t)
       case End(t) => StateOf(run, t).In({InProgress})
       case GiveUp(t, failuresFinal, dead) => LeastDoomed(g, run, failuresFinal, dead) && t in dead
  }

  ghost function Moved(f: Fates, run: RunState, move: Move): RunState
    requires move.task in f.outcome
  {
    match move
    case Begin(t) => run[t := RUNNING]
    case Refuse(t) => run[t := SKIP]
    case End(t) => run[t := f.outcome[t]]
    case GiveUp(t, _, _) => run[t := SKIP]
  }

  /** The states that `FinalIsVerdict` describes: each never-run task's is its verdict in those very states. */
  ghost predicate Judged(g: DependencyGraph, f: Fates, start: RunState, final: RunState)
    requires Indexed(g) && FatesFit(g, f)
  {
    forall t {:trigger StateOf(final, t)} :: t in g.dependenciesOf
      ==> StateOf(final, t) == if NeverRun(start, t) then Verdict(g, f, final, t) else StateOf(start, t)
  }

  /** A started run agrees with the final result wherever it has an outcome, and starts only what ends there. */
  ghost predicate Agrees(g: DependencyGraph, f: Fates, start: RunState, final: RunState, run: RunState)
    requires Indexed(g) && FatesFit(g, f)
  {
    forall t {:trigger TaskAgrees(g, f, start, final, run, t)} ::
      t in g.dependenciesOf ==> TaskAgrees(g, f, start, final, run, t)
  }

  ghost predicate TaskAgrees(g: DependencyGraph, f: Fates, start: RunState, final: RunState, run: RunState, t: TaskId)
    requires Indexed(g) && FatesFit(g, f) && t in g.dependenciesOf
  {
    var end := StateOf(final, t);
    || (NeverRun(start, t) && NeverRun(run, t))
    || (NeverRun(start, t) && StateOf(run, t) == RUNNING && end == f.outcome[t])
    || (StateOf(run, t) == end && end.In(TERMINAL))
  }

  /** Edges met in an agreeing run are met in the final result. */
  lemma MetStaysMet(g: DependencyGraph, f: Fates, start: RunState, final: RunState, run: RunState, t: TaskId)
    requires Indexed(g) && FatesFit(g, f) && Agrees(g, f, start, final, run) && t in g.dependenciesOf
    ensures CountIf(SatisfiedIn(run), g.dependenciesOf[t])
            <= CountIf(SatisfiedIn(final), g.dependenciesOf[t])
  {
    var p, q := SatisfiedIn(run), SatisfiedIn(final);
    forall e | e in g.dependenciesOf[t] && p(e) ensures q(e) {
      assert TaskAgrees(g, f, start, final, run, e.dependsOn);
    }
    CountIfMonotone(p, q, g.dependenciesOf[t]);
  }

  lemma BeginEndsThere(g: DependencyGraph, f: Fates, start: RunState, final: RunState, run: RunState, t: TaskId)
    requires Indexed(g) && Acyclic(g) && FatesFit(g, f) && Judged(g, f, start, final) && Agrees(g, f, start, final, run)
    requires Enabled(g, f, run, Begin(t))
    ensures NeverRun(start, t) && StateOf(final, t) == f.outcome[t]
  {
    assert TaskAgrees(g, f, start, final, run, t);
    MetStaysMet(g, f, start, final, run, t);
  }

  /** A refused task has no unfinished upstream, so the refusal is what the final result says too. */
  lemma RefusedIsSkipped(g: DependencyGraph, f: Fates, start: RunState, final: RunState, run: RunState, t: TaskId)
    requires Indexed(g) && Acyclic(g) && FatesFit(g, f) && Judged(g, f, start, final) && Agrees(g, f, start, final, run)
    requires Enabled(g, f, run, Refuse(t))
    ensures StateOf(final, t) == SKIP
  {
    assert TaskAgrees(g, f, start, final, run, t);
    forall e | e in g.dependenciesOf[t]
      ensures StateOf(run, e.dependsOn) == StateOf(final, e.dependsOn)
    {
      assert TaskAgrees(g, f, start, final, run, e.dependsOn);
    }
    VerdictFromUpstreams(g, f, run, final, t);
  }

  /** Edges of a reported task that the final result meets were still possible, if reported upstreams end SKIPPED. */
  lemma ReportedIsNotAdmitted(g: DependencyGraph, f: Fates, start: RunState, final: RunState, run: RunState,
                              failuresFinal: bool,
                              dead: set<TaskId>, t: TaskId)
    requires Indexed(g) && Acyclic(g) && FatesFit(g, f) && Judged(g, f, start, final) && Agrees(g, f, start, final, run)
    requires LeastDoomed(g, run, failuresFinal, dead) && t in dead
    requires forall e :: e in g.dependenciesOf[t] && e.dependsOn in dead
               ==> StateOf(final, e.dependsOn) == SKIP
    ensures StateOf(final, t) == SKIP
  {
    assert t in Doomed(g, run, failuresFinal, dead);
    var p, q := SatisfiedIn(final), PossibleIn(WithSkipped(run, dead), failuresFinal);
    forall e | e in g.dependenciesOf[t] && p(e) ensures q(e) {
      assert TaskAgrees(g, f, start, final, run, e.dependsOn);
    }
    CountIfMonotone(p, q, g.dependenciesOf[t]);
    assert TaskAgrees(g, f, start, final, run, t);
  }

  ghost function NotSkipped(final: RunState, dead: set<TaskId>): set<TaskId> {
    set s | s in dead && StateOf(final, s) != SKIP
  }

  lemma NotSkippedHasUpstream(g: DependencyGraph, f: Fates, start: RunState, final: RunState, run: RunState,
                              failuresFinal: bool, dead: set<TaskId>, t: TaskId)
    requires Indexed(g) && Acyclic(g) && FatesFit(g, f) && Judged(g, f, start, final) && Agrees(g, f, start, final, run)
    requires LeastDoomed(g, run, failuresFinal, dead) && t in NotSkipped(final, dead)
    ensures HasUpstreamIn(g, t, NotSkipped(final, dead))
  {
    if forall e :: e in g.dependenciesOf[t] && e.dependsOn in dead ==> StateOf(final, e.dependsOn) == SKIP {
      ReportedIsNotAdmitted(g, f, start, final, run, failuresFinal, dead, t);
    } else {
      var e :| e in g.dependenciesOf[t] && e.dependsOn in NotSkipped(final, dead);
      assert Upstream(g, t, e.dependsOn);
    }
  }

  /** A reported task ends SKIPPED in the final result: no first exception can exist in an acyclic graph. */
  lemma ReportedIsSkipped(g: DependencyGraph, f: Fates, start: RunState, final: RunState, run: RunState,
                          failuresFinal: bool, dead: set<TaskId>, t: TaskId)
    requires Indexed(g) && Acyclic(g) && FatesFit(g, f) && Judged(g, f, start, final) && Agrees(g, f, start, final, run)
    requires LeastDoomed(g, run, failuresFinal, dead) && t in dead
    ensures StateOf(final, t) == SKIP
  {
    var others := NotSkipped(final, dead);
    if t in others {
      forall s | s in others ensures HasUpstreamIn(g, s, others) {
        NotSkippedHasUpstream(g, f, start, final, run, failuresFinal, dead, s);
      }
      StuckCloses(g, others, t);
    }
  }

  lemma OneTaskAgrees(g: DependencyGraph, f: Fates, start: RunState, final: RunState, run: RunState, t: TaskId,
                      state: TaskRunState)
    requires Indexed(g) && FatesFit(g, f) && Agrees(g, f, start, final, run) && t in g.dependenciesOf
    requires TaskAgrees(g, f, start, final, run[t := state], t)
    ensures Agrees(g, f, start, final, run[t := state])
  {
    forall s | s in g.dependenciesOf ensures TaskAgrees(g, f, start, final, run[t := state], s) {
      assert TaskAgrees(g, f, start, final, run, s);
    }
  }

  lemma MoveKeepsAgreement(g: DependencyGraph, f: Fates, start: RunState, final: RunState, run: RunState, move: Move)
    requires Indexed(g) && Acyclic(g) && FatesFit(g, f) && Judged(g, f, start, final)
    requires Agrees(g, f, start, final, run) && Enabled(g, f, run, move)
    ensures Agrees(g, f, start, final, Moved(f, run, move))
  {
    var t := move.task;
    match move {
      case Begin(_) =>
        BeginEndsThere(g, f, start, final, run, t);
        OneTaskAgrees(g, f, start, final, run, t, RUNNING);
      case Refuse(_) =>
        RefusedIsSkipped(g, f, start, final, run, t);
        OneTaskAgrees(g, f, start, final, run, t, SKIP);
      case End(_) =>
        assert TaskAgrees(g, f, start, final, run, t);
        OneTaskAgrees(g, f, start, final, run, t, f.outcome[t]);
      case GiveUp(_, failuresFinal, dead) =>
        ReportedIsSkipped(g, f, start, final, run, failuresFinal, dead, t);
        OneTaskAgrees(g, f, start, final, run, t, SKIP);
    }
  }
}
