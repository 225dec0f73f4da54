/** A run never gets stuck: what is neither ready nor reported is waiting on something unfinished. */
module RunProgress {
  import opened Wrappers
  import opened Collections
  import opened TaskGraphs
  import opened GraphBuild
  import opened Readiness

  /** The search has a result in every state. */
  lemma {:induction false} LeastDoomedExists(g: DependencyGraph, run: RunState, failuresFinal: bool, found: set<TaskId>)
    returns (dead: set<TaskId>)
    requires Indexed(g) && Justified(g, run, failuresFinal, found)
    ensures LeastDoomed(g, run, failuresFinal, dead)
    decreases g.dependenciesOf.Keys - found
  {
    var newly := NewlyFound(g, WithSkipped(run, found), failuresFinal, found);
    if newly == {} {
      SearchEnds(g, run, failuresFinal, found);
      dead := found;
    } else {
      PassKeepsJustified(g, run, failuresFinal, found);
      dead := LeastDoomedExists(g, run, failuresFinal, found + newly);
    }
  }

  ghost predicate UpstreamsIn(g: DependencyGraph, run: RunState, t: TaskId, statuses: set<Status>)
    requires t in g.dependenciesOf
  {
    forall e :: e in g.dependenciesOf[t] ==> StateOf(run, e.dependsOn).In(statuses)
  }

  /** Unmet dependencies on CANCELLED upstreams: terminal, and yet never lost. */
  function StrandedIn(run: RunState): TaskEdge -> bool {
    (e: TaskEdge) => StateOf(run, e.dependsOn).In({Cancelled}) && !EdgeSatisfied(e, StateOf(run, e.dependsOn))
  }

  /** Once all upstreams have finished, what is still possible is what is met and what is stranded. */
  lemma PossibleIsMetOrStranded(g: DependencyGraph, run: RunState, t: TaskId)
    requires Indexed(g) && t in g.dependenciesOf && UpstreamsIn(g, run, t, TERMINAL)
    ensures CountIf(PossibleIn(run, true), g.dependenciesOf[t])
            == CountIf(SatisfiedIn(run), g.dependenciesOf[t]) + CountIf(StrandedIn(run), g.dependenciesOf[t])
  {
    CountIfSplit(SatisfiedIn(run), StrandedIn(run), PossibleIn(run, true), g.dependenciesOf[t]);
  }

  lemma NothingStranded(g: DependencyGraph, run: RunState, t: TaskId)
    requires Indexed(g) && t in g.dependenciesOf && UpstreamsIn(g, run, t, {Success, Failed, Skipped})
    ensures CountIf(StrandedIn(run), g.dependenciesOf[t]) == 0
  {
    CountIfNone(StrandedIn(run), g.dependenciesOf[t]);
  }

  lemma SkippedElsewhere(g: DependencyGraph, run: RunState, dead: set<TaskId>, t: TaskId)
    requires Indexed(g) && t in g.dependenciesOf && AllNeverRun(run, dead)
    requires UpstreamsIn(g, run, t, TERMINAL)
    ensures CountIf(PossibleIn(WithSkipped(run, dead), true), g.dependenciesOf[t])
            == CountIf(PossibleIn(run, true), g.dependenciesOf[t])
  {
    CountIfSame(PossibleIn(WithSkipped(run, dead), true), PossibleIn(run, true), g.dependenciesOf[t]);
  }

  lemma ReportedNeverRan(g: DependencyGraph, run: RunState, failuresFinal: bool, dead: set<TaskId>)
    requires Indexed(g) && LeastDoomed(g, run, failuresFinal, dead)
    ensures AllNeverRun(run, dead)
  {
    forall u | u in dead ensures NeverRun(run, u) {
      assert u in Doomed(g, run, failuresFinal, dead);
    }
  }

  /** Too few dependencies are met, but enough are met or stranded on CANCELLED upstreams. */
  predicate Stranded(g: DependencyGraph, run: RunState, t: TaskId)
    requires t in g.dependenciesOf && t in g.nodesById
  {
    var met := SatisfiedEdgeCount(g, t, run, None);
    met < RequiredEdgeCount(g, t) <= met + CountIf(StrandedIn(run), g.dependenciesOf[t])
  }

  /** A never-run task whose upstreams have all finished is neither ready nor reported exactly when it is stranded
      on CANCELLED ones. */
  lemma NeitherExactlyWhenStranded(g: DependencyGraph, run: RunState, dead: set<TaskId>, t: TaskId)
    requires Valid(g) && LeastDoomed(g, run, true, dead)
    requires t in g.dependenciesOf && NeverRun(run, t) && UpstreamsIn(g, run, t, TERMINAL)
    ensures t !in dead && !IsReady(g, run, map[], t) <==> Stranded(g, run, t)
    ensures !(t in dead && IsReady(g, run, map[], t))
  {
    ReportedNeverRan(g, run, true, dead);
    PossibleIsMetOrStranded(g, run, t);
    SkippedElsewhere(g, run, dead, t);
    assert t in dead <==> t in Doomed(g, run, true, dead);
    assert ConditionFits(g.nodesById[t], TotalEdgeCount(g, t));
  }

  /** Once every upstream of a never-run task has succeeded, failed for good or been skipped, the task is
      reported exactly when it is not ready. */
  lemma ReportedExactlyWhenNotReady(g: DependencyGraph, run: RunState, dead: set<TaskId>, t: TaskId)
    requires Valid(g) && LeastDoomed(g, run, true, dead)
    requires t in g.dependenciesOf && NeverRun(run, t) && UpstreamsIn(g, run, t, {Success, Failed, Skipped})
    ensures t in dead <==> !IsReady(g, run, map[], t)
  {
    NothingStranded(g, run, t);
    NeitherExactlyWhenStranded(g, run, dead, t);
  }

  /** Between steps every task has no row yet or one of these statuses. */
  ghost predicate AllHave(g: DependencyGraph, run: RunState, statuses: set<Status>) {
    forall t :: t in g.dependenciesOf ==> NeverRun(run, t) || StateOf(run, t).In(statuses)
  }

  /** Nothing is queued or in progress, and nothing was cancelled. */
  ghost predicate Resting(g: DependencyGraph, run: RunState) {
    AllHave(g, run, {Success, Failed, Skipped})
  }

  /** Among never-run tasks, one has only upstreams with an outcome. */
  lemma FirstNeverRun(g: DependencyGraph, run: RunState, statuses: set<Status>) returns (t: TaskId)
    requires Indexed(g) && Acyclic(g) && AllHave(g, run, statuses)
    requires exists s :: s in g.dependenciesOf && NeverRun(run, s)
    ensures t in g.dependenciesOf && NeverRun(run, t) && UpstreamsIn(g, run, t, statuses)
  {
    var waiting := set s | s in g.dependenciesOf && NeverRun(run, s);
    var s :| s in g.dependenciesOf && NeverRun(run, s);
    assert s in waiting;
    t := FirstIn(g, waiting);
    forall e | e in g.dependenciesOf[t] ensures StateOf(run, e.dependsOn).In(statuses) {
      assert Upstream(g, t, e.dependsOn);
    }
  }

  /** A never-run task not reported, with finished upstreams, is ready after the skips unless it is stranded. */
  lemma ReadyUnlessStranded(g: DependencyGraph, run: RunState, dead: set<TaskId>, t: TaskId)
    requires Valid(g) && LeastDoomed(g, run, true, dead) && t in g.dependenciesOf
    requires NeverRun(WithSkipped(run, dead), t) && UpstreamsIn(g, WithSkipped(run, dead), t, TERMINAL)
    ensures IsReady(g, WithSkipped(run, dead), map[], t) <==> !Stranded(g, WithSkipped(run, dead), t)
  {
    PossibleIsMetOrStranded(g, WithSkipped(run, dead), t);
    assert t !in Doomed(g, run, true, dead);
    assert ConditionFits(g.nodesById[t], TotalEdgeCount(g, t));
  }

  /** With nothing in progress, once the reported tasks are recorded SKIPPED, some never-run task is ready, none is
      left, or one is stranded on CANCELLED upstreams. */
  lemma StuckOnlyOnCancelled(g: DependencyGraph, run: RunState, dead: set<TaskId>)
    requires Valid(g) && AllHave(g, run, TERMINAL) && LeastDoomed(g, run, true, dead)
    ensures var later := WithSkipped(run, dead);
            (exists t :: t in g.dependenciesOf && NeverRun(later, t))
            ==> exists t :: t in g.dependenciesOf && NeverRun(later, t)
                            && (IsReady(g, later, map[], t) || Stranded(g, later, t))
  {
    var later := WithSkipped(run, dead);
    if exists t :: t in g.dependenciesOf && NeverRun(later, t) {
      var t := FirstNeverRun(g, later, TERMINAL);
      ReadyUnlessStranded(g, run, dead, t);
      assert IsReady(g, later, map[], t) || Stranded(g, later, t);
    }
  }

  /** No deadlock: once the reported tasks are recorded SKIPPED, some never-run task is ready or none is left. */
  lemma NoDeadlock(g: DependencyGraph, run: RunState, dead: set<TaskId>)
    requires Valid(g) && Resting(g, run) && LeastDoomed(g, run, true, dead)
    ensures var later := WithSkipped(run, dead);
            (exists t :: t in g.dependenciesOf && NeverRun(later, t))
            ==> exists t :: t in g.dependenciesOf && NeverRun(later, t) && IsReady(g, later, map[], t)
  {
    var later := WithSkipped(run, dead);
    if exists t :: t in g.dependenciesOf && NeverRun(later, t) {
      var t := FirstNeverRun(g, later, {Success, Failed, Skipped});
      NothingStranded(g, later, t);
      ReadyUnlessStranded(g, run, dead, t);
      assert IsReady(g, later, map[], t);
    }
  }
}
