/** The limits of the report of unsatisfiable tasks: what it says of tasks that need every dependency, and concrete
    graphs it falls short on. */
module ReportLimits {
  import opened Wrappers
  import opened Collections
  import opened TaskGraphs
  import opened GraphBuild
  import opened Readiness
  import opened RunSafety
  import opened RunProgress

  predicate NeedsAll(g: DependencyGraph, t: TaskId)
    requires t in g.nodesById
  {
    g.nodesById[t].runCondition.None? || g.nodesById[t].runCondition.value.All?
  }

  /** A task that needs every dependency is ready only when each one is met. */
  lemma ReadyMeetsEach(g: DependencyGraph, run: RunState, confirmed: map<TaskId, nat>, t: TaskId)
    requires Indexed(g) && GateFits(g, confirmed) && t in g.dependenciesOf && NeedsAll(g, t)
    requires IsReady(g, run, confirmed, t)
    ensures forall e :: e in g.dependenciesOf[t] ==> EdgeSatisfied(e, StateOf(run, e.dependsOn))
  {
    CountIfAll(SatisfiedIn(run), g.dependenciesOf[t]);
    CountIfBound(SatisfiedIn(run), g.dependenciesOf[t]);
    forall e | e in g.dependenciesOf[t] ensures EdgeSatisfied(e, StateOf(run, e.dependsOn)) {
      assert SatisfiedIn(run)(e);
    }
  }

  /** Needing one upstream both to succeed and to fail, a task is never ready, in whatever state the run is. */
  lemma ContradictionNeverReady(g: DependencyGraph, run: RunState, confirmed: map<TaskId, nat>, t: TaskId,
                                onSuccess: TaskEdge, onFailure: TaskEdge)
    requires Indexed(g) && GateFits(g, confirmed) && t in g.dependenciesOf && NeedsAll(g, t)
    requires onSuccess in g.dependenciesOf[t] && onFailure in g.dependenciesOf[t]
    requires onSuccess.dependencyType == SuccessEdge && onFailure.dependencyType == FailureEdge
    requires onSuccess.dependsOn == onFailure.dependsOn
    ensures !IsReady(g, run, confirmed, t)
  {
    if IsReady(g, run, confirmed, t) {
      ReadyMeetsEach(g, run, confirmed, t);
    }
  }

  /** A never-run task that needs every dependency is reported exactly when one of them is lost for good, in the
      run or by the skips. */
  lemma ReportedExactlyWhenOneIsLost(g: DependencyGraph, run: RunState, failuresFinal: bool, dead: set<TaskId>,
                                     t: TaskId)
    requires Indexed(g) && LeastDoomed(g, run, failuresFinal, dead)
    requires t in g.dependenciesOf && NeedsAll(g, t) && NeverRun(run, t)
    ensures t in dead
            <==> exists e :: e in g.dependenciesOf[t]
                             && EdgeLost(e, StateOf(WithSkipped(run, dead), e.dependsOn), failuresFinal)
  {
    var possible := PossibleIn(WithSkipped(run, dead), failuresFinal);
    CountIfAll(possible, g.dependenciesOf[t]);
    CountIfBound(possible, g.dependenciesOf[t]);
    assert t in dead <==> t in Doomed(g, run, failuresFinal, dead);
    if e :| e in g.dependenciesOf[t] && EdgeLost(e, StateOf(WithSkipped(run, dead), e.dependsOn), failuresFinal) {
      assert !possible(e);
    }
  }

  /** Task 2 waits on task 1 through `edges`, every one of which must be met. */
  function TwoTasks(edges: seq<TaskEdge>): DependencyGraph {
    DependencyGraph([1, 2],
                    map[1 := TaskNode(1, None, None, 0), 2 := TaskNode(2, None, None, 0)],
                    map[1 := [], 2 := edges])
  }

  lemma TwoTasksValid(edges: seq<TaskEdge>)
    requires forall e :: e in edges ==> e.taskId == 2 && e.dependsOn == 1 && !e.dependencyType.UnknownType?
    ensures Valid(TwoTasks(edges))
  {
    var g := TwoTasks(edges);
    assert Elems(g.taskIds) == {1, 2};
    forall i, u | 0 <= i < |g.taskIds| && Upstream(g, g.taskIds[i], u) ensures u in g.taskIds[..i] {
      assert i == 1 && u == 1 && g.taskIds[0] == 1;
    }
    OrderedIsAcyclic(g, g.taskIds);
  }

  /** Before anything has run, edges that could each be met are not reported. */
  lemma NothingReported(g: DependencyGraph, edges: seq<TaskEdge>, failuresFinal: bool)
    requires edges == [TaskEdge(2, 1, SuccessEdge), TaskEdge(2, 1, FailureEdge)]
    requires g == TwoTasks(edges) && Indexed(g)
    ensures LeastDoomed(g, map[], failuresFinal, {})
  {
    var last := [TaskEdge(2, 1, FailureEdge)];
    assert edges[1..] == last && last[1..] == [];
    assert CountIf(PossibleIn(map[], failuresFinal), edges) == 2;
    assert WithSkipped(map[], {}) == map[];
    assert Doomed(g, map[], failuresFinal, {}) == {};
  }

  /** The report is not complete: such a task is not reported while that upstream has not run. */
  lemma ContradictionNotReported(failuresFinal: bool, run: RunState, confirmed: map<TaskId, nat>)
    requires forall t :: t in confirmed ==> confirmed[t] == 0
    ensures var g := TwoTasks([TaskEdge(2, 1, SuccessEdge), TaskEdge(2, 1, FailureEdge)]);
            && Valid(g)
            && LeastDoomed(g, map[], failuresFinal, {})
            && !IsReady(g, run, confirmed, 2)
  {
    var edges := [TaskEdge(2, 1, SuccessEdge), TaskEdge(2, 1, FailureEdge)];
    var g := TwoTasks(edges);
    TwoTasksValid(edges);
    NothingReported(g, edges, failuresFinal);
    ContradictionNeverReady(g, run, confirmed, 2, edges[0], edges[1]);
  }

  /** The smallest stranded task: one SUCCESS dependency on a CANCELLED upstream, which is terminal but settles
      nothing, leaves a task neither ready nor reported. */
  lemma CancelledUpstreamStrands(confirmed: map<TaskId, nat>)
    requires forall t :: t in confirmed ==> confirmed[t] == 0
    ensures var g, run := TwoTasks([TaskEdge(2, 1, SuccessEdge)]), map[1 := TaskRunState(Some(Cancelled), None, None)];
            && Valid(g)
            && NeverRun(run, 2) && StateOf(run, 1).In(TERMINAL)
            && LeastDoomed(g, run, true, {})
            && !IsReady(g, run, confirmed, 2)
            && Stranded(g, run, 2)
  {
    var edges := [TaskEdge(2, 1, SuccessEdge)];
    var run := map[1 := TaskRunState(Some(Cancelled), None, None)];
    var g := TwoTasks(edges);
    TwoTasksValid(edges);
    assert edges[1..] == [];
    assert CountIf(PossibleIn(run, true), edges) == 1;
    assert CountIf(SatisfiedIn(run), edges) == 0 && CountIf(StrandedIn(run), edges) == 1;
    assert WithSkipped(run, {}) == run;
    assert Doomed(g, run, true, {}) == {};
  }
}
