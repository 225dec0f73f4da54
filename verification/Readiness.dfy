/** Which tasks can start now, and which never-run tasks can never start. */
module Readiness {
  import opened Wrappers
  import opened Collections
  import opened TaskGraphs
  import opened GraphBuild

  datatype Status = Queued | InProgress | Success | Failed | Skipped | Cancelled

  const TERMINAL: set<Status> := {Success, Failed, Skipped, Cancelled}
  const SETTLED: set<Status> := {Success, Skipped}
  const NOT_RETRYABLE: set<Status> := {Success, Skipped, InProgress}

  datatype TaskRunState = TaskRunState(status: Option<Status>, targetCount: Option<int>, rowsWritten: Option<int>) {
    predicate WroteRows() {
      var count := if rowsWritten.None? then targetCount else rowsWritten;
      count.Some? && count.value > 0
    }

    predicate In(statuses: set<Status>) {
      status.Some? && status.value in statuses
    }
  }

  const NOT_RUN := TaskRunState(None, None, None)
  const SKIP := TaskRunState(Some(Skipped), None, None)

  type RunState = map<TaskId, TaskRunState>

  function StateOf(run: RunState, t: TaskId): TaskRunState {
    if t in run then run[t] else NOT_RUN
  }

  predicate NeverRun(run: RunState, t: TaskId) {
    StateOf(run, t).status.None?
  }

  function RequiredEdgeCount(g: DependencyGraph, t: TaskId): int
    requires t in g.dependenciesOf && t in g.nodesById
  {
    var total := TotalEdgeCount(g, t);
    var node := g.nodesById[t];
    match (if node.runCondition.None? then All else node.runCondition.value)
    case Any => if total > 0 then 1 else 0
    case N =>
      if node.runConditionCount.None? || node.runConditionCount.value == 0 then 1 else node.runConditionCount.value
    case _ => total
  }

  predicate EdgeSatisfied(edge: TaskEdge, upstream: TaskRunState) {
    match edge.dependencyType
    case SuccessEdge => upstream.In({Success})
    case FailureEdge => upstream.In({Failed})
    case AlwaysEdge => upstream.In(TERMINAL)
    case HasDataEdge => upstream.In({Success}) && upstream.WroteRows()
    case UnknownType(_) => false
  }

  predicate EdgeLost(edge: TaskEdge, upstream: TaskRunState, failuresFinal: bool) {
    && (upstream.In(SETTLED) || (failuresFinal && upstream.In({Failed})))
    && !EdgeSatisfied(edge, upstream)
  }

  function SatisfiedIn(run: RunState): TaskEdge -> bool {
    (e: TaskEdge) => EdgeSatisfied(e, StateOf(run, e.dependsOn))
  }

  function PossibleIn(run: RunState, failuresFinal: bool): TaskEdge -> bool {
    (e: TaskEdge) => !EdgeLost(e, StateOf(run, e.dependsOn), failuresFinal)
  }

  function SatisfiedEdgeCount(g: DependencyGraph, t: TaskId, run: RunState, confirmed: Option<nat>): nat
    requires t in g.dependenciesOf && t in g.nodesById
  {
    CountIf(SatisfiedIn(run), g.dependenciesOf[t])
    + (if confirmed.None? then g.nodesById[t].crossPipelineEdgeCount else confirmed.value)
  }

  /** Only assumed cross-pipeline edges carry `t` while one of its upstreams has not finished. */
  predicate WaitsOnUnfinishedUpstream(g: DependencyGraph, t: TaskId, run: RunState, required: int)
    requires t in g.dependenciesOf && t in g.nodesById
  {
    && SatisfiedEdgeCount(g, t, run, Some(0)) < required
    && exists e :: e in g.dependenciesOf[t] && !StateOf(run, e.dependsOn).In(TERMINAL)
  }

  predicate IsReady(g: DependencyGraph, run: RunState, confirmed: map<TaskId, nat>, t: TaskId)
    requires t in g.dependenciesOf && t in g.nodesById
  {
    var supplied := if t in confirmed then Some(confirmed[t]) else None;
    var required := RequiredEdgeCount(g, t);
    && !StateOf(run, t).In(NOT_RETRYABLE)
    && SatisfiedEdgeCount(g, t, run, supplied) >= required
    && !(supplied.None? && WaitsOnUnfinishedUpstream(g, t, run, required))
  }

  predicate IsUnsatisfiable(g: DependencyGraph, t: TaskId, run: RunState, failuresFinal: bool)
    requires t in g.dependenciesOf && t in g.nodesById
  {
    && TotalEdgeCount(g, t) != 0
    && g.nodesById[t].crossPipelineEdgeCount + CountIf(PossibleIn(run, failuresFinal), g.dependenciesOf[t])
       < RequiredEdgeCount(g, t)
  }

  // The rules once more, by places, statuses and numbers alone.

  /** The places of the dependencies of `t` that are met: a SUCCESS one by a succeeded upstream, a FAILURE one by a
      failed one, an ALWAYS one by one that ended in any way, a HAS_DATA one by one that succeeded and wrote rows, or
      has a positive target count when the rows written are not known. */
  ghost function MetPlaces(g: DependencyGraph, run: RunState, t: TaskId): set<nat>
    requires t in g.dependenciesOf
  {
    set i: nat | i < |g.dependenciesOf[t]| && g.dependenciesOf[t][i].dependsOn in run
                 && var e, s := g.dependenciesOf[t][i], run[g.dependenciesOf[t][i].dependsOn];
                    || (e.dependencyType == SuccessEdge && s.status == Some(Success))
                    || (e.dependencyType == FailureEdge && s.status == Some(Failed))
                    || (e.dependencyType == AlwaysEdge
                        && s.status in {Some(Success), Some(Failed), Some(Skipped), Some(Cancelled)})
                    || (e.dependencyType == HasDataEdge && s.status == Some(Success)
                        && ((s.rowsWritten.Some? && s.rowsWritten.value > 0)
                            || (s.rowsWritten.None? && s.targetCount.Some? && s.targetCount.value > 0)))
  }

  /** Of `total` dependencies `n` are enough: each one under `ALL`, one under `ANY` unless there are none, the task's
      own count under `N`. */
  ghost predicate Enough(node: TaskNode, total: nat, n: nat) {
    && (node.runCondition != Some(Any) && node.runCondition != Some(N) ==> n >= total)
    && (node.runCondition == Some(Any) && total > 0 ==> n > 0)
    && (node.runCondition == Some(N) ==>
          if node.runConditionCount == None || node.runConditionCount == Some(0) then n > 0
          else n >= node.runConditionCount.value)
  }

  /** A task may start when it has no status yet or QUEUED, FAILED or CANCELLED, and enough of its dependencies are
      met. Cross-pipeline ones that the gate has not looked at count as met, but make up for unmet ones only when
      every upstream has ended. */
  ghost predicate MayStart(g: DependencyGraph, run: RunState, confirmed: map<TaskId, nat>, t: TaskId)
    requires t in g.dependenciesOf && t in g.nodesById
  {
    var node, met := g.nodesById[t], |MetPlaces(g, run, t)|;
    var total := |g.dependenciesOf[t]| + node.crossPipelineEdgeCount;
    && (t in run ==> run[t].status in {None, Some(Queued), Some(Failed), Some(Cancelled)})
    && Enough(node, total, met + if t in confirmed then confirmed[t] else node.crossPipelineEdgeCount)
    && (t in confirmed || Enough(node, total, met)
        || forall e :: e in g.dependenciesOf[t] ==>
             e.dependsOn in run
             && run[e.dependsOn].status in {Some(Success), Some(Failed), Some(Skipped), Some(Cancelled)})
  }

  /** The places of the dependencies of `t` that can still be met, once the tasks of `gone` are skipped: not a SUCCESS
      or HAS_DATA one on a skipped upstream, nor a FAILURE one on one skipped or succeeded, nor a HAS_DATA one on one
      that wrote nothing, nor, when failures are final, a SUCCESS or HAS_DATA one on a failed upstream. */
  ghost function PossiblePlaces(g: DependencyGraph, run: RunState, gone: seq<TaskId>, failuresFinal: bool,
                                t: TaskId): set<nat>
    requires t in g.dependenciesOf
  {
    set i: nat | i < |g.dependenciesOf[t]|
                 && var e := g.dependenciesOf[t][i];
                    var s := if e.dependsOn in gone then TaskRunState(Some(Skipped), None, None)
                             else if e.dependsOn in run then run[e.dependsOn] else TaskRunState(None, None, None);
                    && (e.dependencyType in {SuccessEdge, HasDataEdge} ==>
                          s.status != Some(Skipped) && !(failuresFinal && s.status == Some(Failed)))
                    && (e.dependencyType == FailureEdge ==> s.status !in {Some(Skipped), Some(Success)})
                    && (e.dependencyType == HasDataEdge && s.status == Some(Success) ==>
                          if s.rowsWritten.Some? then s.rowsWritten.value > 0
                          else s.targetCount.Some? && s.targetCount.value > 0)
  }

  lemma MetPlacesAre(g: DependencyGraph, run: RunState, t: TaskId)
    requires Indexed(g) && t in g.dependenciesOf
    ensures |MetPlaces(g, run, t)| == CountIf(SatisfiedIn(run), g.dependenciesOf[t])
  {
    var edges := g.dependenciesOf[t];
    CountIfPlaces(SatisfiedIn(run), edges);
    forall i: nat | i < |edges| ensures i in MetPlaces(g, run, t) <==> SatisfiedIn(run)(edges[i]) {
      assert edges[i] in edges;
    }
    assert MetPlaces(g, run, t) == PlacesIf(SatisfiedIn(run), edges);
  }

  lemma EnoughIsRequired(g: DependencyGraph, t: TaskId, n: nat)
    requires t in g.dependenciesOf && t in g.nodesById
    ensures Enough(g.nodesById[t], TotalEdgeCount(g, t), n) <==> n >= RequiredEdgeCount(g, t)
  {
  }

  lemma StartableStatuses(s: TaskRunState)
    ensures !s.In(NOT_RETRYABLE) <==> s.status in {None, Some(Queued), Some(Failed), Some(Cancelled)}
  {
    if s.status.Some? {
      match s.status.value
      case Queued =>
      case InProgress =>
      case Success =>
      case Failed =>
      case Skipped =>
      case Cancelled =>
    }
  }

  lemma ReadyMayStart(g: DependencyGraph, run: RunState, confirmed: map<TaskId, nat>, t: TaskId)
    requires Indexed(g) && t in g.dependenciesOf
    ensures IsReady(g, run, confirmed, t) <==> MayStart(g, run, confirmed, t)
  {
    MetPlacesAre(g, run, t);
    var met, cross := |MetPlaces(g, run, t)|, g.nodesById[t].crossPipelineEdgeCount;
    EnoughIsRequired(g, t, met);
    EnoughIsRequired(g, t, met + if t in confirmed then confirmed[t] else cross);
    StartableStatuses(StateOf(run, t));
    forall e | e in g.dependenciesOf[t]
      ensures StateOf(run, e.dependsOn).In(TERMINAL)
              <==> e.dependsOn in run
                   && run[e.dependsOn].status in {Some(Success), Some(Failed), Some(Skipped), Some(Cancelled)}
    {
    }
  }

  lemma PossiblePlacesAre(g: DependencyGraph, run: RunState, gone: seq<TaskId>, failuresFinal: bool, t: TaskId)
    requires Indexed(g) && t in g.dependenciesOf
    ensures |PossiblePlaces(g, run, gone, failuresFinal, t)|
            == CountIf(PossibleIn(WithSkipped(run, Elems(gone)), failuresFinal), g.dependenciesOf[t])
  {
    var edges, possible := g.dependenciesOf[t], PossibleIn(WithSkipped(run, Elems(gone)), failuresFinal);
    CountIfPlaces(possible, edges);
    forall i: nat | i < |edges|
      ensures i in PossiblePlaces(g, run, gone, failuresFinal, t) <==> possible(edges[i])
    {
      assert edges[i] in edges;
    }
    assert PossiblePlaces(g, run, gone, failuresFinal, t) == PlacesIf(possible, edges);
  }

  lemma DoomedHasNotEnough(g: DependencyGraph, run: RunState, failuresFinal: bool, gone: seq<TaskId>, t: TaskId)
    requires Indexed(g) && t in g.dependenciesOf && Doomed(g, run, failuresFinal, Elems(gone)) == Elems(gone)
    ensures var node := g.nodesById[t];
            var total := |g.dependenciesOf[t]| + node.crossPipelineEdgeCount;
            t in gone <==>
              && (t in run ==> run[t].status == None) && total > 0
              && !Enough(node, total,
                         node.crossPipelineEdgeCount + |PossiblePlaces(g, run, gone, failuresFinal, t)|)
  {
    PossiblePlacesAre(g, run, gone, failuresFinal, t);
    EnoughIsRequired(g, t, g.nodesById[t].crossPipelineEdgeCount + |PossiblePlaces(g, run, gone, failuresFinal, t)|);
    assert t in gone <==> t in Doomed(g, run, failuresFinal, Elems(gone));
  }

  /** The tasks listed in `ids` that can start. */
  function ReadyAmong(g: DependencyGraph, run: RunState, confirmed: map<TaskId, nat>, ids: seq<TaskId>): set<TaskId>
    requires Indexed(g)
  {
    set t | t in ids && t in g.dependenciesOf && IsReady(g, run, confirmed, t)
  }

  lemma OneMoreChecked(g: DependencyGraph, run: RunState, confirmed: map<TaskId, nat>, i: nat)
    requires Indexed(g) && i < |g.taskIds|
    ensures var t := g.taskIds[i];
            && t in g.dependenciesOf
            && ReadyAmong(g, run, confirmed, g.taskIds[..i + 1])
               == ReadyAmong(g, run, confirmed, g.taskIds[..i]) + if IsReady(g, run, confirmed, t) then {t} else {}
  {
    assert g.taskIds[i] in Elems(g.taskIds);
    assert g.taskIds[..i + 1] == g.taskIds[..i] + [g.taskIds[i]];
  }

  /** The sorted ids of the tasks that can start now. */
  method Ready(g: DependencyGraph, run: RunState, confirmed: map<TaskId, nat>) returns (result: seq<TaskId>)
    requires Indexed(g)
    ensures StrictlySorted(result)
    ensures forall t :: t in result <==> t in g.dependenciesOf && IsReady(g, run, confirmed, t)
    ensures forall t :: t in result <==> t in g.dependenciesOf && MayStart(g, run, confirmed, t)
  {
    var found: set<TaskId> := {};
    for i := 0 to |g.taskIds|
      invariant found == ReadyAmong(g, run, confirmed, g.taskIds[..i])
    {
      var t := g.taskIds[i];
      OneMoreChecked(g, run, confirmed, i);
      if StateOf(run, t).In(NOT_RETRYABLE) {
        continue;
      }
      var required := RequiredEdgeCount(g, t);
      var supplied := if t in confirmed then Some(confirmed[t]) else None;
      if SatisfiedEdgeCount(g, t, run, supplied) < required {
        continue;
      }
      if supplied.None? && WaitsOnUnfinishedUpstream(g, t, run, required) {
        continue;
      }
      found := found + {t};
    }
    assert g.taskIds[..|g.taskIds|] == g.taskIds;
    assert forall t :: t in g.taskIds <==> t in Elems(g.taskIds);
    forall t | t in g.dependenciesOf ensures IsReady(g, run, confirmed, t) <==> MayStart(g, run, confirmed, t) {
      ReadyMayStart(g, run, confirmed, t);
    }
    SortedIncreases(found);
    result := Sorted(found);
  }

  /** The run with every task of `skipped` recorded SKIPPED. */
  function WithSkipped(run: RunState, skipped: set<TaskId>): RunState {
    map t | t in run.Keys + skipped :: if t in skipped then SKIP else run[t]
  }

  /** The never-run tasks that are out of reach once the tasks of `skipped` are recorded SKIPPED. */
  function Doomed(g: DependencyGraph, run: RunState, failuresFinal: bool, skipped: set<TaskId>): set<TaskId>
    requires Indexed(g)
  {
    set t | t in g.dependenciesOf && NeverRun(run, t)
            && IsUnsatisfiable(g, t, WithSkipped(run, skipped), failuresFinal)
  }

  ghost predicate AllNeverRun(run: RunState, x: set<TaskId>) {
    forall t :: t in x ==> NeverRun(run, t)
  }

  /** The least set that holds every never-run task its own SKIPPED records put out of reach. */
  ghost predicate LeastDoomed(g: DependencyGraph, run: RunState, failuresFinal: bool, dead: set<TaskId>)
    requires Indexed(g)
  {
    && Doomed(g, run, failuresFinal, dead) == dead
    && forall x :: AllNeverRun(run, x) && Doomed(g, run, failuresFinal, x) <= x ==> dead <= x
  }

  lemma DoomedMonotone(g: DependencyGraph, run: RunState, failuresFinal: bool, a: set<TaskId>, b: set<TaskId>)
    requires Indexed(g) && a <= b
    requires AllNeverRun(run, b)
    ensures Doomed(g, run, failuresFinal, a) <= Doomed(g, run, failuresFinal, b)
  {
    forall t | t in Doomed(g, run, failuresFinal, a) ensures t in Doomed(g, run, failuresFinal, b) {
      var p, q := PossibleIn(WithSkipped(run, b), failuresFinal), PossibleIn(WithSkipped(run, a), failuresFinal);
      forall e | e in g.dependenciesOf[t] && p(e) ensures q(e) {
      }
      CountIfMonotone(p, q, g.dependenciesOf[t]);
    }
  }

  /** One pass of the search: never-run tasks not yet found that the state `known` puts out of reach. */
  function NewlyFound(g: DependencyGraph, known: RunState, failuresFinal: bool, found: set<TaskId>): set<TaskId>
    requires Indexed(g)
  {
    set t | t in g.dependenciesOf && t !in found && NeverRun(known, t) && IsUnsatisfiable(g, t, known, failuresFinal)
  }

  /** What each pass keeps: nothing found is in reach, and no closed set leaves out anything found. */
  ghost predicate Justified(g: DependencyGraph, run: RunState, failuresFinal: bool, found: set<TaskId>)
    requires Indexed(g)
  {
    && AllNeverRun(run, found)
    && found <= Doomed(g, run, failuresFinal, found)
    && forall x :: AllNeverRun(run, x) && Doomed(g, run, failuresFinal, x) <= x ==> found <= x
  }

  lemma PassKeepsJustified(g: DependencyGraph, run: RunState, failuresFinal: bool, found: set<TaskId>)
    requires Indexed(g) && Justified(g, run, failuresFinal, found)
    ensures var newly := NewlyFound(g, WithSkipped(run, found), failuresFinal, found);
            newly !! found && Justified(g, run, failuresFinal, found + newly)
  {
    var next := Doomed(g, run, failuresFinal, found);
    assert found + NewlyFound(g, WithSkipped(run, found), failuresFinal, found) == next;
    DoomedMonotone(g, run, failuresFinal, found, next);
    forall x | AllNeverRun(run, x) && Doomed(g, run, failuresFinal, x) <= x ensures next <= x {
      DoomedMonotone(g, run, failuresFinal, found, x);
    }
  }

  lemma SearchEnds(g: DependencyGraph, run: RunState, failuresFinal: bool, found: set<TaskId>)
    requires Indexed(g) && Justified(g, run, failuresFinal, found)
    requires NewlyFound(g, WithSkipped(run, found), failuresFinal, found) == {}
    ensures LeastDoomed(g, run, failuresFinal, found)
  {
    forall t | t in Doomed(g, run, failuresFinal, found) ensures t in found {
      assert t !in NewlyFound(g, WithSkipped(run, found), failuresFinal, found);
    }
  }

  /** Repeat the search until nothing changes. */
  method FindDoomed(g: DependencyGraph, run: RunState, failuresFinal: bool) returns (found: set<TaskId>)
    requires Indexed(g)
    ensures LeastDoomed(g, run, failuresFinal, found)
  {
    var known := run;
    found := {};
    while true
      invariant known == WithSkipped(run, found)
      invariant Justified(g, run, failuresFinal, found)
      decreases g.dependenciesOf.Keys - found
    {
      var newly := NewlyFound(g, known, failuresFinal, found);
      if newly == {} {
        SearchEnds(g, run, failuresFinal, found);
        return;
      }
      PassKeepsJustified(g, run, failuresFinal, found);
      found := found + newly;
      known := WithSkipped(run, found);
    }
  }

  /** The sorted ids of the never-run tasks that can never start. */
  method Unsatisfiable(g: DependencyGraph, run: RunState, failuresFinal: bool) returns (result: seq<TaskId>)
    requires Indexed(g)
    ensures LeastDoomed(g, run, failuresFinal, Elems(result))
    ensures StrictlySorted(result)
    ensures forall t :: t in result ==> t in g.dependenciesOf
    ensures forall t :: t in g.dependenciesOf ==>
              var node := g.nodesById[t];
              var total := |g.dependenciesOf[t]| + node.crossPipelineEdgeCount;
              t in result <==>
                && (t in run ==> run[t].status == None) && total > 0
                && !Enough(node, total,
                           node.crossPipelineEdgeCount + |PossiblePlaces(g, run, result, failuresFinal, t)|)
  {
    var found := FindDoomed(g, run, failuresFinal);
    SortedElems(found);
    SortedIncreases(found);
    result := Sorted(found);
    forall t | t in g.dependenciesOf
      ensures var node := g.nodesById[t];
              var total := |g.dependenciesOf[t]| + node.crossPipelineEdgeCount;
              t in result <==>
                && (t in run ==> run[t].status == None) && total > 0
                && !Enough(node, total,
                           node.crossPipelineEdgeCount + |PossiblePlaces(g, run, result, failuresFinal, t)|)
    {
      DoomedHasNotEnough(g, run, failuresFinal, result, t);
    }
  }
}
