/** Validation of the task and dependency rows, and the indexed graph they build. */
module GraphBuild {
  import opened Wrappers
  import opened Collections
  import opened TaskGraphs
  import CycleCheck

  datatype GraphError =
    | DuplicateTask
    | UnknownDependencyType(text: string)
    | UnknownTask(task: TaskId)
    | SelfDependency(task: TaskId)
    | BadRunCondition(task: TaskId)
    | DependencyCycle(cycle: seq<TaskId>)

  function TotalEdgeCount(g: DependencyGraph, t: TaskId): nat
    requires t in g.dependenciesOf && t in g.nodesById
  {
    |g.dependenciesOf[t]| + g.nodesById[t].crossPipelineEdgeCount
  }

  /** `ALL` counts every dependency, `ANY` one of at least one, `N` its own positive count. */
  ghost predicate ConditionFits(node: TaskNode, total: nat) {
    match node.runCondition
    case None => node.runConditionCount.None?
    case Some(UnknownCondition(_)) => false
    case Some(N) => node.runConditionCount.Some? && 1 <= node.runConditionCount.value <= total
    case Some(_) => node.runConditionCount.None?
  }

  /** Every graph that `BuildGraph` accepts. */
  ghost predicate Valid(g: DependencyGraph) {
    && Indexed(g)
    && Acyclic(g)
    && forall t :: t in g.nodesById ==> ConditionFits(g.nodesById[t], TotalEdgeCount(g, t))
  }

  /** Why one edge row is refused, given the ids of the tasks. */
  function EdgeFault(ids: set<TaskId>, edge: TaskEdge): Option<GraphError> {
    if edge.dependencyType.UnknownType? then Some(UnknownDependencyType(edge.dependencyType.text))
    else if edge.taskId !in ids then Some(UnknownTask(edge.taskId))
    else if edge.dependsOn !in ids then Some(UnknownTask(edge.dependsOn))
    else if edge.taskId == edge.dependsOn then Some(SelfDependency(edge.taskId))
    else None
  }

  ghost predicate EdgesFit(ids: set<TaskId>, edges: seq<TaskEdge>) {
    forall i :: 0 <= i < |edges| ==> EdgeFault(ids, edges[i]).None?
  }

  ghost predicate TaskFits(task: TaskNode, edges: seq<TaskEdge>) {
    ConditionFits(task, |EdgesOf(edges, task.taskId)| + task.crossPipelineEdgeCount)
  }

  /** The graph's index of the rows: each task's node and its edges in order. */
  ghost predicate IndexOfRows(g: DependencyGraph, tasks: seq<TaskNode>, edges: seq<TaskEdge>) {
    && g.taskIds == TaskIds(tasks)
    && g.nodesById.Keys == g.dependenciesOf.Keys == Elems(TaskIds(tasks))
    && (forall i :: 0 <= i < |tasks| ==> tasks[i].taskId in g.nodesById && g.nodesById[tasks[i].taskId] == tasks[i])
    && (forall t :: t in g.dependenciesOf ==> g.dependenciesOf[t] == EdgesOf(edges, t))
  }

  /** The rows pass every check but the last, which needs the whole graph. */
  ghost predicate RowsFit(tasks: seq<TaskNode>, edges: seq<TaskEdge>) {
    && Distinct(TaskIds(tasks))
    && EdgesFit(Elems(TaskIds(tasks)), edges)
    && forall i :: 0 <= i < |tasks| ==> TaskFits(tasks[i], edges)
  }

  ghost predicate RowUpstream(edges: seq<TaskEdge>, task: TaskId, upstream: TaskId) {
    exists e :: e in edges && e.taskId == task && e.dependsOn == upstream
  }

  /** A closed path through the raw edge rows. */
  ghost predicate RowCycle(edges: seq<TaskEdge>, p: seq<TaskId>) {
    && |p| >= 2 && p[0] == p[|p| - 1]
    && forall i :: 0 <= i < |p| - 1 ==> RowUpstream(edges, p[i], p[i + 1])
  }

  /** The error names the first row, in the order checked, that breaks a rule. */
  ghost predicate Explains(error: GraphError, tasks: seq<TaskNode>, edges: seq<TaskEdge>) {
    var ids := TaskIds(tasks);
    match error
    case DuplicateTask => !Distinct(ids)
    case BadRunCondition(t) =>
      && Distinct(ids) && EdgesFit(Elems(ids), edges)
      && exists i :: 0 <= i < |tasks| && tasks[i].taskId == t && !TaskFits(tasks[i], edges)
                     && forall j :: 0 <= j < i ==> TaskFits(tasks[j], edges)
    case DependencyCycle(c) =>
      RowsFit(tasks, edges) && RowCycle(edges, c) && Distinct(c[..|c| - 1])
    case _ =>
      && Distinct(ids)
      && exists i :: 0 <= i < |edges| && EdgeFault(Elems(ids), edges[i]) == Some(error)
                     && EdgesFit(Elems(ids), edges[..i])
  }

  lemma IndexedFromRows(g: DependencyGraph, tasks: seq<TaskNode>, edges: seq<TaskEdge>)
    requires RowsFit(tasks, edges) && IndexOfRows(g, tasks, edges)
    ensures Indexed(g)
    ensures forall t :: t in g.nodesById ==> ConditionFits(g.nodesById[t], TotalEdgeCount(g, t))
  {
    forall t, e | t in g.dependenciesOf && e in g.dependenciesOf[t]
      ensures e.taskId == t && e.dependsOn in g.dependenciesOf && e.dependsOn != t && !e.dependencyType.UnknownType?
    {
      var i :| 0 <= i < |edges| && edges[i] == e;
      assert EdgeFault(Elems(TaskIds(tasks)), edges[i]).None?;
    }
    forall t | t in g.nodesById ensures ConditionFits(g.nodesById[t], TotalEdgeCount(g, t)) {
      assert t in TaskIds(tasks);
      var i :| 0 <= i < |tasks| && TaskIds(tasks)[i] == t;
      assert TaskFits(tasks[i], edges);
    }
  }

  /** The index has a closed path exactly when the rows have that path. */
  lemma SamePaths(g: DependencyGraph, tasks: seq<TaskNode>, edges: seq<TaskEdge>, p: seq<TaskId>)
    requires RowsFit(tasks, edges) && IndexOfRows(g, tasks, edges)
    ensures ClosedPath(g, p) <==> RowCycle(edges, p)
  {
    var ids := Elems(TaskIds(tasks));
    assert forall e :: e in edges ==> EdgeFault(ids, e).None? by {
      assert EdgesFit(ids, edges);
    }
    forall t, u ensures Upstream(g, t, u) <==> RowUpstream(edges, t, u) {
      if e :| e in edges && e.taskId == t && e.dependsOn == u {
        assert EdgeFault(ids, e).None?;
        assert t in g.dependenciesOf && e in EdgesOf(edges, t);
      }
    }
  }

  /** The run-condition rule, checked as the source does. */
  method CheckRunCondition(task: TaskNode, total: nat) returns (ok: bool)
    ensures ok <==> ConditionFits(task, total)
  {
    if task.runCondition.None? {
      return task.runConditionCount.None?;
    }
    if task.runCondition.value.UnknownCondition? {
      return false;
    }
    if task.runCondition.value != N {
      return task.runConditionCount.None?;
    }
    if task.runConditionCount.None? || task.runConditionCount.value < 1 {
      return false;
    }
    return task.runConditionCount.value <= total;
  }

  method IndexNodes(tasks: seq<TaskNode>) returns (nodesById: map<TaskId, TaskNode>)
    requires Distinct(TaskIds(tasks))
    ensures nodesById.Keys == Elems(TaskIds(tasks))
    ensures forall j :: 0 <= j < |tasks| ==> tasks[j].taskId in nodesById && nodesById[tasks[j].taskId] == tasks[j]
  {
    var ids := TaskIds(tasks);
    nodesById := map[];
    for i := 0 to |tasks|
      invariant nodesById.Keys == Elems(ids[..i])
      invariant forall j :: 0 <= j < i ==> tasks[j].taskId in nodesById && nodesById[tasks[j].taskId] == tasks[j]
    {
      assert ids[..i + 1] == ids[..i] + [tasks[i].taskId];
      assert forall j :: 0 <= j < i ==> ids[j] != ids[i];
      nodesById := nodesById[tasks[i].taskId := tasks[i]];
    }
    assert ids[..|tasks|] == ids;
  }

  method IndexEdges(ids: seq<TaskId>, edges: seq<TaskEdge>) returns (dependenciesOf: map<TaskId, seq<TaskEdge>>)
    requires EdgesFit(Elems(ids), edges)
    ensures dependenciesOf.Keys == Elems(ids)
    ensures forall t :: t in dependenciesOf ==> dependenciesOf[t] == EdgesOf(edges, t)
  {
    dependenciesOf := map t | t in ids :: [];
    assert dependenciesOf.Keys == Elems(ids);
    for i := 0 to |edges|
      invariant dependenciesOf.Keys == Elems(ids)
      invariant forall t :: t in dependenciesOf ==> dependenciesOf[t] == EdgesOf(edges[..i], t)
    {
      var t := edges[i].taskId;
      assert EdgeFault(Elems(ids), edges[i]).None?;
      assert edges[..i + 1][..i] == edges[..i];
      dependenciesOf := dependenciesOf[t := dependenciesOf[t] + [edges[i]]];
    }
    assert edges[..|edges|] == edges;
  }

  /** The constructor: index the edges by the task that waits on them. */
  method IndexRows(tasks: seq<TaskNode>, edges: seq<TaskEdge>) returns (g: DependencyGraph)
    requires Distinct(TaskIds(tasks)) && EdgesFit(Elems(TaskIds(tasks)), edges)
    ensures IndexOfRows(g, tasks, edges)
  {
    var ids := TaskIds(tasks);
    var nodesById := IndexNodes(tasks);
    var dependenciesOf := IndexEdges(ids, edges);
    g := DependencyGraph(ids, nodesById, dependenciesOf);
  }

  lemma EdgesFitMore(ids: set<TaskId>, edges: seq<TaskEdge>, i: nat)
    requires i < |edges| && EdgesFit(ids, edges[..i]) && EdgeFault(ids, edges[i]).None?
    ensures EdgesFit(ids, edges[..i + 1])
  {
    assert edges[..i + 1] == edges[..i] + [edges[i]];
  }

  ghost function EdgeCounts(ids: set<TaskId>, edges: seq<TaskEdge>): map<TaskId, nat> {
    map t | t in ids :: |EdgesOf(edges, t)|
  }

  lemma OneMoreEdgeOf(edges: seq<TaskEdge>, i: nat, t: TaskId)
    requires i < |edges|
    ensures |EdgesOf(edges[..i + 1], t)| == |EdgesOf(edges[..i], t)| + if t == edges[i].taskId then 1 else 0
  {
    assert edges[..i + 1][..i] == edges[..i];
  }

  lemma OneCounted(before: map<TaskId, nat>, after: map<TaskId, nat>, task: TaskId)
    requires before.Keys == after.Keys && task in before
    requires forall t :: t in before ==> after[t] == before[t] + if t == task then 1 else 0
    ensures after == before[task := before[task] + 1]
  {
  }

  lemma CountOneMore(ids: set<TaskId>, edges: seq<TaskEdge>, i: nat)
    requires i < |edges| && edges[i].taskId in ids
    ensures edges[i].taskId in EdgeCounts(ids, edges[..i])
    ensures var before, t := EdgeCounts(ids, edges[..i]), edges[i].taskId;
            EdgeCounts(ids, edges[..i + 1]) == before[t := before[t] + 1]
  {
    var before, after := EdgeCounts(ids, edges[..i]), EdgeCounts(ids, edges[..i + 1]);
    forall t | t in ids ensures after[t] == before[t] + if t == edges[i].taskId then 1 else 0 {
      OneMoreEdgeOf(edges, i, t);
    }
    OneCounted(before, after, edges[i].taskId);
  }

  /** The edge rows in order, counting each task's own; stops at the first fault. */
  method CheckEdges(ids: seq<TaskId>, edges: seq<TaskEdge>)
    returns (fault: Option<GraphError>, edgeCount: map<TaskId, nat>)
    ensures fault.None? <==> EdgesFit(Elems(ids), edges)
    ensures fault.Some? ==> exists i :: 0 <= i < |edges| && EdgeFault(Elems(ids), edges[i]) == fault
                                        && EdgesFit(Elems(ids), edges[..i])
    ensures fault.None? ==> edgeCount == EdgeCounts(Elems(ids), edges)
  {
    edgeCount := map t | t in Elems(ids) :: 0;
    for i := 0 to |edges|
      invariant EdgesFit(Elems(ids), edges[..i])
      invariant edgeCount == EdgeCounts(Elems(ids), edges[..i])
    {
      fault := EdgeFault(Elems(ids), edges[i]);
      if fault.Some? {
        return;
      }
      EdgesFitMore(Elems(ids), edges, i);
      CountOneMore(Elems(ids), edges, i);
      var t := edges[i].taskId;
      edgeCount := edgeCount[t := edgeCount[t] + 1];
    }
    assert edges[..|edges|] == edges;
    fault := None;
  }

  /** The first task whose run condition and count do not fit its dependencies, if any. */
  method CheckConditions(tasks: seq<TaskNode>, ghost edges: seq<TaskEdge>, edgeCount: map<TaskId, nat>)
    returns (bad: Option<TaskId>)
    requires edgeCount == EdgeCounts(Elems(TaskIds(tasks)), edges)
    ensures bad.None? <==> forall i :: 0 <= i < |tasks| ==> TaskFits(tasks[i], edges)
    ensures bad.Some? ==> exists i :: 0 <= i < |tasks| && tasks[i].taskId == bad.value && !TaskFits(tasks[i], edges)
                                      && forall j :: 0 <= j < i ==> TaskFits(tasks[j], edges)
  {
    for i := 0 to |tasks|
      invariant forall j :: 0 <= j < i ==> TaskFits(tasks[j], edges)
    {
      assert TaskIds(tasks)[i] in TaskIds(tasks);
      var ok := CheckRunCondition(tasks[i], edgeCount[tasks[i].taskId] + tasks[i].crossPipelineEdgeCount);
      if !ok {
        return Some(tasks[i].taskId);
      }
    }
    bad := None;
  }

  // The rules once more, on the rows alone.

  ghost predicate HasTask(tasks: seq<TaskNode>, t: TaskId) {
    exists i :: 0 <= i < |tasks| && tasks[i].taskId == t
  }

  ghost function EdgePlaces(edges: seq<TaskEdge>, t: TaskId): set<nat> {
    set k: nat | k < |edges| && edges[k].taskId == t
  }

  /** How many edge rows, and cross-pipeline edges, a task waits on. */
  ghost function RowCount(task: TaskNode, edges: seq<TaskEdge>): nat {
    task.crossPipelineEdgeCount + |EdgePlaces(edges, task.taskId)|
  }

  /** `N` needs a count of at least one and at most the dependencies there are; no other condition takes a count. */
  ghost predicate CountFits(task: TaskNode, edges: seq<TaskEdge>) {
    || ((task.runCondition == None || task.runCondition == Some(All) || task.runCondition == Some(Any))
        && task.runConditionCount == None)
    || (task.runCondition == Some(N) && task.runConditionCount.Some?
        && 1 <= task.runConditionCount.value <= RowCount(task, edges))
  }

  /** Different tasks, edges of known types between two of them, fitting counts, and no way round in a circle. */
  ghost predicate AcceptedRows(tasks: seq<TaskNode>, edges: seq<TaskEdge>) {
    && (forall i, j :: 0 <= i < j < |tasks| ==> tasks[i].taskId != tasks[j].taskId)
    && (forall e :: e in edges ==>
          e.dependencyType in {SuccessEdge, FailureEdge, AlwaysEdge, HasDataEdge} && e.taskId != e.dependsOn
          && HasTask(tasks, e.taskId) && HasTask(tasks, e.dependsOn))
    && (forall task :: task in tasks ==> CountFits(task, edges))
    && !exists p :: RowCycle(edges, p)
  }

  /** The fault that an error names is there. */
  ghost predicate FaultIsThere(error: GraphError, tasks: seq<TaskNode>, edges: seq<TaskEdge>) {
    match error
    case DuplicateTask => exists i, j :: 0 <= i < j < |tasks| && tasks[i].taskId == tasks[j].taskId
    case UnknownDependencyType(text) => exists e :: e in edges && e.dependencyType == UnknownType(text)
    case UnknownTask(t) => !HasTask(tasks, t) && exists e :: e in edges && (e.taskId == t || e.dependsOn == t)
    case SelfDependency(t) => exists e :: e in edges && e.taskId == t == e.dependsOn
    case BadRunCondition(t) => exists task :: task in tasks && task.taskId == t && !CountFits(task, edges)
    case DependencyCycle(c) => RowCycle(edges, c)
  }

  lemma EdgePlacesMore(edges: seq<TaskEdge>, last: TaskEdge, t: TaskId)
    ensures |EdgePlaces(edges + [last], t)| == |EdgePlaces(edges, t)| + if last.taskId == t then 1 else 0
  {
    assert EdgePlaces(edges + [last], t) == EdgePlaces(edges, t) + if last.taskId == t then {|edges|} else {};
  }

  lemma {:induction false} EdgesOfCount(edges: seq<TaskEdge>, t: TaskId)
    ensures |EdgesOf(edges, t)| == |EdgePlaces(edges, t)|
  {
    if edges == [] {
      assert EdgePlaces(edges, t) == {};
    } else {
      var front, last := edges[..|edges| - 1], edges[|edges| - 1];
      EdgesOfCount(front, t);
      EdgePlacesMore(front, last, t);
      assert edges == front + [last];
    }
  }

  lemma CountFitsIs(task: TaskNode, edges: seq<TaskEdge>)
    ensures TaskFits(task, edges) <==> CountFits(task, edges)
  {
    EdgesOfCount(edges, task.taskId);
  }

  lemma IsTask(tasks: seq<TaskNode>, t: TaskId)
    ensures t in Elems(TaskIds(tasks)) <==> HasTask(tasks, t)
  {
    if i :| 0 <= i < |tasks| && tasks[i].taskId == t {
      assert TaskIds(tasks)[i] == t;
    }
  }

  lemma DifferentTasks(tasks: seq<TaskNode>)
    ensures Distinct(TaskIds(tasks)) <==> forall i, j :: 0 <= i < j < |tasks| ==> tasks[i].taskId != tasks[j].taskId
  {
    var ids := TaskIds(tasks);
    assert forall i :: 0 <= i < |tasks| ==> ids[i] == tasks[i].taskId;
  }

  lemma KnownEdge(tasks: seq<TaskNode>, e: TaskEdge)
    ensures EdgeFault(Elems(TaskIds(tasks)), e).None? <==>
            e.dependencyType in {SuccessEdge, FailureEdge, AlwaysEdge, HasDataEdge} && e.taskId != e.dependsOn
            && HasTask(tasks, e.taskId) && HasTask(tasks, e.dependsOn)
  {
    IsTask(tasks, e.taskId);
    IsTask(tasks, e.dependsOn);
  }

  lemma RowsFitAre(tasks: seq<TaskNode>, edges: seq<TaskEdge>)
    ensures RowsFit(tasks, edges) && !(exists p :: RowCycle(edges, p)) <==> AcceptedRows(tasks, edges)
  {
    DifferentTasks(tasks);
    forall e | e in edges
      ensures EdgeFault(Elems(TaskIds(tasks)), e).None? <==>
              e.dependencyType in {SuccessEdge, FailureEdge, AlwaysEdge, HasDataEdge} && e.taskId != e.dependsOn
              && HasTask(tasks, e.taskId) && HasTask(tasks, e.dependsOn)
    {
      KnownEdge(tasks, e);
    }
    assert EdgesFit(Elems(TaskIds(tasks)), edges)
           <==> forall e :: e in edges ==> EdgeFault(Elems(TaskIds(tasks)), e).None?;
    forall i | 0 <= i < |tasks| ensures TaskFits(tasks[i], edges) <==> CountFits(tasks[i], edges) {
      CountFitsIs(tasks[i], edges);
    }
  }

  lemma ExplainedIsThere(error: GraphError, tasks: seq<TaskNode>, edges: seq<TaskEdge>)
    requires Explains(error, tasks, edges)
    ensures FaultIsThere(error, tasks, edges)
  {
    DifferentTasks(tasks);
    match error
    case UnknownTask(t) => IsTask(tasks, t);
    case BadRunCondition(t) =>
      var i :| 0 <= i < |tasks| && tasks[i].taskId == t && !TaskFits(tasks[i], edges);
      CountFitsIs(tasks[i], edges);
    case _ =>
  }

  /** Accepts exactly the rows that fit and have no cycle; a refusal names the first broken rule. */
  method BuildGraph(tasks: seq<TaskNode>, edges: seq<TaskEdge>) returns (r: Result<DependencyGraph, GraphError>)
    ensures r.Ok? <==> RowsFit(tasks, edges) && !exists p :: RowCycle(edges, p)
    ensures r.Ok? ==> IndexOfRows(r.value, tasks, edges) && Valid(r.value)
    ensures r.Ok? <==> AcceptedRows(tasks, edges)
    ensures r.Err? ==> Explains(r.error, tasks, edges) && FaultIsThere(r.error, tasks, edges)
  {
    var ids := TaskIds(tasks);
    RowsFitAre(tasks, edges);
    DistinctByCount(ids);
    if |Elems(ids)| != |ids| {
      ExplainedIsThere(DuplicateTask, tasks, edges);
      return Err(DuplicateTask);
    }
    var fault, edgeCount := CheckEdges(ids, edges);
    if fault.Some? {
      ExplainedIsThere(fault.value, tasks, edges);
      return Err(fault.value);
    }
    var bad := CheckConditions(tasks, edges, edgeCount);
    if bad.Some? {
      ExplainedIsThere(BadRunCondition(bad.value), tasks, edges);
      return Err(BadRunCondition(bad.value));
    }
    var g := IndexRows(tasks, edges);
    IndexedFromRows(g, tasks, edges);
    forall p ensures ClosedPath(g, p) <==> RowCycle(edges, p) {
      SamePaths(g, tasks, edges, p);
    }
    var cycle := CycleCheck.CheckAcyclic(g);
    if cycle.Some? {
      return Err(DependencyCycle(cycle.value));
    }
    return Ok(g);
  }
}
