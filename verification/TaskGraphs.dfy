/** The same-pipeline task graph: rows, the indexed graph, its dependency relation and its paths. */
module TaskGraphs {
  import opened Wrappers
  import opened Collections

  /** An Engine DB identity key. */
  type TaskId = nat

  datatype DependencyType = SuccessEdge | FailureEdge | AlwaysEdge | HasDataEdge | UnknownType(text: string)

  datatype RunCondition = All | Any | N | UnknownCondition(text: string)

  datatype TaskNode = TaskNode(
    taskId: TaskId,
    runCondition: Option<RunCondition>,
    runConditionCount: Option<int>,
    crossPipelineEdgeCount: nat)

  /** `taskId` waits on `dependsOn`. */
  datatype TaskEdge = TaskEdge(taskId: TaskId, dependsOn: TaskId, dependencyType: DependencyType)

  datatype DependencyGraph = DependencyGraph(
    taskIds: seq<TaskId>,
    nodesById: map<TaskId, TaskNode>,
    dependenciesOf: map<TaskId, seq<TaskEdge>>)

  /** The edges one task waits on, in the order they were supplied. */
  function EdgesOf(edges: seq<TaskEdge>, task: TaskId): (r: seq<TaskEdge>)
    ensures forall e :: e in r <==> e in edges && e.taskId == task
  {
    if edges == [] then []
    else
      var last := edges[|edges| - 1];
      EdgesOf(edges[..|edges| - 1], task) + (if last.taskId == task then [last] else [])
  }

  function TaskIds(tasks: seq<TaskNode>): seq<TaskId> {
    seq(|tasks|, i requires 0 <= i < |tasks| => tasks[i].taskId)
  }

  /** What the indexing loop of the constructor establishes, and validation relies on. */
  ghost predicate Indexed(g: DependencyGraph) {
    && Distinct(g.taskIds)
    && g.nodesById.Keys == Elems(g.taskIds)
    && g.dependenciesOf.Keys == Elems(g.taskIds)
    && forall t, e :: t in g.dependenciesOf && e in g.dependenciesOf[t]
         ==> e.taskId == t && e.dependsOn in g.dependenciesOf && e.dependsOn != t && !e.dependencyType.UnknownType?
  }

  ghost predicate Upstream(g: DependencyGraph, task: TaskId, upstream: TaskId) {
    task in g.dependenciesOf && exists e :: e in g.dependenciesOf[task] && e.dependsOn == upstream
  }

  /** Consecutive tasks of `p`, each waiting on the next. */
  ghost predicate Chain(g: DependencyGraph, p: seq<TaskId>) {
    forall i :: 0 <= i < |p| - 1 ==> Upstream(g, p[i], p[i + 1])
  }

  /** A closed path of dependency edges: it ends where it began. */
  ghost predicate ClosedPath(g: DependencyGraph, p: seq<TaskId>) {
    |p| >= 2 && p[0] == p[|p| - 1] && Chain(g, p)
  }

  ghost predicate Acyclic(g: DependencyGraph) {
    forall p :: !ClosedPath(g, p)
  }

  /** What `CycleError` carries: a closed path whose ids, the repeated last one aside, are distinct. */
  ghost predicate SimpleCycle(g: DependencyGraph, p: seq<TaskId>) {
    ClosedPath(g, p) && Distinct(p[..|p| - 1])
  }

  function IndexOf(path: seq<TaskId>, t: TaskId): (k: nat)
    requires t in path
    ensures k < |path| && path[k] == t
    ensures t !in path[..k]
  {
    if path[0] == t then 0
    else
      var k := 1 + IndexOf(path[1..], t);
      assert path[..k] == [path[0]] + path[1..][..k - 1];
      k
  }

  /** An edge from the end of a duplicate-free chain back into it closes a simple cycle. */
  lemma BackEdgeClosesCycle(g: DependencyGraph, path: seq<TaskId>, u: TaskId)
    requires path != [] && Distinct(path) && Chain(g, path)
    requires u in path && Upstream(g, path[|path| - 1], u)
    ensures SimpleCycle(g, path[IndexOf(path, u)..] + [u])
  {
    var k := IndexOf(path, u);
    var c := path[k..] + [u];
    forall i | 0 <= i < |c| - 1 ensures Upstream(g, c[i], c[i + 1]) {
      if i + 1 < |c| - 1 {
        assert Upstream(g, path[k + i], path[k + i + 1]);
      }
    }
    assert c[..|c| - 1] == path[k..];
  }

  /** Every task appears after all its upstreams. */
  ghost predicate UpstreamsFirst(g: DependencyGraph, order: seq<TaskId>) {
    forall i, u :: 0 <= i < |order| && Upstream(g, order[i], u) ==> u in order[..i]
  }

  /** Along a chain inside an upstreams-first order, positions fall. */
  lemma {:induction false} ChainFallsInOrder(g: DependencyGraph, order: seq<TaskId>, p: seq<TaskId>, start: nat)
    requires Distinct(order) && UpstreamsFirst(g, order)
    requires p != [] && Chain(g, p)
    requires start < |order| && order[start] == p[0]
    ensures exists k :: 0 <= k <= start && order[k] == p[|p| - 1] && (|p| > 1 ==> k < start)
  {
    if |p| > 1 {
      assert Upstream(g, p[0], p[1]);
      assert p[1] in order[..start];
      var k :| 0 <= k < start && order[k] == p[1];
      assert Chain(g, p[1..]) by {
        forall i | 0 <= i < |p[1..]| - 1 ensures Upstream(g, p[1..][i], p[1..][i + 1]) {
          assert Upstream(g, p[i + 1], p[i + 2]);
        }
      }
      ChainFallsInOrder(g, order, p[1..], k);
    }
  }

  lemma OrderedIsAcyclic(g: DependencyGraph, order: seq<TaskId>)
    requires Indexed(g)
    requires Distinct(order) && UpstreamsFirst(g, order) && Elems(order) == g.dependenciesOf.Keys
    ensures Acyclic(g)
  {
    forall p ensures !ClosedPath(g, p) {
      if ClosedPath(g, p) {
        assert Upstream(g, p[0], p[1]);
        assert p[0] in Elems(order);
        var start :| 0 <= start < |order| && order[start] == p[0];
        ChainFallsInOrder(g, order, p, start);
      }
    }
  }

  ghost predicate HasUpstreamIn(g: DependencyGraph, t: TaskId, s: set<TaskId>) {
    exists u :: u in s && Upstream(g, t, u)
  }

  ghost function UpstreamIn(g: DependencyGraph, t: TaskId, s: set<TaskId>): (u: TaskId)
    requires HasUpstreamIn(g, t, s)
    ensures u in s && Upstream(g, t, u)
  {
    var u :| u in s && Upstream(g, t, u);
    u
  }

  lemma ExtendChain(g: DependencyGraph, path: seq<TaskId>, u: TaskId)
    requires path != [] && Chain(g, path) && Upstream(g, path[|path| - 1], u)
    ensures Chain(g, path + [u])
  {
    var longer := path + [u];
    forall i | 0 <= i < |longer| - 1 ensures Upstream(g, longer[i], longer[i + 1]) {
      if i < |path| - 1 {
        assert Upstream(g, path[i], path[i + 1]);
      }
    }
  }

  /** A nonempty set whose every member waits on a member holds a cycle: walk upstream until a task repeats. */
  lemma {:induction false} WalkCloses(g: DependencyGraph, s: set<TaskId>, next: map<TaskId, TaskId>, path: seq<TaskId>)
    returns (closed: seq<TaskId>)
    requires next.Keys == s
    requires forall t {:trigger next[t]} :: t in s ==> next[t] in s && Upstream(g, t, next[t])
    requires path != [] && Distinct(path) && Elems(path) <= s && Chain(g, path)
    ensures ClosedPath(g, closed)
    decreases |s| - |path|
  {
    var last := path[|path| - 1];
    assert last in Elems(path);
    var u := next[last];
    if u in path {
      BackEdgeClosesCycle(g, path, u);
      closed := path[IndexOf(path, u)..] + [u];
    } else {
      ExtendChain(g, path, u);
      AppendDistinct(path, u);
      DistinctFits(path + [u], s);
      closed := WalkCloses(g, s, next, path + [u]);
    }
  }

  lemma StuckCloses(g: DependencyGraph, s: set<TaskId>, t: TaskId)
    requires t in s
    requires forall t {:trigger HasUpstreamIn(g, t, s)} :: t in s ==> HasUpstreamIn(g, t, s)
    ensures exists p :: ClosedPath(g, p)
  {
    var next := map t | t in s :: UpstreamIn(g, t, s);
    var closed := WalkCloses(g, s, next, [t]);
  }

  /** Some member of a nonempty set of tasks has no upstream inside the set. */
  lemma SourceExists(g: DependencyGraph, s: set<TaskId>)
    requires Acyclic(g) && s != {}
    ensures exists t :: t in s && !HasUpstreamIn(g, t, s)
  {
    var t :| t in s;
    if forall t {:trigger HasUpstreamIn(g, t, s)} :: t in s ==> HasUpstreamIn(g, t, s) {
      StuckCloses(g, s, t);
    }
  }

  lemma FirstIn(g: DependencyGraph, s: set<TaskId>) returns (t: TaskId)
    requires Acyclic(g) && s != {}
    ensures t in s
    ensures forall u :: Upstream(g, t, u) ==> u !in s
  {
    SourceExists(g, s);
    t :| t in s && !HasUpstreamIn(g, t, s);
  }
}
