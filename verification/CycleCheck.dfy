/** The depth-first cycle check with an explicit stack of resumable frames. */
module CycleCheck {
  import opened Wrappers
  import opened Collections
  import opened TaskGraphs

  datatype Color = White | Gray | Black

  /** A stack frame: a task and how many of its upstreams its iterator has yielded. */
  datatype Frame = Frame(task: TaskId, yielded: nat)

  /** The state of the search; `finished` lists the black tasks in the order they turned black. */
  ghost predicate Searching(g: DependencyGraph, color: map<TaskId, Color>, path: seq<TaskId>,
                            stack: seq<Frame>, finished: seq<TaskId>) {
    && color.Keys == g.dependenciesOf.Keys
    && Distinct(path) && Distinct(finished)
    && Chain(g, path)
    && (forall t :: t in path <==> t in color && color[t] == Gray)
    && (forall t :: t in finished <==> t in color && color[t] == Black)
    && UpstreamsFirst(g, finished)
    && FramesFollow(g, path, stack, finished)
  }

  /** Frame `k` holds task `path[k]`; what its iterator yielded is finished, or is the next frame's task. */
  ghost predicate FramesFollow(g: DependencyGraph, path: seq<TaskId>, stack: seq<Frame>, finished: seq<TaskId>) {
    && |path| == |stack|
    && (forall k :: 0 <= k < |path| ==>
          && stack[k].task == path[k]
          && path[k] in g.dependenciesOf
          && stack[k].yielded <= |g.dependenciesOf[path[k]]|)
    && (forall k, j :: 0 <= k < |path| && 0 <= j < stack[k].yielded ==>
          var u := g.dependenciesOf[path[k]][j].dependsOn;
          u in finished || (k + 1 < |path| && u == path[k + 1]))
  }

  /** A task whose iterator is exhausted joins the finished ones without breaking their order. */
  lemma FinishKeepsOrder(g: DependencyGraph, finished: seq<TaskId>, t: TaskId)
    requires UpstreamsFirst(g, finished)
    requires forall u :: Upstream(g, t, u) ==> u in finished
    ensures UpstreamsFirst(g, finished + [t])
  {
    var order := finished + [t];
    forall i, u | 0 <= i < |order| && Upstream(g, order[i], u) ensures u in order[..i] {
      if i < |finished| {
        assert order[..i] == finished[..i];
      } else {
        assert order[..i] == finished;
      }
    }
  }

  function Top(stack: seq<Frame>): Frame
    requires stack != []
  {
    stack[|stack| - 1]
  }

  /** The top frame with one more upstream yielded. */
  function Yield(stack: seq<Frame>): seq<Frame>
    requires stack != []
  {
    stack[..|stack| - 1] + [Frame(Top(stack).task, Top(stack).yielded + 1)]
  }

  lemma PushKeeps(g: DependencyGraph, color: map<TaskId, Color>, path: seq<TaskId>,
                  stack: seq<Frame>, finished: seq<TaskId>, u: TaskId)
    requires Searching(g, color, path, stack, finished) && stack != []
    requires Top(stack).yielded < |g.dependenciesOf[Top(stack).task]|
    requires g.dependenciesOf[Top(stack).task][Top(stack).yielded].dependsOn == u
    requires u in color && color[u] == White
    ensures Searching(g, color[u := Gray], path + [u], Yield(stack) + [Frame(u, 0)], finished)
  {
    var top := |path| - 1;
    assert g.dependenciesOf[path[top]][stack[top].yielded] in g.dependenciesOf[path[top]];
    assert Upstream(g, path[top], u);
    assert Chain(g, path + [u]) by {
      forall i | 0 <= i < |path| ensures Upstream(g, (path + [u])[i], (path + [u])[i + 1]) {
        if i < top {
          assert Upstream(g, path[i], path[i + 1]);
        }
      }
    }
    assert FramesFollow(g, path + [u], Yield(stack) + [Frame(u, 0)], finished);
  }

  /** The exhausted iterator of the top frame yielded every upstream of its task, and all of them are finished. */
  lemma TopUpstreamsFinished(g: DependencyGraph, path: seq<TaskId>, stack: seq<Frame>, finished: seq<TaskId>, u: TaskId)
    requires FramesFollow(g, path, stack, finished) && stack != []
    requires Top(stack).yielded == |g.dependenciesOf[Top(stack).task]| && Upstream(g, Top(stack).task, u)
    ensures u in finished
  {
    var top := |path| - 1;
    var e :| e in g.dependenciesOf[path[top]] && e.dependsOn == u;
    var j :| 0 <= j < |g.dependenciesOf[path[top]]| && g.dependenciesOf[path[top]][j] == e;
    assert 0 <= j < stack[top].yielded;
  }

  lemma PopKeeps(g: DependencyGraph, color: map<TaskId, Color>, path: seq<TaskId>,
                 stack: seq<Frame>, finished: seq<TaskId>)
    requires Searching(g, color, path, stack, finished) && stack != []
    requires Top(stack).yielded == |g.dependenciesOf[Top(stack).task]|
    ensures Searching(g, color[Top(stack).task := Black], path[..|path| - 1], stack[..|stack| - 1],
                      finished + [Top(stack).task])
  {
    var top := |path| - 1;
    var task := path[top];
    forall u | Upstream(g, task, u) ensures u in finished {
      TopUpstreamsFinished(g, path, stack, finished, u);
    }
    FinishKeepsOrder(g, finished, task);
    assert path == path[..top] + [task];
  }

  function Whites(color: map<TaskId, Color>): set<TaskId> {
    set t | t in color && color[t] == White
  }

  lemma BlackeningKeepsWhites(color: map<TaskId, Color>, t: TaskId)
    requires t in color && color[t] == Gray
    ensures Whites(color[t := Black]) == Whites(color)
  {
  }

  /** `None` for an acyclic graph; otherwise the cycle that `CycleError` reports. */
  method CheckAcyclic(g: DependencyGraph) returns (cycle: Option<seq<TaskId>>)
    requires Indexed(g)
    ensures cycle.None? <==> Acyclic(g)
    ensures cycle.Some? ==> SimpleCycle(g, cycle.value)
  {
    var color: map<TaskId, Color> := map t | t in g.dependenciesOf :: White;
    ghost var finished: seq<TaskId> := [];
    for i := 0 to |g.taskIds|
      invariant Searching(g, color, [], [], finished)
      invariant forall j :: 0 <= j < i ==> g.taskIds[j] in finished
    {
      var root := g.taskIds[i];
      assert root in Elems(g.taskIds);
      if color[root] == White {
        cycle, color, finished := Descend(g, color, root, finished);
        if cycle.Some? {
          return;
        }
      }
    }
    assert Elems(finished) == g.dependenciesOf.Keys by {
      assert forall t :: t in g.dependenciesOf ==> t in Elems(g.taskIds);
    }
    OrderedIsAcyclic(g, finished);
    cycle := None;
  }

  /** The top task's next unfinished upstream: a gray one closes a cycle, a white one is descended into. */
  method NextUpstream(g: DependencyGraph, color: map<TaskId, Color>, path: seq<TaskId>, stack: seq<Frame>,
                      ghost finished: seq<TaskId>)
    returns (cycle: Option<seq<TaskId>>, descended: bool, color': map<TaskId, Color>, path': seq<TaskId>,
             stack': seq<Frame>)
    requires Indexed(g) && Searching(g, color, path, stack, finished) && stack != []
    ensures cycle.Some? ==> SimpleCycle(g, cycle.value)
    ensures cycle.None? ==> Searching(g, color', path', stack', finished) && path <= path'
    ensures cycle.None? && descended ==> Whites(color') < Whites(color)
    ensures cycle.None? && !descended ==>
              && color' == color && path' == path && |stack'| == |stack|
              && Top(stack').yielded == |g.dependenciesOf[Top(stack').task]|
  {
    var task := Top(stack).task;
    assert path[|path| - 1] == task;
    cycle, descended, color', path', stack' := None, false, color, path, stack;
    while Top(stack').yielded < |g.dependenciesOf[task]|
      invariant |stack'| == |stack| && Top(stack').task == task && Searching(g, color, path, stack', finished)
      decreases |g.dependenciesOf[task]| - Top(stack').yielded
    {
      var edge := g.dependenciesOf[task][Top(stack').yielded];
      var upstream := edge.dependsOn;
      assert edge in g.dependenciesOf[task];
      if color[upstream] == Gray {
        assert Upstream(g, task, upstream);
        BackEdgeClosesCycle(g, path, upstream);
        cycle := Some(path[IndexOf(path, upstream)..] + [upstream]);
        return;
      }
      if color[upstream] == White {
        PushKeeps(g, color, path, stack', finished, upstream);
        assert upstream in Whites(color);
        color', path', stack' := color[upstream := Gray], path + [upstream], Yield(stack') + [Frame(upstream, 0)];
        descended := true;
        return;
      }
      stack' := Yield(stack');
    }
  }

  /** The search from one white root: either it closes a cycle, or it blackens the root and empties its stack. */
  method Descend(g: DependencyGraph, before: map<TaskId, Color>, root: TaskId, ghost finishedBefore: seq<TaskId>)
    returns (cycle: Option<seq<TaskId>>, color: map<TaskId, Color>, ghost finished: seq<TaskId>)
    requires Indexed(g) && Searching(g, before, [], [], finishedBefore)
    requires root in before && before[root] == White
    ensures cycle.Some? ==> SimpleCycle(g, cycle.value)
    ensures cycle.None? ==> Searching(g, color, [], [], finished)
    ensures cycle.None? ==> finishedBefore <= finished && root in finished
  {
    color, finished := before[root := Gray], finishedBefore;
    var path, stack := [root], [Frame(root, 0)];
    while stack != []
      invariant Searching(g, color, path, stack, finished)
      invariant finishedBefore <= finished
      invariant if path == [] then root in finished else path[0] == root
      decreases Whites(color), |stack|
    {
      var descended;
      cycle, descended, color, path, stack := NextUpstream(g, color, path, stack, finished);
      if cycle.Some? {
        return;
      }
      if !descended {
        var task := Top(stack).task;
        assert path[|path| - 1] == task;
        BlackeningKeepsWhites(color, task);
        PopKeeps(g, color, path, stack, finished);
        color, finished := color[task := Black], finished + [task];
        path, stack := path[..|path| - 1], stack[..|stack| - 1];
      }
    }
    cycle := None;
  }
}
