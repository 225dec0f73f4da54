/** What every run keeps about the tasks `Unsatisfiable` reports, whatever else happens in it. */
module RunSafety {
  import opened Wrappers
  import opened Collections
  import opened TaskGraphs
  import opened Readiness

  const RUNNING := TaskRunState(Some(InProgress), None, None)

  /** What can happen to one task of a run. `confirmed` is what the cross-pipeline gate has confirmed so far. */
  datatype Event =
    | Start(task: TaskId, confirmed: map<TaskId, nat>)
    | Record(task: TaskId, outcome: TaskRunState)
    | Skip(task: TaskId)
    | Cancel(task: TaskId)

  /** The gate never confirms more cross-pipeline dependencies than a task has. */
  ghost predicate GateFits(g: DependencyGraph, confirmed: map<TaskId, nat>) {
    forall t :: t in confirmed && t in g.nodesById ==> confirmed[t] <= g.nodesById[t].crossPipelineEdgeCount
  }

  /** Only ready tasks start, and a final failure is not retried; only unfinished attempts get an outcome. */
  ghost predicate CanHappen(g: DependencyGraph, run: RunState, failuresFinal: bool, event: Event)
    requires Indexed(g)
  {
    && event.task in g.dependenciesOf
    && match event
       case Start(t, confirmed) =>
         GateFits(g, confirmed) && IsReady(g, run, confirmed, t)
         && (failuresFinal ==> !StateOf(run, t).In({Failed}))
       case Record(t, outcome) => StateOf(run, t).In({Queued, InProgress}) && outcome.status.Some?
       case Skip(t) => NeverRun(run, t)
       case Cancel(t) => NeverRun(run, t) || StateOf(run, t).In({Queued, InProgress})
  }

  function After(run: RunState, event: Event): RunState {
    match event
    case Start(t, _) => run[t := RUNNING]
    case Record(t, outcome) => run[t := outcome]
    case Skip(t) => run[t := SKIP]
    case Cancel(t) => run[t := TaskRunState(Some(Cancelled), None, None)]
  }

  ghost predicate CanRun(g: DependencyGraph, run: RunState, failuresFinal: bool, events: seq<Event>)
    requires Indexed(g)
    decreases |events|
  {
    events == []
    || (CanHappen(g, run, failuresFinal, events[0]) && CanRun(g, After(run, events[0]), failuresFinal, events[1..]))
  }

  function AfterAll(run: RunState, events: seq<Event>): RunState
    decreases |events|
  {
    if events == [] then run else AfterAll(After(run, events[0]), events[1..])
  }

  /** Between `before` and `now` no reported task ran, and settled states stayed as they were. */
  ghost predicate StillDead(g: DependencyGraph, before: RunState, failuresFinal: bool, dead: set<TaskId>,
                            now: RunState) {
    && (forall t :: t in dead ==> NeverRun(now, t) || StateOf(now, t).In({Skipped, Cancelled}))
    && (forall t :: t in g.dependenciesOf
          && (StateOf(before, t).In(SETTLED) || (failuresFinal && StateOf(before, t).In({Failed})))
          ==> StateOf(now, t) == StateOf(before, t))
  }

  /** An edge that could not be met once `dead` was skipped is not met now either. */
  lemma LostEdgeStaysUnmet(g: DependencyGraph, before: RunState, failuresFinal: bool, dead: set<TaskId>,
                           now: RunState, e: TaskEdge)
    requires StillDead(g, before, failuresFinal, dead, now)
    requires e.dependsOn in g.dependenciesOf
    requires !PossibleIn(WithSkipped(before, dead), failuresFinal)(e)
    ensures !SatisfiedIn(now)(e)
  {
  }

  lemma DeadIsNotReady(g: DependencyGraph, before: RunState, failuresFinal: bool, dead: set<TaskId>,
                       now: RunState, confirmed: map<TaskId, nat>, t: TaskId)
    requires Indexed(g) && LeastDoomed(g, before, failuresFinal, dead)
    requires StillDead(g, before, failuresFinal, dead, now)
    requires t in dead && GateFits(g, confirmed)
    ensures !IsReady(g, now, confirmed, t)
  {
    assert t in Doomed(g, before, failuresFinal, dead);
    var p, q := SatisfiedIn(now), PossibleIn(WithSkipped(before, dead), failuresFinal);
    forall e | e in g.dependenciesOf[t] && p(e) ensures q(e) {
      if !q(e) {
        LostEdgeStaysUnmet(g, before, failuresFinal, dead, now, e);
      }
    }
    CountIfMonotone(p, q, g.dependenciesOf[t]);
  }

  /** A task whose state was open may take any state, unless it is dead. */
  lemma ChangeKeepsDead(g: DependencyGraph, before: RunState, failuresFinal: bool, dead: set<TaskId>,
                        now: RunState, t: TaskId, state: TaskRunState)
    requires StillDead(g, before, failuresFinal, dead, now)
    requires t in dead ==> state.In({Skipped, Cancelled})
    requires !StateOf(before, t).In(SETTLED) && !(failuresFinal && StateOf(before, t).In({Failed}))
    ensures StillDead(g, before, failuresFinal, dead, now[t := state])
  {
  }

  lemma EventKeepsDead(g: DependencyGraph, before: RunState, failuresFinal: bool, dead: set<TaskId>,
                       now: RunState, event: Event)
    requires Indexed(g) && LeastDoomed(g, before, failuresFinal, dead)
    requires StillDead(g, before, failuresFinal, dead, now)
    requires CanHappen(g, now, failuresFinal, event)
    ensures StillDead(g, before, failuresFinal, dead, After(now, event))
  {
    var t := event.task;
    if event.Start? && t in dead {
      DeadIsNotReady(g, before, failuresFinal, dead, now, event.confirmed, t);
    }
    ChangeKeepsDead(g, before, failuresFinal, dead, now, t, StateOf(After(now, event), t));
  }

  lemma {:induction false} RunKeepsDead(g: DependencyGraph, before: RunState, failuresFinal: bool,
      dead: set<TaskId>, now: RunState, events: seq<Event>)
    requires Indexed(g) && LeastDoomed(g, before, failuresFinal, dead)
    requires StillDead(g, before, failuresFinal, dead, now)
    requires CanRun(g, now, failuresFinal, events)
    ensures StillDead(g, before, failuresFinal, dead, AfterAll(now, events))
    ensures forall event :: event in events && event.Start? ==> event.task !in dead
    decreases |events|
  {
    if events != [] {
      var event := events[0];
      if event.Start? && event.task in dead {
        DeadIsNotReady(g, before, failuresFinal, dead, now, event.confirmed, event.task);
      }
      EventKeepsDead(g, before, failuresFinal, dead, now, event);
      RunKeepsDead(g, before, failuresFinal, dead, After(now, event), events[1..]);
      assert forall e :: e in events ==> e == event || e in events[1..];
    }
  }

  /** A never-run task reported unsatisfiable never starts, and is not ready in any later state of the run. */
  lemma UnsatisfiableNeverReady(g: DependencyGraph, run: RunState, failuresFinal: bool, dead: set<TaskId>,
      events: seq<Event>, confirmed: map<TaskId, nat>, t: TaskId)
    requires Indexed(g) && LeastDoomed(g, run, failuresFinal, dead) && t in dead
    requires CanRun(g, run, failuresFinal, events) && GateFits(g, confirmed)
    ensures !IsReady(g, AfterAll(run, events), confirmed, t)
    ensures forall event :: event in events && event.Start? ==> event.task != t
  {
    forall t | t in dead ensures NeverRun(run, t) {
      assert t in Doomed(g, run, failuresFinal, dead);
    }
    RunKeepsDead(g, run, failuresFinal, dead, run, events);
    DeadIsNotReady(g, run, failuresFinal, dead, AfterAll(run, events), confirmed, t);
  }
}
