/** The agent's running tasks, their published leases and the child's watcher. */
module AgentTasks {
  import opened Wrappers
  import opened LeaseFence

  /** One supervised child. `file` is what its lease file says, `cancel` whether its supervisor was told to stop it. */
  class RunningTask {
    const attempt: nat
    var deadline: int
    var file: Option<int>
    var fenced: bool
    var cancel: bool
    var cancelled: bool

    /** The child is told exactly the deadline the agent goes by. */
    ghost predicate Published()
      reads this
    {
      file == Some(deadline)
    }

    constructor (attempt: nat, started: int, budget: int)
      ensures Published() && this.attempt == attempt && !fenced && !cancel && !cancelled
      ensures deadline == Deadline(started, budget)
    {
      this.attempt, fenced, cancel, cancelled := attempt, false, false, false;
      deadline := Deadline(started, budget);
      file := Some(Deadline(started, budget));
    }

    method Lease(deadline: int)
      modifies this`deadline, this`file
      ensures Published() && this.deadline == deadline
    {
      this.deadline := deadline;
      file := Some(deadline);
    }
  }

  /** `s` is the lease protocol's view of a task while its agent is up: the child reads what the task published. */
  ghost predicate Shows(task: RunningTask, s: State)
    reads task
  {
    s.agentUp && s.file == task.file
  }

  /** The agent finds a task's deadline passed exactly when the child's next poll would end it. */
  lemma FencedExactlyWhenPollEnds(task: RunningTask, s: State)
    requires task.Published() && Shows(task, s) && s.child.Alive?
    ensures s.now >= task.deadline <==> After(s, Poll).child == Gone
  {
  }

  /** In every run within the timing bounds, a task the agent has not fenced is still the server's for a margin. */
  lemma UnfencedIsHeld(task: RunningTask, now: nat, steps: seq<Step>, limits: Limits)
    requires limits.poll <= 15_000 && limits.latest + limits.poll < 60_000
    requires Run(Initial(now), steps, limits).Some?
    requires task.Published() && Shows(task, Run(Initial(now), steps, limits).value)
    ensures var s := Run(Initial(now), steps, limits).value;
            s.now < task.deadline ==> s.expiry.Some? && s.now + 15_000 < s.expiry.value
  {
    RunCovers(Initial(now), steps, limits);
  }

  /** What a renewal says about one task of the request. */
  twostate predicate Renewed(task: RunningTask, current: bool, started: int, budget: int, renewed: set<nat>,
                             cancelled: set<nat>)
    reads task
  {
    && task.deadline == (if task.attempt in renewed && current then started + budget - 15_000 else old(task.deadline))
    && task.file == (if task.attempt in renewed && current then Some(task.deadline) else old(task.file))
    && (task.fenced <==> old(task.fenced) || task.attempt !in renewed)
    && (task.cancelled <==> old(task.cancelled) || task.attempt in cancelled)
    && (task.cancel <==> old(task.cancel) || task.attempt !in renewed || task.attempt in cancelled)
  }

  /** For each task a renewal is one protocol step or none: a granted task that still runs has its reply delivered, and
      any other shows what it showed. */
  twostate lemma RenewalSteps(task: RunningTask, current: bool, started: nat, renewed: set<nat>, cancelled: set<nat>,
                              s: State, limits: Limits)
    requires Renewed(task, current, started, LEASE, renewed, cancelled) && old(Shows(task, s))
    requires task.attempt in renewed && current ==> Enabled(s, Deliver(started), limits)
    ensures Shows(task, if task.attempt in renewed && current then After(s, Deliver(started)) else s)
  {
  }

  class AgentLoop {
    var tasks: map<nat, RunningTask>

    /** Every task is filed under its own attempt and publishes the deadline it goes by. */
    ghost predicate Valid()
      reads this, tasks.Values
    {
      forall id :: id in tasks ==> tasks[id] in tasks.Values && tasks[id].attempt == id && tasks[id].Published()
    }

    constructor ()
      ensures Valid() && tasks == map[]
    {
      tasks := map[];
    }

    /** Admit a claimed task with a deadline counted from `started`, when its claim began; with the server's lease as
        budget it shows what the protocol delivers for that claim. */
    method Start(attempt: nat, started: int, budget: int) returns (task: RunningTask)
      requires Valid()
      modifies this
      ensures Valid() && fresh(task) && tasks == old(tasks)[attempt := task]
      ensures task.deadline == started + budget - 15_000 && !task.fenced && !task.cancel
      ensures forall s: State, limits: Limits ::
                budget == LEASE && started >= 0 && Enabled(s, Deliver(started), limits)
                ==> Shows(task, After(s, Deliver(started)))
    {
      task := new RunningTask(attempt, started, budget);
      tasks := tasks[attempt := task];
    }

    /** Apply the reply to a renewal that began at `started` and named the tasks of `asked`. Tasks that ended since keep
        their lease, tasks the server no longer grants are fenced. */
    method Renew(asked: seq<RunningTask>, started: int, budget: int, renewed: set<nat>, cancelled: set<nat>)
      requires Valid() && forall i, j :: 0 <= i < j < |asked| ==> asked[i] != asked[j]
      modifies asked
      ensures Valid()
      ensures forall task :: task in asked ==>
                Renewed(task, task.attempt in tasks && tasks[task.attempt] == task, started, budget, renewed, cancelled)
    {
      for i := 0 to |asked|
        invariant Valid()
        invariant forall k :: 0 <= k < i ==>
                    Renewed(asked[k], asked[k].attempt in tasks && tasks[asked[k].attempt] == asked[k], started,
                            budget, renewed, cancelled)
        invariant forall k :: i <= k < |asked| ==> unchanged(asked[k])
      {
        var task := asked[i];
        if task.attempt !in renewed {
          task.fenced, task.cancel := true, true;
        } else if task.attempt in tasks && tasks[task.attempt] == task {
          task.Lease(Deadline(started, budget));
        }
        if task.attempt in cancelled {
          task.cancelled, task.cancel := true, true;
        }
      }
    }

    /** Fence every task whose deadline has passed, whether or not the server could be reached. */
    method FenceExpired(snapshot: seq<RunningTask>, now: int)
      requires Valid()
      modifies snapshot
      ensures Valid()
      ensures forall task :: task in snapshot ==>
                && task.deadline == old(task.deadline) && task.file == old(task.file)
                && task.cancelled == old(task.cancelled)
                && (task.fenced <==> old(task.fenced) || now >= task.deadline)
                && (task.cancel <==> old(task.cancel) || now >= task.deadline)
    {
      for i := 0 to |snapshot|
        invariant Valid()
        invariant forall task :: task in snapshot ==>
                    && task.deadline == old(task.deadline) && task.file == old(task.file)
                    && task.cancelled == old(task.cancelled)
        invariant forall k :: 0 <= k < i ==>
                    && (snapshot[k].fenced <==> old(snapshot[k].fenced) || now >= snapshot[k].deadline)
                    && (snapshot[k].cancel <==> old(snapshot[k].cancel) || now >= snapshot[k].deadline)
        invariant forall task :: task in snapshot && task !in snapshot[..i] ==> unchanged(task)
      {
        var task := snapshot[i];
        assert task in snapshot[..i] ==> exists k :: 0 <= k < i && snapshot[k] == task;
        if now >= task.deadline {
          task.fenced, task.cancel := true, true;
        }
        assert snapshot[..i + 1] == snapshot[..i] + [task];
      }
      assert snapshot[..|snapshot|] == snapshot;
    }
  }

  /** What the watcher sees on one poll: the lease file when it holds a number, the agent's identity, the clock. */
  datatype Reading = Reading(file: Option<int>, sameAgent: bool, clock: nat)

  predicate Stops(r: Reading) {
    Fences(r.file, r.sameAgent, r.clock)
  }

  /** The child's watcher kills its group on the first poll that finds the lease over, its file gone or its agent
      gone. */
  method Watch(readings: seq<Reading>) returns (killed: Option<nat>)
    ensures killed.Some? ==> killed.value < |readings| && Stops(readings[killed.value])
    ensures forall k :: 0 <= k < (if killed.Some? then killed.value else |readings|) ==> !Stops(readings[k])
  {
    for i := 0 to |readings|
      invariant forall k :: 0 <= k < i ==> !Stops(readings[k])
    {
      var deadline := if readings[i].file.Some? then readings[i].file.value else 0;
      if !readings[i].sameAgent || readings[i].clock >= deadline {
        return Some(i);
      }
    }
    return None;
  }
}
