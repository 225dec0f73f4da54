/** One task attempt's lease between the server, the agent that holds it and the child process that runs it. */
module LeaseFence {
  import opened Wrappers

  /** Milliseconds. */
  const FENCE_MARGIN: nat := 15_000
  const LEASE: nat := 60_000

  /** A child polls its lease file; `polled` is when it last found itself allowed to run, or when it was launched. */
  datatype Child = NotStarted | Alive(polled: nat) | Gone

  /** `expiry` is the server's lease, `asked` the start times of requests the server has not answered, `replies` those
      of granted requests whose answer has not arrived, `file` the deadline the agent published for the child. */
  datatype State = State(now: nat, expiry: Option<nat>, asked: set<nat>, replies: set<nat>, file: Option<int>,
                         child: Child, agentUp: bool)

  datatype Step =
    | Elapse(d: nat)
    | Ask
    | Grant(started: nat)
    | Refuse(started: nat)
    | RenewOwn
    | Deliver(started: nat)
    | LoseFile
    | Launch
    | Poll
    | Kill
    | Crash

  /** `poll` is the longest time a live child goes without polling, `latest` the longest time after the request of its
      published lease began at which the agent still launches the child. */
  datatype Limits = Limits(poll: nat, latest: nat)

  /** The deadline published for a lease of `budget` asked for at `started`. */
  function Deadline(started: int, budget: int): int {
    started + budget - FENCE_MARGIN
  }

  /** What the watcher reads on one poll: the lease file, whether its agent is the one that launched it, the clock. */
  predicate Fences(file: Option<int>, agentUp: bool, now: int) {
    !agentUp || file.None? || now >= file.value
  }

  predicate Enabled(s: State, step: Step, limits: Limits) {
    match step
    case Elapse(d) => s.child.Alive? ==> s.now + d <= s.child.polled + limits.poll
    case Ask => s.agentUp
    case Grant(r) => r in s.asked && (s.expiry.Some? ==> s.now < s.expiry.value)
    case Refuse(r) => r in s.asked
    case RenewOwn => s.child.Alive? && s.expiry.Some? && s.now < s.expiry.value
    case Deliver(r) => r in s.replies && s.agentUp
    case LoseFile => true
    case Launch =>
      && s.agentUp && s.file.Some? && s.child.NotStarted?
      && s.now <= s.file.value - Deadline(0, LEASE) + limits.latest
    case Poll => s.child.Alive?
    case Kill => s.child.Alive?
    case Crash => true
  }

  function After(s: State, step: Step): State {
    match step
    case Elapse(d) => s.(now := s.now + d)
    case Ask => s.(asked := s.asked + {s.now})
    case Grant(r) => s.(expiry := Some(s.now + LEASE), asked := s.asked - {r}, replies := s.replies + {r})
    case Refuse(r) => s.(asked := s.asked - {r})
    case RenewOwn => s.(expiry := Some(s.now + LEASE))
    case Deliver(r) => s.(file := Some(Deadline(r, LEASE)), replies := s.replies - {r})
    case LoseFile => s.(file := None)
    case Launch => s.(child := Alive(s.now))
    case Poll => s.(child := if Fences(s.file, s.agentUp, s.now) then Gone else Alive(s.now))
    case Kill => s.(child := Gone)
    case Crash => s.(agentUp := false)
  }

  function Initial(now: nat): State {
    State(now, None, {}, {}, None, NotStarted, true)
  }

  /** The state after a run, when every step was enabled in turn. */
  function Run(s: State, steps: seq<Step>, limits: Limits): Option<State>
    decreases |steps|
  {
    if steps == [] then Some(s)
    else if Enabled(s, steps[0], limits) then Run(After(s, steps[0]), steps[1..], limits)
    else None
  }

  /** The server still holds the lease of a child that is alive. */
  predicate Safe(s: State) {
    s.child.Alive? ==> s.expiry.Some? && s.now < s.expiry.value
  }

  /** No interleaving of requests, lost, late or reordered replies, polls and crashes leaves a child alive past its
      lease. */
  ghost predicate FenceHolds(limits: Limits) {
    forall now: nat, steps: seq<Step> ::
      Run(Initial(now), steps, limits).Some? ==> Safe(Run(Initial(now), steps, limits).value)
  }

  /** Every start the agent may publish a deadline for is covered by the server's lease, and a child's last poll came
      early enough for the lease to outlast the gap to its next. */
  ghost predicate Covered(s: State, limits: Limits) {
    && (forall r :: r in s.asked ==> r <= s.now)
    && (forall r :: r in s.replies ==> s.expiry.Some? && r + LEASE <= s.expiry.value)
    && (s.file.Some? ==> s.expiry.Some? && s.file.value + FENCE_MARGIN <= s.expiry.value)
    && (s.expiry.Some? ==> s.expiry.value <= s.now + LEASE)
    && (s.child.Alive? ==>
          && s.expiry.Some? && s.child.polled + limits.poll < s.expiry.value
          && s.now <= s.child.polled + limits.poll)
  }

  lemma {:induction false} RunCovers(s: State, steps: seq<Step>, limits: Limits)
    requires Covered(s, limits) && Run(s, steps, limits).Some?
    requires limits.poll <= FENCE_MARGIN && limits.latest + limits.poll < LEASE
    ensures Covered(Run(s, steps, limits).value, limits)
    decreases |steps|
  {
    if steps != [] {
      RunCovers(After(s, steps[0]), steps[1..], limits);
    }
  }

  /** Nothing keeps requests from being lost, granted or refused, replies from arriving, the file from vanishing or the
      agent from dying: the protocol allows each in every state where it can happen. */
  lemma EnvironmentIsFree(s: State, r: nat, limits: Limits)
    ensures Enabled(s, LoseFile, limits) && Enabled(s, Crash, limits)
    ensures s.agentUp ==> Enabled(s, Ask, limits) && s.now in After(s, Ask).asked
    ensures r in s.asked ==> Enabled(s, Refuse(r), limits) && r !in After(s, Refuse(r)).asked
    ensures r in s.asked && (s.expiry == None || s.now < s.expiry.value) ==>
              Enabled(s, Grant(r), limits) && r in After(s, Grant(r)).replies
              && After(s, Grant(r)).expiry == Some(s.now + 60_000)
    ensures s.agentUp && r in s.replies ==>
              Enabled(s, Deliver(r), limits) && After(s, Deliver(r)).file == Some(r + 60_000 - 15_000)
    ensures s.child.Alive? && s.expiry.Some? && s.now < s.expiry.value ==>
              Enabled(s, RenewOwn, limits) && After(s, RenewOwn).expiry == Some(s.now + 60_000)
  {
  }

  /** After its agent's death, the loss of its file or the end of its deadline a child does not outlive its next poll;
      otherwise it does. */
  lemma PollEnds(s: State, limits: Limits)
    requires s.child.Alive?
    ensures Enabled(s, Poll, limits) && Enabled(s, Kill, limits) && After(s, Kill).child == Gone
    ensures After(After(s, Crash), Poll).child == Gone && After(After(s, LoseFile), Poll).child == Gone
    ensures After(s, Poll).child == if !s.agentUp || s.file == None || s.file.value <= s.now then Gone else Alive(s.now)
  {
  }

  lemma RunOne(s: State, step: Step, rest: seq<Step>, limits: Limits)
    requires Enabled(s, step, limits)
    ensures Run(s, [step] + rest, limits) == Run(After(s, step), rest, limits)
  {
    assert ([step] + rest)[1..] == rest;
  }

  /** Claimed and granted at once; the child is ready to launch. */
  function Claimed(limits: Limits): State {
    State(0, Some(LEASE), {}, {}, Some(Deadline(0, LEASE)), NotStarted, true)
  }

  lemma ClaimRuns(rest: seq<Step>, limits: Limits)
    ensures Run(Initial(0), [Ask] + ([Grant(0)] + ([Deliver(0)] + rest)), limits) == Run(Claimed(limits), rest, limits)
  {
    var s0 := Initial(0);
    RunOne(s0, Ask, [Grant(0)] + ([Deliver(0)] + rest), limits);
    var s1 := After(s0, Ask);
    RunOne(s1, Grant(0), [Deliver(0)] + rest, limits);
    var s2 := After(s1, Grant(0));
    RunOne(s2, Deliver(0), rest, limits);
    assert s1.asked - {0} == {} && s2.replies - {0} == {};
  }

  /** A child launched at the last allowed moment outlives a lease that ends before its first poll. */
  lemma LateLaunchOutlives(limits: Limits)
    requires limits.latest + limits.poll >= LEASE
    ensures !FenceHolds(limits)
  {
    var c := Claimed(limits);
    var end: seq<Step> := [];
    RunOne(After(After(c, Elapse(limits.latest)), Launch), Elapse(limits.poll), end, limits);
    RunOne(After(c, Elapse(limits.latest)), Launch, [Elapse(limits.poll)] + end, limits);
    RunOne(c, Elapse(limits.latest), [Launch] + ([Elapse(limits.poll)] + end), limits);
    ClaimRuns([Elapse(limits.latest)] + ([Launch] + ([Elapse(limits.poll)] + end)), limits);
  }

  /** Polls every millisecond until just before the deadline. */
  function Polling(n: nat): seq<Step> {
    if n == 0 then [] else [Elapse(1)] + ([Poll] + Polling(n - 1))
  }

  lemma {:induction false} PollingRuns(s: State, n: nat, rest: seq<Step>, limits: Limits)
    requires s.child == Alive(s.now) && s.agentUp && s.file.Some? && s.now + n < s.file.value && limits.poll >= 1
    ensures Run(s, Polling(n) + rest, limits) == Run(s.(now := s.now + n, child := Alive(s.now + n)), rest, limits)
    decreases n
  {
    if n == 0 {
      assert Polling(0) + rest == rest;
    } else {
      assert Polling(n) + rest == [Elapse(1)] + ([Poll] + (Polling(n - 1) + rest));
      RunOne(s, Elapse(1), [Poll] + (Polling(n - 1) + rest), limits);
      RunOne(After(s, Elapse(1)), Poll, Polling(n - 1) + rest, limits);
      PollingRuns(After(After(s, Elapse(1)), Poll), n - 1, rest, limits);
    }
  }

  /** A poll just before the deadline lets the child run on for longer than the margin. */
  lemma SlowPollOutlives(limits: Limits)
    requires limits.poll > FENCE_MARGIN
    ensures !FenceHolds(limits)
  {
    var c := Claimed(limits);
    var s := After(c, Launch);
    var n: nat := LEASE - FENCE_MARGIN - 1;
    var last := s.(now := n, child := Alive(n));
    var end: seq<Step> := [];
    RunOne(last, Elapse(FENCE_MARGIN + 1), end, limits);
    PollingRuns(s, n, [Elapse(FENCE_MARGIN + 1)] + end, limits);
    RunOne(c, Launch, Polling(n) + ([Elapse(FENCE_MARGIN + 1)] + end), limits);
    ClaimRuns([Launch] + (Polling(n) + ([Elapse(FENCE_MARGIN + 1)] + end)), limits);
  }

  /** The fence holds over every run exactly when a child polls at least once per margin and is launched soon enough
      after its claim began that its first poll still falls within the lease. */
  lemma FenceHoldsExactlyWhen(limits: Limits)
    ensures FenceHolds(limits) <==> limits.poll <= 15_000 && limits.latest + limits.poll < 60_000
  {
    if limits.poll <= FENCE_MARGIN && limits.latest + limits.poll < LEASE {
      forall now: nat, steps: seq<Step> | Run(Initial(now), steps, limits).Some?
        ensures Safe(Run(Initial(now), steps, limits).value)
      {
        RunCovers(Initial(now), steps, limits);
      }
    } else if limits.poll > FENCE_MARGIN {
      SlowPollOutlives(limits);
    } else {
      LateLaunchOutlives(limits);
    }
  }
}
