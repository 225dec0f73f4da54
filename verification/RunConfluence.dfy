/** Whole runs with fixed fates: every order of steps ends where evaluating wave by wave ends. */
module RunConfluence {
  import opened Wrappers
  import opened Collections
  import opened TaskGraphs
  import opened TaskOrder
  import opened Readiness
  import opened RunSafety

  /** What each task's attempt would end as, and how many cross-pipeline dependencies its gate confirms. */
  datatype Fates = Fates(outcome: map<TaskId, TaskRunState>, confirmed: map<TaskId, nat>)

  ghost predicate FatesFit(g: DependencyGraph, f: Fates) {
    && f.outcome.Keys == f.confirmed.Keys == g.dependenciesOf.Keys
    && GateFits(g, f.confirmed)
    && forall t :: t in f.outcome ==> f.outcome[t].In({Success, Failed, Skipped})
  }

  /** A run to begin or resume: each task has no row yet, or has finished. */
  ghost predicate CanBegin(g: DependencyGraph, start: RunState) {
    forall t :: t in g.dependenciesOf ==> NeverRun(start, t) || StateOf(start, t).In(TERMINAL)
  }

  /** Enough of `t`'s dependencies are met in `run`, with the cross-pipeline ones its gate confirms. */
  ghost predicate Admitted(g: DependencyGraph, f: Fates, run: RunState, t: TaskId)
    requires Indexed(g) && t in g.dependenciesOf && t in f.confirmed
  {
    SatisfiedEdgeCount(g, t, run, Some(f.confirmed[t])) >= RequiredEdgeCount(g, t)
  }

  ghost function Verdict(g: DependencyGraph, f: Fates, run: RunState, t: TaskId): TaskRunState
    requires Indexed(g) && FatesFit(g, f) && t in g.dependenciesOf
  {
    if Admitted(g, f, run, t) then f.outcome[t] else SKIP
  }

  /** The state after evaluating the first `n` waves, each from the states of the ones before. */
  ghost function Evaluated(g: DependencyGraph, f: Fates, start: RunState, n: nat): RunState
    requires Indexed(g) && FatesFit(g, f)
  {
    if n == 0 then start
    else
      var before := Evaluated(g, f, start, n - 1);
      before + map t | t in DepthSet(g, n - 1) && NeverRun(start, t) :: Verdict(g, f, before, t)
  }

  ghost function Final(g: DependencyGraph, f: Fates, start: RunState): RunState
    requires Indexed(g) && FatesFit(g, f)
  {
    Evaluated(g, f, start, |g.taskIds|)
  }

  /** A chain with as many edges as there are tasks repeats a task, so it holds a closed path. */
  lemma LongChainCloses(g: DependencyGraph, p: seq<TaskId>)
    requires Indexed(g) && Chain(g, p) && |p| == |g.taskIds| + 1 && p[0] in g.dependenciesOf
    ensures exists q :: ClosedPath(g, q)
  {
    forall i | 0 <= i < |p| ensures p[i] in g.dependenciesOf {
      if i > 0 {
        assert Upstream(g, p[i - 1], p[i]);
      }
    }
    DistinctCardinality(g.taskIds);
    assert !Distinct(p) by {
      if Distinct(p) {
        DistinctFits(p, g.dependenciesOf.Keys);
      }
    }
    var i, j :| 0 <= i < j < |p| && p[i] == p[j];
    var loop := p[i..j + 1];
    forall k | 0 <= k < |loop| - 1 ensures Upstream(g, loop[k], loop[k + 1]) {
      assert Upstream(g, p[i + k], p[i + k + 1]);
    }
    assert ClosedPath(g, loop);
  }

  lemma AllWithin(g: DependencyGraph)
    requires Indexed(g) && Acyclic(g)
    ensures Within(g, |g.taskIds|) == g.dependenciesOf.Keys
  {
    forall t | t in g.dependenciesOf ensures !HasChain(g, t, |g.taskIds|) {
      if HasChain(g, t, |g.taskIds|) {
        var p: seq<TaskId> :| |p| == |g.taskIds| + 1 && p[0] == t && Chain(g, p);
        LongChainCloses(g, p);
      }
    }
  }

  /** A task's state changes only in its own wave. */
  lemma {:induction false} EvaluatedFrozen(g: DependencyGraph, f: Fates, start: RunState, m: nat, n: nat, t: TaskId)
    requires Indexed(g) && FatesFit(g, f) && m <= n
    requires forall k :: m <= k < n ==> t !in DepthSet(g, k)
    ensures StateOf(Evaluated(g, f, start, n), t) == StateOf(Evaluated(g, f, start, m), t)
    decreases n
  {
    if m < n {
      EvaluatedFrozen(g, f, start, m, n - 1, t);
    }
  }

  /** States that agree on every upstream of `t` judge it alike. */
  lemma VerdictFromUpstreams(g: DependencyGraph, f: Fates, a: RunState, b: RunState, t: TaskId)
    requires Indexed(g) && FatesFit(g, f) && t in g.dependenciesOf
    requires forall e :: e in g.dependenciesOf[t] ==> StateOf(a, e.dependsOn) == StateOf(b, e.dependsOn)
    ensures Verdict(g, f, a, t) == Verdict(g, f, b, t)
  {
    CountIfSame(SatisfiedIn(a), SatisfiedIn(b), g.dependenciesOf[t]);
  }

  lemma UpstreamIsShallower(g: DependencyGraph, t: TaskId, u: TaskId, n: nat, k: nat)
    requires Upstream(g, t, u) && t in DepthSet(g, n) && u in DepthSet(g, k)
    ensures k < n
  {
    if n <= k {
      ShorterChains(g, u, n, k);
      ChainStep(g, t, n);
    }
  }

  /** A task keeps its first state up to its own wave, and the state judged there from then on. */
  lemma JudgedOnce(g: DependencyGraph, f: Fates, start: RunState, t: TaskId, d: nat, n: nat)
    requires Indexed(g) && FatesFit(g, f) && t in DepthSet(g, d) && d < n
    ensures StateOf(Evaluated(g, f, start, n), t)
            == if NeverRun(start, t) then Verdict(g, f, Evaluated(g, f, start, d), t) else StateOf(start, t)
  {
    forall k | k != d && t in DepthSet(g, k) ensures false {
      DepthUnique(g, t, k, d);
    }
    EvaluatedFrozen(g, f, start, 0, d, t);
    EvaluatedFrozen(g, f, start, d + 1, n, t);
  }

  lemma UpstreamsJudgedBefore(g: DependencyGraph, f: Fates, start: RunState, t: TaskId, u: TaskId, d: nat, n: nat)
    requires Indexed(g) && FatesFit(g, f) && t in DepthSet(g, d) && d < n && Upstream(g, t, u)
    ensures StateOf(Evaluated(g, f, start, d), u) == StateOf(Evaluated(g, f, start, n), u)
  {
    forall k | d <= k < n && u in DepthSet(g, k) ensures false {
      UpstreamIsShallower(g, t, u, d, k);
    }
    EvaluatedFrozen(g, f, start, d, n, u);
  }

  /** The wave-by-wave result is a fixed point: each never-run task's state is its verdict in that very result. */
  lemma FinalIsVerdict(g: DependencyGraph, f: Fates, start: RunState, t: TaskId)
    requires Indexed(g) && Acyclic(g) && FatesFit(g, f) && t in g.dependenciesOf
    ensures StateOf(Final(g, f, start), t)
            == if NeverRun(start, t) then Verdict(g, f, Final(g, f, start), t) else StateOf(start, t)
  {
    var n := |g.taskIds|;
    AllWithin(g);
    WithinHasDepth(g, t, n);
    var d :| 0 <= d < n && t in DepthSet(g, d);
    JudgedOnce(g, f, start, t, d, n);
    forall e | e in g.dependenciesOf[t]
      ensures StateOf(Evaluated(g, f, start, d), e.dependsOn) == StateOf(Final(g, f, start), e.dependsOn)
    {
      assert Upstream(g, t, e.dependsOn);
      UpstreamsJudgedBefore(g, f, start, t, e.dependsOn, d, n);
    }
    VerdictFromUpstreams(g, f, Evaluated(g, f, start, d), Final(g, f, start), t);
  }
}
