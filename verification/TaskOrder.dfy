/** The static order: waves of tasks, and everything downstream of a task. */
module TaskOrder {
  import opened Collections
  import opened TaskGraphs

  /** Some chain of `n` dependency edges leads upstream from `t`. */
  ghost predicate HasChain(g: DependencyGraph, t: TaskId, n: nat) {
    exists p :: |p| == n + 1 && p[0] == t && Chain(g, p)
  }

  /** The longest chain upstream of `t` has exactly `n` edges. */
  ghost predicate Depth(g: DependencyGraph, t: TaskId, n: nat) {
    HasChain(g, t, n) && !HasChain(g, t, n + 1)
  }

  lemma ChainStep(g: DependencyGraph, t: TaskId, n: nat)
    ensures HasChain(g, t, n + 1) <==> exists u :: Upstream(g, t, u) && HasChain(g, u, n)
  {
    if HasChain(g, t, n + 1) {
      var p :| |p| == n + 2 && p[0] == t && Chain(g, p);
      assert Upstream(g, p[0], p[1]);
      assert Chain(g, p[1..]) by {
        forall i | 0 <= i < n ensures Upstream(g, p[1..][i], p[1..][i + 1]) {
          assert Upstream(g, p[i + 1], p[i + 2]);
        }
      }
      assert HasChain(g, p[1], n);
    }
    if u :| Upstream(g, t, u) && HasChain(g, u, n) {
      var p :| |p| == n + 1 && p[0] == u && Chain(g, p);
      var q := [t] + p;
      forall i | 0 <= i < |q| - 1 ensures Upstream(g, q[i], q[i + 1]) {
        if i > 0 {
          assert Upstream(g, p[i - 1], p[i]);
        }
      }
      assert |q| == n + 2 && q[0] == t && Chain(g, q);
    }
  }

  lemma {:induction false} ShorterChains(g: DependencyGraph, t: TaskId, m: nat, n: nat)
    requires m <= n && HasChain(g, t, n)
    ensures HasChain(g, t, m)
  {
    var p :| |p| == n + 1 && p[0] == t && Chain(g, p);
    var q := p[..m + 1];
    forall i | 0 <= i < |q| - 1 ensures Upstream(g, q[i], q[i + 1]) {
      assert Upstream(g, p[i], p[i + 1]);
    }
    assert |q| == m + 1 && q[0] == t && Chain(g, q);
  }

  lemma DepthUnique(g: DependencyGraph, t: TaskId, m: nat, n: nat)
    requires Depth(g, t, m) && Depth(g, t, n)
    ensures m == n
  {
    if m < n {
      ShorterChains(g, t, m + 1, n);
    } else if n < m {
      ShorterChains(g, t, n + 1, m);
    }
  }

  /** Any numbering that puts each task after its upstreams gives a task at least its depth. */
  lemma {:induction false} DepthIsEarliest(g: DependencyGraph, layer: map<TaskId, nat>, t: TaskId, n: nat)
    requires layer.Keys >= g.dependenciesOf.Keys
    requires forall s, u :: s in layer && Upstream(g, s, u) ==> u in layer && layer[u] < layer[s]
    requires t in layer && HasChain(g, t, n)
    ensures n <= layer[t]
    decreases n
  {
    if n > 0 {
      ChainStep(g, t, n - 1);
      var u :| Upstream(g, t, u) && HasChain(g, u, n - 1);
      DepthIsEarliest(g, layer, u, n - 1);
    }
  }

  /** The tasks whose longest upstream chain has `n` edges. */
  ghost function DepthSet(g: DependencyGraph, n: nat): set<TaskId> {
    set t | t in g.dependenciesOf && Depth(g, t, n)
  }

  /** The tasks with no upstream chain of `n` edges: those the first `n` waves hold. */
  ghost function Within(g: DependencyGraph, n: nat): set<TaskId> {
    set t | t in g.dependenciesOf && !HasChain(g, t, n)
  }

  lemma ChainOfNone(g: DependencyGraph, t: TaskId)
    ensures HasChain(g, t, 0)
  {
    assert Chain(g, [t]) && |[t]| == 1;
  }

  lemma {:induction false} WithinHasDepth(g: DependencyGraph, t: TaskId, n: nat)
    requires t in Within(g, n)
    ensures exists k :: 0 <= k < n && t in DepthSet(g, k)
    decreases n
  {
    ChainOfNone(g, t);
    if HasChain(g, t, n - 1) {
      assert t in DepthSet(g, n - 1);
    } else {
      WithinHasDepth(g, t, n - 1);
    }
  }

  /** The tasks of `remaining` that wait only on resolved ones. */
  function NextWave(g: DependencyGraph, remaining: set<TaskId>, resolved: set<TaskId>): set<TaskId>
    requires remaining <= g.dependenciesOf.Keys
  {
    set t | t in remaining && forall e :: e in g.dependenciesOf[t] ==> e.dependsOn in resolved
  }

  lemma WaitsOnlyWithin(g: DependencyGraph, n: nat, t: TaskId)
    requires Indexed(g) && t in g.dependenciesOf
    ensures (forall e :: e in g.dependenciesOf[t] ==> e.dependsOn in Within(g, n)) <==> t in Within(g, n + 1)
  {
    ChainStep(g, t, n);
    if HasChain(g, t, n + 1) {
      var u :| Upstream(g, t, u) && HasChain(g, u, n);
      var e :| e in g.dependenciesOf[t] && e.dependsOn == u;
      assert e.dependsOn !in Within(g, n);
    } else {
      forall e | e in g.dependenciesOf[t] ensures e.dependsOn in Within(g, n) {
        assert Upstream(g, t, e.dependsOn);
      }
    }
  }

  /** Wave `n` holds the tasks of depth `n`, leaves those with longer chains, and is not empty. */
  lemma WaveResolves(g: DependencyGraph, n: nat)
    requires Indexed(g) && Acyclic(g)
    ensures var remaining := g.dependenciesOf.Keys - Within(g, n);
            var wave := NextWave(g, remaining, Within(g, n));
            wave == DepthSet(g, n) && Within(g, n) + wave == Within(g, n + 1) && (remaining != {} ==> wave != {})
  {
    var remaining := g.dependenciesOf.Keys - Within(g, n);
    var wave := NextWave(g, remaining, Within(g, n));
    forall t | t in g.dependenciesOf
      ensures t in wave <==> t in DepthSet(g, n)
      ensures t in Within(g, n) + wave <==> t in Within(g, n + 1)
    {
      WaitsOnlyWithin(g, n, t);
      if !HasChain(g, t, n) && HasChain(g, t, n + 1) {
        ShorterChains(g, t, n, n + 1);
      }
    }
    if remaining != {} {
      var t := FirstIn(g, remaining);
      forall e | e in g.dependenciesOf[t] ensures e.dependsOn in Within(g, n) {
        assert Upstream(g, t, e.dependsOn);
      }
      assert t in wave;
    }
  }

  ghost function FirstWaves(g: DependencyGraph, n: nat): (r: seq<seq<TaskId>>)
    ensures |r| == n
    ensures forall k :: 0 <= k < n ==> r[k] == Sorted(DepthSet(g, k))
  {
    if n == 0 then [] else FirstWaves(g, n - 1) + [Sorted(DepthSet(g, n - 1))]
  }

  lemma NextWaveSorted(g: DependencyGraph, n: nat, remaining: set<TaskId>, resolved: set<TaskId>)
    requires Indexed(g) && Acyclic(g)
    requires resolved == Within(g, n) && remaining == g.dependenciesOf.Keys - resolved && remaining != {}
    ensures var ready := NextWave(g, remaining, resolved);
            && Sorted(ready) == Sorted(DepthSet(g, n)) && Sorted(ready) != [] && ready != {}
            && resolved + ready == Within(g, n + 1)
            && remaining - ready == g.dependenciesOf.Keys - Within(g, n + 1)
            && ready <= remaining
  {
    WaveResolves(g, n);
    assert |Sorted(DepthSet(g, n))| != 0;
  }

  ghost predicate NoneEmpty(waves: seq<seq<TaskId>>) {
    forall k :: 0 <= k < |waves| ==> waves[k] != []
  }

  lemma OneMoreNotEmpty(waves: seq<seq<TaskId>>, wave: seq<TaskId>)
    requires NoneEmpty(waves) && wave != []
    ensures NoneEmpty(waves + [wave])
  {
  }

  /** Each wave lists, sorted, exactly the tasks whose longest upstream chain has its number, at least one. */
  method Waves(g: DependencyGraph) returns (result: seq<seq<TaskId>>)
    requires Indexed(g) && Acyclic(g)
    ensures forall k :: 0 <= k < |result| ==> result[k] == Sorted(DepthSet(g, k))
    ensures NoneEmpty(result)
    ensures Within(g, |result|) == Elems(g.taskIds)
  {
    result := [];
    var remaining, resolved := Elems(g.taskIds), {};
    assert Within(g, 0) == {} by {
      forall t ensures t !in Within(g, 0) {
        ChainOfNone(g, t);
      }
    }
    while remaining != {}
      invariant remaining == g.dependenciesOf.Keys - resolved
      invariant resolved == Within(g, |result|)
      invariant result == FirstWaves(g, |result|)
      invariant NoneEmpty(result)
      decreases remaining
    {
      var ready := NextWave(g, remaining, resolved);
      NextWaveSorted(g, |result|, remaining, resolved);
      OneMoreNotEmpty(result, Sorted(ready));
      result := result + [Sorted(ready)];
      resolved, remaining := resolved + ready, remaining - ready;
    }
    assert Within(g, |result|) <= g.dependenciesOf.Keys;
  }

  /** Every task is in exactly one wave, sorted within it, and after all its upstreams. */
  lemma WavesPlaceEachTask(g: DependencyGraph, result: seq<seq<TaskId>>, t: TaskId)
    requires Indexed(g)
    requires forall k :: 0 <= k < |result| ==> result[k] == Sorted(DepthSet(g, k))
    requires Within(g, |result|) == Elems(g.taskIds)
    requires t in g.taskIds
    ensures exists k :: 0 <= k < |result| && t in result[k]
    ensures forall j, k :: 0 <= j < |result| && 0 <= k < |result| && t in result[j] && t in result[k] ==> j == k
    ensures forall j, k, u :: 0 <= j < |result| && 0 <= k < |result| && t in result[k]
                              && Upstream(g, t, u) && u in result[j]
              ==> j < k
    ensures forall k :: 0 <= k < |result| ==> StrictlySorted(result[k])
  {
    assert t in Elems(g.taskIds);
    WithinHasDepth(g, t, |result|);
    forall j, k | 0 <= j < |result| && 0 <= k < |result| && t in result[j] && t in result[k] ensures j == k {
      DepthUnique(g, t, j, k);
    }
    forall j, k, u | 0 <= j < |result| && 0 <= k < |result| && t in result[k] && Upstream(g, t, u) && u in result[j]
      ensures j < k
    {
      if j >= k {
        ShorterChains(g, u, k, j);
        ChainStep(g, t, k);
      }
    }
    forall k | 0 <= k < |result| ensures StrictlySorted(result[k]) {
      SortedIncreases(DepthSet(g, k));
    }
  }

  /** `t` waits on `u`, directly or through others. */
  ghost predicate WaitsOn(g: DependencyGraph, t: TaskId, u: TaskId) {
    exists p :: |p| >= 2 && p[0] == t && p[|p| - 1] == u && Chain(g, p)
  }

  lemma WaitsOnStep(g: DependencyGraph, t: TaskId, s: TaskId, u: TaskId)
    requires Upstream(g, t, s) && (s == u || WaitsOn(g, s, u))
    ensures WaitsOn(g, t, u)
  {
    var p := [s];
    if s != u {
      p :| |p| >= 2 && p[0] == s && p[|p| - 1] == u && Chain(g, p);
    }
    var q := [t] + p;
    forall i | 0 <= i < |q| - 1 ensures Upstream(g, q[i], q[i + 1]) {
      if i > 0 {
        assert Upstream(g, p[i - 1], p[i]);
      }
    }
    assert |q| >= 2 && q[0] == t && q[|q| - 1] == u && Chain(g, q);
  }

  /** A set holding every direct dependent of itself and of `u` holds every task that waits on `u`. */
  lemma {:induction false} ClosureHoldsChain(g: DependencyGraph, found: set<TaskId>, u: TaskId, p: seq<TaskId>)
    requires forall t, s :: Upstream(g, t, s) && (s == u || s in found) ==> t in found
    requires |p| >= 2 && p[|p| - 1] == u && Chain(g, p)
    ensures p[0] in found
  {
    assert Upstream(g, p[0], p[1]);
    if |p| > 2 {
      assert Chain(g, p[1..]) by {
        forall i | 0 <= i < |p| - 2 ensures Upstream(g, p[1..][i], p[1..][i + 1]) {
          assert Upstream(g, p[i + 1], p[i + 2]);
        }
      }
      ClosureHoldsChain(g, found, u, p[1..]);
    }
  }

  /** Exactly the tasks that wait on `task`, itself never among them. */
  method DownstreamOf(g: DependencyGraph, task: TaskId) returns (found: set<TaskId>)
    requires Indexed(g) && Acyclic(g)
    ensures forall t :: t in found <==> WaitsOn(g, t, task)
    ensures task !in found
  {
    found := {};
    var frontier := {task};
    while frontier != {}
      invariant found <= g.dependenciesOf.Keys
      invariant frontier <= found + {task}
      invariant forall t :: t in found ==> WaitsOn(g, t, task)
      invariant forall t, s :: Upstream(g, t, s) && (s == task || s in found) && s !in frontier ==> t in found
      decreases g.dependenciesOf.Keys - found, frontier
    {
      var next := set t, e | t in g.dependenciesOf && e in g.dependenciesOf[t]
                             && e.dependsOn in frontier && e.taskId !in found :: e.taskId;
      forall t | t in next ensures t in g.dependenciesOf && WaitsOn(g, t, task) {
        var e: TaskEdge :| e.taskId == t && t in g.dependenciesOf && e in g.dependenciesOf[t]
                           && e.dependsOn in frontier;
        assert Upstream(g, t, e.dependsOn);
        WaitsOnStep(g, t, e.dependsOn, task);
      }
      forall t, s | Upstream(g, t, s) && (s == task || s in found) ensures t in found + next {
        if s in frontier && t !in found {
          var e :| e in g.dependenciesOf[t] && e.dependsOn == s;
          assert e.taskId in next;
        }
      }
      frontier := next;
      found := found + next;
    }
    forall t ensures t in found <==> WaitsOn(g, t, task) {
      if p :| |p| >= 2 && p[0] == t && p[|p| - 1] == task && Chain(g, p) {
        ClosureHoldsChain(g, found, task, p);
      }
    }
    if WaitsOn(g, task, task) {
      var p :| |p| >= 2 && p[0] == task && p[|p| - 1] == task && Chain(g, p);
      assert ClosedPath(g, p);
    }
  }
}
