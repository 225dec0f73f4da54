/** Listings of instants obtained by asking again and again for the next one. */
module TickLists {
  import opened Collections

  /** `u` is the earliest of the instants satisfying `tick` after `t`. */
  ghost predicate IsNext(tick: nat -> bool, t: nat, u: nat) {
    tick(u) && t < u && forall x: nat :: t < x < u ==> !tick(x)
  }

  function Before(t: nat, found: seq<nat>, k: nat): nat
    requires k <= |found|
  {
    if k == 0 then t else found[k - 1]
  }

  ghost predicate NextAt(tick: nat -> bool, t: nat, found: seq<nat>, k: nat)
    requires k < |found|
  {
    IsNext(tick, Before(t, found, k), found[k])
  }

  /** `found` are the answers of repeated calls, each after the one before, starting after `t`. */
  ghost predicate Repeated(tick: nat -> bool, t: nat, found: seq<nat>) {
    forall k :: 0 <= k < |found| ==> NextAt(tick, t, found, k)
  }

  lemma RepeatedPrefix(tick: nat -> bool, t: nat, found: seq<nat>, n: nat)
    requires Repeated(tick, t, found) && n <= |found|
    ensures Repeated(tick, t, found[..n])
  {
    forall k | 0 <= k < n ensures NextAt(tick, t, found[..n], k) {
      assert NextAt(tick, t, found, k);
    }
  }

  lemma RepeatedAppend(tick: nat -> bool, t: nat, found: seq<nat>, u: nat)
    requires Repeated(tick, t, found) && IsNext(tick, Before(t, found, |found|), u)
    ensures Repeated(tick, t, found + [u])
  {
    forall k | 0 <= k < |found| + 1 ensures NextAt(tick, t, found + [u], k) {
      if k < |found| {
        assert NextAt(tick, t, found, k);
      }
    }
  }

  /** Repeated calls list every instant up to the last exactly once, in increasing order. */
  lemma {:induction false} RepeatedListsAll(tick: nat -> bool, t: nat, found: seq<nat>)
    requires Repeated(tick, t, found)
    ensures StrictlySorted(found) && t <= Before(t, found, |found|)
    ensures forall k :: 0 <= k < |found| ==> t < found[k] <= Before(t, found, |found|)
    ensures forall x: nat :: t < x <= Before(t, found, |found|) ==> (x in found <==> tick(x))
  {
    if found != [] {
      var n := |found| - 1;
      var front, last := found[..n], found[n];
      RepeatedPrefix(tick, t, found, n);
      RepeatedListsAll(tick, t, front);
      assert NextAt(tick, t, found, n);
      assert Before(t, front, n) == Before(t, found, n);
      assert found == front + [last];
      forall x: nat | t < x <= last ensures x in found <==> tick(x) {
        assert x in found <==> x in front || x == last;
      }
    }
  }
}
