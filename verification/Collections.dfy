/** Facts about sequences without duplicates, finite sets and sorted listings. */
module Collections {

  ghost predicate Distinct<T>(s: seq<T>) {
    forall i, j :: 0 <= i < j < |s| ==> s[i] != s[j]
  }

  function Elems<T>(s: seq<T>): set<T> {
    set x | x in s
  }

  ghost predicate StrictlySorted(s: seq<nat>) {
    forall i, j :: 0 <= i < j < |s| ==> s[i] < s[j]
  }

  lemma {:induction false} DistinctCardinality<T>(s: seq<T>)
    requires Distinct(s)
    ensures |Elems(s)| == |s|
  {
    if s != [] {
      var rest := s[..|s| - 1];
      DistinctCardinality(rest);
      assert s == rest + [s[|s| - 1]];
      assert Elems(s) == Elems(rest) + {s[|s| - 1]};
    }
  }

  lemma AppendDistinct<T>(s: seq<T>, x: T)
    requires Distinct(s) && x !in s
    ensures Distinct(s + [x])
    ensures Elems(s + [x]) == Elems(s) + {x}
  {
  }

  lemma {:induction false} ElemsBound<T>(s: seq<T>)
    ensures |Elems(s)| <= |s|
  {
    if s != [] {
      var rest, last := s[..|s| - 1], s[|s| - 1];
      assert s == rest + [last];
      assert Elems(s) == Elems(rest) + {last};
      ElemsBound(rest);
    }
  }

  /** Comparing the lengths of a listing and of its set of entries detects repetition. */
  lemma {:induction false} DistinctByCount<T>(s: seq<T>)
    ensures Distinct(s) <==> |Elems(s)| == |s|
  {
    if Distinct(s) {
      DistinctCardinality(s);
    } else {
      var i, j :| 0 <= i < j < |s| && s[i] == s[j];
      var rest := s[..j] + s[j + 1..];
      forall x | x in s ensures x in rest {
        var k :| 0 <= k < |s| && s[k] == x;
        assert x == rest[if k < j then k else if k == j then i else k - 1];
      }
      assert Elems(s) == Elems(rest);
      ElemsBound(rest);
    }
  }

  lemma SubsetCardinality<T>(a: set<T>, b: set<T>)
    requires a <= b
    ensures |a| <= |b|
    ensures |a| == |b| ==> a == b
  {
    assert b == a + (b - a);
  }

  lemma DistinctFits<T>(s: seq<T>, within: set<T>)
    requires Distinct(s) && Elems(s) <= within
    ensures |s| <= |within|
  {
    DistinctCardinality(s);
    SubsetCardinality(Elems(s), within);
  }

  /** Stepping down from `y` reaches a least member. */
  ghost function LeastBelow(s: set<nat>, y: nat): (m: nat)
    requires y in s
    ensures m in s
    ensures forall x :: x in s ==> m <= x
    decreases y
  {
    if exists z :: z in s && z < y then var z :| z in s && z < y; LeastBelow(s, z) else y
  }

  function Least(s: set<nat>): (m: nat)
    requires s != {}
    ensures m in s
    ensures forall x :: x in s ==> m <= x
  {
    assert exists m :: m in s && forall x :: x in s ==> m <= x by {
      var y :| y in s;
      assert LeastBelow(s, y) in s;
    }
    var m :| m in s && forall x :: x in s ==> m <= x;
    m
  }

  /** Python's `sorted` on a set of ids. */
  function Sorted(s: set<nat>): (r: seq<nat>)
    ensures forall x :: x in r <==> x in s
    ensures |r| == |s|
    decreases |s|
  {
    if s == {} then [] else [Least(s)] + Sorted(s - {Least(s)})
  }

  lemma SortedElems(s: set<nat>)
    ensures Elems(Sorted(s)) == s
  {
  }

  lemma {:induction false} SortedIncreases(s: set<nat>)
    ensures StrictlySorted(Sorted(s))
    decreases |s|
  {
    if s != {} {
      var m, rest := Least(s), Sorted(s - {Least(s)});
      SortedIncreases(s - {m});
      forall j | 0 <= j < |rest| ensures m < rest[j] {
        assert rest[j] in rest;
      }
      assert Sorted(s) == [m] + rest;
    }
  }

  /** How many entries of `s` satisfy `p`, counted with repetition. */
  function CountIf<T>(p: T -> bool, s: seq<T>): nat {
    if s == [] then 0 else (if p(s[0]) then 1 else 0) + CountIf(p, s[1..])
  }

  /** The places of the entries of `s` that satisfy `p`. */
  ghost function PlacesIf<T>(p: T -> bool, s: seq<T>): set<nat> {
    set i: nat | i < |s| && p(s[i])
  }

  lemma {:induction false} CountIfLast<T>(p: T -> bool, s: seq<T>, x: T)
    ensures CountIf(p, s + [x]) == CountIf(p, s) + if p(x) then 1 else 0
  {
    if s == [] {
      assert ([] + [x])[1..] == [];
    } else {
      assert (s + [x])[1..] == s[1..] + [x];
      CountIfLast(p, s[1..], x);
    }
  }

  /** Counting entries is counting their places. */
  lemma {:induction false} CountIfPlaces<T>(p: T -> bool, s: seq<T>)
    ensures CountIf(p, s) == |PlacesIf(p, s)|
  {
    if s == [] {
      assert PlacesIf(p, s) == {};
    } else {
      var front, x := s[..|s| - 1], s[|s| - 1];
      assert s == front + [x];
      CountIfPlaces(p, front);
      CountIfLast(p, front, x);
      assert PlacesIf(p, s) == PlacesIf(p, front) + if p(x) then {|front|} else {};
    }
  }

  lemma {:induction false} CountIfBound<T>(p: T -> bool, s: seq<T>)
    ensures CountIf(p, s) <= |s|
  {
    if s != [] {
      CountIfBound(p, s[1..]);
    }
  }

  lemma {:induction false} CountIfMonotone<T>(p: T -> bool, q: T -> bool, s: seq<T>)
    requires forall x :: x in s && p(x) ==> q(x)
    ensures CountIf(p, s) <= CountIf(q, s)
  {
    if s != [] {
      assert s[0] in s;
      assert forall x :: x in s[1..] ==> x in s;
      CountIfMonotone(p, q, s[1..]);
    }
  }

  lemma {:induction false} CountIfSame<T>(p: T -> bool, q: T -> bool, s: seq<T>)
    requires forall x :: x in s ==> p(x) == q(x)
    ensures CountIf(p, s) == CountIf(q, s)
  {
    CountIfMonotone(p, q, s);
    CountIfMonotone(q, p, s);
  }

  /** Two conditions that split a third pick together what it picks. */
  lemma {:induction false} CountIfSplit<T>(p: T -> bool, q: T -> bool, r: T -> bool, s: seq<T>)
    requires forall x :: x in s ==> !(p(x) && q(x)) && (r(x) <==> p(x) || q(x))
    ensures CountIf(p, s) + CountIf(q, s) == CountIf(r, s)
  {
    if s != [] {
      assert s[0] in s;
      assert forall x :: x in s[1..] ==> x in s;
      CountIfSplit(p, q, r, s[1..]);
    }
  }

  lemma {:induction false} CountIfNone<T>(p: T -> bool, s: seq<T>)
    requires forall x :: x in s ==> !p(x)
    ensures CountIf(p, s) == 0
  {
    if s != [] {
      assert s[0] in s;
      assert forall x :: x in s[1..] ==> x in s;
      CountIfNone(p, s[1..]);
    }
  }

  lemma {:induction false} CountIfAll<T>(p: T -> bool, s: seq<T>)
    ensures CountIf(p, s) == |s| <==> forall x :: x in s ==> p(x)
  {
    CountIfBound(p, s);
    if s != [] {
      CountIfBound(p, s[1..]);
      CountIfAll(p, s[1..]);
      assert s == [s[0]] + s[1..];
    }
  }
}
