/** Listing every cycle of a dependency relation once, each from its smallest code. */
module CycleList {
  import opened Collections

  /** A task code, known only by its place in the sort order. */
  type Code = nat

  datatype CodeEdge = CodeEdge(dependent: Code, upstream: Code)

  type Upstreams = map<Code, seq<Code>>

  predicate Leads(graph: Upstreams, a: Code, b: Code) {
    a in graph && b in graph[a]
  }

  /** Each code waits on the next, without repetition. */
  ghost predicate SimplePath(graph: Upstreams, p: seq<Code>) {
    && p != [] && Distinct(p)
    && forall i :: 0 <= i < |p| - 1 ==> Leads(graph, p[i], p[i + 1])
  }

  /** A simple path whose last code waits on its first, in whatever rotation. */
  ghost predicate ClosedUp(graph: Upstreams, c: seq<Code>) {
    SimplePath(graph, c) && Leads(graph, c[|c| - 1], c[0])
  }

  /** A cycle as it is listed: from its smallest code. */
  ghost predicate ListedCycle(graph: Upstreams, c: seq<Code>) {
    ClosedUp(graph, c) && forall i :: 0 < i < |c| ==> c[0] < c[i]
  }

  function IndexIn(s: seq<Code>, x: Code): (k: nat)
    requires x in s
    ensures k < |s| && s[k] == x && x !in s[..k]
  {
    if s[0] == x then 0
    else
      var k := 1 + IndexIn(s[1..], x);
      assert s[..k] == [s[0]] + s[1..][..k - 1];
      k
  }

  /** The position of the smallest entry. */
  function MinIndex(s: seq<Code>): (k: nat)
    requires s != []
    ensures k < |s| && forall i :: 0 <= i < |s| ==> s[k] <= s[i]
  {
    if |s| == 1 then 0
    else
      var k := MinIndex(s[..|s| - 1]);
      if s[|s| - 1] < s[k] then |s| - 1 else k
  }

  function FromSmallest(c: seq<Code>): seq<Code>
    requires c != []
  {
    c[MinIndex(c)..] + c[..MinIndex(c)]
  }

  lemma RotatedIsListed(graph: Upstreams, c: seq<Code>)
    requires ClosedUp(graph, c)
    ensures ListedCycle(graph, FromSmallest(c))
  {
    var m, r := MinIndex(c), FromSmallest(c);
    var n := |c| - m;
    assert forall i :: 0 <= i < |r| ==> r[i] == c[if i < n then m + i else i - n];
    forall i | 0 <= i < |r| - 1 ensures Leads(graph, r[i], r[i + 1]) {
      if i + 1 < n {
        assert Leads(graph, c[m + i], c[m + i + 1]);
      } else if i >= n {
        assert Leads(graph, c[i - n], c[i - n + 1]);
      }
    }
    if m > 0 {
      assert Leads(graph, c[m - 1], c[m]);
    }
  }

  /** The part of a simple path from a code it leads back to. */
  lemma ClosingPart(graph: Upstreams, path: seq<Code>, u: Code)
    requires SimplePath(graph, path) && u in path && Leads(graph, path[|path| - 1], u)
    ensures ClosedUp(graph, path[IndexIn(path, u)..])
  {
    var k := IndexIn(path, u);
    var c := path[k..];
    forall i | 0 <= i < |c| - 1 ensures Leads(graph, c[i], c[i + 1]) {
      assert Leads(graph, path[k + i], path[k + i + 1]);
    }
  }

  lemma ListedStartsAtSmallest(graph: Upstreams, c: seq<Code>)
    requires ListedCycle(graph, c)
    ensures FromSmallest(c) == c
  {
    assert MinIndex(c) == 0;
  }

  /** Every listed cycle through `path`, as a prefix, whose next code is among `next`. */
  ghost predicate Covered(graph: Upstreams, path: seq<Code>, next: seq<Code>, found: seq<seq<Code>>) {
    forall c :: ListedCycle(graph, c) && path <= c && (if c == path then c[0] else c[|path|]) in next ==> c in found
  }

  ghost predicate AllListed(graph: Upstreams, found: seq<seq<Code>>) {
    Distinct(found) && forall c :: c in found ==> ListedCycle(graph, c)
  }

  /** Adds the cycles met by walking upstream from the end of `path` through codes above its first. */
  method Walk(graph: Upstreams, path: seq<Code>, found0: seq<seq<Code>>, ghost codes: set<Code>)
    returns (found: seq<seq<Code>>)
    requires SimplePath(graph, path) && Elems(path) <= codes
    requires forall a, b :: Leads(graph, a, b) ==> b in codes
    requires AllListed(graph, found0)
    ensures AllListed(graph, found)
    ensures found0 <= found
    ensures forall c :: ListedCycle(graph, c) && path <= c ==> c in found
    decreases |codes| - |path|
  {
    found := found0;
    var node := path[|path| - 1];
    var upstreams := if node in graph then graph[node] else [];
    for i := 0 to |upstreams|
      invariant AllListed(graph, found) && found0 <= found
      invariant Covered(graph, path, upstreams[..i], found)
    {
      var upstream := upstreams[i];
      assert upstreams[..i + 1] == upstreams[..i] + [upstream];
      assert Leads(graph, node, upstream);
      if upstream in path {
        ClosingPart(graph, path, upstream);
        var cycle := path[IndexIn(path, upstream)..];
        RotatedIsListed(graph, cycle);
        var key := FromSmallest(cycle);
        if key !in found {
          found := found + [key];
        }
        ClosesAtFirst(graph, path, upstreams[..i], upstream, found);
      } else if upstream > path[0] {
        ghost var before := found;
        var longer := path + [upstream];
        LongerPath(graph, path, upstream, codes);
        found := Walk(graph, longer, found, codes);
        ExtendsAbove(graph, path, upstreams[..i], upstream, before, found);
      }
    }
    assert upstreams[..|upstreams|] == upstreams;
    forall c | ListedCycle(graph, c) && path <= c ensures c in found {
      if c != path {
        assert Leads(graph, c[|path| - 1], c[|path|]);
      }
    }
  }

  /** The cycles through a code above the first are those through the longer path. */
  lemma ExtendsAbove(graph: Upstreams, path: seq<Code>, next: seq<Code>, u: Code, before: seq<seq<Code>>,
                     found: seq<seq<Code>>)
    requires path != [] && u > path[0] && Covered(graph, path, next, before) && before <= found
    requires forall c :: ListedCycle(graph, c) && path + [u] <= c ==> c in found
    ensures Covered(graph, path, next + [u], found)
  {
    forall c | ListedCycle(graph, c) && path <= c && (if c == path then c[0] else c[|path|]) in next + [u]
      ensures c in found
    {
      if c != path && c[|path|] == u {
        assert path + [u] <= c;
      } else {
        assert c in before;
      }
    }
  }

  lemma LongerPath(graph: Upstreams, path: seq<Code>, u: Code, codes: set<Code>)
    requires SimplePath(graph, path) && Elems(path) <= codes && u in codes
    requires u !in path && Leads(graph, path[|path| - 1], u)
    ensures SimplePath(graph, path + [u]) && Elems(path + [u]) <= codes
    ensures |path| < |codes|
  {
    AppendDistinct(path, u);
    DistinctFits(path + [u], codes);
  }

  lemma NotListedAgain(graph: Upstreams, path: seq<Code>, c: seq<Code>, u: Code)
    requires ListedCycle(graph, c) && path <= c && |path| < |c| && u in path
    ensures c[|path|] != u
  {
    assert c[IndexIn(path, u)] == u;
  }

  /** A code already on the path extends no listed cycle; it closes one only when it is the first. */
  lemma ClosesAtFirst(graph: Upstreams, path: seq<Code>, next: seq<Code>, u: Code, found: seq<seq<Code>>)
    requires SimplePath(graph, path) && u in path && Covered(graph, path, next, found)
    requires FromSmallest(path[IndexIn(path, u)..]) in found
    ensures Covered(graph, path, next + [u], found)
  {
    forall c | ListedCycle(graph, c) && path <= c && (if c == path then c[0] else c[|path|]) in next + [u]
      ensures c in found
    {
      if c == path {
        if c[0] == u {
          assert path[IndexIn(path, u)..] == c;
          ListedStartsAtSmallest(graph, c);
        }
      } else {
        NotListedAgain(graph, path, c, u);
      }
    }
  }

  /** The upstreams of each dependent, in order. */
  function GraphOf(edges: set<CodeEdge>): Upstreams {
    map e | e in edges :: e.dependent := Sorted(set d | d in edges && d.dependent == e.dependent :: d.upstream)
  }

  lemma AmongFirst(nodes: seq<Code>, i: nat, u: Code)
    requires i < |nodes|
    ensures u in nodes[..i + 1] <==> u in nodes[..i] || u == nodes[i]
  {
    assert nodes[..i + 1] == nodes[..i] + [nodes[i]];
  }

  /** Walks from every dependent in order. */
  method WalkAll(graph: Upstreams, ghost codes: set<Code>) returns (found: seq<seq<Code>>)
    requires graph.Keys <= codes
    requires forall a, b :: Leads(graph, a, b) ==> b in codes
    ensures Distinct(found)
    ensures forall c :: c in found <==> ListedCycle(graph, c)
  {
    var nodes := Sorted(graph.Keys);
    found := [];
    for i := 0 to |nodes|
      invariant AllListed(graph, found)
      invariant forall c :: ListedCycle(graph, c) && c[0] in nodes[..i] ==> c in found
    {
      assert nodes[i] in nodes;
      ghost var before := found;
      found := Walk(graph, [nodes[i]], found, codes);
      forall c | ListedCycle(graph, c) && c[0] in nodes[..i + 1] ensures c in found {
        AmongFirst(nodes, i, c[0]);
        if c[0] == nodes[i] {
          assert [nodes[i]] <= c;
        } else {
          assert c in before;
        }
      }
    }
    assert nodes[..|nodes|] == nodes;
    forall c | ListedCycle(graph, c) ensures c in found {
      if |c| > 1 {
        assert Leads(graph, c[0], c[1]);
      }
      assert c[0] in graph.Keys;
    }
  }

  /** Distinct codes, each waiting on the next and the last on the first, the first being the smallest. */
  ghost predicate EdgeCycle(edges: set<CodeEdge>, c: seq<Code>) {
    && c != [] && CodeEdge(c[|c| - 1], c[0]) in edges
    && (forall i :: 0 <= i < |c| - 1 ==> CodeEdge(c[i], c[i + 1]) in edges)
    && (forall i, j :: 0 <= i < j < |c| ==> c[i] != c[j])
    && (forall i :: 0 < i < |c| ==> c[0] < c[i])
  }

  lemma LeadsIsEdge(edges: set<CodeEdge>, a: Code, b: Code)
    ensures Leads(GraphOf(edges), a, b) <==> CodeEdge(a, b) in edges
  {
  }

  lemma ListedIsEdgeCycle(edges: set<CodeEdge>, c: seq<Code>)
    ensures ListedCycle(GraphOf(edges), c) <==> EdgeCycle(edges, c)
  {
    if c != [] {
      LeadsIsEdge(edges, c[|c| - 1], c[0]);
      forall i | 0 <= i < |c| - 1 ensures Leads(GraphOf(edges), c[i], c[i + 1]) <==> CodeEdge(c[i], c[i + 1]) in edges {
        LeadsIsEdge(edges, c[i], c[i + 1]);
      }
    }
  }

  /** Each cycle of the relation exactly once, from its smallest code, and nothing else. */
  method Cycles(edges: set<CodeEdge>) returns (found: seq<seq<Code>>)
    ensures Distinct(found)
    ensures forall c :: c in found <==> EdgeCycle(edges, c)
  {
    ghost var codes := (set e | e in edges :: e.upstream) + (set e | e in edges :: e.dependent);
    forall a, b | Leads(GraphOf(edges), a, b) ensures b in codes {
    }
    found := WalkAll(GraphOf(edges), codes);
    forall c ensures ListedCycle(GraphOf(edges), c) <==> EdgeCycle(edges, c) {
      ListedIsEdgeCycle(edges, c);
    }
  }
}
