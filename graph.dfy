/**
 * Graphs as the P4-sparsity checker sees them: an adjacency list indexed by
 * vertex id (`grafo.get(v)` is the list of neighbours of `v`), and vertex
 * lists that select the 4 or 5 vertices under test.
 *
 * The definitions here are the vocabulary of the contracts in the other
 * modules: induced adjacency, reachability inside a vertex list, and what it
 * means for four vertices to induce a path (a P4).
 */
module Graphs {

  /** `g[v]` lists the neighbours of vertex `v`, in file order, repeats allowed. */
  type Graph = seq<seq<int>>

  /** The parent passed to the first call of the depth-first walk. */
  const NoParent: int := -1

  function Elements(s: seq<int>): set<int>
  {
    set x | x in s
  }

  predicate Distinct(s: seq<int>)
  {
    forall i, j :: 0 <= i < j < |s| ==> s[i] != s[j]
  }

  /** Every listed vertex has an adjacency list: `grafo.get(x)` does not throw. */
  predicate ValidVertices(g: Graph, vs: seq<int>)
  {
    forall x :: x in vs ==> 0 <= x < |g|
  }

  /** Number of entries of `ns` that belong to `vs`, repeated entries counted each time. */
  function CountIn(ns: seq<int>, vs: seq<int>): nat
  {
    if ns == [] then 0
    else CountIn(ns[..|ns| - 1], vs) + (if ns[|ns| - 1] in vs then 1 else 0)
  }

  /** Counting one entry further along `ns`. */
  lemma CountInPrefix(ns: seq<int>, e: nat, vs: seq<int>)
    requires e < |ns|
    ensures CountIn(ns[..e + 1], vs) == CountIn(ns[..e], vs) + (if ns[e] in vs then 1 else 0)
  {
    assert ns[..e + 1][..e] == ns[..e];
  }

  /** `y` is listed as a neighbour of `x`, and both belong to `vs`. */
  predicate Edge(g: Graph, vs: seq<int>, x: int, y: int)
  {
    x in vs && y in vs && 0 <= x < |g| && y in g[x]
  }

  /** `path` is a walk that stays inside `vs` and follows listed neighbours. */
  ghost predicate IsWalk(g: Graph, vs: seq<int>, path: seq<int>)
  {
    && |path| > 0
    && (forall k :: 0 <= k < |path| ==> path[k] in vs)
    && (forall k :: 0 <= k < |path| - 1 ==> Edge(g, vs, path[k], path[k + 1]))
  }

  ghost predicate Reachable(g: Graph, vs: seq<int>, a: int, b: int)
  {
    exists path :: IsWalk(g, vs, path) && path[0] == a && path[|path| - 1] == b
  }

  /** The graph is undirected as far as the vertices of `vs` are concerned. */
  ghost predicate SymmetricOn(g: Graph, vs: seq<int>)
  {
    forall x, y :: Edge(g, vs, x, y) ==> Edge(g, vs, y, x)
  }

  /** No vertex of `vs` lists the same neighbour of `vs` twice. */
  ghost predicate NoParallelEdges(g: Graph, vs: seq<int>)
  {
    forall x, i, j ::
      x in vs && 0 <= x < |g| && 0 <= i < j < |g[x]| && g[x][i] in vs ==> g[x][i] != g[x][j]
  }

  /** A simple undirected graph, seen from the vertices of `vs`. */
  ghost predicate SimpleOn(g: Graph, vs: seq<int>)
  {
    SymmetricOn(g, vs) && NoParallelEdges(g, vs)
  }

  /** `x` and `y` stand next to each other in `q`. */
  ghost predicate Consecutive(q: seq<int>, x: int, y: int)
  {
    exists k :: 0 <= k < |q| - 1 && ((q[k] == x && q[k + 1] == y) || (q[k] == y && q[k + 1] == x))
  }

  /**
   * `q` lists the vertices of `vs` in the order of a path, and the subgraph
   * induced on them has exactly the edges between consecutive entries of `q`.
   */
  ghost predicate IsInducedPath(g: Graph, vs: seq<int>, q: seq<int>)
  {
    && Distinct(q)
    && Elements(q) == Elements(vs)
    && forall x, y :: x in vs && y in vs ==> (Edge(g, vs, x, y) <==> Consecutive(q, x, y))
  }

  /** Four distinct vertices that induce a path on four vertices. */
  ghost predicate InducedP4(g: Graph, vs: seq<int>)
  {
    |vs| == 4 && Distinct(vs) && exists q :: IsInducedPath(g, vs, q)
  }

  /** `List.remove(int index)`: the list without its entry at position `t`. */
  function RemoveAt(s: seq<int>, t: nat): (r: seq<int>)
    requires t < |s|
    ensures |r| == |s| - 1
    ensures forall k :: 0 <= k < |r| ==> r[k] == if k < t then s[k] else s[k + 1]
    ensures multiset(r) + multiset{s[t]} == multiset(s)
  {
    assert s == s[..t] + [s[t]] + s[t + 1..];
    s[..t] + s[t + 1..]
  }

  lemma RemoveAtMembers(s: seq<int>, t: nat)
    requires t < |s|
    ensures forall x :: x in RemoveAt(s, t) ==> x in s
  {
    forall x | x in RemoveAt(s, t) ensures x in s {
      var k :| 0 <= k < |RemoveAt(s, t)| && RemoveAt(s, t)[k] == x;
      assert x == if k < t then s[k] else s[k + 1];
    }
  }

  // ---------------------------------------------------------------------
  // Facts about sets, counts and sub-lists used throughout.
  // ---------------------------------------------------------------------

  lemma SubsetCard(a: set<int>, b: set<int>)
    requires a <= b
    ensures |a| <= |b|
    ensures |a| == |b| ==> a == b
  {
    assert b == a + (b - a);
    if |a| == |b| {
      assert |b - a| == 0;
    }
  }

  lemma {:induction false} ElementsCard(s: seq<int>)
    ensures |Elements(s)| <= |s|
    ensures Distinct(s) <==> |Elements(s)| == |s|
  {
    if s != [] {
      var last := s[|s| - 1];
      var init := s[..|s| - 1];
      ElementsCard(init);
      assert Elements(s) == Elements(init) + {last};
      if last in init {
        assert Elements(s) == Elements(init);
        var k :| 0 <= k < |init| && init[k] == last;
        assert s[k] == s[|s| - 1];
      } else {
        assert Distinct(s) <==> Distinct(init);
      }
    }
  }

  /** Three or more distinct listed neighbours inside `vs` are counted. */
  lemma {:induction false} CountInAtLeast(ns: seq<int>, vs: seq<int>, some: set<int>)
    requires forall x :: x in some ==> x in ns && x in vs
    ensures CountIn(ns, vs) >= |some|
  {
    if ns == [] {
      assert forall x :: x !in some;
      assert some == {};
    } else {
      var last := ns[|ns| - 1];
      var init := ns[..|ns| - 1];
      forall x | x in some - {last} ensures x in init && x in vs {
        var k :| 0 <= k < |ns| && ns[k] == x;
        assert k < |ns| - 1;
        assert init[k] == x;
      }
      CountInAtLeast(init, vs, some - {last});
    }
  }

  /** Entries inside `vs` that are all different and all drawn from `bound` are at most `|bound|`. */
  lemma {:induction false} CountInAtMost(ns: seq<int>, vs: seq<int>, bound: set<int>)
    requires forall k :: 0 <= k < |ns| && ns[k] in vs ==> ns[k] in bound
    requires forall i, j :: 0 <= i < j < |ns| && ns[i] in vs ==> ns[i] != ns[j]
    ensures CountIn(ns, vs) <= |bound|
  {
    if ns != [] {
      var last := ns[|ns| - 1];
      var init := ns[..|ns| - 1];
      if last in vs {
        forall k | 0 <= k < |init| && init[k] in vs ensures init[k] in bound - {last} {
          assert ns[k] == init[k];
        }
        CountInAtMost(init, vs, bound - {last});
      } else {
        CountInAtMost(init, vs, bound);
      }
    }
  }

  /** Edges inside a vertex list depend only on which vertices it holds. */
  lemma EdgeSameMembers(g: Graph, a: seq<int>, b: seq<int>)
    requires forall x :: x in a <==> x in b
    ensures forall x, y :: Edge(g, a, x, y) <==> Edge(g, b, x, y)
  {
  }

  /** Leaving vertices out of an undirected graph without repeated entries keeps it so. */
  lemma SimpleOnSubList(g: Graph, s: seq<int>, a: seq<int>)
    requires SimpleOn(g, s)
    requires forall x :: x in a ==> x in s
    ensures SimpleOn(g, a)
  {
    forall x, y | Edge(g, a, x, y) ensures Edge(g, a, y, x) {
      assert Edge(g, s, x, y);
    }
  }

  /** Whether a list induces a P4 depends only on its length and the vertices it holds. */
  lemma InducedP4SameMembers(g: Graph, a: seq<int>, b: seq<int>)
    requires |a| == |b|
    requires forall x :: x in a <==> x in b
    ensures InducedP4(g, a) <==> InducedP4(g, b)
  {
    assert forall x :: x in Elements(a) <==> x in Elements(b);
    assert Elements(a) == Elements(b);
    ElementsCard(a);
    ElementsCard(b);
    EdgeSameMembers(g, a, b);
    forall q ensures IsInducedPath(g, a, q) <==> IsInducedPath(g, b, q) {
    }
  }
}
