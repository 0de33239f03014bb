/**
 * `isP4`: do four listed vertices induce a path? The walk of `isTree` from
 * the first vertex must succeed and visit as many vertices as the list holds,
 * and no listed vertex may list more than two neighbours inside the list.
 *
 * On any adjacency list a positive answer means the list is duplicate-free,
 * connected from its first vertex, and of in-list degree at most two. On a
 * graph that is undirected and lists each neighbour once, the answer is
 * exactly "the four vertices induce a P4".
 */
module P4 {
  import opened Graphs
  import opened TreeWalk
  import opened PathWalk

  /** The answer `isP4(vs, grafo)` gives. */
  function ClassifiedAsP4(g: Graph, vs: seq<int>): bool
    requires ValidVertices(g, vs) && |vs| > 0
  {
    var walk := Walk(g, vs, vs[0], NoParent, {});
    walk.0 && |walk.1| == |vs| && forall x :: x in vs ==> CountIn(g[x], vs) <= 2
  }

  /** `isP4(listaDeVertices, grafo)`. */
  method IsP4(vs: seq<int>, g: Graph) returns (b: bool)
    requires ValidVertices(g, vs) && |vs| > 0
    ensures b == ClassifiedAsP4(g, vs)
  {
    var ok, visited := IsTree(g, vs, vs[0], NoParent, {});
    if !ok || |visited| != |vs| {
      return false;
    }
    assert forall k :: 0 <= k < |vs| ==> vs[k] in vs;
    for idx := 0 to |vs|
      invariant forall k :: 0 <= k < |vs| ==> 0 <= vs[k] < |g|
      invariant forall k :: 0 <= k < idx ==> CountIn(g[vs[k]], vs) <= 2
    {
      var vertex := vs[idx];
      assert vertex in vs;
      var cntNeighbor := 0;
      for e := 0 to |g[vertex]|
        invariant cntNeighbor == CountIn(g[vertex][..e], vs)
      {
        CountInPrefix(g[vertex], e, vs);
        if g[vertex][e] in vs {
          cntNeighbor := cntNeighbor + 1;
        }
      }
      assert g[vertex][..|g[vertex]|] == g[vertex];
      if cntNeighbor > 2 {
        return false;
      }
      DegreesCheckedStep(g, vs, idx);
    }
    forall x | x in vs ensures CountIn(g[x], vs) <= 2 {
      var k :| 0 <= k < |vs| && vs[k] == x;
    }
    return true;
  }

  lemma DegreesCheckedStep(g: Graph, vs: seq<int>, idx: nat)
    requires idx < |vs| && forall k :: 0 <= k < |vs| ==> 0 <= vs[k] < |g|
    requires forall k :: 0 <= k < idx ==> CountIn(g[vs[k]], vs) <= 2
    requires CountIn(g[vs[idx]], vs) <= 2
    ensures forall k :: 0 <= k < idx + 1 ==> CountIn(g[vs[k]], vs) <= 2
  {
  }

  // ---------------------------------------------------------------------
  // What a positive answer means on any adjacency list.
  // ---------------------------------------------------------------------

  lemma {:induction false} TreeReaches(g: Graph, vs: seq<int>, v: int, parent: int, newly: set<int>,
                                       order: seq<int>, par: map<int, int>, k: nat)
    requires IsWalkTree(g, vs, v, parent, newly, order, par) && newly <= Elements(vs)
    requires k < |order|
    ensures Reachable(g, vs, v, order[k])
    decreases k
  {
    if k == 0 {
      assert v in Elements(order);
      assert IsWalk(g, vs, [v]);
    } else {
      var m :| 0 <= m < k && order[m] == par[order[k]];
      TreeReaches(g, vs, v, parent, newly, order, par, m);
      var path :| IsWalk(g, vs, path) && path[0] == v && path[|path| - 1] == order[m];
      var longer := path + [order[k]];
      assert IsWalk(g, vs, longer);
    }
  }

  /**
   * A positive answer: the list holds no vertex twice, and every listed
   * vertex is reached from the first one along listed neighbours inside the
   * list, each of which has at most two listed neighbours inside the list.
   */
  lemma ClassifiedMeansConnected(g: Graph, vs: seq<int>)
    requires ValidVertices(g, vs) && |vs| > 0
    requires ClassifiedAsP4(g, vs)
    ensures Distinct(vs)
    ensures forall x :: x in vs ==> Reachable(g, vs, vs[0], x)
    ensures forall x :: x in vs ==> CountIn(g[x], vs) <= 2
  {
    var visited := Walk(g, vs, vs[0], NoParent, {}).1;
    var order, par := WalkTree(g, vs, vs[0], NoParent, {});
    ElementsCard(vs);
    SubsetCard(visited, Elements(vs));
    assert visited == Elements(vs);
    forall x | x in vs ensures Reachable(g, vs, vs[0], x) {
      assert x in Elements(order);
      var k :| 0 <= k < |order| && order[k] == x;
      TreeReaches(g, vs, vs[0], NoParent, visited - {}, order, par, k);
    }
  }

  // ---------------------------------------------------------------------
  // The answer on an undirected graph: exactly the induced P4s.
  // ---------------------------------------------------------------------

  /** `x` and `y` are joined in the depth-first tree described by `par`. */
  ghost predicate TreeJoined(par: map<int, int>, x: int, y: int)
  {
    (x in par && par[x] == y) || (y in par && par[y] == x)
  }

  lemma ConsecutiveInFour(q: seq<int>, x: int, y: int)
    requires |q| == 4
    ensures Consecutive(q, x, y) <==>
      (x == q[0] && y == q[1]) || (x == q[1] && y == q[0]) ||
      (x == q[1] && y == q[2]) || (x == q[2] && y == q[1]) ||
      (x == q[2] && y == q[3]) || (x == q[3] && y == q[2])
  {
    if (x == q[0] && y == q[1]) || (x == q[1] && y == q[0]) {
      assert 0 < |q| - 1;
    } else if (x == q[1] && y == q[2]) || (x == q[2] && y == q[1]) {
      assert 1 < |q| - 1;
    } else if (x == q[2] && y == q[3]) || (x == q[3] && y == q[2]) {
      assert 2 < |q| - 1;
    }
  }

  /** The joined pairs of a depth-first tree on `a, b, c, d`: `b` to `a`, `c` and `d` to their parents. */
  lemma TreeJoinedFour(a: int, b: int, c: int, d: int, par: map<int, int>, x: int, y: int)
    requires a in par && b in par && c in par && d in par
    requires par[a] != a && par[a] != b && par[a] != c && par[a] != d
    requires par[b] == a && (par[c] == a || par[c] == b) && (par[d] == a || par[d] == b || par[d] == c)
    requires x == a || x == b || x == c || x == d
    requires y == a || y == b || y == c || y == d
    ensures TreeJoined(par, x, y) <==>
      (x == b && y == a) || (x == a && y == b) || (x == c && y == par[c]) ||
      (x == par[c] && y == c) || (x == d && y == par[d]) || (x == par[d] && y == d)
  {
  }

  /** A vertex with three tree neighbours among four vertices has degree three. */
  lemma NoTreeStar(g: Graph, vs: seq<int>, x: int, y1: int, y2: int, y3: int)
    requires ValidVertices(g, vs) && x in vs
    requires y1 != y2 && y1 != y3 && y2 != y3
    requires Edge(g, vs, x, y1) && Edge(g, vs, x, y2) && Edge(g, vs, x, y3)
    ensures CountIn(g[x], vs) >= 3
  {
    CountInAtLeast(g[x], vs, {y1, y2, y3});
  }

  /**
   * A depth-first tree on four vertices, visited in the order `a, b, c, d`,
   * in which no vertex has three tree neighbours, lies along a path.
   */
  lemma FourTreeIsPath(g: Graph, vs: seq<int>, a: int, b: int, c: int, d: int, par: map<int, int>)
    returns (q: seq<int>)
    requires ValidVertices(g, vs)
    requires a != b && a != c && a != d && b != c && b != d && c != d
    requires Elements([a, b, c, d]) == Elements(vs)
    requires a in par && b in par && c in par && d in par
    requires par[a] !in vs && par[b] == a && (par[c] == a || par[c] == b)
    requires par[d] == a || par[d] == b || par[d] == c
    requires forall x, y :: x in vs && y in vs ==> (Edge(g, vs, x, y) <==> TreeJoined(par, x, y))
    requires forall x :: x in vs ==> CountIn(g[x], vs) <= 2
    ensures IsInducedPath(g, vs, q)
  {
    assert a in vs && b in vs && c in vs && d in vs by {
      assert a in Elements([a, b, c, d]) && b in Elements([a, b, c, d]);
      assert c in Elements([a, b, c, d]) && d in Elements([a, b, c, d]);
    }
    assert par[a] != a && par[a] != b && par[a] != c && par[a] != d;
    if par[c] == b && par[d] == b {
      TreeJoinedFour(a, b, c, d, par, b, a);
      TreeJoinedFour(a, b, c, d, par, b, c);
      TreeJoinedFour(a, b, c, d, par, b, d);
      NoTreeStar(g, vs, b, a, c, d);
      assert false;
    } else if par[c] == a && par[d] == a {
      TreeJoinedFour(a, b, c, d, par, a, b);
      TreeJoinedFour(a, b, c, d, par, a, c);
      TreeJoinedFour(a, b, c, d, par, a, d);
      NoTreeStar(g, vs, a, b, c, d);
      assert false;
    } else if par[c] == b && par[d] == c {
      q := [a, b, c, d];
    } else if par[c] == b && par[d] == a {
      q := [d, a, b, c];
    } else if par[c] == a && par[d] == b {
      q := [d, b, a, c];
    } else {
      q := [b, a, c, d];
    }
    assert Elements(q) == Elements([a, b, c, d]);
    forall x, y | x in vs && y in vs ensures Edge(g, vs, x, y) <==> Consecutive(q, x, y) {
      assert x in Elements([a, b, c, d]) && y in Elements([a, b, c, d]);
      ConsecutiveInFour(q, x, y);
      TreeJoinedFour(a, b, c, d, par, x, y);
    }
  }

  /** On an undirected graph the depth-first tree has exactly the induced edges. */
  lemma EdgeIsTreeJoined(g: Graph, vs: seq<int>, order: seq<int>, par: map<int, int>)
    requires ValidVertices(g, vs) && SymmetricOn(g, vs) && |vs| > 0
    requires IsWalkTree(g, vs, vs[0], NoParent, Elements(vs), order, par)
    ensures forall x, y :: x in vs && y in vs ==> (Edge(g, vs, x, y) <==> TreeJoined(par, x, y))
  {
    forall x, y | x in vs && y in vs ensures Edge(g, vs, x, y) <==> TreeJoined(par, x, y) {
      assert x in Elements(vs) && y in Elements(vs);
      if par[x] == y {
        assert x != order[0];
        var k :| 0 <= k < |order| && order[k] == x;
        assert Edge(g, vs, y, x);
      }
      if par[y] == x {
        assert y != order[0];
        var k :| 0 <= k < |order| && order[k] == y;
      }
    }
  }

  lemma FourEntries(s: seq<int>)
    requires |s| == 4
    ensures Elements(s) == Elements([s[0], s[1], s[2], s[3]])
    ensures forall x :: x in s[..1] ==> x == s[0]
    ensures forall x :: x in s[..2] ==> x == s[0] || x == s[1]
    ensures forall x :: x in s[..3] ==> x == s[0] || x == s[1] || x == s[2]
  {
    assert s == [s[0], s[1], s[2], s[3]];
  }

  /** The tree of a positive answer on four vertices, read off in visiting order. */
  lemma FourTree(g: Graph, vs: seq<int>) returns (a: int, b: int, c: int, d: int, par: map<int, int>)
    requires ValidVertices(g, vs) && |vs| == 4 && SymmetricOn(g, vs)
    requires ClassifiedAsP4(g, vs)
    ensures a != b && a != c && a != d && b != c && b != d && c != d
    ensures Elements([a, b, c, d]) == Elements(vs)
    ensures a in par && b in par && c in par && d in par
    ensures par[a] !in vs && par[b] == a && (par[c] == a || par[c] == b)
    ensures par[d] == a || par[d] == b || par[d] == c
    ensures forall x, y :: x in vs && y in vs ==> (Edge(g, vs, x, y) <==> TreeJoined(par, x, y))
  {
    var visited := Walk(g, vs, vs[0], NoParent, {}).1;
    var order;
    order, par := WalkTree(g, vs, vs[0], NoParent, {});
    ElementsCard(vs);
    SubsetCard(visited, Elements(vs));
    assert visited - {} == Elements(vs);
    ElementsCard(order);
    assert |order| == 4;
    FourEntries(order);
    a, b, c, d := order[0], order[1], order[2], order[3];
    assert par[b] in order[..1];
    assert par[c] in order[..2];
    assert par[d] in order[..3];
    EdgeIsTreeJoined(g, vs, order, par);
  }

  /** On an undirected graph, a positive answer means the four vertices induce a P4. */
  lemma ClassifiedIsInducedP4(g: Graph, vs: seq<int>)
    requires ValidVertices(g, vs) && |vs| == 4 && SymmetricOn(g, vs)
    requires ClassifiedAsP4(g, vs)
    ensures InducedP4(g, vs)
  {
    ClassifiedMeansConnected(g, vs);
    var a, b, c, d, par := FourTree(g, vs);
    var q := FourTreeIsPath(g, vs, a, b, c, d, par);
  }

  /**
   * On a graph that lists each neighbour once, four vertices that induce a P4
   * get a positive answer, whichever of them comes first.
   */
  lemma InducedP4IsClassified(g: Graph, vs: seq<int>)
    requires ValidVertices(g, vs) && NoParallelEdges(g, vs)
    requires InducedP4(g, vs)
    ensures ClassifiedAsP4(g, vs)
  {
    var q :| IsInducedPath(g, vs, q);
    assert vs[0] in Elements(q);
    var s :| 0 <= s < |q| && q[s] == vs[0];
    WalkWholePath(g, vs, q, s);
    ElementsCard(vs);
    forall x | x in vs ensures CountIn(g[x], vs) <= 2 {
      assert x in Elements(q);
      var k :| 0 <= k < |q| && q[k] == x;
      var bound := (if k > 0 then {q[k - 1]} else {}) + (if k + 1 < |q| then {q[k + 1]} else {});
      forall e | 0 <= e < |g[x]| && g[x][e] in vs ensures g[x][e] in bound {
        PathNeighbour(g, vs, q, k, g[x][e]);
      }
      CountInAtMost(g[x], vs, bound);
    }
  }

  /**
   * The doc-comment's claim, for graphs that are undirected and list each
   * neighbour once: `isP4` answers true exactly for induced P4s.
   */
  lemma ClassifiedIffInducedP4(g: Graph, vs: seq<int>)
    requires ValidVertices(g, vs) && |vs| == 4 && SimpleOn(g, vs)
    ensures ClassifiedAsP4(g, vs) <==> InducedP4(g, vs)
  {
    if ClassifiedAsP4(g, vs) {
      ClassifiedIsInducedP4(g, vs);
    }
    if InducedP4(g, vs) {
      InducedP4IsClassified(g, vs);
    }
  }
}
