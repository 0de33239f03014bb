/**
 * `isTree`: a depth-first walk from a vertex, restricted to the vertices of a
 * list, that fails as soon as it meets an already visited listed neighbour
 * other than the vertex it came from.
 *
 * The shared `visitados` set of the original is passed in and handed back.
 * `Walk` (one call of `isTree`) and `Scan` (its loop over the neighbours from
 * a given position on) define the walk as functions; the method `IsTree` is
 * the recursive, looping routine and is proved to compute them.
 */
module TreeWalk {
  import opened Graphs

  /** Visiting one more listed vertex leaves fewer listed vertices unvisited. */
  lemma UnvisitedShrinks(listed: set<int>, before: set<int>, after: set<int>, v: int)
    requires v in listed && v !in before && before + {v} <= after
    ensures |listed - after| < |listed - before|
  {
    SubsetCard(listed - after, (listed - before) - {v});
  }

  lemma UnvisitedNoMore(listed: set<int>, before: set<int>, after: set<int>)
    requires before <= after
    ensures |listed - after| <= |listed - before|
  {
    SubsetCard(listed - after, listed - before);
  }

  /**
   * One call `isTree(grafo, vs, v, parent)` with `visitados == visited`:
   * the verdict and the visited set it leaves behind.
   */
  function Walk(g: Graph, vs: seq<int>, v: int, parent: int, visited: set<int>): (r: (bool, set<int>))
    requires ValidVertices(g, vs) && v in vs && v !in visited
    ensures visited + {v} <= r.1 <= visited + Elements(vs)
    decreases |Elements(vs) - visited|, 0
  {
    UnvisitedShrinks(Elements(vs), visited, visited + {v}, v);
    Scan(g, vs, v, parent, 0, visited + {v})
  }

  /** The neighbour loop of `isTree` at `v`, from position `i` of `g[v]` on. */
  function Scan(g: Graph, vs: seq<int>, v: int, parent: int, i: nat, visited: set<int>): (r: (bool, set<int>))
    requires ValidVertices(g, vs) && v in vs && v in visited && i <= |g[v]|
    ensures visited <= r.1 <= visited + Elements(vs)
    decreases |Elements(vs) - visited|, 1, |g[v]| - i
  {
    if i == |g[v]| then (true, visited)
    else
      var w := g[v][i];
      if w == parent || w !in vs then Scan(g, vs, v, parent, i + 1, visited)
      else if w in visited then (false, visited)
      else
        var sub := Walk(g, vs, w, v, visited);
        if !sub.0 then (false, sub.1)
        else
          UnvisitedNoMore(Elements(vs), visited, sub.1);
          Scan(g, vs, v, parent, i + 1, sub.1)
  }

  /** `isTree(grafo, vs, v, parent)`, with the shared visited set passed in and back. */
  method IsTree(g: Graph, vs: seq<int>, v: int, parent: int, visited: set<int>)
    returns (ok: bool, visitedOut: set<int>)
    requires ValidVertices(g, vs) && v in vs && v !in visited
    ensures (ok, visitedOut) == Walk(g, vs, v, parent, visited)
    decreases |Elements(vs) - visited|
  {
    visitedOut := visited + {v};
    var i := 0;
    while i < |g[v]|
      invariant i <= |g[v]|
      invariant visited + {v} <= visitedOut
      invariant Scan(g, vs, v, parent, i, visitedOut) == Walk(g, vs, v, parent, visited)
    {
      var neighbor := g[v][i];
      if neighbor != parent && neighbor in vs {
        if neighbor in visitedOut {
          return false, visitedOut;
        }
        UnvisitedShrinks(Elements(vs), visited, visitedOut, v);
        var subOk;
        subOk, visitedOut := IsTree(g, vs, neighbor, v, visitedOut);
        if !subOk {
          return false, visitedOut;
        }
      }
      i := i + 1;
    }
    return true, visitedOut;
  }

  // ---------------------------------------------------------------------
  // What a successful walk has built: a depth-first tree whose edges are
  // all the listed-neighbour entries among the vertices it visited.
  // ---------------------------------------------------------------------

  /**
   * `order` lists the vertices `newly` visited by one call from `v`, in
   * visiting order; `par` maps each to the vertex it was entered from (`v` to
   * `parent`). Every listed neighbour of a newly visited vertex is its parent
   * or one of its children, so the walk met no second way into any vertex.
   */
  ghost predicate IsWalkTree(g: Graph, vs: seq<int>, v: int, parent: int, newly: set<int>,
                             order: seq<int>, par: map<int, int>)
  {
    && |order| > 0 && order[0] == v
    && Distinct(order) && Elements(order) == newly
    && par.Keys == newly && par[v] == parent
    && (forall k :: 0 < k < |order| ==> par[order[k]] in order[..k] && Edge(g, vs, par[order[k]], order[k]))
    && (forall u, w :: u in par && Edge(g, vs, u, w) ==> w == par[u] || (w in par && par[w] == u))
  }

  /**
   * The same for the children entered by the neighbour loop of `v` from
   * position `i` on: a forest hanging from `v`, in which every listed
   * neighbour of `v` met from `i` on, other than `parent`, is a child of `v`.
   */
  ghost predicate IsScanForest(g: Graph, vs: seq<int>, v: int, parent: int, i: nat, newly: set<int>,
                               order: seq<int>, par: map<int, int>)
    requires ValidVertices(g, vs) && v in vs
  {
    && v !in newly
    && Distinct(order) && Elements(order) == newly && par.Keys == newly
    && (forall k :: 0 <= k < |order| ==>
          (par[order[k]] == v || par[order[k]] in order[..k]) && Edge(g, vs, par[order[k]], order[k]))
    && (forall u, w :: u in par && Edge(g, vs, u, w) ==> w == par[u] || (w in par && par[w] == u))
    && (forall j :: i <= j < |g[v]| && g[v][j] in vs && g[v][j] != parent ==>
          g[v][j] in par && par[g[v][j]] == v)
  }

  /** Putting `v` in front of a forest's visiting order keeps every parent ahead of its child. */
  lemma PrependRootOrder(v: int, parent: int, o: seq<int>, p: map<int, int>)
    requires p.Keys == Elements(o) && v !in p
    requires forall k :: 0 <= k < |o| ==> p[o[k]] == v || p[o[k]] in o[..k]
    ensures forall k :: 0 < k < |[v] + o| ==> p[v := parent][([v] + o)[k]] in ([v] + o)[..k]
  {
    var order := [v] + o;
    forall k | 0 < k < |order| ensures p[v := parent][order[k]] in order[..k] {
      var x := o[k - 1];
      assert order[k] == x && x in p;
      assert p[v := parent][x] == p[x];
      if p[x] == v {
        assert order[..k][0] == v;
      } else {
        var m :| 0 <= m < k - 1 && o[m] == p[x];
        assert order[..k][m + 1] == o[m];
      }
    }
  }

  /** Putting `v`, which is not in the list, in front of a duplicate-free list. */
  lemma PrependDistinct(v: int, o: seq<int>)
    requires v !in Elements(o) && Distinct(o)
    ensures Distinct([v] + o)
  {
    var order := [v] + o;
    forall a, b | 0 <= a < b < |order| ensures order[a] != order[b] {
      if a == 0 {
        assert order[b] == o[b - 1] && o[b - 1] in Elements(o);
      } else {
        assert order[a] == o[a - 1] && order[b] == o[b - 1];
      }
    }
  }

  /** The edge from each parent to its child stays an edge once `v` is put in front. */
  lemma PrependRootEdges(g: Graph, vs: seq<int>, v: int, parent: int, o: seq<int>, p: map<int, int>)
    requires v !in Elements(o) && p.Keys == Elements(o)
    requires forall k :: 0 <= k < |o| ==> Edge(g, vs, p[o[k]], o[k])
    ensures forall k :: 0 < k < |[v] + o| ==> Edge(g, vs, p[v := parent][([v] + o)[k]], ([v] + o)[k])
  {
    forall k | 0 < k < |[v] + o| ensures Edge(g, vs, p[v := parent][([v] + o)[k]], ([v] + o)[k]) {
      var x := o[k - 1];
      assert ([v] + o)[k] == x && x in Elements(o) && p[v := parent][x] == p[x];
    }
  }

  /** Every listed neighbour of the new root is its parent or one of its children. */
  lemma PrependRootNeighbours(g: Graph, vs: seq<int>, v: int, parent: int, p: map<int, int>)
    requires ValidVertices(g, vs) && v in vs && v !in p
    requires forall u, w :: u in p && Edge(g, vs, u, w) ==> w == p[u] || (w in p && p[w] == u)
    requires forall j :: 0 <= j < |g[v]| && g[v][j] in vs && g[v][j] != parent ==>
               g[v][j] in p && p[g[v][j]] == v
    ensures forall u, w :: u in p[v := parent] && Edge(g, vs, u, w) ==>
              w == p[v := parent][u] || (w in p[v := parent] && p[v := parent][w] == u)
  {
    var par := p[v := parent];
    forall u, w | u in par && Edge(g, vs, u, w) ensures w == par[u] || (w in par && par[w] == u) {
      if u == v {
        var j :| 0 <= j < |g[v]| && g[v][j] == w;
      } else {
        assert u in p && par[u] == p[u];
        if w != par[u] {
          assert w in p && p[w] == u;
        }
      }
    }
  }

  /** The walk from `v` is `v` followed by the forest its neighbour loop built. */
  lemma TreeFromForest(g: Graph, vs: seq<int>, v: int, parent: int, newly: set<int>,
                       o: seq<int>, p: map<int, int>)
    returns (order: seq<int>, par: map<int, int>)
    requires ValidVertices(g, vs) && v in vs
    requires IsScanForest(g, vs, v, parent, 0, newly, o, p)
    ensures IsWalkTree(g, vs, v, parent, newly + {v}, order, par)
  {
    order := [v] + o;
    par := p[v := parent];
    PrependRootOrder(v, parent, o, p);
    PrependDistinct(v, o);
    PrependRootEdges(g, vs, v, parent, o, p);
    PrependRootNeighbours(g, vs, v, parent, p);
    assert Elements(order) == {v} + Elements(o);
  }

  /** Two visiting orders over disjoint sets, one after the other: parents still come first. */
  lemma JoinOrder(g: Graph, vs: seq<int>, v: int, o1: seq<int>, p1: map<int, int>, o2: seq<int>, p2: map<int, int>)
    requires Distinct(o1) && Distinct(o2) && Elements(o1) !! Elements(o2)
    requires p1.Keys == Elements(o1) && p2.Keys == Elements(o2)
    requires forall k :: 0 <= k < |o1| ==> (p1[o1[k]] == v || p1[o1[k]] in o1[..k]) && Edge(g, vs, p1[o1[k]], o1[k])
    requires forall k :: 0 <= k < |o2| ==> (p2[o2[k]] == v || p2[o2[k]] in o2[..k]) && Edge(g, vs, p2[o2[k]], o2[k])
    ensures Distinct(o1 + o2)
    ensures forall k :: 0 <= k < |o1 + o2| ==>
              ((p1 + p2)[(o1 + o2)[k]] == v || (p1 + p2)[(o1 + o2)[k]] in (o1 + o2)[..k])
              && Edge(g, vs, (p1 + p2)[(o1 + o2)[k]], (o1 + o2)[k])
  {
    var order := o1 + o2;
    var par := p1 + p2;
    forall k | 0 <= k < |order|
      ensures (par[order[k]] == v || par[order[k]] in order[..k]) && Edge(g, vs, par[order[k]], order[k])
    {
      if k < |o1| {
        var x := o1[k];
        assert order[k] == x && x in Elements(o1) && x !in Elements(o2) && par[x] == p1[x];
        if k > 0 && p1[x] != v {
          var m :| 0 <= m < k && o1[m] == p1[x];
          assert order[..k][m] == o1[m];
        }
      } else {
        var k2 := k - |o1|;
        var x := o2[k2];
        assert order[k] == x && x in Elements(o2) && par[x] == p2[x];
        if p2[x] != v {
          var m :| 0 <= m < k2 && o2[m] == p2[x];
          assert order[..k][|o1| + m] == o2[m];
        }
      }
    }
    forall a, b | 0 <= a < b < |order| ensures order[a] != order[b] {
      if b < |o1| {
        assert order[a] == o1[a] && order[b] == o1[b];
      } else if a >= |o1| {
        assert order[a] == o2[a - |o1|] && order[b] == o2[b - |o1|];
      } else {
        assert order[a] == o1[a] && o1[a] in Elements(o1);
        assert order[b] == o2[b - |o1|] && o2[b - |o1|] in Elements(o2);
      }
    }
  }

  /** A child's tree and the later children's forest, joined: every listed neighbour is a parent or a child. */
  lemma JoinNeighbours(g: Graph, vs: seq<int>, v: int, parent: int, i: nat, w: int,
                       p1: map<int, int>, p2: map<int, int>)
    requires ValidVertices(g, vs) && v in vs && i < |g[v]| && g[v][i] == w && w in p1 && p1[w] == v
    requires p1.Keys !! p2.Keys
    requires forall u, x :: u in p1 && Edge(g, vs, u, x) ==> x == p1[u] || (x in p1 && p1[x] == u)
    requires forall u, x :: u in p2 && Edge(g, vs, u, x) ==> x == p2[u] || (x in p2 && p2[x] == u)
    requires forall j :: i + 1 <= j < |g[v]| && g[v][j] in vs && g[v][j] != parent ==>
               g[v][j] in p2 && p2[g[v][j]] == v
    ensures forall u, x :: u in p1 + p2 && Edge(g, vs, u, x) ==>
              x == (p1 + p2)[u] || (x in p1 + p2 && (p1 + p2)[x] == u)
    ensures forall j :: i <= j < |g[v]| && g[v][j] in vs && g[v][j] != parent ==>
              g[v][j] in p1 + p2 && (p1 + p2)[g[v][j]] == v
  {
    var par := p1 + p2;
    forall u, x | u in par && Edge(g, vs, u, x) ensures x == par[u] || (x in par && par[x] == u) {
      if u in p1 {
        assert par[u] == p1[u];
        if x != p1[u] {
          assert x in p1 && par[x] == p1[x];
        }
      } else {
        assert par[u] == p2[u];
        if x != p2[u] {
          assert x in p2 && par[x] == p2[x];
        }
      }
    }
    forall j | i <= j < |g[v]| && g[v][j] in vs && g[v][j] != parent
      ensures g[v][j] in par && par[g[v][j]] == v
    {
      if j == i {
        assert w !in p2 && par[w] == p1[w];
      } else {
        assert g[v][j] in p2 && par[g[v][j]] == p2[g[v][j]];
      }
    }
  }

  /** A child's tree followed by the forest of the later children is again a forest. */
  lemma JoinForest(g: Graph, vs: seq<int>, v: int, parent: int, i: nat, w: int,
                   newly1: set<int>, o1: seq<int>, p1: map<int, int>,
                   newly2: set<int>, o2: seq<int>, p2: map<int, int>)
    returns (order: seq<int>, par: map<int, int>)
    requires ValidVertices(g, vs) && v in vs && i < |g[v]| && g[v][i] == w && w in vs
    requires v !in newly1 && newly1 !! newly2
    requires IsWalkTree(g, vs, w, v, newly1, o1, p1)
    requires IsScanForest(g, vs, v, parent, i + 1, newly2, o2, p2)
    ensures IsScanForest(g, vs, v, parent, i, newly1 + newly2, order, par)
  {
    order := o1 + o2;
    par := p1 + p2;
    assert forall k :: 0 < k < |o1| ==> p1[o1[k]] in o1[..k];
    assert p1[o1[0]] == v;
    JoinOrder(g, vs, v, o1, p1, o2, p2);
    JoinNeighbours(g, vs, v, parent, i, w, p1, p2);
    assert Elements(order) == Elements(o1) + Elements(o2);
  }

  lemma {:induction false} WalkTree(g: Graph, vs: seq<int>, v: int, parent: int, visited: set<int>)
    returns (order: seq<int>, par: map<int, int>)
    requires ValidVertices(g, vs) && v in vs && v !in visited
    requires Walk(g, vs, v, parent, visited).0
    ensures IsWalkTree(g, vs, v, parent, Walk(g, vs, v, parent, visited).1 - visited, order, par)
    decreases |Elements(vs) - visited|, 0
  {
    UnvisitedShrinks(Elements(vs), visited, visited + {v}, v);
    var after := Walk(g, vs, v, parent, visited).1;
    var o, p := ScanForest(g, vs, v, parent, 0, visited + {v});
    assert after - visited == (after - (visited + {v})) + {v};
    order, par := TreeFromForest(g, vs, v, parent, after - (visited + {v}), o, p);
  }

  lemma {:induction false} ScanForest(g: Graph, vs: seq<int>, v: int, parent: int, i: nat, visited: set<int>)
    returns (order: seq<int>, par: map<int, int>)
    requires ValidVertices(g, vs) && v in vs && v in visited && i <= |g[v]|
    requires Scan(g, vs, v, parent, i, visited).0
    ensures IsScanForest(g, vs, v, parent, i, Scan(g, vs, v, parent, i, visited).1 - visited, order, par)
    decreases |Elements(vs) - visited|, 1, |g[v]| - i
  {
    if i == |g[v]| {
      order, par := [], map[];
    } else {
      var w := g[v][i];
      if w == parent || w !in vs {
        order, par := ScanForest(g, vs, v, parent, i + 1, visited);
      } else {
        var sub := Walk(g, vs, w, v, visited);
        var o1, p1 := WalkTree(g, vs, w, v, visited);
        UnvisitedNoMore(Elements(vs), visited, sub.1);
        var o2, p2 := ScanForest(g, vs, v, parent, i + 1, sub.1);
        var after := Scan(g, vs, v, parent, i + 1, sub.1).1;
        assert after - visited == (sub.1 - visited) + (after - sub.1);
        order, par := JoinForest(g, vs, v, parent, i, w, sub.1 - visited, o1, p1, after - sub.1, o2, p2);
      }
    }
  }
}
