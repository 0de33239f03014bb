/**
 * The walk of `isTree` over vertices that induce a path, on a graph that
 * lists each neighbour once: whatever the order of the adjacency entries, it
 * never fails and it visits the whole path. This is the half of the P4
 * characterisation that needs the graph to list each neighbour only once.
 */
module PathWalk {
  import opened Graphs
  import opened TreeWalk

  function Reverse(q: seq<int>): (r: seq<int>)
    ensures |r| == |q|
    ensures forall k :: 0 <= k < |q| ==> r[k] == q[|q| - 1 - k]
  {
    seq(|q|, k requires 0 <= k < |q| => q[|q| - 1 - k])
  }

  /** An induced path read backwards is an induced path. */
  lemma ReverseInducedPath(g: Graph, vs: seq<int>, q: seq<int>)
    requires IsInducedPath(g, vs, q)
    ensures IsInducedPath(g, vs, Reverse(q))
  {
    var r := Reverse(q);
    assert Elements(r) == Elements(q) by {
      forall x | x in q ensures x in r {
        var k :| 0 <= k < |q| && q[k] == x;
        assert r[|q| - 1 - k] == x;
      }
    }
    forall x, y ensures Consecutive(q, x, y) ==> Consecutive(r, x, y) {
      if Consecutive(q, x, y) {
        var k :| 0 <= k < |q| - 1 && ((q[k] == x && q[k + 1] == y) || (q[k] == y && q[k + 1] == x));
        var m := |q| - 2 - k;
        assert r[m] == q[k + 1] && r[m + 1] == q[k];
      }
    }
    forall x, y ensures Consecutive(r, x, y) ==> Consecutive(q, x, y) {
      if Consecutive(r, x, y) {
        var m :| 0 <= m < |r| - 1 && ((r[m] == x && r[m + 1] == y) || (r[m] == y && r[m + 1] == x));
        var k := |q| - 2 - m;
        assert q[k] == r[m + 1] && q[k + 1] == r[m];
      }
    }
  }

  /** In an induced path, the listed neighbours of `q[t]` are its two path neighbours. */
  lemma PathNeighbour(g: Graph, vs: seq<int>, q: seq<int>, t: nat, w: int)
    requires IsInducedPath(g, vs, q) && t < |q|
    requires w in vs && 0 <= q[t] < |g| && w in g[q[t]]
    ensures (t > 0 && w == q[t - 1]) || (t + 1 < |q| && w == q[t + 1])
  {
    assert q[t] in Elements(vs);
    assert Edge(g, vs, q[t], w);
    var k :| 0 <= k < |q| - 1 && ((q[k] == q[t] && q[k + 1] == w) || (q[k] == w && q[k + 1] == q[t]));
  }

  lemma PathEdge(g: Graph, vs: seq<int>, q: seq<int>, t: nat)
    requires IsInducedPath(g, vs, q) && t + 1 < |q|
    ensures Edge(g, vs, q[t], q[t + 1]) && Edge(g, vs, q[t + 1], q[t])
  {
    assert q[t] in Elements(vs) && q[t + 1] in Elements(vs);
    assert Consecutive(q, q[t], q[t + 1]);
    assert Consecutive(q, q[t + 1], q[t]);
  }

  ghost predicate PathSetting(g: Graph, vs: seq<int>, q: seq<int>)
  {
    ValidVertices(g, vs) && NoParallelEdges(g, vs) && IsInducedPath(g, vs, q)
  }

  lemma PrefixElements(q: seq<int>, t: nat)
    requires t < |q|
    ensures Elements(q[..t + 1]) == Elements(q[..t]) + {q[t]}
  {
    assert q[..t + 1] == q[..t] + [q[t]];
  }

  /** Entered from `q[t + 1]`, the walk runs down to `q[0]` and back without failing. */
  lemma {:induction false} WalkDownPath(g: Graph, vs: seq<int>, q: seq<int>, t: nat, visited: set<int>)
    requires PathSetting(g, vs, q) && t + 1 < |q|
    requires forall k :: 0 <= k <= t ==> q[k] !in visited
    ensures q[t] in vs
    ensures Walk(g, vs, q[t], q[t + 1], visited) == (true, visited + Elements(q[..t + 1]))
    decreases t, 1
  {
    assert q[t] in Elements(vs);
    if t > 0 {
      PathEdge(g, vs, q, t - 1);
      assert g[q[t]][0..] == g[q[t]];
    }
    assert forall k :: 0 <= k < t ==> q[k] != q[t];
    ScanDownPath(g, vs, q, t, 0, visited + {q[t]});
    PrefixElements(q, t);
    assert Walk(g, vs, q[t], q[t + 1], visited) == Scan(g, vs, q[t], q[t + 1], 0, visited + {q[t]});
    if t == 0 {
      assert Elements(q[..t]) == {};
      assert visited + {q[t]} == visited + Elements(q[..t + 1]);
    } else {
      assert q[t - 1] in g[q[t]][0..];
      assert visited + {q[t]} + Elements(q[..t]) == visited + Elements(q[..t + 1]);
    }
  }

  lemma {:induction false} ScanDownPath(g: Graph, vs: seq<int>, q: seq<int>, t: nat, i: nat, visited: set<int>)
    requires PathSetting(g, vs, q) && t + 1 < |q|
    requires q[t] in vs && i <= |g[q[t]]| && q[t] in visited
    requires t > 0 && q[t - 1] in g[q[t]][i..] ==> forall k :: 0 <= k < t ==> q[k] !in visited
    ensures Scan(g, vs, q[t], q[t + 1], i, visited)
         == (true, if t > 0 && q[t - 1] in g[q[t]][i..] then visited + Elements(q[..t]) else visited)
    decreases t, 0, |g[q[t]]| - i
  {
    var v := q[t];
    if i < |g[v]| {
      var w := g[v][i];
      if t > 0 {
        assert q[t - 1] in Elements(vs);
        AheadAfter(g, vs, v, i, q[t - 1]);
      }
      if w == q[t + 1] || w !in vs {
        assert t > 0 ==> q[t - 1] != q[t + 1];
        ScanDownPath(g, vs, q, t, i + 1, visited);
      } else {
        PathNeighbour(g, vs, q, t, w);
        assert w == q[t - 1] && q[t - 1 + 1] == v;
        assert w in g[v][i..];
        WalkDownPath(g, vs, q, t - 1, visited);
        ScanDownPath(g, vs, q, t, i + 1, visited + Elements(q[..t]));
      }
    } else {
      assert g[v][i..] == [];
    }
  }

  /** Entered from `q[s]`, the walk runs up to the end of the path and back without failing. */
  lemma WalkUpPath(g: Graph, vs: seq<int>, q: seq<int>, s: nat, visited: set<int>)
    requires PathSetting(g, vs, q) && s + 1 < |q|
    requires forall k :: s < k < |q| ==> q[k] !in visited
    ensures q[s + 1] in vs
    ensures Walk(g, vs, q[s + 1], q[s], visited) == (true, visited + Elements(q[s + 1..]))
  {
    var r := Reverse(q);
    var t := |q| - 2 - s;
    ReverseInducedPath(g, vs, q);
    assert r[t] == q[s + 1] && r[t + 1] == q[s];
    forall k | 0 <= k <= t ensures r[k] !in visited {
      assert r[k] == q[|q| - 1 - k];
    }
    WalkDownPath(g, vs, r, t, visited);
    assert Elements(r[..t + 1]) == Elements(q[s + 1..]) by {
      forall k | 0 <= k <= t ensures r[k] in q[s + 1..] {
        assert r[k] == q[s + 1..][|q| - 1 - k - (s + 1)];
      }
      forall k | s + 1 <= k < |q| ensures q[k] in r[..t + 1] {
        assert q[k] == r[..t + 1][|q| - 1 - k];
      }
    }
  }

  /** Started at any vertex of the path, the walk visits the whole path and succeeds. */
  lemma WalkWholePath(g: Graph, vs: seq<int>, q: seq<int>, s: nat)
    requires PathSetting(g, vs, q) && s < |q|
    ensures q[s] in vs
    ensures Walk(g, vs, q[s], NoParent, {}) == (true, Elements(q))
  {
    assert q[s] in Elements(vs);
    if s > 0 {
      PathEdge(g, vs, q, s - 1);
    }
    if s + 1 < |q| {
      PathEdge(g, vs, q, s);
    }
    assert g[q[s]][0..] == g[q[s]];
    assert Elements(q[..0]) == {} && Elements(q[|q|..]) == {};
    assert {} + {q[s]} == {q[s]};
    ScanWholePath(g, vs, q, s, 0, {q[s]});
  }

  /** A listed neighbour is ahead of position `i + 1` iff it is ahead of `i` and not at `i`. */
  lemma AheadAfter(g: Graph, vs: seq<int>, v: int, i: nat, x: int)
    requires ValidVertices(g, vs) && NoParallelEdges(g, vs) && v in vs && i < |g[v]| && x in vs
    ensures (x in g[v][i + 1..]) <==> (x in g[v][i..] && x != g[v][i])
  {
    assert g[v][i..] == [g[v][i]] + g[v][i + 1..];
    if x == g[v][i] {
      forall j | i + 1 <= j < |g[v]| ensures g[v][j] != x {
        assert g[v][i] in vs;
      }
    }
  }

  /** The vertices the root loop has visited once it has passed the left and/or right neighbour. */
  function RootVisited(q: seq<int>, s: nat, leftAhead: bool, rightAhead: bool): set<int>
    requires s < |q|
  {
    {q[s]} + (if leftAhead then {} else Elements(q[..s])) + (if rightAhead then {} else Elements(q[s + 1..]))
  }

  /** Once both path neighbours are behind, the root loop has visited the whole path. */
  lemma RootVisitedAll(q: seq<int>, s: nat)
    requires s < |q|
    ensures RootVisited(q, s, false, false) == Elements(q)
  {
    assert q == q[..s] + [q[s]] + q[s + 1..];
    assert Elements(q) == Elements(q[..s]) + {q[s]} + Elements(q[s + 1..]);
  }

  /** Returning from the walk down adds the vertices before `q[s]`. */
  lemma RootVisitedLeft(q: seq<int>, s: nat, rightAhead: bool)
    requires s < |q|
    ensures RootVisited(q, s, true, rightAhead) + Elements(q[..s]) == RootVisited(q, s, false, rightAhead)
  {
  }

  /** Returning from the walk up adds the vertices after `q[s]`. */
  lemma RootVisitedRight(q: seq<int>, s: nat, leftAhead: bool)
    requires s < |q|
    ensures RootVisited(q, s, leftAhead, true) + Elements(q[s + 1..]) == RootVisited(q, s, leftAhead, false)
  {
  }

  lemma {:induction false} ScanWholePath(g: Graph, vs: seq<int>, q: seq<int>, s: nat, i: nat, visited: set<int>)
    requires PathSetting(g, vs, q) && s < |q|
    requires q[s] in vs && i <= |g[q[s]]|
    requires visited == RootVisited(q, s, s > 0 && q[s - 1] in g[q[s]][i..], s + 1 < |q| && q[s + 1] in g[q[s]][i..])
    ensures Scan(g, vs, q[s], NoParent, i, visited) == (true, Elements(q))
    decreases |g[q[s]]| - i
  {
    var v := q[s];
    if i == |g[v]| {
      assert g[v][i..] == [];
      RootVisitedAll(q, s);
    } else {
      var w := g[v][i];
      var left := s > 0 && q[s - 1] in g[v][i..];
      var right := s + 1 < |q| && q[s + 1] in g[v][i..];
      var left' := s > 0 && q[s - 1] in g[v][i + 1..];
      var right' := s + 1 < |q| && q[s + 1] in g[v][i + 1..];
      if s > 0 {
        assert q[s - 1] in Elements(vs);
        AheadAfter(g, vs, v, i, q[s - 1]);
      }
      if s + 1 < |q| {
        assert q[s + 1] in Elements(vs);
        AheadAfter(g, vs, v, i, q[s + 1]);
      }
      if w == NoParent || w !in vs {
        assert left' == left && right' == right;
        ScanWholePath(g, vs, q, s, i + 1, visited);
      } else {
        PathNeighbour(g, vs, q, s, w);
        if s > 0 && w == q[s - 1] {
          WalkDownPath(g, vs, q, s - 1, visited);
          assert q[s - 1 + 1] == v;
          assert left && !left' && right' == right;
          RootVisitedLeft(q, s, right);
          ScanWholePath(g, vs, q, s, i + 1, visited + Elements(q[..s]));
        } else {
          WalkUpPath(g, vs, q, s, visited);
          assert right && !right' && left' == left;
          RootVisitedRight(q, s, left);
          ScanWholePath(g, vs, q, s, i + 1, visited + Elements(q[s + 1..]));
        }
      }
    }
  }
}
