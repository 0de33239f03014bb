/**
 * What `isP4Sparse` decides, in the terms of the definition it implements:
 * a graph is P4-sparse when every set of five vertices contains at most one
 * set of four vertices that induces a P4.
 *
 * The answer agrees with that definition for an undirected graph that lists
 * each neighbour once, when `listOfNodes` holds no vertex twice.
 */
module SparseMeaning {
  import opened Graphs
  import opened CountingP4
  import opened Sparsity

  /** Four vertices, taken as a set, induce a P4. */
  ghost predicate InducesP4(g: Graph, T: set<int>)
  {
    exists q :: Elements(q) == T && InducedP4(g, q)
  }

  /** No two different sets of four vertices inside `S` induce a P4. */
  ghost predicate AtMostOneInducedP4(g: Graph, S: set<int>)
  {
    forall T1, T2 :: T1 <= S && T2 <= S && InducesP4(g, T1) && InducesP4(g, T2) ==> T1 == T2
  }

  /** Every set of five vertices of `V` contains at most one induced P4. */
  ghost predicate P4Sparse(g: Graph, V: set<int>)
  {
    forall S :: S <= V && |S| == 5 ==> AtMostOneInducedP4(g, S)
  }

  // ---------------------------------------------------------------------
  // Sets of four inside a list of five different vertices.
  // ---------------------------------------------------------------------

  lemma InducesP4Size(g: Graph, T: set<int>)
    requires InducesP4(g, T)
    ensures |T| == 4
  {
    var q :| Elements(q) == T && InducedP4(g, q);
    ElementsCard(q);
  }

  lemma OmissionElements(c: seq<int>, t: nat)
    requires Distinct(c) && t < |c|
    ensures Elements(RemoveAt(c, t)) == Elements(c) - {c[t]}
  {
    var r := RemoveAt(c, t);
    forall x | x in Elements(c) - {c[t]} ensures x in Elements(r) {
      var k :| 0 <= k < |c| && c[k] == x;
      if k < t {
        assert r[k] == x;
      } else {
        assert r[k - 1] == x;
      }
    }
    forall x | x in Elements(r) ensures x in Elements(c) - {c[t]} {
      var k :| 0 <= k < |r| && r[k] == x;
      if k < t {
        assert c[k] == x;
      } else {
        assert c[k + 1] == x;
      }
    }
  }

  /** A set of four inside the vertices of a list of five is what leaving out one entry leaves. */
  lemma FourIsOmission(c: seq<int>, T: set<int>) returns (t: nat)
    requires Distinct(c) && |c| == 5 && T <= Elements(c) && |T| == 4
    ensures t < 5 && T == Elements(RemoveAt(c, t))
  {
    ElementsCard(c);
    assert |Elements(c) - T| == 1;
    var x :| x in Elements(c) - T;
    var k :| 0 <= k < |c| && c[k] == x;
    t := k;
    OmissionElements(c, t);
    SubsetCard(T, Elements(c) - {x});
  }

  /** Leaving out entry `t` yields an induced P4 iff its set of four vertices induces one. */
  lemma OmissionInducesP4(g: Graph, c: seq<int>, t: nat)
    requires Distinct(c) && |c| == 5 && t < 5
    ensures InducedP4(g, RemoveAt(c, t)) <==> InducesP4(g, Elements(RemoveAt(c, t)))
  {
    var r := RemoveAt(c, t);
    if InducesP4(g, Elements(r)) {
      var q :| Elements(q) == Elements(r) && InducedP4(g, q);
      assert forall x :: x in q <==> x in Elements(q);
      assert forall x :: x in r <==> x in Elements(r);
      InducedP4SameMembers(g, q, r);
    }
  }

  // ---------------------------------------------------------------------
  // Counting omissions.
  // ---------------------------------------------------------------------

  /** One step of the count: the omission of entry `n - 1` adds one when it induces a P4. */
  lemma InducedBeforeStep(g: Graph, s: seq<int>, n: nat)
    requires 0 < n <= |s|
    ensures InducedP4(g, RemoveAt(s, n - 1)) ==> InducedBefore(g, s, n) == InducedBefore(g, s, n - 1) + 1
    ensures !InducedP4(g, RemoveAt(s, n - 1)) ==> InducedBefore(g, s, n) == InducedBefore(g, s, n - 1)
  {
  }

  lemma {:induction false} TwoCounted(g: Graph, s: seq<int>, n: nat) returns (t1: nat, t2: nat)
    requires n <= |s| && InducedBefore(g, s, n) >= 2
    ensures t1 < t2 < n
    ensures InducedP4(g, RemoveAt(s, t1)) && InducedP4(g, RemoveAt(s, t2))
  {
    InducedBeforeStep(g, s, n);
    if InducedBefore(g, s, n - 1) >= 2 {
      t1, t2 := TwoCounted(g, s, n - 1);
    } else {
      t2 := n - 1;
      t1 := OneCounted(g, s, n - 1);
    }
  }

  lemma {:induction false} OneCounted(g: Graph, s: seq<int>, n: nat) returns (t: nat)
    requires n <= |s| && InducedBefore(g, s, n) >= 1
    ensures t < n && InducedP4(g, RemoveAt(s, t))
  {
    InducedBeforeStep(g, s, n);
    if InducedBefore(g, s, n - 1) >= 1 {
      t := OneCounted(g, s, n - 1);
    } else {
      t := n - 1;
    }
  }

  lemma {:induction false} CountedTwo(g: Graph, s: seq<int>, n: nat, t1: nat, t2: nat)
    requires n <= |s| && t1 < t2 < n
    requires InducedP4(g, RemoveAt(s, t1)) && InducedP4(g, RemoveAt(s, t2))
    ensures InducedBefore(g, s, n) >= 2
  {
    InducedBeforeStep(g, s, n);
    if t2 < n - 1 {
      CountedTwo(g, s, n - 1, t1, t2);
    } else {
      CountedOne(g, s, n - 1, t1);
    }
  }

  lemma {:induction false} CountedOne(g: Graph, s: seq<int>, n: nat, t: nat)
    requires n <= |s| && t < n && InducedP4(g, RemoveAt(s, t))
    ensures InducedBefore(g, s, n) >= 1
  {
    InducedBeforeStep(g, s, n);
    if t < n - 1 {
      CountedOne(g, s, n - 1, t);
    }
  }

  /**
   * For five different vertices: at most one omission induces a P4 iff at
   * most one set of four of them induces a P4.
   */
  lemma AtMostOneOmission(g: Graph, c: seq<int>)
    requires Distinct(c) && |c| == 5
    ensures InducedBefore(g, c, 5) <= 1 <==> AtMostOneInducedP4(g, Elements(c))
  {
    if InducedBefore(g, c, 5) > 1 {
      var t1, t2 := TwoCounted(g, c, 5);
      OmissionInducesP4(g, c, t1);
      OmissionInducesP4(g, c, t2);
      OmissionElements(c, t1);
      OmissionElements(c, t2);
      assert c[t1] in Elements(RemoveAt(c, t2)) - Elements(RemoveAt(c, t1));
    } else {
      forall T1, T2 | T1 <= Elements(c) && T2 <= Elements(c) && InducesP4(g, T1) && InducesP4(g, T2)
        ensures T1 == T2
      {
        InducesP4Size(g, T1);
        InducesP4Size(g, T2);
        var t1 := FourIsOmission(c, T1);
        var t2 := FourIsOmission(c, T2);
        OmissionInducesP4(g, c, t1);
        OmissionInducesP4(g, c, t2);
        if t1 < t2 {
          CountedTwo(g, c, 5, t1, t2);
        } else if t2 < t1 {
          CountedTwo(g, c, 5, t2, t1);
        }
      }
    }
  }

  // ---------------------------------------------------------------------
  // Choices of positions and sets of five vertices.
  // ---------------------------------------------------------------------

  lemma ChoiceDistinct(L: seq<int>, i: nat, j: nat, k: nat, l: nat, m: nat)
    requires Distinct(L) && i < j < k < l < m < |L|
    ensures Distinct(Combination(L, i, j, k, l, m))
    ensures Elements(Combination(L, i, j, k, l, m)) <= Elements(L)
    ensures |Elements(Combination(L, i, j, k, l, m))| == 5
  {
    ElementsCard(Combination(L, i, j, k, l, m));
  }

  /** A choice passes iff its five vertices contain at most one induced P4. */
  lemma ChoiceMeaning(g: Graph, L: seq<int>, i: nat, j: nat, k: nat, l: nat, m: nat)
    requires ValidVertices(g, L) && Distinct(L) && SimpleOn(g, L) && i < j < k < l < m < |L|
    ensures AtMostOneP4(g, L, i, j, k, l, m) <==> AtMostOneInducedP4(g, Elements(Combination(L, i, j, k, l, m)))
  {
    var c := Combination(L, i, j, k, l, m);
    ChoiceDistinct(L, i, j, k, l, m);
    SimpleOnSubList(g, L, c);
    P4CountCountsInducedP4s(g, c);
    AtMostOneOmission(g, c);
  }

  lemma MinimumExists(P: set<int>) returns (x: int)
    requires P != {}
    ensures x in P && forall y :: y in P ==> x <= y
    decreases |P|
  {
    assert exists y :: y in P by {
      if forall y :: y !in P {
        assert false;
      }
    }
    var y :| y in P;
    if P == {y} {
      x := y;
    } else {
      var z := MinimumExists(P - {y});
      x := if y < z then y else z;
      forall w | w in P ensures x <= w {
        if w != y {
          assert w in P - {y};
        }
      }
    }
  }

  /** The least member of a set in front of an increasing listing of the rest. */
  lemma PrependLeast(P: set<int>, x: int, rest: seq<int>)
    requires x in P && forall y :: y in P ==> x <= y
    requires Elements(rest) == P - {x}
    requires forall a, b :: 0 <= a < b < |rest| ==> rest[a] < rest[b]
    ensures Elements([x] + rest) == P
    ensures forall a, b :: 0 <= a < b < |[x] + rest| ==> ([x] + rest)[a] < ([x] + rest)[b]
  {
    var ps := [x] + rest;
    assert Elements(ps) == {x} + Elements(rest);
    forall a, b | 0 <= a < b < |ps| ensures ps[a] < ps[b] {
      assert ps[b] == rest[b - 1] && rest[b - 1] in Elements(rest);
      if a > 0 {
        assert ps[a] == rest[a - 1];
      }
    }
  }

  /** The members of a finite set of integers, in increasing order. */
  lemma IncreasingListing(P: set<int>) returns (ps: seq<int>)
    ensures Elements(ps) == P
    ensures forall a, b :: 0 <= a < b < |ps| ==> ps[a] < ps[b]
    decreases |P|
  {
    if P == {} {
      ps := [];
    } else {
      var x := MinimumExists(P);
      var rest := IncreasingListing(P - {x});
      PrependLeast(P, x, rest);
      ps := [x] + rest;
    }
  }

  /** Increasing positions of a duplicate-free list hold as many vertices as there are positions. */
  lemma ListingSize(L: seq<int>, S: set<int>, ps: seq<int>)
    requires Distinct(L)
    requires forall a :: 0 <= a < |ps| ==> 0 <= ps[a] < |L| && L[ps[a]] in S
    requires forall p :: 0 <= p < |L| && L[p] in S ==> p in ps
    requires forall a, b :: 0 <= a < b < |ps| ==> ps[a] < ps[b]
    requires S <= Elements(L)
    ensures |ps| == |S|
  {
    var image := seq(|ps|, a requires 0 <= a < |ps| => L[ps[a]]);
    assert Elements(image) == S by {
      forall x | x in S ensures x in Elements(image) {
        var p :| 0 <= p < |L| && L[p] == x;
        var a :| 0 <= a < |ps| && ps[a] == p;
        assert image[a] == x;
      }
    }
    assert Distinct(image);
    ElementsCard(image);
  }

  /** Five positions that hold every vertex of `S`, and nothing else, give back `S`. */
  lemma ChoiceCovers(L: seq<int>, S: set<int>, i: nat, j: nat, k: nat, l: nat, m: nat)
    requires i < j < k < l < m < |L| && S <= Elements(L)
    requires L[i] in S && L[j] in S && L[k] in S && L[l] in S && L[m] in S
    requires forall p :: 0 <= p < |L| && L[p] in S ==> p == i || p == j || p == k || p == l || p == m
    ensures Elements(Combination(L, i, j, k, l, m)) == S
  {
    forall x | x in S ensures x in Combination(L, i, j, k, l, m) {
      var p :| 0 <= p < |L| && L[p] == x;
    }
  }

  /** Five increasing positions that hold exactly the vertices of `S` are a choice whose set is `S`. */
  lemma ListingChoice(L: seq<int>, S: set<int>, ps: seq<int>)
    requires Distinct(L) && S <= Elements(L) && |S| == 5
    requires forall a :: 0 <= a < |ps| ==> 0 <= ps[a] < |L| && L[ps[a]] in S
    requires forall p :: 0 <= p < |L| && L[p] in S ==> p in ps
    requires forall a, b :: 0 <= a < b < |ps| ==> ps[a] < ps[b]
    ensures |ps| == 5 && 0 <= ps[0] < ps[1] < ps[2] < ps[3] < ps[4] < |L|
    ensures Elements(Combination(L, ps[0], ps[1], ps[2], ps[3], ps[4])) == S
  {
    ListingSize(L, S, ps);
    assert ps == [ps[0], ps[1], ps[2], ps[3], ps[4]];
    assert ps[0] < ps[1] < ps[2] < ps[3] < ps[4];
    ChoiceCovers(L, S, ps[0], ps[1], ps[2], ps[3], ps[4]);
  }

  /** Every set of five vertices of a duplicate-free list is the set of some choice of positions. */
  lemma FiveSetIsChoice(L: seq<int>, S: set<int>) returns (i: nat, j: nat, k: nat, l: nat, m: nat)
    requires Distinct(L) && S <= Elements(L) && |S| == 5
    ensures i < j < k < l < m < |L|
    ensures Elements(Combination(L, i, j, k, l, m)) == S
  {
    var P := set p | 0 <= p < |L| && L[p] in S;
    var ps := IncreasingListing(P);
    forall a | 0 <= a < |ps| ensures 0 <= ps[a] < |L| && L[ps[a]] in S {
      assert ps[a] in Elements(ps);
    }
    forall p | 0 <= p < |L| && L[p] in S ensures p in ps {
      assert p in P;
    }
    ListingChoice(L, S, ps);
    i, j, k, l, m := ps[0], ps[1], ps[2], ps[3], ps[4];
  }

  /**
   * On an undirected graph that lists each neighbour once, with no vertex
   * listed twice in `listOfNodes`, `isP4Sparse` answers true exactly for
   * P4-sparse graphs.
   */
  lemma AllChoicesPassIffP4Sparse(g: Graph, L: seq<int>)
    requires ValidVertices(g, L) && Distinct(L) && SimpleOn(g, L)
    ensures AllChoicesPass(g, L) <==> P4Sparse(g, Elements(L))
  {
    if AllChoicesPass(g, L) {
      forall S | S <= Elements(L) && |S| == 5 ensures AtMostOneInducedP4(g, S) {
        var i, j, k, l, m := FiveSetIsChoice(L, S);
        ChoiceMeaning(g, L, i, j, k, l, m);
      }
    }
    if P4Sparse(g, Elements(L)) {
      forall i: nat, j: nat, k: nat, l: nat, m: nat | i < j < k < l < m < |L|
        ensures AtMostOneP4(g, L, i, j, k, l, m)
      {
        ChoiceDistinct(L, i, j, k, l, m);
        ChoiceMeaning(g, L, i, j, k, l, m);
      }
    }
  }
}
