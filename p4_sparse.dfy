/**
 * `isP4Sparse`: every choice of five entries of `listOfNodes`, at increasing
 * positions, must yield at most one list that `isP4` accepts in `countP4`.
 * The five nested loops keep the chosen entries on a stack `subConj` and stop
 * at the first choice that yields more.
 */
module Sparsity {
  import opened Graphs
  import opened CountingP4

  /** The five entries of `L` at positions `i < j < k < l < m`. */
  function Combination(L: seq<int>, i: nat, j: nat, k: nat, l: nat, m: nat): (c: seq<int>)
    requires i < j < k < l < m < |L|
    ensures |c| == 5
    ensures forall x :: x in c ==> x in L
  {
    [L[i], L[j], L[k], L[l], L[m]]
  }

  /** The choice `i < j < k < l < m` passes: `countP4` finds at most one list. */
  predicate AtMostOneP4(g: Graph, L: seq<int>, i: nat, j: nat, k: nat, l: nat, m: nat)
    requires ValidVertices(g, L) && i < j < k < l < m < |L|
  {
    P4Count(g, Combination(L, i, j, k, l, m)) <= 1
  }

  /** The answer `isP4Sparse` gives for `listOfNodes == L`: every choice passes. */
  predicate AllChoicesPass(g: Graph, L: seq<int>)
    requires ValidVertices(g, L)
  {
    forall i: nat, j: nat, k: nat, l: nat, m: nat :: i < j < k < l < m < |L| ==> AtMostOneP4(g, L, i, j, k, l, m)
  }

  // What the loops have checked: every choice whose first position is
  // below `i0`; then, for a fixed first position, every choice whose second
  // is below `j0`; and so on down to the innermost loop.

  predicate PassedBefore1(g: Graph, L: seq<int>, i0: nat)
    requires ValidVertices(g, L)
  {
    forall i: nat, j: nat, k: nat, l: nat, m: nat :: i < i0 && i < j < k < l < m < |L| ==> AtMostOneP4(g, L, i, j, k, l, m)
  }

  predicate PassedBefore2(g: Graph, L: seq<int>, i: nat, j0: nat)
    requires ValidVertices(g, L)
  {
    forall j: nat, k: nat, l: nat, m: nat :: j < j0 && i < j < k < l < m < |L| ==> AtMostOneP4(g, L, i, j, k, l, m)
  }

  predicate PassedBefore3(g: Graph, L: seq<int>, i: nat, j: nat, k0: nat)
    requires ValidVertices(g, L)
  {
    forall k: nat, l: nat, m: nat :: k < k0 && i < j < k < l < m < |L| ==> AtMostOneP4(g, L, i, j, k, l, m)
  }

  predicate PassedBefore4(g: Graph, L: seq<int>, i: nat, j: nat, k: nat, l0: nat)
    requires ValidVertices(g, L)
  {
    forall l: nat, m: nat :: l < l0 && i < j < k < l < m < |L| ==> AtMostOneP4(g, L, i, j, k, l, m)
  }

  predicate PassedBefore5(g: Graph, L: seq<int>, i: nat, j: nat, k: nat, l: nat, m0: nat)
    requires ValidVertices(g, L)
  {
    forall m: nat :: m < m0 && i < j < k < l < m < |L| ==> AtMostOneP4(g, L, i, j, k, l, m)
  }

  /** The innermost loop moves on once the current choice has passed. */
  lemma Passed5Step(g: Graph, L: seq<int>, i: nat, j: nat, k: nat, l: nat, m: nat)
    requires ValidVertices(g, L) && i < j < k < l < m < |L|
    requires PassedBefore5(g, L, i, j, k, l, m) && AtMostOneP4(g, L, i, j, k, l, m)
    ensures PassedBefore5(g, L, i, j, k, l, m + 1)
  {
    forall m': nat | m' < m + 1 && i < j < k < l < m' < |L| ensures AtMostOneP4(g, L, i, j, k, l, m') {
      if m' < m {
      } else {
        assert m' == m;
      }
    }
  }

  /** Each outer loop moves on once the loop inside it has run to the end. */
  lemma Passed4Step(g: Graph, L: seq<int>, i: nat, j: nat, k: nat, l: nat)
    requires ValidVertices(g, L) && i < j < k < l < |L|
    requires PassedBefore4(g, L, i, j, k, l) && PassedBefore5(g, L, i, j, k, l, |L|)
    ensures PassedBefore4(g, L, i, j, k, l + 1)
  {
    forall l': nat, m: nat | l' < l + 1 && i < j < k < l' < m < |L| ensures AtMostOneP4(g, L, i, j, k, l', m) {
      if l' < l {
      } else {
        assert l' == l;
      }
    }
  }

  lemma Passed3Step(g: Graph, L: seq<int>, i: nat, j: nat, k: nat)
    requires ValidVertices(g, L) && i < j < k < |L|
    requires PassedBefore3(g, L, i, j, k) && PassedBefore4(g, L, i, j, k, |L|)
    ensures PassedBefore3(g, L, i, j, k + 1)
  {
    forall k': nat, l: nat, m: nat | k' < k + 1 && i < j < k' < l < m < |L| ensures AtMostOneP4(g, L, i, j, k', l, m) {
      if k' < k {
      } else {
        assert k' == k;
      }
    }
  }

  lemma Passed2Step(g: Graph, L: seq<int>, i: nat, j: nat)
    requires ValidVertices(g, L) && i < j < |L|
    requires PassedBefore2(g, L, i, j) && PassedBefore3(g, L, i, j, |L|)
    ensures PassedBefore2(g, L, i, j + 1)
  {
    forall j': nat, k: nat, l: nat, m: nat | j' < j + 1 && i < j' < k < l < m < |L| ensures AtMostOneP4(g, L, i, j', k, l, m) {
      if j' < j {
      } else {
        assert j' == j;
      }
    }
  }

  lemma Passed1Step(g: Graph, L: seq<int>, i: nat)
    requires ValidVertices(g, L) && i < |L|
    requires PassedBefore1(g, L, i) && PassedBefore2(g, L, i, |L|)
    ensures PassedBefore1(g, L, i + 1)
  {
    forall i': nat, j: nat, k: nat, l: nat, m: nat | i' < i + 1 && i' < j < k < l < m < |L| ensures AtMostOneP4(g, L, i', j, k, l, m) {
      if i' < i {
      } else {
        assert i' == i;
      }
    }
  }

  /** A choice that fails refutes the answer. */
  lemma FailedChoice(g: Graph, L: seq<int>, i: nat, j: nat, k: nat, l: nat, m: nat)
    requires ValidVertices(g, L) && i < j < k < l < m < |L|
    requires !AtMostOneP4(g, L, i, j, k, l, m)
    ensures !AllChoicesPass(g, L)
  {
  }

  /** `isP4Sparse(grafo)` with `listOfNodes == L`. */
  method IsP4Sparse(g: Graph, L: seq<int>) returns (sparse: bool)
    requires ValidVertices(g, L)
    ensures sparse == AllChoicesPass(g, L)
    ensures |L| < 5 ==> sparse
  {
    if |L| < 5 {
      return true;
    }
    var subConj: seq<int> := [];
    for i := 0 to |L|
      invariant subConj == []
      invariant PassedBefore1(g, L, i)
    {
      subConj := subConj + [L[i]];
      for j := i + 1 to |L|
        invariant subConj == [L[i]]
        invariant PassedBefore2(g, L, i, j)
      {
        subConj := subConj + [L[j]];
        for k := j + 1 to |L|
          invariant subConj == [L[i], L[j]]
          invariant PassedBefore3(g, L, i, j, k)
        {
          subConj := subConj + [L[k]];
          for l := k + 1 to |L|
            invariant subConj == [L[i], L[j], L[k]]
            invariant PassedBefore4(g, L, i, j, k, l)
          {
            subConj := subConj + [L[l]];
            for m := l + 1 to |L|
              invariant subConj == [L[i], L[j], L[k], L[l]]
              invariant PassedBefore5(g, L, i, j, k, l, m)
            {
              subConj := subConj + [L[m]];
              assert subConj == Combination(L, i, j, k, l, m);
              var count := CountP4(subConj, g);
              if count > 1 {
                FailedChoice(g, L, i, j, k, l, m);
                return false;
              }
              Passed5Step(g, L, i, j, k, l, m);
              subConj := subConj[..4]; // `subConj.remove(4)` drops the last entry
            }
            Passed4Step(g, L, i, j, k, l);
            subConj := subConj[..3]; // `subConj.remove(3)` drops the last entry
          }
          Passed3Step(g, L, i, j, k);
          subConj := subConj[..2]; // `subConj.remove(2)` drops the last entry
        }
        Passed2Step(g, L, i, j);
        subConj := subConj[..1]; // `subConj.remove(1)` drops the last entry
      }
      Passed1Step(g, L, i);
      subConj := subConj[..0]; // `subConj.remove(0)` drops the last entry
    }
    return true;
  }
}
