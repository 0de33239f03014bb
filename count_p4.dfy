/**
 * `countP4`: of the lists obtained by leaving out one entry of `subConj`,
 * how many does `isP4` accept? Each such list is built one entry at a time
 * and sorted after every addition, so the list handed to `isP4` is the
 * omission in ascending order.
 */
module CountingP4 {
  import opened Graphs
  import opened Sorting
  import opened P4

  /** The list `countP4` hands to `isP4` in round `t`: `s` without entry `t`, ascending. */
  function Candidate(s: seq<int>, t: nat): (c: seq<int>)
    requires t < |s|
    ensures |c| == |s| - 1
    ensures forall x :: x in c <==> x in RemoveAt(s, t)
  {
    SortedSameElements(RemoveAt(s, t));
    SortAscending(RemoveAt(s, t))
  }

  lemma CandidateValid(g: Graph, s: seq<int>, t: nat)
    requires ValidVertices(g, s) && t < |s|
    ensures ValidVertices(g, Candidate(s, t))
  {
    RemoveAtMembers(s, t);
    forall x | x in Candidate(s, t) ensures 0 <= x < |g| {
      assert x in s;
    }
  }

  /** Round `t`'s list is the omission of entry `t`, ascending: nothing added, nothing lost. */
  lemma CandidateIsSortedOmission(s: seq<int>, t: nat)
    requires t < |s|
    ensures Ascending(Candidate(s, t))
    ensures multiset(Candidate(s, t)) + multiset{s[t]} == multiset(s)
  {
  }

  /** Round `t` of `countP4` finds a list that `isP4` accepts. */
  predicate Accepted(g: Graph, s: seq<int>, t: nat)
    requires ValidVertices(g, s) && |s| != 1 && t < |s|
  {
    CandidateValid(g, s, t);
    ClassifiedAsP4(g, Candidate(s, t))
  }

  /** How many of the rounds `0 .. n - 1` find a list that `isP4` accepts. */
  function AcceptedBefore(g: Graph, s: seq<int>, n: nat): (r: nat)
    requires ValidVertices(g, s) && |s| != 1 && n <= |s|
    ensures r <= n
  {
    if n == 0 then 0
    else AcceptedBefore(g, s, n - 1) + if Accepted(g, s, n - 1) then 1 else 0
  }

  /**
   * The value of `countP4(s, grafo)`: the number of rounds whose list `isP4`
   * accepts. A one-entry list has no value: its only omission is empty and
   * `isP4` reads its first entry.
   */
  function P4Count(g: Graph, s: seq<int>): (r: nat)
    requires ValidVertices(g, s) && |s| != 1
    ensures r <= |s|
  {
    AcceptedBefore(g, s, |s|)
  }

  /** `s[..j]` with entry `i` left out: what `listaDeVertices` holds before round `j` of the inner loop. */
  function OmittedPrefix(s: seq<int>, i: nat, j: nat): seq<int>
    requires i < |s| && j <= |s|
  {
    if j <= i then s[..j] else s[..i] + s[i + 1..j]
  }

  lemma OmittedPrefixStep(s: seq<int>, i: nat, j: nat)
    requires i < |s| && j < |s|
    ensures OmittedPrefix(s, i, j + 1) == if j == i then OmittedPrefix(s, i, j) else OmittedPrefix(s, i, j) + [s[j]]
  {
    if j > i {
      assert s[i + 1..j + 1] == s[i + 1..j] + [s[j]];
    }
  }

  lemma SortedPrefixStep(s: seq<int>, i: nat, j: nat)
    requires i < |s| && j < |s|
    ensures SortAscending(OmittedPrefix(s, i, j + 1))
         == if j == i then SortAscending(OmittedPrefix(s, i, j))
            else SortAscending(SortAscending(OmittedPrefix(s, i, j)) + [s[j]])
  {
    OmittedPrefixStep(s, i, j);
    if j != i {
      SortAfterAppend(OmittedPrefix(s, i, j), s[j]);
    }
  }

  /** Past the last entry, the omitted prefix is the whole omission. */
  lemma OmittedWhole(s: seq<int>, i: nat)
    requires i < |s|
    ensures OmittedPrefix(s, i, |s|) == RemoveAt(s, i)
  {
    assert s[i + 1..|s|] == s[i + 1..];
    assert RemoveAt(s, i) == s[..i] + s[i + 1..];
  }

  /** Round `i` of `countP4` finds a list `isP4` accepts exactly when its candidate is classified as a P4. */
  lemma RoundCounted(g: Graph, s: seq<int>, i: nat)
    requires ValidVertices(g, s) && |s| != 1 && i < |s|
    ensures |Candidate(s, i)| > 0 && ValidVertices(g, Candidate(s, i))
    ensures AcceptedBefore(g, s, i + 1)
         == AcceptedBefore(g, s, i) + if ClassifiedAsP4(g, Candidate(s, i)) then 1 else 0
  {
    CandidateValid(g, s, i);
  }

  /**
   * The inner loop of `countP4`, round `i`: the entries of `subConj` other
   * than entry `i`, added one at a time and sorted after every addition.
   */
  method OmitAndSort(subConj: seq<int>, i: nat) returns (listaDeVertices: seq<int>)
    requires i < |subConj|
    ensures listaDeVertices == Candidate(subConj, i)
  {
    listaDeVertices := [];
    assert OmittedPrefix(subConj, i, 0) == [];
    for j := 0 to |subConj|
      invariant listaDeVertices == SortAscending(OmittedPrefix(subConj, i, j))
    {
      SortedPrefixStep(subConj, i, j);
      if j != i {
        listaDeVertices := SortAscending(listaDeVertices + [subConj[j]]);
      }
    }
    OmittedWhole(subConj, i);
  }

  /** `countP4(subConj, grafo)`. */
  method CountP4(subConj: seq<int>, g: Graph) returns (qtdP4: nat)
    requires ValidVertices(g, subConj) && |subConj| != 1
    ensures qtdP4 == P4Count(g, subConj)
  {
    qtdP4 := 0;
    for i := 0 to |subConj|
      invariant qtdP4 == AcceptedBefore(g, subConj, i)
    {
      var listaDeVertices := OmitAndSort(subConj, i);
      RoundCounted(g, subConj, i);
      var isPath := IsP4(listaDeVertices, g);
      if isPath {
        qtdP4 := qtdP4 + 1;
      }
    }
  }

  // ---------------------------------------------------------------------
  // What the count counts.
  // ---------------------------------------------------------------------

  /** How many of the omissions of entries `0 .. n - 1` of `s` induce a P4. */
  ghost function InducedBefore(g: Graph, s: seq<int>, n: nat): nat
    requires n <= |s|
  {
    if n == 0 then 0
    else InducedBefore(g, s, n - 1) + if InducedP4(g, RemoveAt(s, n - 1)) then 1 else 0
  }

  /** On an undirected graph without repeated entries, round `t` accepts iff the omission induces a P4. */
  lemma AcceptedIffInducedP4(g: Graph, s: seq<int>, t: nat)
    requires ValidVertices(g, s) && |s| == 5 && SimpleOn(g, s) && t < 5
    ensures Accepted(g, s, t) <==> InducedP4(g, RemoveAt(s, t))
  {
    var c := Candidate(s, t);
    CandidateValid(g, s, t);
    RemoveAtMembers(s, t);
    SimpleOnSubList(g, s, c);
    ClassifiedIffInducedP4(g, c);
    InducedP4SameMembers(g, c, RemoveAt(s, t));
  }

  lemma {:induction false} AcceptedBeforeIsInducedBefore(g: Graph, s: seq<int>, n: nat)
    requires ValidVertices(g, s) && |s| == 5 && SimpleOn(g, s) && n <= 5
    ensures AcceptedBefore(g, s, n) == InducedBefore(g, s, n)
  {
    if n > 0 {
      AcceptedBeforeIsInducedBefore(g, s, n - 1);
      AcceptedIffInducedP4(g, s, n - 1);
    }
  }

  /**
   * On five vertices of an undirected graph that lists each neighbour once,
   * `countP4` counts the ways to leave out one entry so that the other four
   * induce a P4.
   */
  lemma P4CountCountsInducedP4s(g: Graph, s: seq<int>)
    requires ValidVertices(g, s) && |s| == 5 && SimpleOn(g, s)
    ensures P4Count(g, s) == InducedBefore(g, s, 5)
  {
    AcceptedBeforeIsInducedBefore(g, s, 5);
  }
}
