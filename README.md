# P4-sparsity checker

A model of the checker in `AlgGrafos.java`. The checker reads a graph as an adjacency list indexed by vertex id and decides whether it is P4-sparse: every set of five vertices contains at most one set of four vertices that induces a path.

The checker is built in layers, one module each:

- **Graphs** (`graph.dfy`): the graph as `seq<seq<int>>` (`grafo.get(v)` is `g[v]`). It also holds the vocabulary of the contracts:
  - in-list edges and reachability inside a vertex list;
  - an undirected graph without repeated neighbour entries (`SimpleOn`);
  - a list of four vertices that induces a path (`InducedP4`).
- **TreeWalk** (`tree_walk.dfy`): `isTree`, the depth-first walk restricted to a vertex list.
  - The shared `visitados` set is passed in and handed back.
  - `Walk` and `Scan` define the walk as functions. The recursive method `IsTree` is proved to compute them.
  - A successful walk is proved to have built a depth-first tree: every in-list neighbour of a visited vertex is its parent or one of its children.
- **PathWalk** (`path_walk.dfy`): on a graph that lists each neighbour once, on vertices that induce a path, the walk never fails and visits the whole path, whatever the order of the adjacency entries.
- **P4** (`p4.dfy`): `isP4`.
  - On any adjacency list, a positive answer means the list holds no vertex twice, every vertex is reachable from the first, and every vertex has in-list degree at most two.
  - On an undirected graph that lists each neighbour once, a positive answer means exactly that the four vertices induce a P4.
- **Sorting** (`sorting.dfy`): `List.sort(Integer::compareTo)`, characterised as the unique ascending arrangement of the same entries.
- **CountingP4** (`count_p4.dfy`): `countP4`. Its inner loop builds the omission of one entry, sorting after each addition; this loop is the method `OmitAndSort`.
- **Sparsity** (`p4_sparse.dfy`): `isP4Sparse`, with its five nested loops and the `subConj` stack.
- **SparseMeaning** (`sparse_meaning.dfy`): the answer of `isP4Sparse` agrees with the definition of P4-sparsity under two conditions: the graph is undirected and lists each neighbour once, and `listOfNodes` holds no vertex twice.
- **LineParser** (`line_parser.dfy`): `convertStringToNode` and the `Node` class.
  - Java's `String.split`, `String.trim` and `Integer.parseInt` are written out for one-character separators.
  - Where the original throws, the model answers `None`.
  - The loop of `convertStringToNode` is specified for any reading `read` of one piece. The line reads its pieces with `PieceNumber`, which is `Integer.parseInt(piece.trim())`.
  - Lines written as `id=n1 n2 ...`, and weighted lines `id=n1 w1 n2 w2 ...`, are proved to read back to their id and neighbours.

The global statics become parameters:

- `visitados` is a `set<int>` passed through `IsTree`;
- `listOfNodes` is the sequence `L`;
- `weightedGraph` is the flag `weighted`.

## Model

| member | source | states |
|---|---|---|
| Graphs.RemoveAt | MarksonDeVianaArguello-v1/AlgGrafos.java:222-224 | the list without entry `t`: one entry shorter, entries before `t` kept, later entries shifted down, and the same multiset less `s[t]` |
| Graphs.InducedP4SameMembers | MarksonDeVianaArguello-v1/AlgGrafos.java:225 | whether a list induces a P4 depends only on its length and its vertices, so sorting a candidate cannot change it |
| Graphs.SimpleOnSubList | MarksonDeVianaArguello-v1/AlgGrafos.java:219-226 | a sub-list of a list on which the graph is undirected without repeated entries keeps that property |
| Graphs.ElementsCard | MarksonDeVianaArguello-v1/AlgGrafos.java:190 | a list has no more distinct vertices than entries, and it is duplicate-free iff the two numbers agree (what the size test on `visitados` relies on) |
| TreeWalk.Walk | MarksonDeVianaArguello-v1/AlgGrafos.java:146-161 | one call of `isTree` adds its vertex to the visited set, and everything it adds is a vertex of the list |
| TreeWalk.Scan | MarksonDeVianaArguello-v1/AlgGrafos.java:148-159 | the neighbour loop only adds list vertices to the visited set and never removes any |
| TreeWalk.IsTree | MarksonDeVianaArguello-v1/AlgGrafos.java:146-161 | the recursive walk returns the verdict and the visited set that `Walk` defines, and it terminates because each recursion enters an unvisited list vertex |
| TreeWalk.UnvisitedShrinks | MarksonDeVianaArguello-v1/AlgGrafos.java:152-157 | entering an unvisited list vertex strictly decreases the number of unvisited list vertices, which is the termination measure |
| TreeWalk.WalkTree | MarksonDeVianaArguello-v1/AlgGrafos.java:146-161 | a walk that returns true has built a depth-first tree on the vertices it visited: parents come before children, each parent-child pair is an in-list edge, and every in-list neighbour of a visited vertex is its parent or its child (no second way into any vertex) |
| TreeWalk.ScanForest | MarksonDeVianaArguello-v1/AlgGrafos.java:148-159 | a neighbour loop that returns true has built a forest hanging from its vertex, and every in-list neighbour it met other than the parent is a child |
| TreeWalk.TreeFromForest | MarksonDeVianaArguello-v1/AlgGrafos.java:147-160 | the vertex followed by the forest of its neighbour loop is a depth-first tree |
| TreeWalk.JoinForest | MarksonDeVianaArguello-v1/AlgGrafos.java:148-158 | a child's tree followed by the forest of the later neighbours is again a forest |
| PathWalk.ReverseInducedPath | MarksonDeVianaArguello-v1/AlgGrafos.java:163-180 | an induced path read backwards is an induced path |
| PathWalk.PathNeighbour | MarksonDeVianaArguello-v1/AlgGrafos.java:151 | in an induced path the in-list neighbours of a vertex are its path neighbours |
| PathWalk.WalkDownPath | MarksonDeVianaArguello-v1/AlgGrafos.java:146-161 | entered along an induced path, the walk runs to the end of the path without failing and visits exactly the vertices it passed |
| PathWalk.ScanDownPath | MarksonDeVianaArguello-v1/AlgGrafos.java:148-159 | the neighbour loop on an induced path succeeds and visits the rest of the path iff the next path vertex is still ahead in the adjacency list |
| PathWalk.WalkUpPath | MarksonDeVianaArguello-v1/AlgGrafos.java:146-161 | the same walk in the other direction along the path |
| PathWalk.WalkWholePath | MarksonDeVianaArguello-v1/AlgGrafos.java:146-161 | started at any vertex of an induced path on a graph without repeated entries, `isTree` returns true and visits the whole path |
| PathWalk.ScanWholePath | MarksonDeVianaArguello-v1/AlgGrafos.java:148-159 | the root's neighbour loop visits both halves of the path, whichever order its neighbours are listed in |
| P4.IsP4 | MarksonDeVianaArguello-v1/AlgGrafos.java:188-202 | `isP4` answers `ClassifiedAsP4`: the walk from the first vertex succeeds, it visits as many vertices as the list has entries, and no vertex has more than two in-list adjacency entries |
| P4.ClassifiedMeansConnected | MarksonDeVianaArguello-v1/AlgGrafos.java:189-200 | on any adjacency list a true answer means the list is duplicate-free, every listed vertex is reachable from the first through in-list edges, and every listed vertex has in-list degree at most two |
| P4.EdgeIsTreeJoined | MarksonDeVianaArguello-v1/AlgGrafos.java:146-161 | on an undirected graph the in-list edges are exactly the edges of the depth-first tree of a successful walk over the whole list |
| P4.FourTree | MarksonDeVianaArguello-v1/AlgGrafos.java:188-192 | a true answer on four vertices yields their depth-first tree, read off in visiting order |
| P4.FourTreeIsPath | MarksonDeVianaArguello-v1/AlgGrafos.java:175-177 | a tree on four vertices in which no vertex has three neighbours, and whose edges are the in-list edges, is an induced path |
| P4.ClassifiedIsInducedP4 | MarksonDeVianaArguello-v1/AlgGrafos.java:163-201 | on an undirected graph, a true answer means the four vertices induce a P4 |
| P4.InducedP4IsClassified | MarksonDeVianaArguello-v1/AlgGrafos.java:163-201 | on a graph that lists each neighbour once, four vertices inducing a P4 get a true answer, whichever vertex is listed first |
| P4.ClassifiedIffInducedP4 | MarksonDeVianaArguello-v1/AlgGrafos.java:163-201 | on an undirected graph that lists each neighbour once, `isP4` on four vertices answers true iff they induce a P4 |
| Sorting.Insert | MarksonDeVianaArguello-v1/AlgGrafos.java:224-225 | inserting into an ascending list gives an ascending list holding the old entries plus the new one |
| Sorting.SortAscending | MarksonDeVianaArguello-v1/AlgGrafos.java:225 | the sorted list is ascending and a permutation of its input |
| Sorting.AscendingUnique | MarksonDeVianaArguello-v1/AlgGrafos.java:225 | two ascending lists with the same entries are equal, so any correct sort gives the result modelled here |
| Sorting.SortAfterAppend | MarksonDeVianaArguello-v1/AlgGrafos.java:224-225 | sorting after each append gives the same list as one sort of the whole list |
| Sorting.SortedSameElements | MarksonDeVianaArguello-v1/AlgGrafos.java:225 | sorting keeps the length and the set of entries |
| CountingP4.Candidate | MarksonDeVianaArguello-v1/AlgGrafos.java:219-226 | round `t`'s list is one entry shorter than `subConj` and holds exactly the entries of the omission |
| CountingP4.CandidateIsSortedOmission | MarksonDeVianaArguello-v1/AlgGrafos.java:219-226 | round `t`'s list is ascending and, with entry `t` of `subConj` added back, is a permutation of `subConj` |
| CountingP4.CandidateValid | MarksonDeVianaArguello-v1/AlgGrafos.java:224 | every vertex of a candidate indexes the adjacency list |
| CountingP4.AcceptedBefore | MarksonDeVianaArguello-v1/AlgGrafos.java:219-233 | after `n` rounds the counter is at most `n` |
| CountingP4.P4Count | MarksonDeVianaArguello-v1/AlgGrafos.java:216-236 | the value of `countP4` is between 0 and the length of `subConj` |
| CountingP4.OmitAndSort | MarksonDeVianaArguello-v1/AlgGrafos.java:220-226 | the inner loop's list is `subConj` without entry `i`, in ascending order |
| CountingP4.RoundCounted | MarksonDeVianaArguello-v1/AlgGrafos.java:228-230 | round `i` adds one to the count exactly when `isP4` accepts its candidate |
| CountingP4.CountP4 | MarksonDeVianaArguello-v1/AlgGrafos.java:216-236 | `countP4` returns the number of rounds whose candidate `isP4` accepts |
| CountingP4.AcceptedIffInducedP4 | MarksonDeVianaArguello-v1/AlgGrafos.java:228 | on an undirected graph without repeated entries, a five-vertex round is accepted iff its omission induces a P4 |
| CountingP4.P4CountCountsInducedP4s | MarksonDeVianaArguello-v1/AlgGrafos.java:204-214 | on such a graph, `countP4` of five vertices counts the omissions of one entry that induce a P4 |
| Sparsity.Combination | MarksonDeVianaArguello-v1/AlgGrafos.java:252-261 | the `subConj` of the innermost loop has five entries, all from `listOfNodes` |
| Sparsity.Passed5Step | MarksonDeVianaArguello-v1/AlgGrafos.java:260-267 | the innermost loop advances only past choices that passed, so every choice it has stepped over passed |
| Sparsity.Passed1Step | MarksonDeVianaArguello-v1/AlgGrafos.java:252-275 | the outer loop advances once every choice starting at position `i` has passed |
| Sparsity.FailedChoice | MarksonDeVianaArguello-v1/AlgGrafos.java:263-264 | a choice whose count exceeds one refutes sparsity, which justifies the early `false` |
| Sparsity.IsP4Sparse | MarksonDeVianaArguello-v1/AlgGrafos.java:247-279 | `isP4Sparse` returns true iff every choice `i<j<k<l<m` has `countP4` at most one, and true whenever `listOfNodes` has fewer than five entries; the loop invariants keep `subConj` equal to the chosen prefix and empty after each outer round |
| SparseMeaning.InducesP4Size | MarksonDeVianaArguello-v1/AlgGrafos.java:5-6 | a set of vertices that induces a P4 has four members |
| SparseMeaning.FourIsOmission | MarksonDeVianaArguello-v1/AlgGrafos.java:208 | every set of four inside five different vertices is what leaving out one entry leaves |
| SparseMeaning.OmissionInducesP4 | MarksonDeVianaArguello-v1/AlgGrafos.java:208-210 | an omission induces a P4 as a list iff its set of vertices induces one |
| SparseMeaning.AtMostOneOmission | MarksonDeVianaArguello-v1/AlgGrafos.java:204-214 | for five different vertices, at most one omission induces a P4 iff at most one set of four of them does |
| SparseMeaning.ChoiceMeaning | MarksonDeVianaArguello-v1/AlgGrafos.java:263 | on an undirected graph without repeated entries, a choice passes iff its five vertices contain at most one induced P4 |
| SparseMeaning.FiveSetIsChoice | MarksonDeVianaArguello-v1/AlgGrafos.java:252-261 | every set of five vertices of a duplicate-free `listOfNodes` is reached by some choice of increasing positions |
| SparseMeaning.IncreasingListing | MarksonDeVianaArguello-v1/AlgGrafos.java:252-260 | every finite set of vertices has an increasing listing |
| SparseMeaning.AllChoicesPassIffP4Sparse | MarksonDeVianaArguello-v1/AlgGrafos.java:5-6 | with an undirected graph that lists each neighbour once and a duplicate-free `listOfNodes`, the answer of `isP4Sparse` is true iff every set of five vertices contains at most one induced P4 |
| LineParser.Node.constructor | MarksonDeVianaArguello-v1/AlgGrafos.java:74-77 | a new node has the given id and no neighbours |
| LineParser.Node.AddNeighbor | MarksonDeVianaArguello-v1/AlgGrafos.java:79-81 | the neighbour is appended at the end of the list |
| LineParser.SplitOn | MarksonDeVianaArguello-v1/AlgGrafos.java:100 | splitting gives at least one piece |
| LineParser.SplitOnSeparatorFree | MarksonDeVianaArguello-v1/AlgGrafos.java:100 | no piece contains the separator |
| LineParser.JoinSplitOn | MarksonDeVianaArguello-v1/AlgGrafos.java:100 | joining the pieces with the separator gives back the text |
| LineParser.SplitOnJoin | MarksonDeVianaArguello-v1/AlgGrafos.java:109 | splitting a join of separator-free pieces gives back the pieces |
| LineParser.JavaSplit | MarksonDeVianaArguello-v1/AlgGrafos.java:100 | `split`, used here and again at line 109: without the separator the whole text is the one piece; otherwise `split` gives a prefix of the pieces of `SplitOn` that is empty or ends in a non-empty piece, and drops only empty pieces after it; no piece holds the separator |
| LineParser.DropTrailingEmpty | MarksonDeVianaArguello-v1/AlgGrafos.java:100 | `split` keeps a prefix of the pieces, which ends in a non-empty piece, and drops only empty pieces |
| LineParser.JavaSplitJoin | MarksonDeVianaArguello-v1/AlgGrafos.java:109 | `split` of a join of non-empty, separator-free pieces gives back the pieces |
| LineParser.SkipBlanks | MarksonDeVianaArguello-v1/AlgGrafos.java:102 | the scan skips only blanks and stops at the first non-blank character, or at the end |
| LineParser.SkipBlanksBack | MarksonDeVianaArguello-v1/AlgGrafos.java:102 | the backward scan drops only blanks and stops after the last non-blank character, or at its lower bound |
| LineParser.Trim | MarksonDeVianaArguello-v1/AlgGrafos.java:102 | `trim`, used here and again at line 116: the trimmed text is no longer than the text and neither starts nor ends with a character up to U+0020 (what is kept is stated by `TrimKeepsMiddle`) |
| LineParser.TrimKeepsMiddle | MarksonDeVianaArguello-v1/AlgGrafos.java:102 | `trim` keeps a stretch that neither starts nor ends with a character up to U+0020, and removes only such characters around it |
| LineParser.TrimUnblanked | MarksonDeVianaArguello-v1/AlgGrafos.java:116 | text that neither starts nor ends with a blank is left as it is |
| LineParser.DigitsValueIffDigits | MarksonDeVianaArguello-v1/AlgGrafos.java:104 | a stretch has a decimal value iff it consists of digits only |
| LineParser.ParseInt | MarksonDeVianaArguello-v1/AlgGrafos.java:104 | a parsed number lies in the range of a Java `int` |
| LineParser.ParseIntSucceeds | MarksonDeVianaArguello-v1/AlgGrafos.java:104 | `parseInt` succeeds iff the text is non-empty, has at least one character after an optional `+` or `-`, has only digits after the sign, and its signed decimal value is in the `int` range; the result is then that signed value |
| LineParser.ParseIntExamples | MarksonDeVianaArguello-v1/AlgGrafos.java:104 | `+5` reads as 5, `007` as 7 and `-0` as 0; empty text, a bare `-` and `1 2` fail |
| LineParser.ParseShowInt | MarksonDeVianaArguello-v1/AlgGrafos.java:104 | `parseInt` reads back every `int` written in decimal, and trimming leaves that text unchanged |
| LineParser.NonEmptyMembers | MarksonDeVianaArguello-v1/AlgGrafos.java:113 | exactly the non-empty pieces are kept |
| LineParser.EvenEntriesAt | MarksonDeVianaArguello-v1/AlgGrafos.java:115 | of the non-empty pieces of a weighted line, entry `k` kept is entry `2k` (the first, third, fifth, ...) |
| LineParser.KeptFieldsStep | MarksonDeVianaArguello-v1/AlgGrafos.java:113-115 | one more piece adds one to the count of non-empty pieces iff it is non-empty, and is kept iff it is non-empty and not a weight |
| LineParser.ParseAll | MarksonDeVianaArguello-v1/AlgGrafos.java:116 | reading the kept pieces, one piece at a time with `read`, gives one number per piece |
| LineParser.ParseAllEntries | MarksonDeVianaArguello-v1/AlgGrafos.java:116 | number `k` is what `read` gives for kept piece `k` |
| LineParser.ParseAllIffNumbers | MarksonDeVianaArguello-v1/AlgGrafos.java:116 | reading succeeds iff `read` gives a number for every kept piece |
| LineParser.CountNonEmptyIsLength | MarksonDeVianaArguello-v1/AlgGrafos.java:113-114 | `cntNumbers` after `n` rounds is the number of non-empty pieces among the first `n` |
| LineParser.ReadRound | MarksonDeVianaArguello-v1/AlgGrafos.java:112-117 | one round of the loop: an empty piece or a weight changes nothing, and a read piece adds its number or makes the line fail |
| LineParser.ReadNeighboursIsParseKept | MarksonDeVianaArguello-v1/AlgGrafos.java:111-117 | after `n` rounds the loop has read the numbers of exactly the kept pieces among the first `n` |
| LineParser.ReadRoundKeeps | MarksonDeVianaArguello-v1/AlgGrafos.java:112-117 | if the first `t` rounds read the numbers of the kept pieces among the first `t`, the first `t + 1` rounds do so among the first `t + 1` |
| LineParser.ReadAllIsParseKept | MarksonDeVianaArguello-v1/AlgGrafos.java:111-117 | the finished loop has read the numbers of exactly the kept pieces |
| LineParser.ReadFailsOnward | MarksonDeVianaArguello-v1/AlgGrafos.java:116 | once a piece fails to parse, the whole line fails |
| LineParser.ConvertStringToNode | MarksonDeVianaArguello-v1/AlgGrafos.java:98-120 | `convertStringToNode` fails exactly when `ParseLine` does, and otherwise returns a fresh node whose id and neighbours are those `ParseLine` gives |
| LineParser.ParseShowAll | MarksonDeVianaArguello-v1/AlgGrafos.java:116 | reading back numbers written in decimal gives the numbers |
| LineParser.SplitAtEquals | MarksonDeVianaArguello-v1/AlgGrafos.java:100 | `head=tail`, with neither side empty or containing `=`, splits into `[head, tail]` |
| LineParser.SplitBareId | MarksonDeVianaArguello-v1/AlgGrafos.java:100 | `id=` with nothing after it splits into the id alone, so the node gets no neighbours |
| LineParser.NeighbourText | MarksonDeVianaArguello-v1/AlgGrafos.java:109 | the neighbour text is non-empty, holds no `=`, and splits at spaces into its pieces |
| LineParser.ParseFormattedLine | MarksonDeVianaArguello-v1/AlgGrafos.java:98-120 | an unweighted line `id=n1 n2 ...` reads back to exactly that id and those neighbours |
| LineParser.EvenEntriesInterleave | MarksonDeVianaArguello-v1/AlgGrafos.java:115 | skipping every second piece of `n1 w1 n2 w2 ...` leaves the neighbours |
| LineParser.ParseWeightedLine | MarksonDeVianaArguello-v1/AlgGrafos.java:112-117 | a weighted line `id=n1 w1 n2 w2 ...` reads back to the id and the neighbours; the weights are never parsed, so any text without spaces or `=` serves as one |

## Left out

- Reading the file (`Leitor`, `createLeitor`) and the driver `main`: these are I/O, console output and `System.exit`.
- The padding of `grafo` in `main` is left out. In its place, `ValidVertices` is a precondition: every vertex passed to `isTree`, `isP4`, `countP4` and `isP4Sparse` indexes the adjacency list. Without it, `grafo.get` throws.
- Neighbour ids that do not index the adjacency list are not excluded. The walk enters only neighbours that belong to the vertex list, so it never reads them.
- TreeWalk.WalkTree: only the direction "a walk that returns true has built a depth-first tree, so the walked part has no cycle" is proved for every input. The converse (an acyclic in-list subgraph, such as a star or a forest, makes the walk return true) is proved only for vertices that induce a path (`PathWalk.WalkWholePath`). `isP4` needs no more, because its degree and size checks reject every other tree on four vertices.
- TreeWalk.IsTree: the shared static `visitados` is an in/out parameter, not a global. Aliasing of the Java set is not modelled.
- P4.IsP4: requires a non-empty list, because `listaDeVertices.get(0)` throws on an empty one. It is only ever called with four vertices.
- CountingP4.CountP4: requires `subConj` not to have exactly one entry. That entry's omission is empty, and `isP4` would throw on it. `isP4Sparse` only passes five entries.
- The `ArrayList` built in each round of `countP4` is a value (`seq<int>`). `List.sort` is modelled by what it guarantees, an ascending permutation, which is unique.
- The `subConj` stack of `isP4Sparse` is a `seq<int>`. `subConj.remove(n)` is modelled as dropping the last entry, which is what it does at each call site.
- The equivalences with the definition of P4-sparsity need two assumptions, and the model proves nothing for graphs that break them:
  - the graph is undirected and does not list a neighbour twice (`SimpleOn`);
  - `listOfNodes` holds no vertex twice.
- LineParser.ParseInt: only ASCII digits are accepted. `Integer.parseInt` also accepts other Unicode decimal digits.
- LineParser.JavaSplit: only `split` on a single character that is not special in a regular expression (`=` and space) is modelled. General regular expressions are not.
- LineParser.ConvertStringToNode: a `NumberFormatException` or `ArrayIndexOutOfBoundsException` becomes `None`. The exception types and messages are not modelled.
- LineParser.ConvertStringToNode: `Integer` boxing is not modelled. The getters `getNodeId` and `getNeighbors` are plain field reads of `Node`.
