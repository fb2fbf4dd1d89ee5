# Maximal cliques, k-cores and Dinic's maximum flow, verified in Dafny

This project models five small C++ programs that study dense parts of an
undirected graph, and proves what they compute.

- **Bron.cpp**, **Tomita.cpp**, **Arboricity.cpp** enumerate the maximal
  cliques of a graph with Bron–Kerbosch and a pivot, keeping a histogram
  `cliqueCounts` of clique sizes and a counter `totalCliques`. They differ in
  how the sets R, P, X are stored (hash sets, ordered sets, bitsets), in how
  the pivot is chosen, and in how the search is seeded (one search per
  vertex of a bucket-sorted ordering; one root frame; one root frame over
  the vertices of a peeling order).
- **CoreExact.cpp** keeps de-duplicated adjacency lists and counts edges,
  triangles and the edges inside and leaving a vertex subset, and computes
  core numbers by bin-sorted peeling.
- **Exact.cpp** builds the flow network of the densest-subgraph test
  (source to every vertex with its degree as capacity, every vertex to the
  sink, each edge both ways with capacity 1), runs Dinic's algorithm on it
  and reads off the vertices the source still reaches in the residual
  network.

Every operation is written in the shape the C++ has. Classes whose fields
the C++ updates in place (`MaxFlow`, `DensestSubgraph`, each `Graph`) are
Dafny classes with `modifies` clauses. Loops are `while`/`for` loops with
invariants. Sets, vectors and bitsets passed by reference come in as values,
and their final values are returned. The searches also return a ghost list
`found` of the cliques they recorded. Each method is proved against a
specification:

- the frame invariant of Bron–Kerbosch. R is a clique, and P ∪ X is exactly
  the set of vertices that extend R. From it the searches report every
  maximal clique exactly once.
- set cardinalities for the counts.
- a core numbering for `core_decomposition`.
- for max-flow:
  - edges stay paired with their partners;
  - each pair of partner edges keeps its joint capacity;
  - capacities stay non-negative;
  - flow leaves the source and reaches the sink;
  - the sink is unreachable at the end.

Modules: `Util` holds sequence and set helpers. `Cliques` holds the clique
vocabulary and the pivoted Bron–Kerbosch correctness lemmas shared by
`Bron`, `Tomita` and `Arboricity`. `CoreExact` is its own module. `Residual`
holds the residual-network vocabulary. `Exact` holds `MaxFlow`, `Densest`
holds `DensestSubgraph`, and `Timing` holds the elapsed-time split of
Exact.cpp's `main`.

Behaviour of the C++ kept as written:

- Bron.cpp's seed loop for X compares a failed `find` with `ordering.end()`,
  but a failed search returns `begin() + i`. So X receives every neighbour
  of v, and P and X overlap. The frame invariant only needs P ∪ X, so the
  enumeration stays correct (`Bron.SeedFrame`, `Bron.SeedIsFrame`).
- Bron.cpp's `degeneracyOrdering` never moves a vertex to another bucket. It
  is a sort by initial degree with ties in decreasing id, and its `removed`
  and `degree[v] > d` branches are never taken.
- Arboricity.cpp's pivot maximises non-neighbours in P.
- Arboricity.cpp's ordering can drop vertices (see Findings).
- `count_subgraph_edges` counts an edge as external only from its lower end
  (`CoreExact.ExternalOneSided`).
- `MaxFlow::add_edge` on a self-loop leaves the back edge naming the forward
  edge while the forward edge names itself (`Residual.SelfLoopMisPaired`).
  Self-loops are never admissible in `dfs`, so the pairing invariant
  exempts them.

## Model

| member | source | states |
|---|---|---|
| Cliques.LeafReports | Bron.cpp:62-67 | with P and X empty, R is the one maximal clique the frame is responsible for, and it is reported once |
| Cliques.DeadEndReports | Bron.cpp:70 | with P empty and X non-empty, the frame has no maximal clique to report |
| Cliques.ChildFrame | Bron.cpp:86-106 | the child frame (R ∪ {v}, P ∩ N(v), X ∩ N(v)) keeps the invariant: R ∪ {v} is a clique and P ∪ X is exactly what extends it |
| Cliques.PivotCovers | Bron.cpp:81-83 | every maximal clique of a frame contains a vertex of P that is not a neighbour of the pivot, so branching on P \ N(pivot) misses none |
| Cliques.BranchStep | Bron.cpp:81-106 | the cliques reported by the branch on v are exactly the frame's cliques that contain v and no vertex branched on before |
| Cliques.BranchOn | Bron.cpp:106-113 | after a branch, moving v from P to X keeps the frame invariant and the partial report |
| Cliques.BranchesDone | Bron.cpp:81-114 | once every vertex of P \ N(pivot) was branched on, the frame's report holds each of its maximal cliques exactly once and nothing else |
| Cliques.FrameDisjoint | Bron.cpp:86-109 | in a frame R is disjoint from P and X, so inserting v and erasing it again restores R |
| Cliques.Record | Bron.cpp:65 | `cliqueCounts[k]++` raises the count of k by one, leaves every other count, and adds key k |
| Cliques.TallyAppend | Bron.cpp:65 | recording two runs of cliques one after the other is recording their concatenation |
| Cliques.TallyCount | Bron.cpp:65 | the histogram entry for k grows by the number of recorded cliques of size k |
| Cliques.TotalRecord | Bron.cpp:65-66 | each recorded clique raises the sum of the histogram by one, as it raises `totalCliques` |
| Cliques.TotalTally | Bron.cpp:65-66 | the sum of the histogram grows by the number of cliques recorded, which is what `totalCliques` counts |
| Cliques.SizeCountIsCard | Bron.cpp:273-275 | for a duplicate-free report, the count for size k is the number of distinct reported cliques of size k |
| Cliques.HistogramDetermined | Bron.cpp:65 | the histogram depends only on which cliques were found, not on the order (hash order, pivot choice) in which they were found |
| Bron.Graph.constructor | Bron.cpp:18 | V vertices, every neighbour set empty |
| Bron.Graph.AddEdge | Bron.cpp:20-27 | an endpoint ≥ V changes nothing; otherwise v joins u's set and u joins v's set; re-adding an edge changes nothing |
| Bron.CountIn | Bron.cpp:41-48 | the count loop returns the number of members of P in the neighbour set |
| Bron.Intersect | Bron.cpp:91-103 | the filter loops build exactly S ∩ N(v) |
| Bron.FindPivot | Bron.cpp:31-57 | -1 exactly when P ∪ X is empty, otherwise a member of P ∪ X with the most neighbours in P |
| Bron.BronKerboschWithPivot | Bron.cpp:60-115 | from a frame, reports every maximal clique C with R ⊆ C ⊆ R ∪ P exactly once and nothing else; the histogram and the total grow by what was reported; R is restored, and P loses and X gains exactly the pivot's non-neighbours in P |
| Bron.BranchAll | Bron.cpp:79-114 | the loop over the copy of P branches on the pivot and its non-neighbours in P, reports the frame's cliques, and moves those vertices from P to X |
| Bron.Branch | Bron.cpp:85-109 | one branch reports exactly the maximal cliques of the child frame (R ∪ {v}, P ∩ N(v), X ∩ N(v)) and returns R unchanged |
| Bron.DegeneracyOrdering | Bron.cpp:118-163 | every vertex exactly once, sorted by non-decreasing initial degree, ties in decreasing id |
| Bron.PermutationFromCover | Bron.cpp:137-162 | a duplicate-free ordering that holds exactly the vertices 0 .. V-1 is a permutation of them |
| Bron.InitialDegrees | Bron.cpp:125-128 | the degrees are the neighbour-set sizes, and the maximum is one of them (0 for no vertices) |
| Bron.Degrees | Bron.cpp:126 | degree[v] is the size of v's neighbour set |
| Bron.FillBuckets | Bron.cpp:131-134 | bucket e holds exactly the vertices of degree e, in increasing id |
| Bron.ReleaseNeighbours | Bron.cpp:154-158 | each neighbour not yet removed with a positive degree loses one; nothing else changes |
| Bron.DrainBucket | Bron.cpp:138-159 | draining bucket d appends it back to front to the ordering and keeps the ordering sorted, duplicate-free and equal to the removed vertices |
| Bron.PopStep | Bron.cpp:140-151 | the popped vertex has initial degree d and is not yet removed; marking it removed extends the removed set by it |
| Bron.BucketPop | Bron.cpp:140-141 | the vertex popped from the back of a filled bucket was not popped before |
| Bron.AppendBucketOrder | Bron.cpp:137-159 | appending a bucket back to front keeps the ordering duplicate-free and sorted by degree then decreasing id |
| Bron.AppendSorted | Bron.cpp:150 | appending a vertex after every vertex of lower degree, or of equal degree and higher id, keeps the ordering sorted |
| Bron.ReversedBucket | Bron.cpp:138-141 | a bucket popped from the back yields vertices of degree d in strictly decreasing id |
| Bron.AppendBlock | Bron.cpp:137-159 | appending bucket d in decreasing id to a sorted, duplicate-free ordering of lower-degree vertices keeps it sorted and duplicate-free |
| Bron.AppendBucketMembers | Bron.cpp:137-159 | after bucket d, the ordering holds exactly the removed vertices |
| Bron.SeedFrame | Bron.cpp:172-193 | P is v's neighbours after position i; X is every neighbour of v, because the failed search is compared with the wrong end |
| Bron.SeedIsFrame | Bron.cpp:172-193 | the seed ({v}, later neighbours, all neighbours) satisfies the frame invariant |
| Bron.SeedStep | Bron.cpp:169-197 | seed i reports exactly the maximal cliques whose earliest member in the ordering is ordering[i] |
| Bron.BronKerboschDegeneracy | Bron.cpp:166-198 | the recorded cliques are exactly the non-empty maximal cliques, each once; histogram and total grow accordingly |
| Tomita.Graph.constructor | Tomita.cpp:16 | V vertices, every list empty |
| Tomita.Graph.AddEdge | Tomita.cpp:18-25 | an endpoint ≥ V changes nothing; otherwise v is appended to u's list and u to v's, duplicates kept |
| Tomita.Hits | Tomita.cpp:40-45 | the count of list entries in P is at most the list length and is 0 exactly when no entry is in P |
| Tomita.CountHits | Tomita.cpp:40-45 | the loop counts the entries of the pivot candidate's list lying in P |
| Tomita.FindPivot | Tomita.cpp:29-53 | -1 exactly when P ∪ X is empty, otherwise the least member of P ∪ X with the most list entries in P |
| Tomita.ContainsEntry | Tomita.cpp:75-81 | the search loop answers whether v is in the list |
| Tomita.NonNeighbours | Tomita.cpp:73-85 | P_minus_NP before the fallback is P minus the pivot's list |
| Tomita.Restrict | Tomita.cpp:99-112 | P_new and X_new are S intersected with v's list |
| Tomita.BranchSet | Tomita.cpp:87-90 | the branch set is a non-empty part of P containing P minus the pivot's list, a single vertex when that is empty |
| Tomita.Expand | Tomita.cpp:56-121 | from a frame, reports every maximal clique C with R ⊆ C ⊆ R ∪ P exactly once and nothing else; P loses and X gains exactly the branch set; R is untouched |
| Tomita.ExpandAll | Tomita.cpp:93-120 | the loop over the branch set reports the frame's cliques and moves the branch set from P to X |
| Tomita.ExpandOne | Tomita.cpp:95-115 | one branch reports exactly the maximal cliques of the child frame on a copy of R |
| Tomita.AllVertices | Tomita.cpp:179-181 | the loop fills P with 0 .. numVertices-1 |
| Tomita.RootFrame | Tomita.cpp:174-181 | (∅, all vertices, ∅) satisfies the frame invariant |
| Tomita.MaximalCliques | Tomita.cpp:174-192 | from the root frame every maximal clique of the graph is recorded exactly once and nothing else |
| Arboricity.Graph.constructor | Arboricity.cpp:22 | V vertices, every list and bitset empty |
| Arboricity.Graph.AddEdge | Arboricity.cpp:24-33 | an endpoint ≥ V changes nothing; otherwise both lists are appended to and both bits set, keeping lists and bits in agreement and symmetric |
| Arboricity.SelectPivot | Arboricity.cpp:37-56 | -1 exactly when P ∪ X has no member below V, otherwise the least index of P ∪ X with the most non-neighbours in P |
| Arboricity.ArboricityClique | Arboricity.cpp:59-98 | from a frame, reports every maximal clique C with R ⊆ C ⊆ R ∪ P exactly once and nothing else; R is restored, and P loses and X gains exactly the pivot's non-neighbours in P |
| Arboricity.Below | Arboricity.cpp:78-79 | the bits visited before index v are the members below v |
| Arboricity.BelowNext | Arboricity.cpp:78-79 | advancing the index by one takes in at most the bit at v |
| Arboricity.CliqueAll | Arboricity.cpp:75-97 | the loop over the ids 0 .. V-1 branches on each non-neighbour of the pivot in P, reports every maximal clique of the frame once, and moves those vertices from P to X |
| Arboricity.CliqueOne | Arboricity.cpp:81-91 | one branch reports exactly the maximal cliques of (R ∪ {v}, P ∩ N(v), X ∩ N(v)) and resets R |
| Arboricity.EraseAll | Arboricity.cpp:129-132 | erase/remove takes every copy of the neighbour out of its bin and keeps a duplicate-free bin duplicate-free |
| Arboricity.Live | Arboricity.cpp:127-128 | the live entries of a list, those not yet removed, are at most its length |
| Arboricity.LiveMark | Arboricity.cpp:121-128 | removing v lowers the live count of a duplicate-free list by one if it holds v and leaves it otherwise |
| Arboricity.RemainingMark | Arboricity.cpp:121 | marking a vertex still in the graph removed leaves one vertex fewer |
| Arboricity.MoveBins | Arboricity.cpp:129-134 | moving a live neighbour from the bin of its degree to the bin below keeps every bin sound and every live vertex filed in the bin of its degree |
| Arboricity.VisitKeeps | Arboricity.cpp:127-135 | one iteration of the neighbour loop keeps the loop's invariant with one neighbour fewer pending: each live neighbour is one above its live degree until visited |
| Arboricity.Release | Arboricity.cpp:127-136 | the neighbour loop ends in a state satisfying the peeling invariant, with order and removed unchanged |
| Arboricity.MarkSound | Arboricity.cpp:117-124 | popping the back of a bin, marking it removed and recording it keeps the bins sound; the popped vertex was not yet removed |
| Arboricity.MarkOrder | Arboricity.cpp:117-124 | recording a vertex not yet removed keeps the order listing exactly the removed vertices, once each |
| Arboricity.MarkFiled | Arboricity.cpp:117-121 | popping and removing the top of a bin keeps every other live vertex filed |
| Arboricity.MarkDegrees | Arboricity.cpp:121-127 | after removing v, exactly its neighbours are one above their live degree |
| Arboricity.StartRelease | Arboricity.cpp:117-127 | after a pop the neighbour-loop invariant holds and one vertex fewer remains |
| Arboricity.Step | Arboricity.cpp:115-137 | one iteration of the while loop keeps the peeling invariant and removes one vertex |
| Arboricity.Scan | Arboricity.cpp:114-138 | the scan over d keeps the peeling invariant |
| Arboricity.InitialInv | Arboricity.cpp:108-111 | after initialisation every vertex is in the bin of its list size and the invariant holds |
| Arboricity.OrderingDistinct | Arboricity.cpp:120-124 | the ordering lists vertices only, each at most once |
| Arboricity.SingleEdgeOrdering | Arboricity.cpp:114-141 | on the single edge 0-1 the ordering is [1]: vertex 0 falls to bin 0 after the scan passed it |
| Arboricity.SingleEdgeStart | Arboricity.cpp:108-111 | on the single edge 0-1 initialisation puts both vertices in bin 1, vertex 0 first |
| Arboricity.SingleEdgeStep | Arboricity.cpp:115-136 | the one removal at d = 1 takes vertex 1 and drops vertex 0 to bin 0 |
| Arboricity.SingleEdgeVisit | Arboricity.cpp:127-135 | visiting vertex 0 after vertex 1 is removed moves it from bin 1 to bin 0 |
| Arboricity.InitialBins | Arboricity.cpp:108-111 | the initialisation loop builds the degrees and bins of the initial peeling state |
| Arboricity.ReleaseNeighbours | Arboricity.cpp:127-136 | the neighbour loop computes the same state as the neighbour-loop function |
| Arboricity.RemoveTop | Arboricity.cpp:115-136 | one iteration of the while loop computes the state of one peeling step |
| Arboricity.DrainBin | Arboricity.cpp:115-137 | the while loop empties bin d and leaves the state the rest of the scan continues from |
| Arboricity.StartPeel | Arboricity.cpp:102-111 | the locals before the scan form the initial peeling state |
| Arboricity.DegeneracyOrdering | Arboricity.cpp:101-143 | the method returns the reversed removal order of the peeling as written |
| Arboricity.ScanFixed | Arboricity.cpp:114-138 | the corrected scan keeps the invariant and removes every vertex |
| Arboricity.ReleaseFloor | Arboricity.cpp:127-135 | when every pending live neighbour is above f, the neighbour loop leaves the bins below f empty |
| Arboricity.StepFloor | Arboricity.cpp:115-136 | a removal at level d, with the bins below d empty, can only refill bin d - 1, so the bins below d - 1 stay empty |
| Arboricity.AllBinsEmpty | Arboricity.cpp:114-138 | with every bin empty every vertex is removed, since a live vertex is filed in a bin |
| Arboricity.OrderAllOnce | Arboricity.cpp:121-141 | once every vertex is removed, the reversed order lists each vertex exactly once |
| Arboricity.FixedOrderingComplete | Arboricity.cpp:101-143 | the corrected ordering lists every vertex exactly once |
| Arboricity.ScanFixedStep | Arboricity.cpp:114-137 | one step of the corrected scan moves up a level or removes a vertex and steps back |
| Arboricity.FixedDegeneracyOrdering | Arboricity.cpp:101-143 | the corrected method returns the corrected ordering |
| Arboricity.SeedCandidates | Arboricity.cpp:222-225 | P holds exactly the vertices of the ordering |
| Arboricity.RootFrame | Arboricity.cpp:217-225 | (∅, U, ∅) is a frame over the universe U |
| Arboricity.SimpleBits | Arboricity.cpp:24-33 | lists of a simple graph give loopless, symmetric bitsets |
| Arboricity.SearchFrom | Arboricity.cpp:217-228 | with P seeded from an ordering, exactly the maximal cliques of the subgraph on the ordering's vertices are recorded, each once |
| Arboricity.MaximalCliques | Arboricity.cpp:217-228 | with the corrected ordering, every maximal clique of the graph is recorded exactly once and nothing else |
| Arboricity.SingleEdgeCliques | Arboricity.cpp:217-228 | on the single edge 0-1, {0,1} is the maximal clique, while {1} is maximal only within {1} |
| Arboricity.SingleEdgeMissesClique | Arboricity.cpp:217-228 | with the ordering as written, the search on the single edge records {1}, which is not maximal, and misses {0,1} |
| CoreExact.Graph.constructor | CoreExact.cpp:11 | n vertices, every list empty |
| CoreExact.Graph.AddEdge | CoreExact.cpp:13-25 | an endpoint outside 0 .. n-1 or an edge already present changes nothing; otherwise both lists gain the other endpoint (a self-loop once); the lists stay symmetric and duplicate-free |
| CoreExact.RowPairsSnoc | CoreExact.cpp:59-60 | each further list entry above u adds one kept pair |
| CoreExact.PairsBelowNext | CoreExact.cpp:58-62 | row u adds its pairs to those of the rows below |
| CoreExact.CountRow | CoreExact.cpp:59-61 | the loop over u's list counts the entries above u that the filter keeps |
| CoreExact.Count2Cliques | CoreExact.cpp:56-64 | the count is the number of edges, each once |
| CoreExact.RowOutside | CoreExact.cpp:70 | a row whose vertex is outside S contributes to neither subgraph count |
| CoreExact.CountInternalEdges | CoreExact.cpp:67-79 | the count is the number of edges with both ends in S |
| CoreExact.CountSubgraphEdges | CoreExact.cpp:97-116 | the first count is the edges inside S, the second the edges u < v with u in S and v outside it |
| CoreExact.InternalOfAll | CoreExact.cpp:67-79 | with S holding every vertex the internal count is the edge count |
| CoreExact.EdgeOnce | CoreExact.cpp:60 | an edge between distinct vertices is counted once, from its lower end; a self-loop is not counted |
| CoreExact.SubgraphSplit | CoreExact.cpp:104-109 | internal and external edges are disjoint and together are the edges whose lower end is in S |
| CoreExact.ExternalOneSided | CoreExact.cpp:104-109 | on the edge 0-1 the external count is 1 for S = {0} and 0 for S = {1} |
| CoreExact.TriCellSnoc | CoreExact.cpp:43-47 | each entry w > v of v's list that is also in u's list adds one triangle |
| CoreExact.TriRowSnoc | CoreExact.cpp:40-49 | each entry v > u of u's list adds the triangles through (u, v) |
| CoreExact.TrianglesBelowNext | CoreExact.cpp:39-51 | row u adds its triangles to those of the rows below |
| CoreExact.NeighbourMatrix | CoreExact.cpp:30-37 | entry [u][w] is set exactly when w is in u's list |
| CoreExact.CountTriangles | CoreExact.cpp:28-53 | the count is the number of triangles u < v < w, each once |
| CoreExact.TriangleOnce | CoreExact.cpp:42-45 | three pairwise adjacent vertices are counted exactly when listed in increasing order |
| CoreExact.TriangleAdjacent | CoreExact.cpp:42-45 | a counted triple is three distinct, pairwise adjacent vertices |
| CoreExact.CoreUpperBound | CoreExact.cpp:137-162 | if every vertex is taken in non-decreasing core order and had at most its core in neighbours not yet taken, then no vertex lies in a set giving each member more neighbours inside than that vertex's core |
| CoreExact.CoreNumberingUnique | CoreExact.cpp:119-167 | a graph has one core numbering |
| CoreExact.MaxOf | CoreExact.cpp:129 | `max_element` returns a member at least every member |
| Util.Find | CoreExact.cpp:152 | `std::find` returns the first position of x, or the length when absent; x occurs nowhere before it. Bron.cpp:179, 189 and CoreExact.cpp:152 all search this way |
| Util.Lengths | Exact.cpp:126 | entry v is the size of v's adjacency list. This is the source capacity of Exact.cpp and the initial degree of Arboricity.cpp:109 |
| CoreExact.SwapPopElems | CoreExact.cpp:153-156 | overwriting with the back and popping removes exactly the found vertex from a duplicate-free bin |
| CoreExact.InitialInv | CoreExact.cpp:120-135 | after the bins are filled, the peeling invariant holds at level 0 with every vertex pending |
| CoreExact.InitialPlaced | CoreExact.cpp:124-135 | after filing, every vertex is pending and sits once in the bin of its list size |
| CoreExact.PopInv | CoreExact.cpp:140-145 | popping the back of bin d gives a pending vertex core d and keeps the invariant |
| CoreExact.Marked | CoreExact.cpp:140-145 | popping the back of bin d and giving it core d leaves the degrees alone and records the vertex as processed |
| CoreExact.DropLast | CoreExact.cpp:141 | `pop_back` on a duplicate-free bin removes exactly its back entry |
| CoreExact.BinsSoundPop | CoreExact.cpp:140-141 | popping the back of bin d and retiring that vertex leaves every bin holding only pending vertices of its own degree, once each |
| CoreExact.PopSound | CoreExact.cpp:140-145 | after the pop every bin still holds pending vertices of its own degree, once each |
| CoreExact.PopFiled | CoreExact.cpp:140-145 | after the pop every pending vertex still sits in the bin of its degree |
| CoreExact.PopBins | CoreExact.cpp:140-145 | after the pop the vectors keep their sizes and every pending vertex is filed |
| CoreExact.PopOrder | CoreExact.cpp:140-145 | the popped vertex joins the processed order once, and pending vertices still read core 0 |
| CoreExact.PopHistory | CoreExact.cpp:140-145 | cores along the processed order stay non-decreasing, and the popped vertex has at most d neighbours not yet processed |
| CoreExact.PopDegrees | CoreExact.cpp:140-145 | the popped vertex has core and degree d, and its neighbours are counted as if it were still pending until visited |
| CoreExact.PopDense | CoreExact.cpp:140-145 | the pop keeps, for every level up to d, the pending vertices and those with core at least that level dense at that level |
| CoreExact.StepTest | CoreExact.cpp:149 | `core[v] == 0 && degree[v] > d` holds exactly for pending neighbours above d, so the processed-vertex test never misfires |
| CoreExact.RelievedInv | CoreExact.cpp:149-161 | moving a neighbour one bin down keeps the invariant |
| CoreExact.Relieved | CoreExact.cpp:150-160 | relieving neighbour v lowers its degree by one and leaves cores, order and pending set alone |
| CoreExact.RelievedPlaced | CoreExact.cpp:150-160 | moving v from bin degree[v] to the bin below keeps every pending vertex filed, once, in the bin of its degree |
| CoreExact.RelievedDegrees | CoreExact.cpp:148-161 | relieving a pending neighbour above d makes its degree count the processed vertex as gone |
| CoreExact.KeptDegrees | CoreExact.cpp:148-149 | a neighbour the test skips already has the degree the invariant asks for |
| CoreExact.LevelUp | CoreExact.cpp:138-139 | with bin d empty, every pending vertex has more than d pending neighbours |
| CoreExact.Finished | CoreExact.cpp:138-166 | past the last level nothing is pending; the cores are the core numbers, assigned in non-decreasing order, each at most the list size |
| CoreExact.RelieveNeighbours | CoreExact.cpp:148-162 | the neighbour loop keeps the invariant and walks the whole list |
| CoreExact.ProcessTop | CoreExact.cpp:140-162 | one turn of the while loop keeps the invariant and processes one pending vertex |
| CoreExact.FileBins | CoreExact.cpp:132-135 | bin k lists exactly the vertices of degree k, in increasing order |
| CoreExact.StartPeeling | CoreExact.cpp:120-135 | degrees are the list sizes, the maximum is one of them, and the invariant holds at level 0 |
| CoreExact.DrainLevel | CoreExact.cpp:139-163 | draining bin d keeps the invariant at level d + 1 |
| CoreExact.CoreDecomposition | CoreExact.cpp:119-167 | the result is the core numbering of the graph, each value at most the vertex's list size; every vertex is processed exactly once, in non-decreasing core order |
| Residual.AddedPaired | Exact.cpp:30-33 | add_edge keeps every edge between distinct vertices paired, and pairs the two new ones when from ≠ to |
| Residual.SelfLoopMisPaired | Exact.cpp:30-33 | on a self-loop the back edge names the forward edge, which names itself, so the back edge is unpaired |
| Residual.AddedNonNegative | Exact.cpp:30-33 | add_edge with a non-negative capacity keeps every capacity non-negative |
| Residual.PairedShape | Exact.cpp:58-59 | changing only capacities keeps the pairing |
| Residual.MovedChain | Exact.cpp:56-60 | d units carried from v to w and then on from w to t have moved from v to t |
| Residual.MovedAdd | Exact.cpp:74-75 | successive transfers from s to t add up |
| Residual.MovedSource | Exact.cpp:74-75 | the source of a transfer has lost exactly what was transferred |
| Residual.CapSumNonNegative | Exact.cpp:58-59 | non-negative capacities give a non-negative total |
| Residual.CapSumUpdate | Exact.cpp:58-59 | changing one capacity changes a list's total by the same amount |
| Residual.ShrinksTrans | Exact.cpp:53-63 | losing admissible edges twice is losing them once |
| Residual.DeadShrinks | Exact.cpp:53-63 | a vertex with no admissible path to t keeps none when admissible edges are only lost |
| Residual.BlockedShrinks | Exact.cpp:53-63 | the edges cursors have passed stay useless when admissible edges are only lost |
| Residual.BlockedAdvance | Exact.cpp:53 | the cursor may pass an edge that is not admissible or leads to a dead vertex |
| Residual.BlockedDead | Exact.cpp:53-64 | a vertex other than t whose cursor passed its whole list has no admissible path to t |
| Residual.AugmentEntries | Exact.cpp:58-59 | the augmenting step changes exactly the edge and its partner, by -d and +d |
| Residual.AugmentShape | Exact.cpp:55-59 | augmenting an admissible edge by at most its capacity keeps the pairing and non-negative capacities and gains no admissible edge |
| Residual.AugmentSums | Exact.cpp:58-59 | the augmenting step moves d units of residual capacity from v's list to its head's list |
| Residual.AugmentConserved | Exact.cpp:58-59 | the augmenting step keeps the joint capacity of every pair of partner edges |
| Residual.ConservedTrans | Exact.cpp:67-78 | conservation composes across augmenting steps |
| Residual.ClosedReach | Exact.cpp:137-149 | a set no positive edge leaves holds everything reachable from its members |
| Residual.PathSnoc | Exact.cpp:43-45 | a walk extends by a positive-capacity edge |
| Residual.LevelPathsGrow | Exact.cpp:43-45 | giving an unreached head the level after v's keeps every level witnessed by a level-climbing walk |
| Residual.LayeredReach | Exact.cpp:35-49 | after bfs a vertex has a level exactly when it is reachable from s |
| Residual.AliveAlong | Exact.cpp:51-64 | no vertex on a level walk to t is dead |
| Residual.LayeredAlive | Exact.cpp:71-74 | when bfs reached t, an admissible path leads from s to t, so the first dfs of a phase pushes flow |
| Exact.Min | Exact.cpp:56 | `min` returns the smaller argument |
| Exact.TransferNone | Exact.cpp:52 | dfs at t, or a dfs that pushed nothing, changes nothing |
| Exact.TransferAdd | Exact.cpp:74-75 | successive dfs transfers from s add up |
| Exact.AugmentBlocking | Exact.cpp:56-60 | augmenting an admissible edge keeps the dfs state (pairing, non-negativity, blocked cursors) |
| Exact.AugmentTransfer | Exact.cpp:56-60 | when the head passed f units on to t, augmenting the edge carries them from v to t |
| Exact.AugmentKept | Exact.cpp:56-60 | augmenting an edge into a higher level leaves vertices below v's level alone |
| Exact.LowerKeptTrans | Exact.cpp:53-63 | the lists and cursors below v's level stay untouched across the scan |
| Exact.LowerKeptBelow | Exact.cpp:56 | what a deeper dfs keeps below its level is kept below v's level, v's own list and cursor included |
| Exact.Relax | Exact.cpp:42-47 | the inner bfs loop gives every unreached head of a positive edge the next level and queues it |
| Exact.MaxFlow.constructor | Exact.cpp:24-28 | n empty lists, levels and cursors all 0 |
| Exact.MaxFlow.AddEdge | Exact.cpp:30-33 | the lists become add_edge of the old lists; levels and cursors unchanged |
| Exact.MaxFlow.Bfs | Exact.cpp:35-49 | s has level 0; every vertex with a level is reached from s by a walk climbing one level per edge; no positive-capacity edge leads from a levelled vertex to an unlevelled one; the edges and cursors are unchanged |
| Exact.MaxFlow.Dfs | Exact.cpp:51-65 | returns d in [0, upTo]; d units moved from v to t with partner sums kept and capacities non-negative; d = 0 leaves the edges unchanged and v with no admissible path to t |
| Exact.MaxFlow.Visit | Exact.cpp:53-63 | one turn of the scan either moves flow to t or advances the cursor with nothing changed |
| Exact.MaxFlow.Explore | Exact.cpp:55-61 | a successful recursive dfs is pushed through the edge and returned; otherwise the cursor moves on |
| Exact.MaxFlow.Skip | Exact.cpp:53 | the cursor passes an edge that cannot carry flow to t |
| Exact.MaxFlow.Push | Exact.cpp:58-59 | the lists become the augmenting step on edge i of v |
| Exact.MaxFlow.Flow | Exact.cpp:67-78 | the flow is non-negative and equals what left s and reached t; pairing, non-negativity and partner sums are kept; at the end t is unreachable from s |
| Exact.MaxFlow.Phase | Exact.cpp:70-75 | a phase after bfs reached t pushes a positive amount from s to t and lowers the capacity out of s |
| Exact.MaxFlow.Drain | Exact.cpp:74-75 | repeating dfs until it returns 0 accumulates the transfers from s to t |
| Densest.NbrSumSnoc | Exact.cpp:94-97 | one more edge lengthens the lists below k by its endpoints below k |
| Densest.Handshake | Exact.cpp:94-97 | the adjacency lists hold 2m entries in total |
| Densest.DegreeSumNbr | Exact.cpp:94-97 | lists built by add_edge have the total length of the edge-derived lists |
| Densest.DensestSubgraph.constructor | Exact.cpp:90-92 | n empty lists, no edges, m = 0 |
| Densest.DensestSubgraph.AddEdge | Exact.cpp:94-99 | m grows by one, the pair is appended to edges, v to u's list and u to v's list |
| Densest.DensestSubgraph.DegreeTotal | Exact.cpp:94-99 | the degrees sum to 2m |
| Densest.DensestSubgraph.BuildAndSolveFlow | Exact.cpp:121-159 | max_flow on the network leaves a paired, non-negative residual with the sink unreachable and a flow in [0, 2m]; the result is the ascending list of vertices the source reaches, empty when it reaches none or all |
| Densest.DensestSubgraph.BuildNetwork | Exact.cpp:122-133 | the two loops build the flow network of the degrees, the edges and the sink capacity |
| Densest.DensestSubgraph.FlowBound | Exact.cpp:126 | no flow out of the source exceeds the sum of the degrees, 2m |
| Densest.AddSpokes | Exact.cpp:125-128 | the first loop adds the source and sink edges of every vertex |
| Densest.AddLinks | Exact.cpp:130-133 | the second loop adds each edge both ways with capacity 1 |
| Densest.SpokesSound | Exact.cpp:125-128 | the first loop keeps the network paired and non-negative |
| Densest.SpokeSound | Exact.cpp:126-127 | one round of the first loop keeps the network paired and non-negative |
| Densest.AddedSound | Exact.cpp:30-33 | one add_edge with a non-negative capacity keeps the network paired and non-negative |
| Densest.LinksSound | Exact.cpp:130-133 | the second loop keeps the network paired and non-negative |
| Densest.FlowNetworkSound | Exact.cpp:122-133 | the network handed to max_flow is paired and non-negative |
| Densest.SpokesSource | Exact.cpp:125-128 | after the first loop the source's capacity is the sum of the degrees |
| Densest.SpokeSource | Exact.cpp:126 | one round adds the vertex's degree to the source's capacity |
| Densest.LinksKeepSource | Exact.cpp:130-133 | the second loop leaves the source's and sink's lists alone |
| Densest.SourceCapacity | Exact.cpp:122-133 | the capacity out of the source is the sum of the degrees |
| Densest.ResidualCut | Exact.cpp:137-158 | the ascending vertices below n reachable from the source, or empty when none or all n are reachable |
| Densest.AscendingBelow | Exact.cpp:156 | an ascending list below n has n entries exactly when it holds every vertex |
| Densest.Search | Exact.cpp:137-149 | the search marks exactly the vertices reachable from the source |
| Densest.Spread | Exact.cpp:143-148 | the inner loop marks and queues every unmarked head of a positive-capacity edge |
| Timing.CMod | Exact.cpp:213-215 | C++ `%` with a positive divisor: smaller than the divisor in size, with the sign of the dividend |
| Timing.TruncUnique | Exact.cpp:212-215 | truncating division is the only split whose remainder is smaller than the divisor and has the dividend's sign |
| Timing.TimeSplitTotal | Exact.cpp:212-215 | minutes·60000 + seconds·1000 + millis = ms for every ms |
| Timing.TimeSplitBounds | Exact.cpp:212-215 | for ms ≥ 0: minutes ≥ 0, 0 ≤ seconds < 60, 0 ≤ millis < 1000 |
| Timing.TimeSplitUnique | Exact.cpp:212-215 | the split is the only reading with those bounds that adds up to ms |

## Left out

- File reading, parsing, printing and timing in every `main`. This is I/O. Kept: the root-frame seeding of Tomita.cpp and Arboricity.cpp, the seed loop of Bron.cpp, and the millisecond split of Exact.cpp.
- The HH:MM:SS:MMM splits of Bron.cpp, Tomita.cpp and Arboricity.cpp. They start from a `double` duration.
- `calculate_avg_degree_density` and `find_densest_subgraph` of CoreExact.cpp. They compare `double` densities.
- `DensestSubgraph::Exact` of Exact.cpp. It is a floating-point binary search.
- Densest.DensestSubgraph.BuildAndSolveFlow: takes the sink capacity as an integer `sinkCap` instead of computing `(int)(2 * alpha)` from a `double`. It requires `sinkCap >= 0`: a negative capacity would break the non-negativity invariant, and `Exact` only passes non-negative `alpha`.
- Densest.DensestSubgraph.BuildAndSolveFlow: the flow value and the residual network are ghost outputs. The C++ discards the first and keeps the second inside the local `MaxFlow`.
- Exact.MaxFlow.Flow: proves that t is unreachable in the final residual network and that the flow is what left s, but does not prove the flow maximum (max-flow equals min-cut). It also proves no bound on the number of phases. Termination uses the capacity out of s, which falls in every phase.
- Exact.MaxFlow.Flow requires s != t: `max_flow(s, s)` never returns, because `dfs(s, s, INF)` returns INF at once on every call (Exact.cpp:52, 74). Exact.MaxFlow.Phase and Exact.MaxFlow.Drain share the requirement. The one call site passes S = n and T = n + 1 (Exact.cpp:135).
- Exact.MaxFlow.Bfs: proves that every level is witnessed by a level-climbing walk, and that exactly the reachable vertices get one. It does not prove that a level is the shortest distance.
- Exact.MaxFlow.AddEdge and Densest.DensestSubgraph.AddEdge require endpoints below the vertex count. The C++ indexes out of bounds otherwise.
- Bron.Graph.AddEdge, Tomita.Graph.AddEdge and Arboricity.Graph.AddEdge take natural endpoints. The C++ checks only the upper bound, so a negative endpoint would index out of bounds.
- The clique searches require a loopless graph with a symmetric neighbour relation. Every `Graph` keeps symmetry by construction. Looplessness is a precondition the caller must meet, because `addEdge(u, u)` stores a self-loop (Bron.cpp:20-27, Tomita.cpp:18-25, Arboricity.cpp:24-33). Arboricity.cpp's ordering also requires lists without repeated entries, because its bins would hold a vertex twice otherwise. The C++ accepts self-loops and repeated edges, and the enumeration is not meant for them.
- CoreExact.CoreDecomposition requires at least one vertex: `max_element` of an empty vector is undefined.
- The order in which `unordered_set` iterates in Bron.cpp. Each loop over a hash set picks an arbitrary remaining member, and the contracts hold for every choice.
- `bitset<MAX_V>` storage and the `MAX_V` check of Arboricity.cpp. Bitsets are sets of ids below V.
- Overflow of 32-bit `int` in counters, capacities, flows and the millisecond count. Integers are unbounded here.
- The `removed[v]` test of Arboricity.cpp's peeling, the `removed[v]` and `degree[v] > d` tests of Bron.cpp's, and the `core[u] != 0` test of CoreExact.cpp:143. They are kept as branches proved unreachable (`assert false`), so the model does nothing in them.

## Findings

| source | as written | input that shows it | evidently intended | confidence | as-written member | corrected member |
|---|---|---|---|---|---|---|
| Arboricity.cpp:114-134 | after removing a vertex at level d, a neighbour can fall to bin d - 1, which the scan has already passed; it is never emitted, so the ordering, and with it the root P of the search, can miss vertices | the single edge 0-1: the ordering is [1], and the search records {1} and misses the maximal clique {0, 1} | an ordering of every vertex, so that the search from P = all vertices reports every maximal clique | high (proved, not executed) | Arboricity.SingleEdgeOrdering, Arboricity.SingleEdgeMissesClique, Arboricity.DegeneracyOrdering | Arboricity.FixedDegeneracyOrdering, Arboricity.FixedOrderingComplete, Arboricity.MaximalCliques |
