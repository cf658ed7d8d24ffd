# H0 persistence by union-find, modelled in Dafny

This project models the single-linkage (Kruskal-style) computation of
zero-dimensional persistence in `Library-Writer-Guides/Cpp-To-Pip`. The
computation appears three times, once per packaging stage: the library form
in `phase5/union-find.cpp`, the script in `phase2/union-find.cpp` and the
inline `main` of `phase1/union-find-merge-tree.cpp`. Given a 2-D point cloud,
it runs these steps:

- builds one union-find node per point (`make_nodes`);
- builds the full table of squared distances (`make_distances`, `dist2`);
- lists every pair `i < j` and sorts the pairs by distance (`sorted_edges`);
- scans the sorted pairs once (`find_deaths_criticals`). A pair whose
  endpoints lie in different components merges them (`find`, `unite`) and
  records its distance as an H0 death. Any other pair is recorded as an
  H1-critical edge.

Modules:

- `Distances` (`distances.dfy`): `Dist2` and `MakeDistances` over real
  coordinates.
- `UnionFind` (`union_find.dfy`): the forest as an index arena. Class
  `Forest` has `parent: array<int>`, and node `i` is the heap node whose
  `dataindex` is `i`. Two ghost fields give an abstraction that `Valid()`
  ties to `parent`:
  - `rep` is the root each node's links lead to;
  - `depth` strictly decreases along every link, so the links have no cycle.
  
  `Find` walks the links; `Unite` writes one parent field.
- `Edges` (`edges.dfy`): the nested enumeration loops (`EnumeratePairs`),
  which are proved equal to the pure enumeration `AllPairs`. The in-place
  sort (`SortByWeight`) is an insertion sort on an array. Its contract
  promises only what `std::sort` with a strict key promises: the result is
  sorted by weight and is a permutation of the input.
- `MergeScan` (`merge_scan.dfy`): the scan as a pure fold, `Scan`, over
  `Step`, with the lemmas about it. The in-place loop `FindDeathsCriticals`
  runs `Find` and `Unite` on a `Forest` and is proved to produce exactly
  what `Scan` produces.
- `Sample`, `Phase2` and `Phase1` (`phases.dfy`): the hard-coded seven-point
  sample and the two script versions. `Phase2` reads the global sample where
  the library reads its arguments. Each `Run` is the computation of `main`
  without the printing. For the sample it gives 6 deaths, in non-decreasing
  order, and 15 critical edges.

Where the code could be read more than one way, the model follows what it
does:

- `std::sort` is not stable, and ties are ordered by nothing. No order among
  equal distances is promised.
- `unite` swaps its arguments so that the smaller `dataindex` comes first.
  It then re-parents that argument's root onto the other argument. In the
  scan both arguments are roots, so the smaller root goes under the larger.
- `make_distances` calls `dist2` for every cell, including `j < i`.
  Symmetry of the table is a lemma, not a copy.

## Model

| member | source | states |
|---|---|---|
| Distances.Dist2 | Library-Writer-Guides/Cpp-To-Pip/phase5/union-find.cpp:5-7 | the squared distance is never negative, and is 0 from a point to itself |
| Distances.Dist2Symmetric | Library-Writer-Guides/Cpp-To-Pip/phase5/union-find.cpp:5-7 | the squared distance does not depend on the order of the two points |
| Distances.MakeDistances | Library-Writer-Guides/Cpp-To-Pip/phase5/union-find.cpp:36-46 | npts rows of npts entries (none when npts is not positive); entry [i][j] is dist2 of points i and j |
| Distances.DistanceTableProperties | Library-Writer-Guides/Cpp-To-Pip/phase5/union-find.cpp:36-46 | a table built by make_distances has a zero diagonal, is symmetric and is non-negative |
| UnionFind.Forest.constructor | Library-Writer-Guides/Cpp-To-Pip/phase5/union-find.cpp:24-34 | make_nodes: npts nodes (none when npts is not positive), node i self-parented and the sole member of its set, the forest valid |
| UnionFind.IdentityRoots | Library-Writer-Guides/Cpp-To-Pip/phase5/union-find.cpp:24-34 | the n fresh nodes form n distinct sets |
| UnionFind.Forest.Find | Library-Writer-Guides/Cpp-To-Pip/phase5/union-find.cpp:10-15 | find ends at a self-parented node, the root of x's set, and writes nothing |
| UnionFind.RankedLabels | Library-Writer-Guides/Cpp-To-Pip/phase5/union-find.cpp:10-15 | in a valid forest every node's root is its own root, and a node is self-parented exactly when it is a root |
| UnionFind.Forest.Unite | Library-Writer-Guides/Cpp-To-Pip/phase5/union-find.cpp:17-22 | only the parent of the root of the smaller argument changes, to the larger argument; the two sets become one under the larger argument's root; every other node keeps its root; the forest stays acyclic |
| UnionFind.LinkKeepsRanked | Library-Writer-Guides/Cpp-To-Pip/phase5/union-find.cpp:20-21 | re-parenting the root of one set onto a node of another set leaves a forest without cycles whose sets are the two merged and the rest unchanged |
| UnionFind.RelabelRoots | Library-Writer-Guides/Cpp-To-Pip/phase5/union-find.cpp:73-76 | merging two distinct sets removes exactly one root (the smaller) and no other |
| UnionFind.RootIsLargest | Library-Writer-Guides/Cpp-To-Pip/phase5/union-find.cpp:17-22 | when every link points to an equal or higher index, each node's root is at least the node: the root is the largest index of its set |
| Edges.EnumeratePairs | Library-Writer-Guides/Cpp-To-Pip/phase5/union-find.cpp:50-54 | the nested loops push exactly AllPairs(n): row by row, (i, i+1) .. (i, n-1) |
| Edges.PairsBelowLength | Library-Writer-Guides/Cpp-To-Pip/phase5/union-find.cpp:50-54 | the first m rows hold m(2n-m-1)/2 pairs |
| Edges.PairsBelowMembers | Library-Writer-Guides/Cpp-To-Pip/phase5/union-find.cpp:50-54 | the first m rows hold exactly the pairs i < j < n with i < m |
| Edges.PairsBelowOrdered | Library-Writer-Guides/Cpp-To-Pip/phase5/union-find.cpp:50-54 | the enumeration is strictly increasing in (i, j), so no pair repeats |
| Edges.AllPairsShape | Library-Writer-Guides/Cpp-To-Pip/phase5/union-find.cpp:50-54 | before sorting there are n(n-1)/2 pairs, a pair is listed if and only if i < j < n, and each is listed once |
| Edges.SortByWeight | Library-Writer-Guides/Cpp-To-Pip/phase5/union-find.cpp:57 | after the sort the edges are in non-decreasing order of table[s][t] and are a permutation of the input |
| Edges.InsertLast | Library-Writer-Guides/Cpp-To-Pip/phase5/union-find.cpp:57 | one insertion step of the sort extends the sorted prefix by one edge and keeps the multiset of edges |
| Edges.SortedEdgesBelow | Library-Writer-Guides/Cpp-To-Pip/phase5/union-find.cpp:48-59 | the result is a permutation of all pairs i < j < n (n(n-1)/2 of them, each once) in non-decreasing order of distance |
| Edges.SortedEdges | Library-Writer-Guides/Cpp-To-Pip/phase5/union-find.cpp:48-59 | the same, with n the number of rows of the table |
| MergeScan.Step | Library-Writer-Guides/Cpp-To-Pip/phase5/union-find.cpp:69-80 | one edge: it is a merge (one more death) if and only if its endpoints had different roots; exactly one output grows; afterwards the endpoints share a root; upward links stay upward |
| MergeScan.ScanSplits | Library-Writer-Guides/Cpp-To-Pip/phase5/union-find.cpp:68-81 | each edge lands in exactly one output, a merge as distances[s][t] and any other edge as itself, and both outputs keep the input order |
| MergeScan.SplitSizes | Library-Writer-Guides/Cpp-To-Pip/phase5/union-find.cpp:68-81 | the number of deaths plus the number of critical edges is the number of edges |
| MergeScan.SplitDeathsSorted | Library-Writer-Guides/Cpp-To-Pip/phase5/union-find.cpp:68-81 | from edges sorted by distance, the deaths come out in non-decreasing order |
| MergeScan.ScanJoinsEndpoints | Library-Writer-Guides/Cpp-To-Pip/phase5/union-find.cpp:71-76 | after the scan, the endpoints of every scanned edge have the same root |
| MergeScan.ScanCountsMerges | Library-Writer-Guides/Cpp-To-Pip/phase5/union-find.cpp:73-76 | deaths plus remaining components is constant over the scan |
| MergeScan.ScanKeepsLinksUpward | Library-Writer-Guides/Cpp-To-Pip/phase5/union-find.cpp:73-75 | the scan only links a smaller root under a larger one, so links that point upward stay upward and each root stays the largest index of its set |
| MergeScan.AllPairsLeaveOneSet | Library-Writer-Guides/Cpp-To-Pip/phase5/union-find.cpp:68-81 | when every pair is scanned, one component remains (none for no points) |
| MergeScan.Barcode | Library-Writer-Guides/Cpp-To-Pip/phase5/union-find.cpp:68-81 | over all n(n-1)/2 pairs from n singletons there are n-1 deaths (0 for no points), the rest are critical, and the deaths are non-decreasing when the pairs are sorted |
| MergeScan.FindDeathsCriticals | Library-Writer-Guides/Cpp-To-Pip/phase5/union-find.cpp:61-83 | the loop returns the deaths and critical edges of Scan and leaves the forest in Scan's final state, still valid |
| Phase2.MakeDistances | Library-Writer-Guides/Cpp-To-Pip/phase2/union-find.cpp:44-54 | npts rows of npts entries, each the distance between points of the global sample whatever data is passed |
| Phase2.SortedEdges | Library-Writer-Guides/Cpp-To-Pip/phase2/union-find.cpp:56-67 | the 21 pairs below the sample's size 7, whatever the table's size, as a permutation sorted by distance |
| Phase2.Run | Library-Writer-Guides/Cpp-To-Pip/phase2/union-find.cpp:94-105 | for the seven-point sample: 6 deaths in non-decreasing order and 15 critical edges |
| Phase1.Run | Library-Writer-Guides/Cpp-To-Pip/phase1/union-find-merge-tree.cpp:38-82 | the inline node, distance, edge and scan loops: 6 deaths in non-decreasing order and 15 critical edges for the sample |

## Left out

- Floating point: `float` coordinates and distances are modelled as exact reals. IEEE rounding is not modelled, and neither is the order of ties it might create or break.
- Heap allocation: `make_nodes` allocates each node with `new` and pushes a copy into the vector. The copy's parent is the heap node, and the heap node is never freed. The model keeps only the heap nodes, as the arena. The vector copies sit one link above them and are never written, so `find(&nodes[i])` is the root of arena node `i`.
- The `sr && tr` null checks in the scan are always true, so they are not modelled.
- The printing of `[0,d)` and `[0,∞)` in the two `main` functions is console output and is not modelled.
- `phase5/glue.cpp` (Python bindings and the copy of doubles into floats), the demo driver and the header files are not part of this model.
- UnionFind.Forest.Unite: requires the two nodes to be in different sets. On a single set, the source may create a cycle that a later `find` would loop on. The scan never does this.
- C++ `int` overflow of indices and sizes is not modelled; indices are unbounded integers.
- Out-of-range reads are preconditions, not modelled behaviour. This covers `dist2` with an index past the data and `sorted_edges` on a table with too few entries. The phase 2 `sorted_edges` reads a table smaller than the sample.
- The `data` argument of `make_nodes` is unused in the source. The constructor takes only `npts`.
- The scripts' own copies of `find`, `unite`, `make_nodes` and the scan are modelled by the library's members `UnionFind.Forest.Find`, `UnionFind.Forest.Unite`, `UnionFind.Forest.constructor` and `MergeScan.FindDeathsCriticals`. Those copies are `phase2/union-find.cpp` lines 18-42 and 69-91, and `phase1/union-find-merge-tree.cpp` lines 24-36 and 43-48, 66-82. Their code is the same as the library's.
- Phase 1 builds a node and its distance row in the same loop iteration. Neither reads the other, so `Phase1.Run` builds all nodes and then the table.
- Distances.Dist2: states that the result is non-negative and is zero on the diagonal, but not that it is zero only for coincident points. That converse needs nonlinear real reasoning and nothing in the computation depends on it.
