# Graph tools, workload pipeline and transforms: a verified model

This project models the host-side tools that surround the streaming vector indexes of
the repository and proves what they compute. Everything is proved for all inputs; a
property that the code does not have is stated with the exact condition under which it
holds and with a concrete input on which it fails.

What is modelled:

* **Graph analysis over a Vamana or CAGRA adjacency array.** The iterative Kosaraju
  search with explicit frames (`Kosaraju`, on top of `FinishingOrder`, `FrameSearch`,
  `Components`), the recursive Tarjan search (`Tarjan`, on top of `LowLink`), the weak
  components of the cuVS tool (`CuvsWcc`) and of the fda2 tool (`FdaWcc`), the
  level-counting search (`BfsLevels`), the in-neighbour discovery (`Discovery`), the
  reverse graph (`Transpose`) and the in-degree tool (`InDegree`). All of them are proved
  against one definition of reachability (`Digraphs`); `SccAgreement` relates them.
* **The k-means and cluster-recall tools.** `KMeans` states what a round of Lloyd's
  iteration is and why it never raises the cost, `Lloyd` has the loops; `RecallCounts` and
  `RecallTotals` state what the recall counters mean, `ClusterRecall` has the loops and the
  merge across threads.
* **The v11 workload pipeline.** The object splitter (`V11Splitter`), the field
  extractors (`V11Fields`), the two streams (`V11Stream`), a printer for the documented
  format (`V11Printer`) and the proof that the streams undo it (`V11RoundTrip`); the
  translation of base ids to internal ids (`IdTranslation`, `IdTranslator`).
* **Transforms, files and ownership.** The inner-product and cosine reductions
  (`InnerProduct`), the record file written by the DiskANN converter and read by
  `load_graph` (`RecordWriter`, `VamanaRecords`), the algorithm cache that owns raw
  pointers (`AlgoCache`) and the allow-list bit set (`AllowList`).

How the source is represented:

* Fixed buffers are arrays, objects with fields are classes, growable lists, stacks and
  queues are sequences held in variables. One long C++ function may be several methods.
* `Graph` has the C++ layout: row degrees and a flat slot array of which only a prefix of
  each row is valid; targets at or above the number of rows are ignored, as in the code.
  Row ids fit 32 bits. The cuVS tools count rows in `int`, so there are fewer than 2^31 rows;
  its component tools (`Tarjan`, `CuvsWcc`) also keep slot offsets and targets in `int`, so
  these stay below 2^31 too, and nothing in them can then overflow.
* Row ranges are the ones `main` accepts; they are checked before any traversal.
* Labels and counters of the fda2 tools are unbounded integers in the model. Where the
  program keeps them in 32 bits, the contract says exactly for which inputs that is wide
  enough: `LabelWidths` for the Kosaraju labels, `FdaWcc` for the weak labels and sizes,
  `BfsLevels` for the level counter. The in-degree counters are unsigned, and their
  wrap-around is modelled.
* Numbers in the workload text are accumulated modulo 2^32, and the expected file size of
  `load_graph` is taken modulo 2^64, as the C++ types do. Vectors are points over exact
  reals; the square root is a parameter with its defining property.
* The buffer rows of k-means (`centroids`, `next_centroids`) are arrays of points, and the
  first centroid is the initial best instead of the largest float.
* The parallel recall loop is modelled by an arbitrary division of the targets into
  lists, one for each thread, merged in an arbitrary order; the shared per-node records
  are disjoint and the merge is a critical section.
* A cached pointer stands for one allocation; an address that is used again after a deletion
  is a new pointer.
* Callbacks of the loader are modelled by the list of calls they receive; deleter calls of
  the cache by the list of deleted pointers; files by their bytes or blocks.

Things a reader of the code would not see at once:

* A finishing order in which, for each edge, the target finishes first or reaches the
  source is not enough for the second pass of Kosaraju: with the edges 0->1, 1->2 and 2->1
  the order 1, 0, 2 has that property. `FinishingOrder.Finishing` is the one that is enough.
* Kosaraju numbers components from the sources, Tarjan from the sinks.
* Tarjan only reports that it leaves the row range and goes on, so it labels everything
  reached from the range; its sizes count in-range vertices only.
* The comment on the fda2 `wcc` says that the graph is treated as undirected. The code
  follows out-edges only, so the single edge 1->0 gets two labels.
* The fda2 recall counts a self-loop as found although its reverse graph drops it, so the
  number found can exceed the number listed.
* The cache keeps its ownership promise exactly when no pointer is put twice. Its only call
  site, `CreateAlgo` at line 362 of freshbang_wrapper.cpp, releases the pointer from the
  owner that has just been created, so it never hands over a shared one.
* The size check of `load_graph` is passed by an empty file when the expected size is a
  multiple of 2^64.
* The id translation keeps the old number of an id that is inserted while live, and starts
  from the wrong set when the stream inserts from id 0 on.

## Model

| member | source | states |
|---|---|---|
| Kosaraju.SCC.Run | fda2/fda2_tools/connected_components_scc.cpp:137-338 | in-range vertices get the labels 0..cnt-1, all in use, equal exactly for mutual reachability inside the range; all others keep -1; both passes terminate; labels and counter fit `int` exactly if there are at most 2^31-1 components |
| LabelWidths.LabelsFitExactly | fda2/fda2_tools/connected_components_scc.cpp:123-125 | labels and counter fit `int` if and only if no 2^31 in-range vertices lie pairwise in different components |
| LabelWidths.ShortRangeFits | fda2/fda2_tools/connected_components_scc.cpp:123-125 | a range of at most 2^31-1 rows is always enough |
| LabelWidths.EdgelessDoesNotFit | fda2/fda2_tools/connected_components_scc.cpp:123-125 | 2^31+2 rows without edges are too many |
| LabelWidths.RangeHoldsItsRows | fda2/fda2_tools/connected_components_scc.cpp:10-20 | a range from s to e holds s, e and e-s+1 rows in all, the ones between first and last; without a range every row is held |
| Adjacency.Graph.RowsAreSlots | fda2/fda2_tools/vamana_graph.h:16-35 | slot i of the fda2 array is entry i mod R of row i / R, if that is below the degree of the row |
| Kosaraju.SCC.FirstPass | fda2/fda2_tools/connected_components_scc.cpp:153-252 | the finishing order holds each in-range vertex once and has the finishing property |
| Kosaraju.SCC.Explore | fda2/fda2_tools/connected_components_scc.cpp:185-251 | one tree of the frame loop keeps the search invariant and marks its root |
| Kosaraju.SCC.SecondPass | fda2/fda2_tools/connected_components_scc.cpp:265-337 | from any complete finishing order and the reverse graph, the labels come out right |
| Kosaraju.SCC.Sweep | fda2/fda2_tools/connected_components_scc.cpp:299-334 | the new label goes to exactly the unlabelled vertices that reach the root |
| FinishingOrder.Finish | fda2/fda2_tools/connected_components_scc.cpp:240-250 | closing a frame whose targets are all visited keeps the search invariant, finishing property included |
| FinishingOrder.RootTakesItsComponent | fda2/fda2_tools/connected_components_scc.cpp:286-337 | with whole components removed, whoever still reaches the last remaining finisher is reached back by it |
| FinishingOrder.FinishingCoversEdges | fda2/fda2_tools/connected_components_scc.cpp:240-250 | the finishing property implies the familiar one of single edges: the target finishes first or reaches the source |
| FinishingOrder.EdgeFinishingIsNotEnough | fda2/fda2_tools/connected_components_scc.cpp:240-250 | an order with the familiar single-edge property from whose last vertex a sweep would take two components |
| Kosaraju.NextComponent | fda2/fda2_tools/connected_components_scc.cpp:286-337 | a sweep from the last unlabelled finisher adds one whole component |
| Tarjan.TarjanSCC.Run | nvidia-cuvs/cpp/bench/tools/connected_components_scc.cpp:120-144 | exactly the vertices reached from the range are labelled, with labels 0..n-1 equal exactly for mutual reachability in the whole graph; sizes count in-range vertices |
| Adjacency.CagraGraph.RowsAreSlots | nvidia-cuvs/cpp/bench/tools/connected_components_scc.cpp:170 | slot i of the cuVS array is entry i mod K of row i / K, so the rows in order are the array |
| Tarjan.TarjanSCC.Dfs | nvidia-cuvs/cpp/bench/tools/connected_components_scc.cpp:162-230 | a call visits what it newly reaches, keeps the stack and label invariant, and returns the low-link: attained, and a bound for all stacked vertices it saw |
| Tarjan.TarjanSCC.PopComponent | nvidia-cuvs/cpp/bench/tools/connected_components_scc.cpp:212-229 | exactly the stack from the root upwards is popped, unmarked and given the new label |
| LowLink.LeaveClosed | nvidia-cuvs/cpp/bench/tools/connected_components_scc.cpp:212-229 | if the low-link equals the index, what is popped is one strongly connected component and the invariant holds again |
| LowLink.LeaveOpen | nvidia-cuvs/cpp/bench/tools/connected_components_scc.cpp:172-212 | otherwise the stacked vertices still reach an open caller |
| SccAgreement.KosarajuAgreesWithTarjan | nvidia-cuvs/cpp/bench/tools/connected_components_scc.cpp:120-230 | without a range, both algorithms give the same partition and the same count |
| SccAgreement.KosarajuTopological | fda2/fda2_tools/connected_components_scc.cpp:286-337 | labels never decrease along a path, and stay equal exactly if the path can be returned |
| SccAgreement.TarjanTopological | nvidia-cuvs/cpp/bench/tools/connected_components_scc.cpp:212-229 | labels never increase along a path, and stay equal exactly if the path can be returned |
| SccAgreement.SccInsideWcc | nvidia-cuvs/cpp/bench/tools/connected_components_scc.cpp:247-350 | every strongly connected component lies inside one weak component |
| CuvsWcc.ComputeWcc | nvidia-cuvs/cpp/bench/tools/connected_components_scc.cpp:247-350 | labels are equal exactly for vertices joined by a path ignoring direction, each is in use, sizes count in-range members and sum to the range length |
| CuvsWcc.BuildUndirected | nvidia-cuvs/cpp/bench/tools/connected_components_scc.cpp:261-300 | the lists hold exactly the undirected edges of the in-range rows, without self-loops |
| FdaWcc.Wcc | fda2/fda2_tools/connected_components_scc.cpp:33-99 | every in-range vertex is labelled by the least in-range vertex that reaches it, sizes are those of the label classes, and all of these fit `int` exactly on the graphs of the next row |
| FdaWcc.CountersFitExactly | fda2/fda2_tools/connected_components_scc.cpp:36-56 | labels, counter and sizes fit `int` if and only if at most 2^31-1 in-range vertices are reached by no smaller one, and none of them is the least source of more than 2^31-1 |
| FdaWcc.ShortRangeIsFewAndSmall | fda2/fda2_tools/connected_components_scc.cpp:36-56 | a range of at most 2^31-1 rows is always enough |
| FdaWcc.EdgelessHasManyOrigins | fda2/fda2_tools/connected_components_scc.cpp:36-56 | 2^31+2 rows without edges are too many |
| FdaWcc.SameLabelIsWeak | fda2/fda2_tools/connected_components_scc.cpp:50-96 | each label class lies in one weak component |
| FdaWcc.SizesAddUp | fda2/fda2_tools/connected_components_scc.cpp:95 | the sizes sum to the length of the range |
| FdaWcc.WeakExactlyWhenLeastReachesAll | fda2/fda2_tools/connected_components_scc.cpp:28 | the labels are those of the weak components if and only if the smallest vertex of each weak component reaches all of it |
| FdaWcc.OneBackwardEdgeGetsTwoLabels | fda2/fda2_tools/connected_components_scc.cpp:73-92 | the edge 1->0 joins two vertices that get different labels |
| BfsLevels.Run | fda2/fda2_tools/bfs_level_counts.cpp:38-66 | line l gives the number of vertices at distance l and at most l, one line for each distance that occurs; the last total counts the reachable vertices; the warning appears exactly if one is unreachable; the level counter fits `int` exactly if no vertex is 2^31-1 edges away |
| BfsLevels.LinesByDistance | fda2/fda2_tools/bfs_level_counts.cpp:45-63 | line l counts the vertices that l edges and no fewer lead to, and those that at most l edges lead to; it is printed exactly if the former exist |
| BfsLevels.LevelFitsExactly | fda2/fda2_tools/bfs_level_counts.cpp:43-62 | the level counter fits `int` if and only if no vertex has distance 2^31-1 |
| BfsLevels.LinesBounded | fda2/fda2_tools/bfs_level_counts.cpp:43-62 | there are no more levels than vertices, so fewer than 2^31 rows are always enough |
| BfsLevels.LongPathDoesNotFit | fda2/fda2_tools/bfs_level_counts.cpp:43-62 | a path of 2^31 vertices is too long |
| Levels.BallIsWalks | fda2/fda2_tools/bfs_level_counts.cpp:45-63 | the ball of radius l holds the vertices reached by at most l edges |
| Levels.BallFull | fda2/fda2_tools/discover_vamana_graph.cpp:62 | n-1 levels reach everything reachable |
| Levels.BallSaturated | fda2/fda2_tools/bfs_level_counts.cpp:45 | once a level is empty, everything reachable has been seen |
| Levels.LevelsAreDistances | fda2/fda2_tools/bfs_level_counts.cpp:45-63 | a vertex is in level l exactly if l edges and no fewer lead to it |
| Digraphs.ReachIsPath | fda2/fda2_tools/bfs_level_counts.cpp:38-66 | reachability, on which all graph tools rest, is being joined by a list of vertices each of which is an out-neighbour of the one before |
| Discovery.RunTarget | fda2/fda2_tools/discover_vamana_graph.cpp:20-208 | each printed line is right and its level not empty; `completed` is the least level that finds all in-neighbours, -1 exactly if no level up to the limit does; `recovered` and `visited` are the sets within the last level; the search stops early only at an empty level |
| Discovery.LinesByDistance | fda2/fda2_tools/discover_vamana_graph.cpp:62-156 | line l counts the vertices at distance l, those within distance l+1 (l at the last level), and the in-neighbours at distance l and within it |
| Discovery.RecoveredIsWithinReach | fda2/fda2_tools/discover_vamana_graph.cpp:62-156 | stopped early or not, exactly the in-neighbours within the level limit have been recovered |
| Discovery.FullScanFindsComponent | fda2/fda2_tools/discover_vamana_graph.cpp:62-156 | with the full range and enough levels, exactly the in-neighbours in the target's strongly connected component are recovered |
| Transpose.BuildReverseGraph | fda2/fda2_tools/vamana_graph.h:124-144 | the lists are those of the transposed graph, each reserved at its final length |
| Transpose.IncomingCount | fda2/fda2_tools/vamana_graph.h:136-142 | u is listed under v as often as row u holds v, self-loops dropped |
| Transpose.IncomingAscending | fda2/fda2_tools/vamana_graph.h:136-142 | every list is in increasing order |
| Transpose.TransposedTwice | fda2/fda2_tools/vamana_graph.h:124-144 | transposing twice gives the sorted rows without self-loops and invalid targets |
| InDegree.Distribution | fda2/fda2_tools/vamana_indegree_distribution.cpp:49-96 | the counters are the lengths of the reverse lists modulo 2^32, the edge count is their true sum, and the histogram counts the vertices of each counter value, sums to the counters and ends at the largest, unless its 32-bit length comes out as 0 |
| InDegree.Accumulate | fda2/fda2_tools/vamana_indegree_distribution.cpp:56-72 | the counters and the edge count after the record loop; edges never exceed rows times degree |
| InDegree.DeliveredCounter | fda2/fda2_tools/vamana_indegree_distribution.cpp:56-72 | the counter of a vertex is the number of its in-edges modulo 2^32 |
| InDegree.DeliversExactly | fda2/fda2_tools/vamana_indegree_distribution.cpp:49-96 | the printed distribution is that of the graph, with both sums equal to the edge count, if and only if no vertex has 2^32-1 or more in-edges |
| InDegree.ManyInEdgesWrap | fda2/fda2_tools/vamana_indegree_distribution.cpp:66 | two rows that name one vertex in 2^31 slots each wrap its counter |
| KMeans.AssignmentIsBest | nvidia-cuvs/cpp/bench/tools/cluster_incoming_quality.cpp:164-181 | for fixed centroids no assignment is cheaper than the one the loop picks |
| KMeans.RoundIsBest | nvidia-cuvs/cpp/bench/tools/cluster_incoming_quality.cpp:183-212 | for the new assignment no centroids are cheaper than the new ones, empty clusters included |
| KMeans.MeanIsBest | nvidia-cuvs/cpp/bench/tools/cluster_incoming_quality.cpp:206-211 | the mean minimises the cost of its cluster |
| KMeans.RoundDescends | nvidia-cuvs/cpp/bench/tools/cluster_incoming_quality.cpp:163-213 | one iteration never raises the cost, whether empty clusters are re-seeded or kept |
| KMeans.Descent | nvidia-cuvs/cpp/bench/tools/cluster_incoming_quality.cpp:163-213 | the cost never rises between any two iterations of a run |
| KMeans.RunIsDeterministic | nvidia-cuvs/cpp/bench/tools/cluster_incoming_quality.cpp:142-219 | the states of a run are determined by the points, k and the policy |
| KMeans.SeedRowExactly | nvidia-cuvs/cpp/bench/tools/cluster_incoming_quality.cpp:157-161 | the seed row of cluster c is the one row with row * k <= c * n < (row + 1) * k |
| KMeans.SeedsIncrease | nvidia-cuvs/cpp/bench/tools/cluster_incoming_quality.cpp:157-161 | the seed rows start at row 0 and, with no more clusters than rows, increase strictly, so they all differ |
| KMeans.EmptyClusterFate | nvidia-cuvs/cpp/bench/tools/cluster_incoming_quality.cpp:197-202 | the centroid of an empty cluster is the one it was seeded with (cuVS) or the one of the round before (fda2) |
| KMeans.CostIsSum | nvidia-cuvs/cpp/bench/tools/cluster_incoming_quality.cpp:103-111 | the cost is the sum of the squared distances from each point to its centroid |
| Points.DistanceIsSum | nvidia-cuvs/cpp/bench/tools/cluster_incoming_quality.cpp:103-111 | a squared distance is the sum of the squared coordinate differences |
| Lloyd.Cluster | nvidia-cuvs/cpp/bench/tools/cluster_incoming_quality.cpp:142-219 | the loops perform exactly such a run and deliver its last state, with the members of each cluster in increasing order |
| Lloyd.Closest | nvidia-cuvs/cpp/bench/tools/cluster_incoming_quality.cpp:166-178 | the first of the closest centroids is chosen |
| Lloyd.Recentre | fda2/fda2_tools/cluster_incoming_quality.cpp:100-104 | used clusters get their mean; empty ones are re-seeded (cuVS) or kept (fda2) |
| Lloyd.MemberListExactly | nvidia-cuvs/cpp/bench/tools/cluster_incoming_quality.cpp:214-216 | the members of a cluster are exactly the points assigned to it, in strictly increasing order |
| ClusterRecall.BuildReverseGraph | nvidia-cuvs/cpp/bench/tools/cluster_incoming_quality.cpp:113-140 | every list holds each source as often as its row holds the vertex, self-loops kept |
| RecallCounts.SourcesCount | nvidia-cuvs/cpp/bench/tools/cluster_incoming_quality.cpp:113-140 | u is listed under v as often as row u holds v |
| RecallCounts.SourcesAscending | nvidia-cuvs/cpp/bench/tools/cluster_incoming_quality.cpp:113-140 | every list is in increasing order |
| ClusterRecall.Measure | nvidia-cuvs/cpp/bench/tools/cluster_incoming_quality.cpp:344-363 | `gt` is the number of listed in-edges, `recovered` the number of distinct in-neighbours in the target's own cluster, the recall their percentage, or 100 if nothing is listed |
| RecallTotals.RecallIsFullExactly | nvidia-cuvs/cpp/bench/tools/cluster_incoming_quality.cpp:344-372 | recovered never exceeds listed; both are equal, and the recall is 100, exactly if all in-edges come from the cluster and none is duplicated |
| RecallTotals.PercentIs | nvidia-cuvs/cpp/bench/tools/cluster_incoming_quality.cpp:357-359 | the recall times the number listed is 100 times the number recovered |
| ClusterRecall.Scan | nvidia-cuvs/cpp/bench/tools/cluster_incoming_quality.cpp:336-386 | for every division of the targets among threads, the merged counters and the node records are those of handling the range in order |
| RecallCounts.TallyOfPermutation | nvidia-cuvs/cpp/bench/tools/cluster_incoming_quality.cpp:375-385 | the counters depend on which targets were handled, not on their order |
| RecallTotals.ClusterLine | nvidia-cuvs/cpp/bench/tools/cluster_incoming_quality.cpp:415-432 | the line of a cluster counts the targets of the range that belong to it: how many, their listed and recovered in-edges, how many are full, how many have none listed, and the sum of their recalls |
| RecallTotals.OfClusterCount | nvidia-cuvs/cpp/bench/tools/cluster_incoming_quality.cpp:415-432 | a target belongs to the line of a cluster exactly if it is assigned to it |
| RecallTotals.SummaryTotals | nvidia-cuvs/cpp/bench/tools/cluster_incoming_quality.cpp:388-440 | the sums over all lines are these same counts for all targets of the range |
| ClusterRecall.SummaryIsBounded | nvidia-cuvs/cpp/bench/tools/cluster_incoming_quality.cpp:388-442 | the summary counts each row of the range once, found edges never exceed listed ones, and the average recall is a percentage |
| ClusterRecall.Evaluate | nvidia-cuvs/cpp/bench/tools/cluster_incoming_quality.cpp:326-440 | the whole program, for any vectors and schedule: there is a run of k-means with the given number of iterations that re-seeds empty clusters, and its last assignment fixes the printed totals: rows, listed and recovered in-edges, full rows, rows with nothing listed, and the sum of the recalls; the totals are bounded as above |
| ClusterRecall.FdaTotals | fda2/fda2_tools/cluster_incoming_quality.cpp:106-117 | the fda2 totals are the sums of the list lengths, of the numbers of same-cluster in-neighbours and of the recalls, target by target |
| ClusterRecall.FdaTotalsBounded | fda2/fda2_tools/cluster_incoming_quality.cpp:115-120 | without self-loops the fda2 tool finds no more than it lists, and the sum of its recalls is at most 100 for each row |
| RecallCounts.FdaBoundExactly | fda2/fda2_tools/cluster_incoming_quality.cpp:111-116 | there the bound holds for a target if and only if it has no self-loop or some other in-edge is duplicated or comes from outside the cluster |
| RecallCounts.OneSelfLoopBreaksTheFdaBound | fda2/fda2_tools/vamana_graph.h:37-43 | a row that points at itself recovers more than it lists |
| V11Splitter.ForEachObject | fda/src/v11_loader.hpp:146-171 | objects and leftover depend on the text only, not on the division into blocks |
| V11Splitter.Conservation | fda/src/v11_loader.hpp:157-167 | the objects handed over and the leftover concatenate to the input |
| V11Splitter.DepthBounded | fda/src/v11_loader.hpp:151-165 | the depth never exceeds the number of characters read, so it fits `int` for texts of fewer than 2^31 characters |
| V11Splitter.OpenBraces | fda/src/v11_loader.hpp:163 | unclosed braces reach any depth |
| V11Splitter.SplitParts | fda/src/v11_loader.hpp:159-167 | every object handed over is one that the scanner closes at its last character and not before |
| V11Splitter.OnlySplit | fda/src/v11_loader.hpp:146-171 | any way of cutting a text into complete objects and an open rest is the one the scanner finds |
| V11Splitter.ObjectIsComplete | fda/src/v11_loader.hpp:159-167 | an object is handed over at its closing brace however it nests and whatever braces and escapes its string literals hold |
| V11Fields.ScanUints | fda/src/v11_loader.hpp:193-201 | the loop reads the maximal digit runs of the text, modulo 2^32 |
| V11Fields.GetUint2D | fda/src/v11_loader.hpp:205-229 | one row for each bracket pair before the last closing bracket of the object |
| V11Fields.MissingKeyIsEmpty | fda/src/v11_loader.hpp:177-229 | a key that does not occur is read as the empty string or list |
| V11Fields.NoBracketIsEmpty | fda/src/v11_loader.hpp:187-229 | without an opening or without a closing bracket no list is read |
| V11Printer.DigitsRead | fda/src/v11_loader.hpp:198 | the digits of any number are read as that number modulo 2^32 |
| V11RoundTrip.ReadBack | fda/src/v11_loader.hpp:177-229 | the extractors read from a printed batch the batch itself |
| V11RoundTrip.PrintIsComplete | fda/src/v11_loader.hpp:146-171 | a printed batch is split off whole |
| V11RoundTrip.OtherOperationIsSkipped | fda/src/v11_loader.hpp:243-257 | an object with any other operation leads to no call |
| V11RoundTrip.DocumentedUpdate | fda/src/v11_loader.hpp:6-7 | an insert or delete of any id, written token by token as in the header comment, is read as that batch |
| V11RoundTrip.DocumentedSearch | fda/src/v11_loader.hpp:8 | the same for a search of any query with any ground-truth id |
| V11RoundTrip.LoaderUndoesPrinter | fda/src/v11_loader.hpp:238-285 | however batches are laid out and the file is divided, the calls of `stream_batched` are the batches in order; those of `stream` report the ids of each batch in order, to the callback of its operation, a query with its own ground-truth row or the empty one; per callback they are the concatenated ids of its batches |
| V11Stream.StreamBatched | fda/src/v11_loader.hpp:270-285 | one call for each object with a known operation, in order |
| V11Stream.Stream | fda/src/v11_loader.hpp:238-260 | for the objects of any text: call by call, which id of which batch is reported to which callback, and nothing else |
| V11Stream.ExpandDelivers | fda/src/v11_loader.hpp:245-257 | the flattened batches report every id at its place and to the callback of its operation |
| V11Stream.DeliveredOnce | fda/src/v11_loader.hpp:245-257 | only one list of calls reports given batches that way |
| V11Stream.DeliveredIds | fda/src/v11_loader.hpp:245-257 | the ids given to each callback, in order, are the concatenated ids of the batches of its operation |
| IdTranslation.AlwaysBooked | bench_harness/v11_to_svf_clustered.py:32-54 | after every event the two tables are inverse to each other, the counter is the number of internal ids, and the j-th written insert id has number seed+j |
| IdTranslation.InsertWrites | bench_harness/v11_to_svf_clustered.py:40-49 | in every run an insert event writes the ids at or above the seed that it names, each as often and in the same order, and nothing exactly if it names none; the id table and the counter grow by them |
| IdTranslation.DeleteWrites | bench_harness/v11_to_svf_clustered.py:50-54 | a delete event writes in ascending order the current number of each id it names that has one, as often as it names the id; the tables stay |
| IdTranslation.SearchWrites | bench_harness/v11_to_svf_clustered.py:55-56 | a search event adds one search step, other events change nothing |
| IdTranslation.ArrivedExactly | bench_harness/v11_to_svf_clustered.py:40-49 | what the original stream keeps: inserted ids are live, those live before or named twice are doubled |
| IdTranslation.SimulatesExactly | bench_harness/v11_to_svf_clustered.py:37-54 | live base ids equal the image of the live internal ids after every event if and only if the seed is the number of ids loaded at the start and no id ever inserted while live is later deleted |
| IdTranslator.ScriptSimulatesExactly | bench_harness/v11_to_svf_clustered.py:26-54 | for the seed the script chooses: if and only if the least inserted id is positive (or the seed is 0) and no such delete occurs |
| IdTranslator.InsertingFromZeroFails | bench_harness/v11_to_svf_clustered.py:30 | a stream that inserts from id 0 is misrepresented before its first event |
| IdTranslator.InsertTwiceThenDeleteFails | bench_harness/v11_to_svf_clustered.py:46-51 | an id inserted twice and then deleted stays live under its first number |
| IdTranslator.Translator.Handle | bench_harness/v11_to_svf_clustered.py:38-56 | one event changes the tables and the runbook as specified; delete files are sorted |
| IdTranslator.Translate | bench_harness/v11_to_svf_clustered.py:26-56 | no result exactly if there is no insert event or one without ids; otherwise the state after the last event of a run from the chosen seed |
| IdTranslator.ChooseSeed | bench_harness/v11_to_svf_clustered.py:28-30 | the seed is the least inserted id if that is positive, else the configured one, else half of the id range rounded down |
| InnerProduct.AugmentDB | fda/src/metric.hpp:59-65 | the vector followed by the root of the bound minus its squared norm, or 0 if that is negative |
| InnerProduct.Reduction | fda/src/metric.hpp:9-13 | the augmented squared distance is the norm of the query plus the larger of bound and norm minus twice the inner product |
| InnerProduct.DotIsSum | fda/src/metric.hpp:51-55 | the inner product is the sum of the products, the squared norm that of the squares |
| InnerProduct.ReductionUnderBound | fda/src/metric.hpp:9-13 | with a bound that covers the norm it is the norm of the query plus the squared bound minus twice the inner product |
| InnerProduct.RankingExactly | fda/src/metric.hpp:9-13 | augmented distance ranks like the inner product for every query if and only if all vectors have the same cap |
| InnerProduct.RankingUnderBound | fda/src/metric.hpp:11-13 | it does if the bound covers all norms |
| InnerProduct.BoundTooSmall | fda/src/metric.hpp:63 | with a bound below one norm the ranking can go wrong |
| InnerProduct.ScanNorms | bench_harness/aug_prefix.py:7-14 | for any chunk size the scan yields the largest squared norm of the prefix |
| InnerProduct.AugmentPrefix | bench_harness/aug_prefix.py:16-24 | for any chunk size every row of the prefix is augmented with the same bound |
| InnerProduct.ScannedRowsRankAlike | bench_harness/aug_prefix.py:7-24 | rows that were scanned for the bound rank like their inner products |
| InnerProduct.CosineReduction | fda/src/metric.hpp:6-8 | between normalized vectors the squared distance is two minus twice the cosine |
| InnerProduct.UnitHasNormOne | fda/src/metric.hpp:41-49 | a normalized non-zero vector has norm one |
| InnerProduct.UnitKeepsDirection | fda/src/metric.hpp:41-49 | every coordinate of the normalized vector times the norm is that of the vector; a zero vector stays |
| VamanaRecords.LoadGraph | fda2/fda2_tools/vamana_graph.h:68-122 | the graph the records hold, or the first thing that is wrong: the size, the first read that is short and its part, or the degree |
| VamanaRecords.LoadsExactly | fda2/fda2_tools/vamana_graph.h:68-122 | a file is loaded if and only if it has the expected size and all records are complete and within the degree bound |
| VamanaRecords.LoadedWords | fda2/fda2_tools/vamana_graph.h:88-107 | degree and slots of a loaded graph are the little-endian words at their offsets in the file, behind 4 bytes for each dimension, or 1 for the byte type |
| VamanaRecords.OneOutcome | fda2/fda2_tools/vamana_graph.h:68-122 | file and options determine the answer, including the first record and the first read that fails |
| VamanaRecords.NoShortReads | fda2/fda2_tools/vamana_graph.h:70-76 | after the size check no read can fail if the expected size is below 2^64 |
| VamanaRecords.ReadsShortExactly | fda2/fda2_tools/vamana_graph.h:69-76 | a file that passes the size check and is then read short exists if and only if the expected size wraps around |
| VamanaRecords.EmptyFileReadsShort | fda2/fda2_tools/vamana_graph.h:69-76 | 2^30 nodes with records of 2^34 bytes: the empty file passes the check and the first read fails |
| RecordWriter.Convert | bench_harness/diskann_to_fda_out.py:15-29 | the file is the concatenation of the records, and the total is the sum of the lengths of the cut lists |
| RecordWriter.RoundTrip | bench_harness/diskann_to_fda_out.py:15-29 | the written file passes every check of the loader if its size fits 64 bits; each loaded row is the list cut to its first R in-range neighbours, the slots behind it are 0, and the vector stands at the start of its record |
| RecordWriter.FirstInRange | bench_harness/diskann_to_fda_out.py:19 | a list is filtered first and cut second: its row has entries in range, in order, and leaves out only those in range that follow R others |
| AlgoCache.OwnershipInEveryRun | freshbang/wrapper_cuvs_bench/freshbang_wrapper.cpp:127-179 | with fresh pointers, after any calls every pointer put is cached under exactly one key or was deleted exactly once |
| AlgoCache.OwnershipExactly | freshbang/wrapper_cuvs_bench/freshbang_wrapper.cpp:127-179 | that holds throughout a run if and only if no put hands over a pointer that was handed over before |
| AlgoCache.GetIsNeverDangling | freshbang/wrapper_cuvs_bench/freshbang_wrapper.cpp:127-153 | `get` never answers with a deleted pointer |
| AlgoCache.GetAfterPut | freshbang/wrapper_cuvs_bench/freshbang_wrapper.cpp:127-166 | a `get` after a `put`, with no replacement in between, answers with that entry exactly if name, type and dimension agree and fewer than the allowed minutes have passed, to the nanosecond; a mismatch changes nothing, an aged entry is erased and what it owns deleted |
| AlgoCache.ExpiresExactly | freshbang/wrapper_cuvs_bench/freshbang_wrapper.cpp:142-143 | the exact age in nanoseconds from which an entry is aged, for positive and other limits |
| AlgoCache.GivenExactly | freshbang/wrapper_cuvs_bench/freshbang_wrapper.cpp:144-165 | what the cache has to delete are the non-null pointers put with a deleter |
| AlgoCache.SharedPointerIsDeletedTwice | freshbang/wrapper_cuvs_bench/freshbang_wrapper.cpp:155-180 | one pointer under two keys is deleted twice |
| AlgoCache.AlgoCacheSingleton.Get | freshbang/wrapper_cuvs_bench/freshbang_wrapper.cpp:127-153 | a mismatch leaves the entry, an aged entry is deleted and erased, otherwise a copy is returned |
| AlgoCache.AlgoCacheSingleton.Put | freshbang/wrapper_cuvs_bench/freshbang_wrapper.cpp:155-166 | the entry already under the key is deleted, then replaced |
| AlgoCache.AlgoCacheSingleton.Clear | freshbang/wrapper_cuvs_bench/freshbang_wrapper.cpp:168-180 | every owned pointer is deleted once, in some order, and nothing stays |
| AllowList.CreateBitset | nvidia-cuvs/go/cagra/cagra.go:115-135 | a bit is set exactly for the listed ids, no write is out of bounds, and the last word holds a listed id |
| AllowList.HasIsDigit | nvidia-cuvs/go/cagra/cagra.go:126-133 | the bit of an id is digit id mod 32, from the least significant, of word id / 32 |
| AllowList.NoSmallerArray | nvidia-cuvs/go/cagra/cagra.go:117-124 | no smaller array can represent the list |

## Left out

- Insert, delete, merge, search and pruning on the device: their bodies are not part of this model.
- IEEE rounding: distances, means, norms and recall percentages are over exact reals, so the order dependence of floating-point sums is not modelled.
- Printing, timing, progress output, command lines and opening of files; the percentile lines of the in-degree tool.
- Kosaraju.SCC.Run: what the program does once its `int` labels have overflowed is not modelled, as that is undefined in C++; the contract says exactly when they do not.
- FdaWcc.Wcc: the same for its labels and sizes.
- BfsLevels.Run: the same for its level counter.
- Discovery.RunTarget: the `int` counter of levels is unbounded; it never passes the level limit by more than one, so it fits unless the limit is 2^31-1 and that many levels exist.
- InDegree.Distribution: the write past the end of an empty histogram is modelled as the absence of a histogram; it also reads the rows of a loaded graph, not the records of the file again, and needs at least one row, as the code takes the first of the sorted degrees.
- V11Splitter.ForEachObject: the `int` depth is unbounded; it can only overflow on texts of 2^31 or more characters.
- The memory that `load_graph` reserves before reading; a size too large to allocate is not modelled.
- V11RoundTrip.LoaderUndoesPrinter: only for the documented field order with `groundtruth` as the last array; the extractors search the text and do not parse general JSON.
- V11Stream.StreamBatched: the buffers shared between callbacks are not modelled; a callback sees its own copy.
- ClusterRecall.BuildReverseGraph: the counting sweep that only reserves memory is not modelled.
- ClusterRecall.Scan: threads are not interleaved within the loop; they touch disjoint records and their own counters.
- Lloyd.Cluster: both k-means programs are one method with a policy for empty clusters; the fda2 program divides by the count where the cuVS program multiplies by its inverse, which is the same over reals. The cuVS program counts points in `int`, so it takes fewer than 2^31 of them; the fda2 program sizes its centroid buffers by a 32-bit product, so `k` times the dimension stays below 2^32 there.
- InnerProduct.AugmentPrefix: the header and the narrowing of the extra coordinate to 32 bits are not modelled.
- VamanaRecords.LoadGraph: the slot array grows row by row instead of being reserved first; vector bytes are skipped.
- RecordWriter.Convert: starts from the neighbour lists; reading the DiskANN file is not modelled.
- IdTranslator.Translate: ground-truth arrays, file names and the text of the runbook are not modelled, and a configured seed is not negative.
- AlgoCache.OwnershipInEveryRun: pointers put without a deleter are not tracked, and what a caller does with a returned pointer is not modelled.
- `sort_adjacency`, `metric::parse`, `metric::name`, log scrapers and plot scripts: they would only add easy members.
