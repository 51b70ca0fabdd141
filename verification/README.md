# Verified models of the algorithms, protocols and checker

This project models, in Dafny, the parts of the repository that have something to prove: the
graph algorithms over adjacency lists, string search, matrix-chain dynamic programming, two
sorts and the ring queue under them, three concurrent protocols, and the timestamp-ordering
checker. Algorithms that work in place keep their arrays, loops and recursion as methods, each
proved against a statement of what it is for. Protocols are state machines with one atomic step
per semaphore, mutex or condition operation and per action inside a critical section; their
results hold for every interleaving and for any number of processes.

| file | models |
|---|---|
| `graph.dfy`, `paths.dfy` | the graph structure, insertion, the undirected edges of a graph, directed walks |
| `forests.dfy` | connectivity, spanning forests, exchange and the cut property |
| `union_find.dfy`, `kruskal.dfy`, `prim.dfy` | disjoint sets and the two spanning-tree algorithms |
| `queue.dfy`, `search.dfy`, `bfs.dfy`, `dfs.dfy`, `topsort.dfy` | ring queue, searches, topological sorting |
| `kmp.dfy`, `matrix_chain.dfy`, `heap_sort.dfy`, `merge_sort.dfy` | string search, matrix chains, sorting |
| `timestamp_ordering.dfy` | the acceptance logic of the schedule checker |
| `ring_buffer.dfy`, `bounded_counter.dfy`, `philosophers.dfy` | the concurrent protocols |
| `counting.dfy`, `tally.dfy` | counting lemmas |

## Main results

- A graph read from pairs is well formed and is exactly the multigraph of those pairs.
- The edges Kruskal's loop accepts form a minimum-weight spanning forest that connects exactly
  what the graph connects, for arbitrary weights and parallel edges. The edge array is completely
  written exactly when there is no self-loop.
- Prim's parent array encodes a minimum spanning forest of the components of the start vertex
  and of vertex 1, where the loop resumes; edges of weight MAXINT or more are invisible to it.
  Following the parents from any tree vertex prints a walk along tree edges from its root.
  On connected graphs of light edges its weight equals that of Kruskal's edges.
- Breadth-first parents encode shortest paths; vertices are taken in the order of discovery, and
  the sequence of reported edges is given exactly.
- Depth-first intervals nest exactly along ancestry, and a vertex comes to lie below another
  exactly if undiscovered vertices led to it (white paths). The clock counts entries and exits,
  so the interval of a vertex is twice as long as its subtree is large. Which list nodes are reported, in
  which order and with which class, is given exactly for directed and undirected graphs. In a
  directed graph a BACK edge is reported if and only if a cycle is reachable; in an undirected
  one if and only if the start has a neighbour, because the way back to a parent counts as BACK.
- Topological sorting lists exactly the vertices that no cycle leads to, so all of them if and
  only if the graph is acyclic.
- Merge sort sorts every range of length n if and only if n is at most 2000: beyond that the
  bounded buffers drop values, and only the fronts of the two halves are merged.
- Multiplying along the optimal splits takes the minimum number of scalar multiplications.
- A table of operations is performed row by row, each row up to its first inadmissible
  operation, also after a rejection.
- An accepted schedule is equivalent to the serial execution in timestamp order if and only if
  no write is older than an earlier read of its item. The program compares a write with the
  latest read, not with the greatest one, so acceptance alone is not enough; it is enough when
  reads of each item arrive in timestamp order.
- With either signalling rule all threads can block if and only if max <= min. A wakeup is lost
  if and only if only the boundaries are signalled, max >= min + 2, and there are two or more
  producers or two or more consumers; then a thread can also be left blocked beside a unit or a
  space that nobody was woken for.
- The ring buffer delivers the values that the producers chose, each producer's in order.
- The philosophers never deadlock, and every one of them can always still come to eat.

## Conventions

- Edges are values: parallel edges that also agree in weight are one member of a set of edges. A
  forest never contains both, so forests and their weights are the same.
- `insert_edge` stores weight 0; the spanning-tree results hold for arbitrary weights.
- Ghost parameters such as `log` (the edges inserted), `st0` or `f0` (the state so far) only carry
  what the proof needs. Printed tree edges, the edges handed to `process_edge` and the vertices
  printed by `find_path` are results.
- `SortPrefix` stands for the library's `qsort`; only that the result is a sorted permutation
  is used.
- A `Cell` of the checker's table is what the pattern match leaves of a table entry. A name
  matched in other than lower case initializes the stamps of its item and is otherwise ignored.
- The mutex and semaphore operations are assumed to succeed. A signal wakes one blocked thread
  if there is one, and any blocked thread may also wake up spuriously.
- The bounds satisfy 0 <= min and 0 < max, as practice/practice3b/practice3b.c:149 checks, and the
  initial count is a parameter between 0 and max; the programs start at 0 and at 5.
- The comment at practice/practice3b/practice3b.c:12 asks for a minimum number of units at any
  time. The count starts at 0, so what holds is that the minimum is kept once it was reached.

## Model

| member | source | states |
|---|---|---|
| `Graphs.GraphStore.constructor` | algorithm/graph.c:15-29 | a new graph has no vertices, no edges and empty lists |
| `Graphs.GraphStore.InsertEdge` | algorithm/graph.c:46-63 | an undirected insertion puts a node of weight 0 at the head of both lists and counts one edge; a directed one touches one list |
| `Graphs.ReadGraph` | algorithm/graph.c:30-45 | the graph read is well formed and is exactly the multigraph of the pairs: every list newest first, degrees, edge count |
| `Graphs.InsertionBuilds` | algorithm/graph.c:40-44 | one more pair, directed or not, keeps this |
| `Paths.ArcsAreRead` | algorithm/graph.c:30-45 | the arcs of a directed graph are exactly the pairs read |
| `Graphs.InsertionExtendsLog` | algorithm/graph.c:46-63 | insertions keep the graph equal to the multigraph of the edges inserted so far: lists, degrees and edge count |
| `Graphs.RowIsInsertions` | algorithm/graph.c:46-63 | the list of v in an undirected graph holds exactly one node for each of the two insertions of every edge that go into it, newest first |
| `Graphs.ArcRowIsInsertions` | algorithm/graph.c:46-63 | the list of v in a directed graph holds exactly one node for each pair that starts at v, newest first |
| `Graphs.EachEdgeExactlyOnce` | algorithm/kruscal.c:96-117 | scanning for larger neighbours yields each undirected edge exactly once; the count equals nedges if and only if there is no self-loop, and misses exactly the self-loops |
| `UnionFind.SetUnion.constructor` | algorithm/kruscal.c:25-35 | initially every element is its own class |
| `UnionFind.SetUnion.Find` | algorithm/kruscal.c:39-46 | returns the representative of x, connected to x by the unions made, in at most log2(n) further calls |
| `UnionFind.SetUnion.UnionSets` | algorithm/kruscal.c:50-74 | keeps parents, sizes and partition right for the unions made plus this one |
| `UnionFind.SetUnion.SameComponent` | algorithm/kruscal.c:78-81 | true if and only if the unions made so far connect the two elements |
| `UnionFind.DepthShrinksSize` | algorithm/kruscal.c:39-46 | a node at depth d has a root whose size is at least 2^d times its own |
| `UnionFind.DepthIsLogarithmic` | algorithm/kruscal.c:39-46 | 2^depth is at most the root size, hence at most n |
| `UnionFind.LinkMovesRoots` | algorithm/kruscal.c:64-73 | linking a root moves exactly its own class to the other root |
| `UnionFind.LinkMergesClasses` | algorithm/kruscal.c:64-73 | after a link the size at every root is the number of elements of its class |
| `UnionFind.ClassSizesFit` | algorithm/kruscal.c:64-73 | the sum of two class sizes never exceeds n |
| `UnionFind.LinkKeepsPartition` | algorithm/kruscal.c:50-74 | same root if and only if connected, preserved by a link |
| `UnionFind.RedundantUnionKeepsPartition` | algorithm/kruscal.c:59-62 | the same when both elements already share a root |
| `Forests.ConnectedPlusEdge` | algorithm/kruscal.c:153-157 | one more edge connects exactly the pairs that reach its two ends |
| `Forests.AcyclicPlusEdge` | algorithm/kruscal.c:153-157 | an edge between two components keeps a forest a forest |
| `Forests.CriticalEdge` | algorithm/kruscal.c:150-158 | in a forest that connects the ends of an edge, some edge outside any non-connecting subset is critical for that |
| `Forests.ExchangeKeepsForest` | algorithm/kruscal.c:150-158 | exchanging a critical edge keeps a spanning forest |
| `Forests.CutProperty` | algorithm/prim.c:50-59 | a lightest edge across a border that no accepted edge crosses keeps the accepted edges extendable to a minimum |
| `Forests.ExtendableSpanningIsMinimum` | algorithm/kruscal.c:150-158 | an extendable spanning forest has minimum weight among all spanning forests |
| `Kruskal.ToEdgeArray` | algorithm/kruscal.c:96-117 | writes exactly the forward edges, in list order, and nothing behind them |
| `Kruskal.SortPrefix` | algorithm/kruscal.c:148 | the sorted prefix is a permutation by nondecreasing weight (the library sort) |
| `Kruskal.ArrayHoldsEdgeSet` | algorithm/kruscal.c:96-117 | the sorted array holds exactly the undirected edges of the graph |
| `Kruskal.GreedyStep` | algorithm/kruscal.c:150-158 | accepting a lightest edge between two components loses no minimum spanning forest |
| `Kruskal.AcceptState` | algorithm/kruscal.c:153-157 | the loop invariant survives an accepted edge |
| `Kruskal.RejectState` | algorithm/kruscal.c:150-158 | the loop invariant survives a rejected edge |
| `Kruskal.FinalState` | algorithm/kruscal.c:150-158 | at the end the accepted edges are a minimum spanning forest |
| `Forests.SpansPreservesConnected` | algorithm/kruscal.c:150-158 | a spanning forest connects exactly what the graph connects |
| `Kruskal.Kruskal` | algorithm/kruscal.c:138-159 | the reported edges are distinct, by nondecreasing weight, and a minimum-weight spanning forest of the graph, for arbitrary weights; they connect exactly what the graph connects |
| `Prim.RowNodeIsEdge` | algorithm/graph.c:46-63 | list nodes of a vertex correspond exactly to its undirected edges |
| `Prim.Relax` | algorithm/prim.c:36-49 | after scanning the list of v every outside vertex knows its lightest edge to the tree; tree entries stay |
| `Prim.SelectNearest` | algorithm/prim.c:50-59 | the outside vertex of least distance below MAXINT, or vertex 1 if there is none |
| `Prim.NearestIsNext` | algorithm/prim.c:50-59 | the chosen vertex ends a lightest edge leaving the tree, or no edge leaves it |
| `Prim.GrowByEdge` | algorithm/prim.c:35-60 | growing by that edge keeps an acyclic, extendable, rooted tree |
| `Prim.GrowByRoot` | algorithm/prim.c:50-60 | restarting at vertex 1 when nothing leaves the tree keeps the same |
| `Prim.FinishedIsMinimum` | algorithm/prim.c:35-60 | when both roots are in and nothing leaves, the tree is a minimum spanning forest of exactly what is reachable |
| `Prim.HungGrows` | algorithm/prim.c:35-45 | every vertex joins after its parent, so following the parents ends |
| `Prim.ParentIsNeighbour` | algorithm/prim.c:42-46 | a parent is joined to its child by a tree edge and has the same root |
| `Prim.PathsAreWalks` | algorithm/prim.c:75-78 | the path printed for a tree vertex is a walk along tree edges from its root |
| `Prim.Prim` | algorithm/prim.c:14-61 | for any start, parent[] is -1 off the tree and at its roots, and encodes a minimum spanning forest of the components of start and of vertex 1 in the graph of edges lighter than MAXINT |
| `Prim.SameWeightAsKruskal` | algorithm/prim.c:14-61 | on a connected graph of light edges the tree weighs as much as any minimum spanning forest, so as much as the edges Kruskal reports |
| `Queues.Queue.constructor` | algorithm/queue.c:6-11 | a new queue is empty |
| `Queues.Queue.Enqueue` | algorithm/queue.c:13-25 | appends, or leaves a full queue of 1000 elements as it is |
| `Queues.Queue.Dequeue` | algorithm/queue.c:27-42 | removes and returns the oldest element; an empty queue stays empty |
| `Queues.Queue.Head` | algorithm/queue.c:44-47 | the oldest element |
| `Queues.Queue.IsEmpty` | algorithm/queue.c:49-56 | true if and only if nothing is queued |
| `Queues.RingPush` | algorithm/queue.c:21-23 | writing the cell behind the last one appends to the ring |
| `Queues.RingPop` | algorithm/queue.c:37-39 | advancing the first position drops the oldest element of the ring |
| `Searches.Search.Initialize` | algorithm/bfs_dfs.c:20-30 | clears the flags and parents of 0..nvertices and the time |
| `BreadthFirst.TakeState` | algorithm/bfs_dfs.c:44-47 | taking a vertex from the queue keeps the level structure |
| `BreadthFirst.DiscoverState` | algorithm/bfs_dfs.c:54-58 | discovering a neighbour keeps queue, levels, parents and explored arcs right |
| `BreadthFirst.SeenState` | algorithm/bfs_dfs.c:49-59 | an arc to a discovered vertex leads at most one level deeper |
| `BreadthFirst.QueuedFits` | algorithm/bfs_dfs.c:40-62 | the queue holds distinct vertices and never overflows |
| `BreadthFirst.Scan` | algorithm/bfs_dfs.c:48-60 | going through one list keeps the search state and the record of reported edges |
| `BreadthFirst.Visit` | algorithm/bfs_dfs.c:44-62 | handling one vertex of the queue keeps the same, and each vertex is taken once |
| `BreadthFirst.ParentsEncodePaths` | algorithm/bfs_dfs.c:133-141 | the printed path of a discovered vertex is a walk from the start with as many arcs as its level |
| `BreadthFirst.LevelIsLowerBound` | algorithm/bfs_dfs.c:34-63 | no walk reaches a vertex in fewer arcs than its level |
| `BreadthFirst.FinishedSearch` | algorithm/bfs_dfs.c:34-63 | discovered = processed = reachable, and the printed paths are shortest |
| `BreadthFirst.UnreachedPrintsStart` | algorithm/bfs_dfs.c:133-141 | for an unreached vertex the printer prints the start and then that vertex |
| `BreadthFirst.ServeNext` | algorithm/bfs_dfs.c:44-47 | the vertex taken is the one discovered first among those not taken yet |
| `BreadthFirst.OrderIsDetermined` | algorithm/bfs_dfs.c:40-62 | so any two searches of a graph from the same start take the vertices in the same order |
| `BreadthFirst.DiscoveryIsMet` | algorithm/bfs_dfs.c:44-60 | the vertices are discovered by list nodes that follow each other in the lists of the vertices taken, each the first node that leads to its vertex |
| `BreadthFirst.DiscoverFirst` | algorithm/bfs_dfs.c:54-58 | a vertex gets as parent the first vertex taken that has an arc to it |
| `BreadthFirst.FoundFromParent` | algorithm/bfs_dfs.c:54-58 | the list that discovered a vertex is that of its parent |
| `BreadthFirst.CallsAreNodes` | algorithm/bfs_dfs.c:48-60 | the calls report list nodes one by one in the order of the lists: each node once, in an undirected graph only those that lead to a vertex not taken yet |
| `BreadthFirst.AllCallsMembers` | algorithm/bfs_dfs.c:48-53 | the exact sequence of reports contains an edge just when one of its list nodes led to a vertex not taken before, or the graph is directed |
| `BreadthFirst.ReportedMeaning` | algorithm/bfs_dfs.c:51-53 | a directed search reports every arc out of a reached vertex; an undirected one reports an edge exactly from the end taken first |
| `BreadthFirst.Bfs` | algorithm/bfs_dfs.c:34-63 | all of this for the arrays after the search, with the exact sequence of reported edges |
| `DepthFirst.Enter` | algorithm/bfs_dfs.c:95-111 | discovering a vertex keeps stack, tree, times, nesting, classes and reports right |
| `DepthFirst.Note` | algorithm/bfs_dfs.c:112-114 | reporting an arc to a discovered vertex keeps the same |
| `DepthFirst.Close` | algorithm/bfs_dfs.c:123-128 | finishing a vertex keeps the same |
| `DepthFirst.EnterTicking` | algorithm/bfs_dfs.c:99-101 | every entry advances the clock by one: the clock is the number of entries and exits, and each time belongs to exactly one of them |
| `DepthFirst.CloseTicking` | algorithm/bfs_dfs.c:125-128 | every exit does the same |
| `DepthFirst.TopIsInnermost` | algorithm/bfs_dfs.c:104-121 | an edge is reported while its vertex is the innermost one not finished |
| `DepthFirst.ClassificationMeansAncestry` | algorithm/bfs_dfs.c:67-87 | at the moment of the call the class is TREE, BACK, FORWARD or CROSS exactly for child, ancestor or self, other descendant, and unrelated vertex; the self-loop warning never occurs |
| `DepthFirst.ActiveIsBack` | algorithm/bfs_dfs.c:112-114 | a discovered vertex that is not finished is the current one or its ancestor |
| `DepthFirst.FinishedIsUntold` | algorithm/bfs_dfs.c:112-114 | the nodes an undirected search does not report lead to descendants, to children met before, or across |
| `DepthFirst.ToldFrame` | algorithm/bfs_dfs.c:105-121 | what is reported for a vertex does not depend on what is discovered later |
| `DepthFirst.Dfs` | algorithm/bfs_dfs.c:91-129 | one call leaves its vertex finished and the state of the whole search right, and reports nothing for vertices discovered before; directed or not |
| `DepthFirst.DiscoveredIsReachable` | algorithm/bfs_dfs.c:91-129 | visited = finished = reachable |
| `DepthFirst.IntervalsNestAlongAncestry` | algorithm/bfs_dfs.c:99-128 | entry/exit intervals are nested exactly for ancestor and descendant, and otherwise disjoint |
| `DepthFirst.IntervalCountsSubtree` | algorithm/bfs_dfs.c:99-128 | the interval of u has two times for each vertex below it and for u itself: exit - entry + 1 is twice their number |
| `DepthFirst.CallsAreNodes` | algorithm/bfs_dfs.c:104-121 | the calls of a vertex report the nodes of its list in order, each one that is to be reported exactly once |
| `DepthFirst.WhitePath` | algorithm/bfs_dfs.c:91-129 | w comes to lie below u if and only if, when u was entered, undiscovered vertices led from u to w |
| `DepthFirst.ExitFallsAlongArc` | algorithm/bfs_dfs.c:66-129 | without a back edge exit times fall along every arc of a directed graph |
| `DepthFirst.BackEdgeClosesCycle` | algorithm/bfs_dfs.c:66-129 | a back edge closes a reachable cycle |
| `DepthFirst.UndirectedIsSymmetric` | algorithm/graph.c:46-63 | every arc of a graph built by undirected insertions also leads back |
| `DepthFirst.UndirectedBackEdge` | algorithm/bfs_dfs.c:66-129 | in an undirected graph some reported edge is BACK if and only if the start has a neighbour |
| `DepthFirst.BackEdgeIffCycle` | algorithm/bfs_dfs.c:66-129 | in a directed graph some reported edge is BACK if and only if a cycle is reachable from the start |
| `DepthFirst.InvIsComplete` | algorithm/bfs_dfs.c:91-129 | the final state has all of these properties; calls are listed by the clock, and each tree edge is reported right before its vertex is entered |
| `DepthFirst.DfsFrom` | algorithm/bfs_dfs.c:91-129 | the same for the arrays after initialization and search |
| `TopologicalSort.ComputeIndegrees` | algorithm/topsort.c:14-29 | in[v] counts the arcs into v, parallel ones separately |
| `TopologicalSort.EnqueueSources` | algorithm/topsort.c:38-44 | exactly the vertices without incoming arcs wait at the start |
| `TopologicalSort.RemoveFirst` | algorithm/topsort.c:47-50 | listing a waiting vertex keeps counts, order and distinctness |
| `TopologicalSort.ScanNode` | algorithm/topsort.c:52-58 | taking one arc out keeps: listed or waiting if and only if no arc remains |
| `TopologicalSort.ScanList` | algorithm/topsort.c:51-59 | the same for a whole list |
| `TopologicalSort.ListingFits` | algorithm/topsort.c:39-60 | queue and output array never overflow |
| `TopologicalSort.ArcGoesForward` | algorithm/topsort.c:46-60 | predecessors of a listed vertex are listed earlier |
| `TopologicalSort.ListedVertexOnNoCycle` | algorithm/topsort.c:46-65 | no listed vertex starts a cycle |
| `TopologicalSort.ListedIsBehindNoCycle` | algorithm/topsort.c:46-65 | no cycle leads to a listed vertex |
| `TopologicalSort.UnlistedIsBehindCycle` | algorithm/topsort.c:46-65 | some cycle leads to every vertex that is not listed |
| `TopologicalSort.LeftoverHasCycle` | algorithm/topsort.c:62-64 | if vertices are left over, they contain a cycle |
| `TopologicalSort.FinishedListing` | algorithm/topsort.c:46-65 | exactly the vertices that no cycle leads to are listed; the listing is complete if and only if the graph is acyclic |
| `TopologicalSort.TopSort` | algorithm/topsort.c:31-65 | all of this for sorted[1..j] |
| `Kmp.CandidateMatches` | algorithm/kmp.c:51-58 | a matching character extends the longest extendable border to the longest border |
| `Kmp.CandidateFallsBack` | algorithm/kmp.c:64 | falling back to next[j] skips no border that could be extended |
| `Kmp.GetNext` | algorithm/kmp.c:42-66 | next[0] = -1 and next[k] is the length of the longest proper border of the first k characters |
| `Kmp.MatchAdvances` | algorithm/kmp.c:24-26 | a match keeps the aligned prefix and skips no occurrence |
| `Kmp.MismatchShifts` | algorithm/kmp.c:34 | shifting by next[j] skips no occurrence |
| `Kmp.StrStr` | algorithm/kmp.c:1-40 | the least index where needle occurs, or -1 if and only if there is none; 0 for the empty needle |
| `MatrixChain.SpansLeaves` | algorithm/matrix_chain_multiply_optical.py:28-38 | a full parenthesization of i..j has the leaves i..j in order |
| `MatrixChain.BestIsLowerBound` | algorithm/matrix_chain_multiply_optical.py:17-25 | no full parenthesization is cheaper than the recurrence |
| `MatrixChain.Calculate` | algorithm/matrix_chain_multiply_optical.py:11-27 | every m[i][j] is the minimum cost over all full parenthesizations of i..j, and the tree read from s attains it |
| `MatrixChain.SplitTreeIsOptimal` | algorithm/matrix_chain_multiply_optical.py:28-38 | the tree read from s spans i..j and costs exactly m[i][j] |
| `MatrixChain.TablesAreOptimal` | algorithm/matrix_chain_multiply_optical.py:11-38 | an entry m[i][j] with the recurrence value is the minimum cost over all full parenthesizations, attained by the tree of s |
| `MatrixChain.PrintedFormParsesBack` | algorithm/matrix_chain_multiply_optical.py:28-38 | reading the printed form gives back the tree of s and leaves the rest of the input |
| `MatrixChain.PrintedFormIsEnclosed` | algorithm/matrix_chain_multiply_optical.py:28-38 | the printed form names i..j in order, and parentheses enclose every chain of two or more |
| `MatrixChain.MultipliesAlongTree` | algorithm/matrix_chain_multiply_optical.py:40-47 | for any operation the product is the value of the tree read from s |
| `MatrixChain.MultiplyingBuildsTree` | algorithm/matrix_chain_multiply_optical.py:40-47 | multiplying symbols yields exactly the tree read from s |
| `MatrixChain.MultiplyingTakesMinimum` | algorithm/matrix_chain_multiply_optical.py:40-47 | with optimal splits the multiplication takes the minimum number of scalar multiplications |
| `MatrixChain.SplitsDoNotChangeProduct` | algorithm/matrix_chain_multiply_optical.py:40-47 | for an associative product the result does not depend on the splits |
| `MatrixChain.CappedSplit` | algorithm/matrix.py:36-39 | capping the parts at the sentinel does not change the capped whole |
| `MatrixChain.MatrixChainOrder` | algorithm/matrix.py:9-42 | every cell is min(optimal cost, 1e9+7); a split is recorded if and only if the optimum is below the sentinel |
| `MatrixChain.VariantsAgree` | algorithm/matrix.py:29-39 | both programs agree on a cell if and only if the optimum does not exceed the sentinel |
| `HeapSort.SiftDown` | algorithm/heap_sort.py:37-41 | swapping with the larger child moves the only possible violation down |
| `HeapSort.Largest` | algorithm/heap_sort.py:22-34 | the larger of an entry and its children inside the heap |
| `HeapSort.Heapify` | algorithm/heap_sort.py:19-41 | restores the heap when only entry i may violate it, permuting the prefix and leaving the rest |
| `HeapSort.RootIsMaximum` | algorithm/heap_sort.py:13-16 | the root of a heap is its maximum |
| `HeapSort.ExtractRoot` | algorithm/heap_sort.py:13-16 | moving the root behind the heap extends the sorted suffix above the heap |
| `HeapSort.BuildHeap` | algorithm/heap_sort.py:3-9 | the whole array becomes a heap, permuted |
| `HeapSort.Sort` | algorithm/heap_sort.py:2-18 | the array ends up a sorted permutation of itself |
| `MergeSort.Fill` | algorithm/merge_sort.c:19-22 | a buffer keeps the first 1000 values offered |
| `MergeSort.Interleave` | algorithm/merge_sort.c:24-42 | the merged buffers overwrite the cells from low on |
| `MergeSort.Merge` | algorithm/merge_sort.c:13-43 | effect of one merge on ranges of any length, dropped values included |
| `MergeSort.Sort` | algorithm/merge_sort.c:2-11 | the range becomes the specified function of itself, the rest of the array stays |
| `MergeSort.MergedAscends` | algorithm/merge_sort.c:24-42 | merging two sorted sequences gives a sorted one |
| `MergeSort.MergedPermutes` | algorithm/merge_sort.c:24-42 | merging neither loses nor invents values |
| `MergeSort.ShortRangesAreSorted` | algorithm/merge_sort.c:2-43 | a range of at most 2000 values becomes a sorted permutation of itself |
| `MergeSort.LongRangesMergeFronts` | algorithm/merge_sort.c:13-43 | of a longer range, the first 2000 cells become the first 1000 values of both sorted halves in order, and the cells behind stay as the halves left them |
| `MergeSort.LongRangesLoseValues` | algorithm/merge_sort.c:2-43 | a longer range holding zeros and then ones ends up with the wrong number of zeros |
| `MergeSort.SortsExactlyShortRanges` | algorithm/merge_sort.c:2-43 | all ranges of length n are sorted if and only if n is at most 2000 |
| `TimestampOrdering.CheckRow` | ddbprj/tso.py:95-138 | a row is performed up to its first rejected cell; stamps hold the last performed timestamps, also after a rejection |
| `TimestampOrdering.CheckTable` | ddbprj/tso.py:91-149 | a rejection is reported if and only if some operation of the schedule fails its test; every row, also after a rejected one, is performed up to its first inadmissible operation: the operations performed are listed cell by cell, each admissible after those before it |
| `TimestampOrdering.AppendPerformedRow` | ddbprj/tso.py:95-138 | one more row adds the operations of its cells up to the first inadmissible one |
| `TimestampOrdering.ScheduleIsTable` | ddbprj/tso.py:91-98 | the schedule lists the operations of all cells, row by row and left to right, each once |
| `TimestampOrdering.StampIsGreatest` | ddbprj/tso.py:109-123 | a stamp is the greatest timestamp of its kind if those arrive in order |
| `TimestampOrdering.WritesAscend` | ddbprj/tso.py:122-123 | accepted writes of an item are in timestamp order |
| `TimestampOrdering.WriteBelow` | ddbprj/tso.py:109-123 | no accepted operation is older than an earlier write of its item |
| `TimestampOrdering.OrderedReadsAreRespected` | ddbprj/tso.py:109-123 | if reads of each item arrive in nondecreasing timestamp order, no write is older than an earlier read |
| `TimestampOrdering.OneTransactionAtATime` | ddbprj/tso.py:87-89 | with distinct timestamps the serial execution never interleaves transactions |
| `TimestampOrdering.SameLastWrite` | ddbprj/tso.py:109-123 | the last write seen is the same in schedule and serial execution when the writes before it are |
| `TimestampOrdering.ReadsKeepTheirWrites` | ddbprj/tso.py:109-123 | then every read takes its value from the same write as in the serial execution |
| `TimestampOrdering.FinalsAgree` | ddbprj/tso.py:109-123 | final writers always agree |
| `TimestampOrdering.LateWriteChangesRead` | ddbprj/tso.py:109-123 | a write older than an earlier read changes what that read sees serially |
| `TimestampOrdering.EquivalentExactlyWhen` | ddbprj/tso.py:109-123 | an accepted schedule has the reads-from relation and final writers of the serial execution if and only if each write also passes the test against the greatest earlier read timestamp; ordered reads suffice |
| `TimestampOrdering.OutOfOrderReadsAdmitLateWrite` | ddbprj/tso.py:110-123 | an accepted schedule that violates this: reads at 20 and 10, then a write at 15, whose value the first read sees serially |
| `TimestampOrdering.SerialOrderExists` | ddbprj/tso.py:87-89 | every schedule has a serial order |
| `RingBuffer.InitHolds` | ipc/shm/consumer.c:157-159 | the state after the reset of the memory, with the semaphores 0, K and 1, satisfies the invariant |
| `RingBuffer.ProducerKeeps` | ipc/shm/producer.c:44-88 | every producer step keeps mutual exclusion, ticket and unread counts, cursors and contents |
| `RingBuffer.ConsumerKeeps` | ipc/shm/consumer.c:49-91 | every consumer step keeps the same |
| `RingBuffer.EveryRunIsSafe` | ipc/shm/producer.c:39-89 | in every run, consumed values followed by the live ring segment are the produced values, at most one process is inside, and full + empty + tickets = K |
| `RingBuffer.ProducerDelivers` | ipc/shm/producer.c:46-67 | a chosen value stays pending until the same producer stores it, and what is stored is recorded as produced |
| `RingBuffer.ConsumerDelivers` | ipc/shm/consumer.c:67-71 | what a consumer fetches is what is recorded as consumed |
| `RingBuffer.ValuesAreDelivered` | ipc/shm/producer.c:44-67 | in every run the values consumers fetched and producers stored are the recorded ones, and the values each producer chose are those it stored, in order, and at most one that is pending |
| `RingBuffer.FetchedIsLast` | ipc/shm/consumer.c:67-75 | a consumer that has fetched a value holds the one consumed last |
| `RingBuffer.NoUnreadOverwritten` | ipc/shm/producer.c:63-67 | no producer ever writes to a slot that holds an unread value |
| `RingBuffer.OnlyWrittenRead` | ipc/shm/consumer.c:67-71 | every consumer reads a written slot and gets the oldest unread value |
| `RingBuffer.SomeoneCanStep` | ipc/shm/consumer.c:39-92 | with a producer and a consumer around, some process can always go on |
| `BoundedCounter.ProducerKeepsGuarded` | practice/practice3b/practice3b.c:46-80 | producer steps keep: one holder of the mutex, 0 <= count <= max, and the tested bound until the update |
| `BoundedCounter.ConsumerKeepsGuarded` | practice/practice3b/practice3b.c:93-125 | consumer steps keep the same |
| `BoundedCounter.ProducerKeepsWakeups` | practice/practice3b/practice3b.c:54-71 | with signals after every unit, or max <= min + 1, available units never outnumber woken consumers and pending signals while a consumer is blocked |
| `BoundedCounter.ConsumerKeepsWakeups` | practice/practice3b/practice3b.c:101-117 | the dual for free space and producers |
| `BoundedCounter.RunKeepsMinimum` | practice/practice3b/practice3b.c:101-111 | in every run, once count has reached min it never drops below it, and never exceeds max |
| `BoundedCounter.WokenCoverUnits` | practice/practice3b/practice3b.c:54-71 | while the mutex is free and a consumer is blocked, count - min is at most the number of woken consumers; dually for producers |
| `BoundedCounter.ProducerKeepsAlive` | practice/practice3b/practice3b.c:54-71 | with either rule, there is a unit only while some consumer is not blocked or about to be signalled |
| `BoundedCounter.ConsumerKeepsAlive` | practice/practice3b/practice3b.c:101-117 | the dual for free space and producers |
| `BoundedCounter.NeverAllBlocked` | practice/practice3b/practice3b.c:46-125 | with min < max no run blocks all threads, with either rule |
| `BoundedCounter.SomeoneCanStep` | practice/practice3b/practice3b.c:46-125 | unless all are blocked some thread can go on without a spurious wakeup |
| `BoundedCounter.DeadlockExactlyWhen` | practice/practice3b/practice3b.c:137-153 | for any number of threads and any initial count, with either rule, some run blocks all threads if and only if max <= min |
| `BoundedCounter.PairStep` | thread/producerconsumer_cond.c:36-78 | with one producer and one consumer every step keeps the boundary rule sufficient |
| `BoundedCounter.PairNeverBlocks` | thread/producerconsumer_cond.c:87-129 | then an unsignalled blocked consumer means no unit, an unsignalled blocked producer means MAX units, and they are never both blocked |
| `BoundedCounter.StrandConsumer` | practice/practice3b/exercise3b.c:61-63 | with two consumers and room for two units a run leaves a consumer blocked beside a unit that nobody was woken for |
| `BoundedCounter.StrandProducer` | practice/practice3b/exercise3b.c:121-123 | the same for two producers and a free space |
| `BoundedCounter.WakeupLostExactlyWhen` | practice/practice3b/exercise3b.c:34-139 | a wakeup is lost in some run if and only if only boundaries are signalled, max >= min + 2, and one side has two or more threads; exactly then a thread can be stranded |
| `BoundedCounter.ExerciseStrandsThreads` | practice/practice3b/exercise3b.c:20-25 | with 5 units at the start and bounds 0 and 10 this happens for every number of threads but one producer with one consumer, while all threads never block |
| `Philosophers.StepKeepsInv` | os/assignment/philosophier.c:29-46 | each chopstick is free or held by exactly one of its neighbours |
| `Philosophers.RunKeepsInv` | os/assignment/philosophier_simple.c:23-43 | the same in every state of every run |
| `Philosophers.NeighboursNeverEatTogether` | os/assignment/philosophier.c:41-46 | neighbours never eat at the same time |
| `Philosophers.PickingFollowsRank` | os/assignment/philosophier.c:29-40 | chopsticks are taken in the order odd, 0, other even, also around the corner |
| `Philosophers.ChainClimbsRank` | os/assignment/philosophier_simple.c:27-38 | along a chain of waiting philosophers the rank of the wanted chopstick grows |
| `Philosophers.NoCircularWait` | os/assignment/philosophier_simple.c:27-38 | no philosophers wait for each other in a circle |
| `Philosophers.FollowWaits` | os/assignment/philosophier.c:29-46 | following the waits leads to a philosopher that can go on |
| `Philosophers.SomeoneCanStep` | os/assignment/philosophier_simple.c:23-43 | no reachable state is a deadlock, for every N >= 2 |
| `Philosophers.Settle` | os/assignment/philosophier_simple.c:23-43 | from every reachable state all philosophers can become hungry again |
| `Philosophers.EverybodyCanEat` | os/assignment/philosophier_simple.c:23-43 | from every reachable state every philosopher can come to eat |

## Left out

- `delete_edge` (algorithm/graph.c:96-134): its second pointer is never advanced, so the list is damaged when a node behind the head is deleted.
- `two_color.c` and `find_circle.c`: neither meets its own intent; for the latter see the result on BACK edges of undirected graphs.
- `finished`: the flag that cuts a search short is never set in the searches modelled; callbacks only receive their arguments.
- Kruskal.Kruskal: graphs with self-loops or with more than 101 edges are outside its precondition, because the program then reads or writes past the entries of its edge array that were written.
- Breadth-first and depth-first search are modelled from a fresh initialization, not resumed in a second component.
- Linked-list cells: an adjacency list is the sequence of its nodes, so memory allocation and sharing of cells are not modelled.
- MatrixChain.Calculate: the tables are sequences of rows that are reassigned, as are the lists of the source; aliasing of rows does not occur there and is not modelled.
- MatrixChain.PrintedFormParsesBack: matrix names are tokens, not characters; names that contain parentheses would print ambiguously.
- Table parsing, printing, result files and command-line handling of ddbprj/tso.py and of the C programs.
- The reset of the shared memory at ipc/shm/consumer.c:158-159 is the initial state; values produced before it are lost by the program and are not modelled.
- Semaphores left behind by earlier runs, fairness, starvation and real time.
- os/osprj, the parking-lot and ticket programs, pipes, FIFOs, message queues and file exercises: input and output without an invariant beyond those proved here, or weaker copies of the ring buffer.
