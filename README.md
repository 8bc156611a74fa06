# A verified model of a small graph engine

This project models, in Dafny, an adjacency-list graph store and the classic
graph algorithms built on top of it. The original is a Python repository.

- **The store.** `SimpleDirectedGraph` keeps two tables:
  - `graph_repo`: each vertex maps to an ordered list of its neighbours;
  - `graph_weight_repo`: each vertex maps to a row, neighbour → integer weight.

  It also keeps two mode flags, directed and weighted. It checks every
  mutation and raises on bad arguments.
- **Reading a description.** A line-based text format is read into a store.
- **Traversal.** BFS and DFS cursors yield `(vertex, level)` pairs.
- **Connectivity and spanning trees.** A connectivity test, and Kruskal's
  spanning tree over a list-of-sets forest (its minimality is not proved).
- **Leaf search.** A depth-first search for leaves.
- **Shortest paths.** Three priority-queue searches (`dijkstra` and two
  uniform-cost variants), plus path reconstruction from the predecessor map.
- **Euler circuits.** An Eulerian degree test, and Hierholzer's
  stack-based circuit builder.
- **Maximum cliques.** A backtracking search for all maximum cliques.

Vertices are strings. Python exceptions become `Failure` values of a
`Result`/`Outcome` datatype that carries an `Error`. The store is a class
whose methods change its fields. Its invariant `Valid()` says:

- the vertex list is the key set in insertion order;
- every neighbour is a vertex;
- the undirected mode is symmetric;
- in weighted mode, every edge has a weight.

The iterators and the clique search are classes as well. Whatever works by
loops (scans, the search loops, Kruskal, Hierholzer, backtracking) is a
method. Each such method is proved against a function or predicate that
states its meaning.

The modules follow the source files:

- `Common`, `GraphModel`: shared values, and the table invariants.
- `Domain`: the store, `domain.py`.
- `GraphFile`: `create_from_file`.
- `Traversal`: `iterator.py`, `bfs_iter` and `dfs_iter`.
- `SpanningTree`, `LeafNodes`: `Assigement4.py`.
- `PathCost`, `ShortestPath`: `Djkstra.py`, `UCS.py` and `UCS2.py`.
- `Eulerian`: `Assigment5.py`.
- `Cliques`: `Assigment6.py`.

## Model

| member | source | states |
|---|---|---|
| Domain.Graph.constructor | domain.py:6-13 | A new store is empty, undirected and unweighted, and satisfies the store invariant |
| Domain.Graph.AddVertex | domain.py:95-105 | Fails with DuplicateVertex exactly when the name exists; otherwise appends it to the vertex order with an empty list (and an empty weight row when weighted); nothing else changes; the invariant is kept |
| GraphModel.AddVertexKeeps | domain.py:100-103 | Adding a new vertex keeps the store invariant |
| Domain.Graph.AddEdge | domain.py:107-142 | Fails with UnknownVertex on an absent endpoint and DuplicateEdge when v2 is already in adj[v1]; otherwise appends one arc (directed) or both (undirected) and records the weight in the same direction(s) when weighted; vertex order and flags unchanged; the invariant is kept |
| GraphModel.AddEdgeEffect | domain.py:126-142 | After adding, v2 is a neighbour of v1 (and v1 of v2 when undirected) and the weight read back is the one given, in each recorded direction |
| GraphModel.AddEdgeKeeps | domain.py:126-142 | Adding an edge keeps the store invariant: closed lists, symmetry in undirected mode, weight coverage |
| GraphModel.AddThenRemoveEdge | domain.py:126-178 | Removing an edge just added between two distinct vertices gives back the original tables, in both modes |
| Domain.Graph.RemoveEdge | domain.py:154-178 | UnknownVertex on an absent endpoint, NoSuchEdge on a missing edge; directed removes the first copy of the arc and its weight; undirected removes both directions and both weights; a self-loop stored once fails with NotInList after its first removal (as `list.remove` raises); afterwards the edge is gone |
| GraphModel.RemoveDirectedEdgeKeeps | domain.py:162-168 | Removing a directed arc keeps the store invariant |
| GraphModel.RemoveUndirectedEdgeKeeps | domain.py:169-178 | Removing both directions of an undirected edge keeps the invariant, symmetry included |
| GraphModel.RemoveLoneLoopKeeps | domain.py:172-173 | The partial state left when the second `remove` of a self-loop raises still satisfies the invariant |
| Domain.Graph.RemoveVertex | domain.py:180-197 | Fails with UnknownVertex exactly when absent; otherwise the vertex leaves the key order, its row and weight row are deleted, and it appears in no other list or weight row |
| GraphModel.RemoveVertexKeeps | domain.py:185-197 | Deleting a vertex keeps the invariant and leaves no list mentioning it |
| Domain.StripVertex | domain.py:188-192 | The scan over all keys removes the vertex from every list (first copy) and its weight from every row |
| Domain.Graph.SetWeight | domain.py:66-93 | NotWeighted, UnknownVertex and NoSuchEdge in the source's order; otherwise only the weights change, one direction when directed and both when undirected, and `get_weight` then returns the new value |
| GraphModel.SetArcWeightElsewhere | domain.py:82-84 | Recording one arc's weight leaves every other arc's weight unchanged |
| Domain.Graph.GetWeight | domain.py:144-152 | Returns the stored weight exactly when weighted and `is_edge` holds, NoSuchEdge otherwise; on a valid store a weight exists for every edge between distinct vertices |
| Domain.Graph.IsEdge | domain.py:216-225 | Is `v in adj[u]`; in undirected mode this equals the reverse test, by symmetry |
| Domain.Graph.GetV | domain.py:199-204 | The number of vertices |
| Domain.Graph.GetECountsEdges | domain.py:206-214 | Without self-loops, `get_e` is the number of arcs (directed) or half of it (undirected): every undirected edge is counted once |
| GraphModel.SumLengthsCountsArcs | domain.py:211-214 | When no list repeats an entry, the summed list length is the number of (u, v) arcs |
| GraphModel.TotalDegreeEven | domain.py:213-214 | In a symmetric store without self-loops the summed list length is even, so the `// 2` is exact |
| Domain.Graph.Neighbours | domain.py:227-234 | Succeeds exactly for a vertex and returns its list as stored (a value copy) |
| Domain.Graph.InboundNeighbours | domain.py:236-247 | Succeeds exactly for a vertex; its entries, as a set, are exactly the vertices whose lists contain it, and in directed mode each appears once |
| Domain.Graph.InboundAmongSpec | domain.py:245 | The comprehension keeps exactly the keys whose list contains the vertex, each once |
| Domain.Graph.ReturnVerticesList | domain.py:249-254 | Lists every vertex once, and nothing else |
| Domain.Graph.ChangeIfWeighted | domain.py:51-64 | Flips the flag and leaves adjacency alone; switching on gives every vertex a row with weight 0 on each neighbour, switching off empties the table |
| Domain.ZeroTable | domain.py:58-62 | The rows built hold exactly the neighbours of each vertex, all at weight 0 |
| GraphModel.ZeroWeightsExactly | domain.py:58-62 | The zero table is the only table with those keys, those row keys and all weights 0 |
| Domain.Graph.ChangeIfDirected | domain.py:15-49 | Flips the flag. Becoming directed changes nothing (a valid undirected store is already symmetric). Becoming undirected makes every list the set of its old entries plus the vertices listing it, each once, and gives every new reverse arc the weight of its forward arc, which a valid store always has; old weights are kept |
| Domain.CloseUnderReverse | domain.py:25-49 | The double loop adds each missing reverse arc with the forward weight, optionally de-duplicating each list; on an already symmetric store without de-duplication it changes nothing |
| GraphModel.SymmetricReversalIsIdentity | domain.py:27-36 | On a symmetric store the reverse-weight copy adds nothing |
| GraphModel.ClosedUnderReverseShape | domain.py:38-49 | Lists of the closure are closed, symmetric and without repeats, so the result is a valid undirected store |
| GraphModel.ClosedUnderReverseWeights | domain.py:42-47 | The copied weights cover every arc of the closure |
| GraphFile.Header | domain.py:306-312 | Accepts exactly the token pairs that are the header of some graph kind, and then names that kind; anything else is a FormatError |
| GraphFile.HeaderRoundTrip | domain.py:306-312 | Reading the header of a kind returns that kind |
| GraphFile.Declare | domain.py:322-325 | Declaring a vertex adds it with an empty list if absent and changes no existing list or weight row |
| GraphFile.LineStepOutcome | domain.py:320-349 | A line is accepted iff its token count is legal for the mode (1; 2 unweighted; 3 weighted) and its edge is not already present; an illegal count is a FormatError, otherwise the only failure is DuplicateEdge |
| GraphFile.EdgeLineStep | domain.py:326-347 | An edge line declares both endpoints first, then adds the edge or fails with FormatError |
| GraphFile.FailureSticks | domain.py:320-349 | The first failing line decides the result; later lines change nothing |
| GraphFile.ReadLinesLegal | domain.py:320-349 | Every line of a successful read has a legal token count |
| GraphFile.ParseGraphBody | domain.py:306-320 | A description with a good header is read as its body lines on an empty store of that kind |
| GraphFile.ParsedLinesLegal | domain.py:320-349 | Every body line of a successfully parsed description has a legal token count |
| GraphFile.ParsedVertices | domain.py:320-341 | A parsed store is valid, has the header's kind, and its vertices are exactly the tokens named on body lines |
| GraphFile.ParsedArcs | domain.py:326-344 | v is a neighbour of u exactly when some edge line joins them (either way when undirected) |
| GraphFile.ParsedWeights | domain.py:336-344 | In a weighted parse every weighted line's weight is stored on its edge (both ways when undirected) |
| GraphFile.DeclareVertex | domain.py:322-325 | The store object after declaring equals the value-level declaration |
| GraphFile.ConnectVertices | domain.py:332-344 | `add_edge` on the object succeeds and updates exactly as the value-level connection does |
| GraphFile.ReadLine | domain.py:320-349 | One loop pass on the object agrees with the value-level line step, error included |
| GraphFile.NewStore | domain.py:311-318 | The toggles make an empty store of the named kind |
| GraphFile.ReadBody | domain.py:320-349 | The loop over the body agrees with reading the lines in order, stopping at the first error |
| GraphFile.CreateFromLines | domain.py:297-351 | Succeeds exactly when the description parses, and the new store is valid and equals the parsed value; otherwise the parse error |
| Traversal.BfsIter | domain.py:280-286 | Fails with UnknownVertex exactly when the start is not a vertex; otherwise a fresh cursor at the start |
| Traversal.BfsIterator.constructor | iterator.py:3-11 | The queue holds (start, 0), visited is {start}, the front is 0 |
| Traversal.BfsIterator.Next | iterator.py:16-28 | Stops exactly when the front reaches the queue's end; otherwise yields the front entry, advances the front by one, and appends the unvisited neighbours at the next level, marking them visited |
| Traversal.BfsExpand | iterator.py:23-26 | The inner loop appends exactly the enqueue list of the neighbours and marks them all visited |
| Traversal.EnqueueSpec | iterator.py:23-26 | The neighbours enqueued are the unvisited ones, each once, all at the given level |
| Traversal.BfsIterator.Bounded | iterator.py:17-26 | The front never passes the queue's end and the queue never exceeds the vertex count |
| Traversal.RunQueueBound | iterator.py:24-26 | Since a vertex is marked when enqueued, no vertex is queued twice, so the queue is at most the vertex count |
| Traversal.QueueDistance | iterator.py:20-26 | Each queued level is the hop distance of its vertex from the start |
| Traversal.RunExhausted | iterator.py:16-28 | When the queue is exhausted: no vertex repeats, the queue holds exactly the vertices reachable from the start, each with its hop distance |
| Traversal.BfsIterator.Exhausted | iterator.py:16-28 | When exhausted, the cursor has yielded each reachable vertex exactly once, and only those, at its hop distance |
| Traversal.DfsIter | domain.py:288-294 | Fails with UnknownVertex exactly when the start is not a vertex; otherwise a fresh cursor at the start |
| Traversal.DfsIterator.constructor | iterator.py:32-38 | The stack holds (start, 0), nothing is visited or yielded |
| Traversal.DfsIterator.Next | iterator.py:43-56 | One call is one step of the DFS state machine: pop past visited entries, yield the first unvisited one, mark it, and push its unvisited neighbours reversed at depth + 1 |
| Traversal.DfsStepSpec | iterator.py:45-54 | A step yields nothing exactly when every stacked vertex is visited; otherwise it yields an unvisited stacked entry, marks it, appends it to the output, and the rest of the stack gets its pushes on top |
| Traversal.SettleSpec | iterator.py:45-47 | Popping visited entries keeps a prefix of the stack whose top is unvisited and loses no unvisited vertex |
| Traversal.PopSettled | iterator.py:45-47 | The popping loop returns that prefix without its top, and the top |
| Traversal.DfsPush | iterator.py:50-52 | The push loop appends the unvisited neighbours in reversed list order at depth + 1 |
| Traversal.DfsAdvance | iterator.py:43-56 | The body of `__next__` computes exactly one DFS step, so the state stays the k-th state of the run |
| Traversal.DfsRunSound | iterator.py:45-54 | The yielded vertices are distinct and are exactly the visited set; each is reached from the start by a walk of its depth |
| Traversal.DfsIterator.Sound | iterator.py:45-54 | The cursor yields each vertex at most once, the visited set is what it yielded, and each depth is the length of a walk from the start |
| Traversal.DfsIterator.Discovers | iterator.py:50-52 | Every yielded vertex after the first is a neighbour of an earlier yielded vertex |
| Traversal.DfsIterator.VisitedInGraph | iterator.py:47-50 | Only vertices of the graph are visited |
| Traversal.DfsRunExhausted | iterator.py:45-56 | With the stack empty, the visited vertices are exactly those reachable from the start |
| Traversal.DfsIterator.Exhausted | iterator.py:43-56 | When the cursor stops, it has visited exactly the vertices reachable from the start |
| SpanningTree.IsConnected | Assigement4.py:6-25 | Fails with EmptyGraph exactly on an empty graph; otherwise true iff BFS from the chosen vertex reaches every vertex |
| SpanningTree.ConnectedIff | Assigement4.py:15-25 | In a symmetric store, reaching everything from one vertex is the same as being connected |
| SpanningTree.CollectEdges | Assigement4.py:40-48 | The edge list holds each undirected edge once, in encounter order, with its stored weight; fails with MissingKey exactly when a listed edge has no weight, which a valid store allows only for a self-loop |
| SpanningTree.ArcListMembers | Assigement4.py:43-44 | The double loop visits exactly the arcs of the graph |
| SpanningTree.SelectOnce | Assigement4.py:45-46 | The `seen` test keeps one direction of each edge |
| SpanningTree.SortByWeightSorts | Assigement4.py:50 | The sorted list is ordered by weight and is a permutation of the input |
| SpanningTree.SortByWeightStable | Assigement4.py:50 | Edges of equal weight keep their encounter order (a stable sort) |
| SpanningTree.SortedEdgeInput | Assigement4.py:40-50 | Every sorted edge is an input edge carrying its input weight |
| SpanningTree.SortedCovers | Assigement4.py:43-50 | Every input edge appears among the sorted edges, in one direction |
| SpanningTree.NewTree | Assigement4.py:52-56 | The tree starts weighted and undirected, with the input's vertices in order and no edges |
| SpanningTree.Singletons | Assigement4.py:58 | The starting forest has one singleton per vertex, in vertex order |
| SpanningTree.SingletonsPartition | Assigement4.py:58 | The starting forest partitions the vertex set, and each vertex's tree is its singleton |
| SpanningTree.FindTree | Assigement4.py:60-64 | The loop returns the first tree holding the vertex, or None when no tree does |
| SpanningTree.TreeOf | Assigement4.py:60-64 | A tree found holds the vertex; None means no tree holds it |
| SpanningTree.PartitionTree | Assigement4.py:60-64 | In a partition, `find_tree` returns the one tree holding the vertex |
| SpanningTree.MakeUnionTrees | Assigement4.py:66-69 | Merging two distinct trees drops both, adds their union, repeats nothing, and shrinks the forest by one |
| SpanningTree.MakeUnionPartition | Assigement4.py:66-69 | Merging two distinct trees keeps a partition of the vertex set |
| SpanningTree.MakeUnionTreeOf | Assigement4.py:66-69 | After a merge, vertices of either tree find the union, and all others find their old tree |
| SpanningTree.JoinConnected | Assigement4.py:78-80 | After joining two trees by an edge, every tree of the new forest is connected in the new tree graph |
| SpanningTree.JoinNoLoops | Assigement4.py:78-79 | An edge joining two trees is never a self-loop |
| SpanningTree.JoinCount | Assigement4.py:78-79 | A join adds exactly two list entries, one edge |
| SpanningTree.KruskalStart | Assigement4.py:52-58 | The loop invariant holds on entry: partition, trees connected, tree edges from the input, edge count = V - number of trees |
| SpanningTree.KruskalStep | Assigement4.py:74-82 | One pass keeps the invariant and processes one more sorted edge, joining only edges whose endpoints lie in different trees |
| SpanningTree.TreeEdges | Assigement4.py:72 | `get_e` of the tree is the vertex count less the number of trees |
| SpanningTree.KruskalMustGo | Assigement4.py:71-74 | In a connected input, while two or more trees remain an unprocessed sorted edge remains, so `sorted_edges[i]` is in range |
| SpanningTree.KruskalAllDone | Assigement4.py:72-84 | With one tree left, every two vertices are connected in the tree |
| SpanningTree.Kruskal | Assigement4.py:71-84 | On a connected undirected weighted input, the loop ends with a spanning tree: same vertex order, connected, no self-loop, V - 1 edges, each an input edge with its input weight |
| SpanningTree.MinSpanningTree | Assigement4.py:27-84 | Fails, in the source's order, with NotUndirected, NotWeighted, EmptyGraph, NotConnected, or MissingKey (a weightless self-loop); otherwise returns a spanning tree of the input as above |
| LeafNodes.Visit | Assigement4.py:102-107 | Visiting a vertex gives a parent to exactly its neighbours without one, and its child count is how many it claimed |
| LeafNodes.ClaimSpec | Assigement4.py:104-107 | A claim keeps every existing parent, makes the vertex the parent of each unclaimed neighbour, and adds no other key |
| LeafNodes.ClaimedCount | Assigement4.py:103-107 | The child counter equals the number of distinct neighbours that had no parent |
| LeafNodes.LeafIff | Assigement4.py:101-109 | A visited vertex is reported exactly when every neighbour already had a parent when it was visited |
| LeafNodes.DfsOrderUnique | Assigement4.py:99-101 | A DFS cursor run to its end yields one order only |
| LeafNodes.ScanLeaves | Assigement4.py:94-109 | Fails with UnknownVertex exactly when '1' is absent; otherwise the order is the DFS order from '1', visiting exactly the reachable vertices, and the result is the leaf set of the scan over that order |
| LeafNodes.FindAllLeafNodes | Assigement4.py:86-110 | The as-written search (empty `parent_map`): as above |
| LeafNodes.StarMissesLeaf | Assigement4.py:94-109 | On the star 1-2, 1-3 the DFS order is 1, 2, 3, and '2', whose only neighbour was visited before it, is not reported as written but is reported when '1' starts with a parent |
| LeafNodes.FixedLeafWhenSeen | Assigement4.py:101-109 | With '1' seeded in `parent_map`, a vertex whose neighbours were all visited before it is reported as a leaf |
| LeafNodes.FindAllLeafNodesFixed | Assigement4.py:86-110 | The corrected search: the same outcome as above, and every vertex whose neighbours all precede it in the DFS order is in the result |
| PathCost.ChainLinks | Djkstra.py:56-61 | The followed chain ends at the end vertex and starts at a vertex with no predecessor, and each vertex is the recorded predecessor of the next; a vertex without an entry is a KeyError |
| PathCost.ChainFuel | Djkstra.py:59-61 | The chain does not depend on the step bound it is computed with |
| PathCost.GetWalk | Djkstra.py:48-66 | Is the predecessor chain when it starts at the start, [] otherwise; a non-empty result runs from the start to the end vertex through recorded predecessors (UCS.py:46-65 and UCS2.py:47-62 are the same function) |
| PathCost.CostNonNegative | Djkstra.py:6-7 | With non-negative weights no walk costs less than 0 |
| PathCost.WalkBound | Djkstra.py:35-38 | When every finite vertex is relaxed, a walk raises the distance by at most its cost |
| ShortestPath.PopMin | Djkstra.py:24 | `heappop` returns an entry with the smallest distance in the heap |
| ShortestPath.MinEntry | Djkstra.py:24 | Every non-empty heap has a smallest entry |
| ShortestPath.InitInv | Djkstra.py:12-15 | The initial state (start at 0, everything else at inf, no predecessors, heap with the seed) satisfies the search invariant |
| ShortestPath.Tentative | Djkstra.py:32-33 | The new distance is the popped distance plus the arc weight; `get_weight` fails with MissingKey exactly when the neighbour has no weight in the row (Dijkstra and UCS2 only) |
| ShortestPath.NeighbourList | Djkstra.py:30 | The neighbours examined are the adjacency list (Djkstra.py, UCS2.py) or the keys of the weight row (UCS.py:30), covering every neighbour other than the vertex itself |
| ShortestPath.RelaxAllFailure | Djkstra.py:30-33 | Relaxing fails only on a self-loop whose weight is not stored, and only when weights are read through `get_weight` |
| ShortestPath.Explore | Djkstra.py:30-39 | The relaxation loop computes exactly the relaxation of the neighbours in order |
| ShortestPath.LowerOne | Djkstra.py:35-36 | A strict improvement lowers the termination measure (count of inf distances, then sum of finite ones) |
| ShortestPath.ExpandVertex | Djkstra.py:30-39 | Expanding a popped vertex keeps the invariant, lowers distances only, and examines as many neighbours as its list (or row) holds; the only failure is a weightless self-loop |
| ShortestPath.RelaxAllKeeps | Djkstra.py:30-39 | Relaxing every neighbour keeps the search invariant |
| ShortestPath.PoppedOptimal | Djkstra.py:23-39 | With non-negative weights, a smallest popped entry's vertex already has its optimal distance |
| ShortestPath.AllOptimal | Djkstra.py:23-39 | When the heap is empty, every distance is at most the cost of every walk to its vertex |
| ShortestPath.AllTraced | Djkstra.py:35-38 | Every finite distance is traced back to the start through recorded predecessors with matching cost; an infinite one has no predecessor |
| ShortestPath.GoalFound | UCS.py:27-28 | Stopping when the goal is popped leaves the goal's distance optimal, with the counters consistent |
| ShortestPath.DrainedFound | Djkstra.py:23-44 | An emptied heap is a successful answer: every distance traced, the distances optimal (all of them without a goal), pops = pushes with the seed included, cost_calls the neighbours of at most `heap_pops` expanded vertices |
| ShortestPath.Round | Djkstra.py:23-39 | One pass pops a smallest entry, counts it, skips it when stale (Dijkstra, UCS2), stops at the goal (UCS), and otherwise expands it; it keeps the invariant and lowers the measure |
| ShortestPath.ExpandRound | Djkstra.py:30-39 | The expanding part of a pass keeps the invariant and lowers the measure |
| ShortestPath.RoundDone | Djkstra.py:25-39 | After an expansion the counters stay consistent: one more pop, cost_calls grown by the neighbours examined |
| ShortestPath.Drain | Djkstra.py:23-39 | The loop ends and its outcome is a settled answer |
| ShortestPath.Search | Djkstra.py:12-44 | The shared search: a start outside the graph stops at the first pop (or raises, as `neighbours` does), otherwise the answer is settled |
| ShortestPath.Dijkstra | Djkstra.py:4-44 | NotWeighted on an unweighted graph; otherwise every distance is the cost of a cheapest walk, traced through predecessors, with heap_pushes not counting the seed and heap_pops equal to all pushes |
| ShortestPath.UniformCostSearch | UCS.py:4-43 | No mode check: an unweighted graph has no weight rows and fails at the first expansion, unless the goal is the start; no stale check; with a goal the goal's distance is optimal when it is popped; without one all distances are; heap_pushes counts the seed |
| ShortestPath.UniformCostSearch2 | UCS2.py:4-45 | Refuses an unweighted graph; the goal is never read, so the answer is Dijkstra's |
| ShortestPath.ShortestWalk | Djkstra.py:48-66 | On the dictionaries of a finished search, `get_walk` terminates, is non-empty exactly for reachable vertices, and returns a walk from the start whose cost is the distance and is minimal among all walks |
| Eulerian.CheckIfEul | Assigment5.py:9-33 | Fails with EmptyGraph exactly on an empty graph; otherwise true iff everything is reachable from the chosen vertex and every vertex has out-degree = in-degree (directed) or even degree (undirected) |
| Eulerian.InOutScan | Assigment5.py:18-25 | The directed scan is true iff every vertex's list length equals its in-degree |
| Eulerian.ParityScan | Assigment5.py:26-33 | The undirected scan is true iff every list length is even |
| Eulerian.ChoiceIrrelevant | Assigement4.py:15-25 | In a symmetric store, reaching everything from one vertex means reaching everything from any vertex, so the random choice does not change the undirected test |
| Eulerian.ReadLists | Assigment5.py:55-60 | The copy loop fills the sets with each vertex's neighbours, and the reverse entries when undirected |
| Eulerian.FreshNeighbourSets | Assigment5.py:50-60 | The working sets are fresh copies of the lists (symmetrised when undirected); the store is untouched |
| Eulerian.FreshFacts | Assigment5.py:50-60 | The working sets are closed, symmetric when undirected, equal to the list contents, and their pairs are the store's arcs |
| Eulerian.FreshBalance | Assigment5.py:50-60 | A store passing the degree test (self-loops stored once directed, twice undirected) gives balanced working sets |
| Eulerian.TakePairs | Assigment5.py:69-71 | Using an edge removes exactly its pair(s) from the sets, so the remaining edges shrink |
| Eulerian.TakeBalance | Assigment5.py:66-72 | Using an edge from the top moves the unbalanced end of the degree bookkeeping to the new top |
| Eulerian.InvInit | Assigment5.py:62-63 | The loop invariant holds with the stack [start] and an empty result |
| Eulerian.PushInv | Assigment5.py:66-72 | Using an edge and pushing its end keeps the invariant and lowers the edges remaining |
| Eulerian.PushFails | Assigment5.py:69-71 | The reverse `remove` raises only on an undirected self-loop |
| Eulerian.PopInv | Assigment5.py:73-74 | Moving a top with nothing left to the result keeps the invariant |
| Eulerian.InvDone | Assigment5.py:65-76 | With the stack empty the reversed result begins with the start; when the start is no vertex it is [start]; from balanced sets it is a closed trail using no edge twice, with nothing left on its vertices |
| Eulerian.Hierholzer | Assigment5.py:62-76 | The loop fails (MissingKey) only on undirected sets with a self-loop, with `remove` in use, and always fails when the start has one; with `remove` a successful run never uses any self-loop, so every self-loop is still left over; from a start that is not in the sets it returns [start]; otherwise it returns a trail that starts at the start; from balanced sets that trail is closed, uses no edge twice, and leaves nothing on its vertices |
| Eulerian.AllUsed | Assigment5.py:65-76 | In a connected store the trail leaves no edge unused |
| Eulerian.CircuitIsEulerian | Assigment5.py:62-76 | The trail is an Euler circuit of the store: closed, starting at a vertex, using every edge exactly once |
| Eulerian.EulerCircuitWalks | Assigment5.py:62-76 | Consecutive vertices of an Euler circuit are edges of the store, and a directed one has one step per arc |
| Eulerian.EulCircuitFrom | Assigment5.py:39-76 | The whole function from a given start: EmptyGraph on an empty graph; [] exactly when the test fails; the only other failure is the KeyError on an undirected self-loop, with `remove` in use. That KeyError is always raised when the start has a self-loop, and also whenever the graph has a self-loop anywhere, the start is a vertex and lists are stored as `add_edge` stores them (the walk must use every edge, and using a self-loop raises); a start that is not a vertex gives [start]; otherwise the result starts at the start and, with lists stored as `add_edge` stores them, is an Euler circuit |
| Eulerian.GetEulCircuit | Assigment5.py:39-76 | The function as written, from '6' with `remove`: the outcomes above for start '6'; in particular an undirected graph that passes the test, has a vertex '6' and a self-loop anywhere (lists stored as `add_edge` stores them) always raises |
| Eulerian.LoopAtSix | Assigment5.py:70-71 | The undirected store {'6': ['6', '6']} is valid, passes the test, has the Euler circuit ['6', '6'], and has the self-loop at '6' that makes `GetEulCircuit` fail |
| Eulerian.TwoCycle | Assigment5.py:62-63 | The directed cycle 1 -> 2 -> 1 is valid, passes the test, and has no vertex '6' |
| Eulerian.TwoCycleCircuit | Assigment5.py:62-76 | ['6'], the answer as written, is no Euler circuit of the two-cycle; ['1', '2', '1'] is one |
| Eulerian.GetEulCircuitFixed | Assigment5.py:39-76 | The corrected function (start at the first vertex, `discard` for the reverse entry): fails only on an empty graph; [] exactly when the test fails; otherwise, with lists stored as `add_edge` stores them, an Euler circuit of the store |
| Cliques.CliqueSearch.constructor | Assigment6.py:13-15 | The search starts with the vertex list, no cliques, size 0 and an empty candidate |
| Cliques.CliqueSearch.IsCliqueOf | Assigment6.py:17-22 | True iff every later candidate entry is a neighbour of every earlier one |
| Cliques.CliqueSearch.TrackCurrent | Assigment6.py:26-31 | The tracking rule: a larger clique replaces the list, an equal one is appended, anything else changes nothing |
| Cliques.CliqueSearch.Backtrack | Assigment6.py:24-36 | The call tracks, in order, every candidate extending `current` by an index-increasing choice from `start_index`, and restores `current` |
| Cliques.VisitsSound | Assigment6.py:33-36 | Every candidate visited extends `current` by an index-increasing subsequence of the vertices |
| Cliques.VisitsComplete | Assigment6.py:33-36 | Every index-increasing subsequence is visited |
| Cliques.VisitsOnce | Assigment6.py:33-36 | No candidate is visited twice |
| Cliques.RunConcat | Assigment6.py:33-36 | Tracking a concatenation is tracking its parts in turn |
| Cliques.MaxLenBound | Assigment6.py:26-31 | No clique visited is longer than the largest clique length |
| Cliques.KeepOnce | Assigment6.py:26-31 | The kept list repeats nothing when the visits repeat nothing |
| Cliques.RunKeeps | Assigment6.py:26-31 | Tracking from the empty start keeps exactly the visited cliques of the largest length, in visit order |
| Cliques.MaximumCliques | Assigment6.py:26-39 | The kept list is exactly the ordered cliques of maximum size, each once, and is never empty |
| Cliques.NoVertices | Assigment6.py:15 | With no vertices the result is [[]] at size 0 |
| Cliques.FindMaximumCliques | Assigment6.py:3-39 | NotUndirected exactly for a directed graph; otherwise the maximum cliques, each once, each an ordered clique, and every ordered clique of that size is listed |

## Left out

- Reading the file in `create_from_file` and converting weights with `int()`. The parser works on lines that are already split into tokens, with the weight given as an integer.
- `__str__`, the `run_*_analysis` reporting functions, the `__main__` blocks and `main.py`. They are presentation and I/O only.
- `time.time()` and the timing value the searches return. A clock is outside the model, so a `Report` carries no timing.
- `random.choice` in `is_connected` and `get_eul_circuit`. The choice is a ghost out-parameter (`chosen`) or a `:|` choice. Results are stated for whichever vertex is chosen. `Eulerian.ChoiceIrrelevant` shows the choice does not matter for undirected graphs.
- The order of `heapq` pops among entries of equal distance. `PopMin` returns some smallest entry.
- `float('inf')` is a `Dist` datatype. Weights are integers, so there is no floating point.
- Domain.Graph.ChangeIfDirected: the lists after the switch to undirected are stated as sets with each entry once. Their order is not stated, since `list(set(...))` fixes none.
- ShortestPath.Dijkstra, ShortestPath.UniformCostSearch and ShortestPath.UniformCostSearch2 require non-negative weights. With a negative cycle the source loops forever, and the weight check is on arc weights. Behaviour on negative weights is not modelled.
- ShortestPath.Search: `cost_calls` is stated as the neighbour count of some list of at most `heap_pops` expanded vertices. Which vertices were expanded is not named.
- PathCost.GetWalk requires that the predecessor chain ends. On a cyclic predecessor map the source does not return.
- Traversal.BfsIterator, Traversal.DfsIterator: each cursor copies the adjacency lists when it is created, and `Next` steps over that copy. The source keeps a reference to the graph and reads `graph_repo` afresh on every `__next__` (iterator.py:23, 50). A graph changed between two calls is seen by the source and not by the model; no caller in this model changes a graph while it iterates.
- SpanningTree.MinSpanningTree: the result is proved to be a spanning tree built from input edges with their weights. Minimality of its total weight is not proved, because the cut (exchange) argument behind Kruskal's algorithm is not formalised here.
- LeafNodes.FindAllLeafNodes: the result is a set. The order of the source's list comes from iterating a Python set, which is unspecified.
- Eulerian.EulCircuitFrom, Eulerian.GetEulCircuit and Eulerian.GetEulCircuitFixed: the Euler-circuit conclusion assumes `StoredOnce`. That means a directed self-loop is listed once and an undirected one twice, as `add_edge` stores them. A list built otherwise can pass the degree test without balanced working sets.
- Cliques: a clique is stated as an index-increasing subsequence of the vertex list. Each vertex set has exactly one such ordering, and this is the order in which the source lists cliques.
- Cliques.CliqueSearch keeps `current` as a field, not as a list passed by reference and mutated in place. Appending and popping are modelled as reassigning the field.
- Domain.Graph.GetE has no contract of its own. Edge counting is stated by `Domain.Graph.GetECountsEdges`, which assumes no self-loops, since the `// 2` miscounts them.

## Findings

| source | as written | input that shows it | evidently intended | confidence | as-written member | corrected member |
|---|---|---|---|---|---|---|
| Assigement4.py:94-109 | `parent_map` starts empty, so the root '1' can be claimed as the child of a later vertex, which then counts a child and is not reported as a leaf | undirected star with edges 1-2 and 1-3: DFS order 1, 2, 3, and '2' claims '1', so '2' is missing from the result | the root has no parent: seeding `parent_map` with '1' reports '2' and '3' | not executed | LeafNodes.FindAllLeafNodes, LeafNodes.StarMissesLeaf | LeafNodes.FindAllLeafNodesFixed |
| Assigment5.py:70-71 | in undirected mode the reverse entry of a self-loop is removed with `remove` after the forward entry already removed it, which raises KeyError | undirected graph with one vertex '6' and a self-loop, lists {'6': ['6', '6']}; it passes `check_if_eul` | the circuit ['6', '6'] (a `discard` of the reverse entry) | not executed | Eulerian.GetEulCircuit, Eulerian.LoopAtSix | Eulerian.GetEulCircuitFixed |
| Assigment5.py:62-63 | the circuit always starts at the hard-coded vertex '6'; without that vertex `defaultdict` yields an empty set and the answer is ['6'] | directed cycle 1 -> 2 -> 1, which passes `check_if_eul` | an Euler circuit from a vertex of the graph, e.g. ['1', '2', '1'] | not executed | Eulerian.GetEulCircuit, Eulerian.TwoCycle, Eulerian.TwoCycleCircuit | Eulerian.GetEulCircuitFixed |
