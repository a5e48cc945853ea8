# Weighted directed graph (ass3): vertices, graph, traversals and cost relaxation

This project models the core of a small C++ library for directed, edge-weighted graphs.
It covers two files: `ass3/vertex.cpp` and `ass3/graph.cpp`.

**Vertex.** A `Vertex` has:
- a label that never changes;
- an adjacency map from target label to edge, which is a `std::map` iterated in ascending label order;
- a visited flag;
- an `iterations` counter that drives `getNextNeighbor`. Each call hands out the next target in ascending order. Past the last target it returns the vertex's own label as an end mark and restarts the count.

**Graph.** A `Graph` has a map from label to vertex object, plus a vertex counter and an edge counter. Its operations are:
- `add` creates the missing endpoints of an edge and connects them;
- `getEdgeWeight` looks up an edge;
- `unvisitVertices` clears every flag and counter;
- a recursive depth-first traversal;
- a breadth-first traversal over a FIFO queue;
- `djikstraCostToAllVertices`, which fills a cost map `weight` and a predecessor map `previous` by relaxing edges taken from a priority queue.

**Model layout.** The Dafny model keeps the source's imperative form:
- `Vertices.Vertex` and `Graphs.Graph` are classes whose methods update their fields.
- The graph's loops and recursions are methods with loop invariants and termination measures.
- Each method is proved against a value-level specification, stated over a ghost copy `adj` of the graph: a map from each label to its outgoing edges. The specifications are:
  - `Insertion.Inserted` for `add`;
  - `DepthFirst.DfsVisit` for the depth-first helper;
  - `BreadthFirst.Bfs` for the breadth-first helper;
  - `Relaxation.Relax` and the invariant `Relaxation.Witnessed` for the cost computation.
- Lemmas then prove what those specifications promise:
  - the trace of a traversal holds exactly the reachable labels, each once, starting at the start label;
  - the breadth-first trace is ordered by hop distance;
  - every recorded cost is the weight of a real path whose last edge leaves the recorded predecessor;
  - the cost loop terminates.

Labels are `int`. The source uses `std::string` labels, but relies only on their equality and their total order.
The visitor callback of the traversals is modelled as the returned sequence of labels it would be called with, in order.

Module overview:
- `Edges`: labels and the edge record `(endVertex, weight)`.
- `OrderedKeys`: the ascending key order of a `std::map`.
- `Digraphs`: the graph as a value, paths, reachability, hop distance and path weight.
- `Vertices`: the vertex class and the value-level behaviour of `getNextNeighbor`.
- `Insertion`: what `add` does to the graph value.
- `DepthFirst`, `BreadthFirst`: the traversals as functions of the graph value, and their properties.
- `Relaxation`: one relaxation step, the cost invariant, and the termination measure.
- `Graphs`: the graph class and all of its operations.

## Model

| member | source | states |
|---|---|---|
| Vertices.Vertex.constructor | ass3/vertex.cpp:21 | the new vertex carries the given label and has no edges |
| Vertices.Vertex.GetLabel | ass3/vertex.cpp:24 | the label given at construction, which no operation changes |
| Vertices.Vertex.IsVisited | ass3/vertex.cpp:35 | the flag that Visit sets and Unvisit clears |
| Vertices.Vertex.Visit | ass3/vertex.cpp:27 | the flag is set and nothing else of the vertex changes |
| Vertices.Vertex.Unvisit | ass3/vertex.cpp:30 | the flag is cleared and nothing else of the vertex changes |
| Vertices.Vertex.Connect | ass3/vertex.cpp:41-59 | returns false and leaves the map unchanged for its own label. The duplicate check compares the entry under the vertex's own label, so a repeated connect returns true and keeps the first weight. Any other label becomes a key. The no-self-loop invariant is preserved, and under it, success holds exactly when the target differs from the label |
| Vertices.Vertex.Disconnect | ass3/vertex.cpp:63-74 | returns true exactly when the key was present; afterwards it is absent and every other entry is unchanged |
| Vertices.Vertex.GetEdgeWeight | ass3/vertex.cpp:79-97 | the stored weight when the target is a key, -1 otherwise |
| Vertices.Vertex.GetNumberOfNeighbors | ass3/vertex.cpp:101 | equals the number of keys, which is the length of one enumeration round |
| Vertices.Vertex.ResetNeighbor | ass3/vertex.cpp:104-106 | only the iterator moves, to the first target; the counter that drives getNextNeighbor is untouched |
| Vertices.Vertex.Targets | ass3/vertex.cpp:108-114 | the targets in std::map order: strictly ascending, exactly the keys |
| Vertices.NextNeighbor | ass3/vertex.cpp:112-126 | one getNextNeighbor call on the value: it returns a target or the vertex's own label. The new counter stays within the number of targets, and it restarts at 0 exactly when the old counter was past the last target |
| Vertices.Vertex.GetNextNeighbor | ass3/vertex.cpp:112-126 | with counter k below the number of targets, returns the k-th smallest target and sets the counter to k+1. Otherwise it returns the vertex's own label and resets the counter to 0. The iterator is left at the returned position |
| Vertices.Vertex.SetIterations | ass3/vertex.cpp:128-131 | the counter is 0 and nothing else changes |
| Vertices.EnumerateFrom | ass3/vertex.cpp:112-126 | from counter k, the next n-k+1 calls return the remaining targets in order, then the label, and leave the counter at 0 |
| Vertices.FullRound | ass3/vertex.cpp:112-131 | after setIterations, n+1 calls return all targets in ascending order, then the label, and the next round repeats |
| Vertices.SentinelMarksEnd | ass3/vertex.cpp:112-126 | with no self-loop, the label comes back exactly when the targets are exhausted |
| Vertices.FirstCallLeast | ass3/vertex.cpp:112-126 | from counter 0, the returned label is at most every target. So a scan from it, in label order, passes every target |
| Vertices.Vertex.Equal | ass3/vertex.cpp:135-140 | two vertices are equal exactly when neither precedes the other, i.e. when their labels are equal |
| Vertices.Vertex.Less | ass3/vertex.cpp:144-150 | one vertex precedes another exactly when their labels differ and the other's label is not the smaller |
| Vertices.VertexOrder | ass3/vertex.cpp:133-150 | == is label equality; < is a strict total order on labels that is consistent with == |
| Graphs.EqualIsIdentity | ass3/vertex.cpp:135-140 | in a valid graph, two stored vertices compare equal exactly when they are the same object |
| Graphs.Graph.constructor | ass3/graph.cpp:22-25 | an empty, valid graph, with both counters 0 |
| Graphs.Graph.GetNumVertices | ass3/graph.cpp:41 | the vertex counter equals the number of vertices |
| Graphs.Graph.GetNumEdges | ass3/graph.cpp:44 | the edge counter is 0 whatever edges the graph holds |
| Graphs.Graph.Add | ass3/graph.cpp:51-76 | returns false exactly when start exists and end == start. The graph becomes Inserted(old graph, start, end, weight). Validity is kept: vertex counter = number of vertices, no dangling edges, no self-loops. Every stored vertex stays stored as the same object (Kept), so its visited flag and counter are untouched. A vertex created for a missing start or end is a new object |
| Graphs.Graph.AddFromKnown | ass3/graph.cpp:54-74 | add with an existing start: connect, create end if missing, connect again. Success exactly when end != start, with the same result graph as Inserted. Stored vertices are kept as the same objects; a created end is new |
| Graphs.Graph.AddFromNew | ass3/graph.cpp:56-73 | add with a new start: create end, then start, then connect. The result graph is Inserted. Stored vertices are kept as the same objects; start's vertex, and end's when it was missing, are new |
| Insertion.Link | ass3/vertex.cpp:41-59 | connect on the edge map: the target becomes a key unless it is the vertex's own label. Existing edges keep their weights, so a repeated connect keeps the first weight; a new target gets the given weight |
| Insertion.Inserted | ass3/graph.cpp:51-76 | add on the graph value: both endpoints become vertices, the start's edges are linked to the end as Link says, and every other vertex keeps its edges |
| Graphs.Graph.ConnectAt | ass3/graph.cpp:56 | Vertex::connect on the stored start vertex changes only that vertex's edges, as Link describes |
| Graphs.Graph.InsertNewVertex | ass3/graph.cpp:58-69 | a new vertex with no edges is stored under the label, the counter grows by one, and existing vertices are untouched |
| Graphs.Graph.EnsureVertex | ass3/graph.cpp:58-69 | the guarded insert: afterwards the label is stored; the keys grow by that label only, existing vertices are kept as the same objects, a vertex for a missing label is new, and its edge set is empty |
| Insertion.InsertedInCodeOrder | ass3/graph.cpp:54-71 | connect-then-create-then-connect, the order the code uses, produces the graph Inserted describes |
| Insertion.InsertedEdges | ass3/graph.cpp:51-76 | add stores exactly one new edge, start -> end, unless it is a self-loop or already present; every existing edge keeps its weight |
| Insertion.InsertedClosed | ass3/graph.cpp:58-71 | add creates no dangling edge |
| Insertion.InsertedWellFormed | ass3/graph.cpp:51-76 | add keeps the graph free of dangling edges and self-loops, with each edge stored under its end label |
| Insertion.InsertedIdempotent | ass3/graph.cpp:51-76 | re-adding an edge changes nothing: the first weight stays |
| Graphs.Graph.GetEdgeWeight | ass3/graph.cpp:82-86 | for an existing start: the stored weight, or -1 when there is no edge |
| Graphs.Graph.FindVertex | ass3/graph.cpp:283-293 | the vertex stored under the label, or null exactly when there is none |
| Graphs.Graph.FindOrCreateVertex | ass3/graph.cpp:296-309 | the stored vertex, or a fresh vertex with that label and no edges; the map is never modified |
| Graphs.Graph.UnvisitVertices | ass3/graph.cpp:273-280 | every vertex is unvisited with its counter at 0, and no adjacency changes |
| Graphs.Graph.MarkVisited | ass3/graph.cpp:213 | visit adds exactly the vertex's label to the set of visited labels |
| Graphs.Graph.DepthFirstTraversal | ass3/graph.cpp:118-123 | the visitor sees start first, no label twice, and exactly the labels reachable from start; the trace is DfsVisit from start. Afterwards exactly the labels of the trace are visited, and every counter is back at 0 |
| Graphs.Graph.DepthFirstTraversalHelper | ass3/graph.cpp:211-231 | the labels passed to the visitor, and the visited set left behind, are those of DfsVisit. Counters of vertices visited earlier are unchanged, and every other counter ends at 0: each newly visited vertex's loop stops at the end mark, which resets its counter |
| Graphs.Graph.DepthFirstStep | ass3/graph.cpp:217-229 | one round of the helper's loop: the end mark exactly when the targets are exhausted; otherwise the i-th target is handled as DfsEnter says. At the end mark the counter is back at 0, and every vertex not visited before the round has counter 0 |
| Graphs.Graph.DepthFirstEnter | ass3/graph.cpp:224-228 | a nested activation exactly when the target is not yet visited; afterwards every vertex not visited before has counter 0 |
| Graphs.Graph.AskNext | ass3/graph.cpp:219-223 | getNextNeighbor on a vertex with counter i gives its i-th target, or its label exactly when i is the number of targets; no other counter moves |
| DepthFirst.DfsVisit | ass3/graph.cpp:211-231 | an activation marks at least its own label and everything marked before |
| DepthFirst.DfsScan | ass3/graph.cpp:217-229 | the walk over the targets never unmarks a label |
| DepthFirst.DfsEnter | ass3/graph.cpp:224-228 | after handling a target, it is marked |
| DepthFirst.DfsVisitDistinct | ass3/graph.cpp:211-231 | an activation passes no label to the visitor twice |
| DepthFirst.DfsVisitCloses | ass3/graph.cpp:211-231 | every target of a label the activation visits ends up marked |
| DepthFirst.DfsVisitReaches | ass3/graph.cpp:211-231 | an activation from a reachable label visits only reachable labels |
| DepthFirst.DepthFirstTrace | ass3/graph.cpp:118-123 | from an unmarked graph, the trace starts at start, has no repeats, and holds exactly the reachable labels |
| Graphs.Graph.BreadthFirstTraversal | ass3/graph.cpp:127-132 | the visitor sees start first, every reachable label exactly once and nothing else, in non-decreasing hop distance from start. Afterwards exactly the labels of the trace are visited, and every counter is back at 0 |
| Graphs.Graph.BreadthFirstTraversalHelper | ass3/graph.cpp:234-270 | the queue always holds, in order, the visited labels not yet dequeued. The labels passed to the visitor are Bfs from the start, and every counter is back at 0 |
| Graphs.Graph.BreadthFirstStart | ass3/graph.cpp:236-240 | start is visited, passed to the visitor and enqueued |
| Graphs.Graph.BreadthFirstScan | ass3/graph.cpp:254-268 | the inner loop for the dequeued vertex appends exactly one dequeue step of Bfs and keeps the queue in step with the trace |
| Graphs.Graph.BreadthFirstStep | ass3/graph.cpp:256-267 | one round: the end mark exactly when the targets are exhausted; otherwise the i-th target is appended and enqueued exactly when not yet visited |
| Graphs.Graph.Enqueue | ass3/graph.cpp:261-267 | an unvisited vertex is visited, appended to the trace and pushed at the back of the queue; a visited one changes nothing |
| Graphs.Graph.QueuedPop | ass3/graph.cpp:247-249 | popping the front keeps the queue equal to the undequeued part of the trace |
| BreadthFirst.Bfs | ass3/graph.cpp:244-269 | running the helper to the end only appends to the trace: what is already visited keeps its place, and every label added is a vertex |
| BreadthFirst.BfsScan | ass3/graph.cpp:254-268 | the labels one dequeue appends are unvisited targets, each once |
| BreadthFirst.BfsScanCovers | ass3/graph.cpp:254-268 | after the walk, every target is visited |
| BreadthFirst.NearerIsVisited | ass3/graph.cpp:244-269 | when the vertex at the front of the queue is dequeued, every label at most as far from start as it is already visited |
| BreadthFirst.BfsRun | ass3/graph.cpp:244-269 | the traversal run to the end keeps its invariant: a reachable, duplicate-free trace ordered by distance, with every dequeued vertex's targets visited |
| BreadthFirst.BreadthFirstTrace | ass3/graph.cpp:127-132 | the breadth-first trace starts at start, holds each reachable label once and nothing else, in non-decreasing hop distance |
| Graphs.Graph.DijkstraCostToAllVertices | ass3/graph.cpp:143-208 | weight and previous are out-parameters, so their old content plays no part (the code clears them on entry). At the end they have the same keys and start is not one. Every target of start has a cost. previous[u] -> u is an edge, and weight[u] is the weight of a path from start to u ending in that edge. The costs are closed under non-negative edges: a target of a costed label, reached by a non-negative edge and other than start, has a cost. Hence every label other than start that start reaches by a path whose edges after the first are non-negative has a cost. No vertex is left visited, and every vertex without a cost, start included, has counter 0; a popped vertex's counter depends on how often it was popped |
| Graphs.Graph.DijkstraSeed | ass3/graph.cpp:154-162 | the first loop records exactly the targets of start: each gets its edge weight, start as predecessor, and a place on the queue |
| Graphs.Graph.DijkstraDrain | ass3/graph.cpp:164-206 | the second loop ends, keeps every cost witnessed by a path, loses no recorded label and never raises a cost. When the queue is empty, the costs are closed under non-negative edges, and every vertex without a cost has counter 0 |
| Graphs.Graph.DijkstraDrainFrom | ass3/graph.cpp:166-206 | the remaining passes keep the invariant and end, with the costs closed under non-negative edges. The labels popped so far are tracked: each costed label is queued or popped, and every popped label's non-negative targets other than start have costs. A popped label has a cost, and a vertex never popped has counter 0, so at the end every vertex without a cost has counter 0 |
| Graphs.Graph.DijkstraPass | ass3/graph.cpp:166-205 | one pass keeps the invariant and the popped-label bookkeeping, and the measure (unrecorded labels, excess of the costs over a lower bound, queue size) drops lexicographically |
| Graphs.Graph.DijkstraPop | ass3/graph.cpp:169-174 | pops any queued label and skips start and vertexSet. The costs keep their invariant and make progress, and if no cost changes the queue is shorter. The popped label joins the popped ones; labels never popped keep counter 0, each costed label is queued or popped, and popped labels have their non-negative targets costed |
| Graphs.Graph.DijkstraVisit | ass3/graph.cpp:174-205 | the scan of a popped label other than start. On its first pop its counter is 0, so the scan reaches all its targets; a repeated pop was covered before. Either way, it keeps: counters of unpopped labels at 0, every costed label queued or popped, and every popped label's non-negative targets costed |
| Graphs.Graph.DijkstraScan | ass3/graph.cpp:174-176 | v's counter moves as one getNextNeighbor call moves it. Then every vertex from the returned label onwards, other than start, with a non-negative reading from v ends with a cost at most weight[v] + reading. Costs stay witnessed and never rise, and the queue changes only when a cost does, gaining every newly costed label |
| Graphs.Graph.DijkstraRelaxAll | ass3/graph.cpp:175-204 | each relaxation keeps every cost witnessed, raises no cost, and changes the queue only when some cost changes. Afterwards every walked vertex other than start with a non-negative reading from v has a cost at most weight[v] + reading |
| Relaxation.Relax | ass3/graph.cpp:181-202 | pushes exactly when the reading is non-negative, the label is not start, and it has no cost or a strictly larger one. It then records cost weight[v]+ew with predecessor v; nothing else changes, and no cost rises |
| Relaxation.RelaxWitnessed | ass3/graph.cpp:186-198 | a cost set through v is witnessed by v's path extended by the edge v -> u |
| Relaxation.WitnessedEdges | ass3/graph.cpp:158-159 | every recorded label has an edge from its predecessor and is reachable from start |
| Relaxation.SeededStep | ass3/graph.cpp:156-161 | recording one more target of start keeps the first loop's invariant |
| Relaxation.SeededEnd | ass3/graph.cpp:154-162 | after the first loop, the recorded labels are exactly the targets of start |
| Relaxation.RelaxProgress | ass3/graph.cpp:184-198 | a relaxation never raises a cost; a push comes with a changed cost map |
| Relaxation.ExcessLowered | ass3/graph.cpp:193-197 | lowering a cost, while staying above the bound, strictly lowers the excess |
| Relaxation.RelaxingStep | ass3/graph.cpp:175-204 | one relaxation keeps the invariant of the walk, with u added to the relaxed labels |
| Relaxation.RelaxedFromStep | ass3/graph.cpp:181-202 | after relaxing u against v, u has a cost at most weight[v] + reading when the reading is non-negative and u is not start; labels relaxed earlier keep their bound, since costs only fall |
| Relaxation.RelaxedFromOnwards | ass3/graph.cpp:175-176 | once every vertex from the first label onwards is relaxed, the bound holds for all of them |
| Relaxation.CoveredAfterScan | ass3/graph.cpp:174-204 | a scan that started at or before all of top's targets adds top to the popped labels with every non-negative target costed |
| Relaxation.CoveredGrows | ass3/graph.cpp:169-175 | popping an already popped label keeps the coverage, whatever its rescan reaches |
| Relaxation.AccountedAfterPop | ass3/graph.cpp:169-197 | after popping top and pushing newly costed labels, every costed label is still queued or popped |
| Relaxation.ClosedWhenDrained | ass3/graph.cpp:166 | with the queue empty, every costed label has been popped, so the costs are closed under non-negative edges |
| Relaxation.RelaxableReached | ass3/graph.cpp:154-206 | if start's targets have costs and the costs are closed, every label other than start reached by a path whose edges after the first are non-negative has a cost |
| Relaxation.DrainingStep | ass3/graph.cpp:166-206 | one pass keeps the invariant and lowers the termination measure |

## Left out

- readFile (ass3/graph.cpp:92-114): file input. It is also the only place that sets the edge counter to something other than 0. Without it, the model's edge counter is always 0.
- The console output of add (ass3/graph.cpp:52-53) and of the breadth-first helper (ass3/graph.cpp:248).
- The destructor (ass3/graph.cpp:30-38), new/delete ownership, the heap-allocated Edge copied in connect, and the unstored vertex that findOrCreateVertex leaks. Objects are Dafny objects, with no deallocation.
- Labels are `int`, not `std::string`. The code uses only equality and the total order of labels.
- The visitor callback is modelled as the returned trace of labels it would be called with.
- The heap order of the priority queue, whose comparator reads the changing `weight` map, is not modelled. DijkstraPop takes any queued label, and every property is proved for all pop orders.
- Graphs.Graph.DijkstraCostToAllVertices: optimality of the costs is not stated, because the code does not achieve it. A popped vertex first advances its own neighbour counter. The scan then starts at the vertex map's entry for the label that call returned. On a later pop of the same vertex, that label is the target at the counter, or the vertex's own label once the round is used up. Labels before that entry are skipped, so a cost lowered after the first pop need not reach every target again, and costs need not be minimal.
- Graphs.Graph.DijkstraCostToAllVertices: completeness is stated only for labels that start reaches by a path whose edges after the first are non-negative. This is what the code achieves: start never gets a cost (ass3/graph.cpp:185), and a negative edge out of a popped label is skipped (ass3/graph.cpp:184), so a label reachable only through such an edge gets none.
- vertexSet holds only start and is never updated. The model passes it along unchanged and requires it to be {start}, its only value in the source, so it excludes nothing beyond start.
- Costs are mathematical integers: int overflow in weight[v] + edgeWeight (ass3/graph.cpp:188, 193) is not modelled.
- An unknown start label is a precondition, not modelled behaviour. In the source it throws std::out_of_range in the traversals (vertices.at) and dereferences null or end() in getEdgeWeight and the cost computation.
- Graphs.Graph.DijkstraDrainFrom: the second loop of the cost computation is a tail-recursive method, one call per pass, rather than a while loop. Its measure is the loop's termination argument.
- The headers edge.h, vertex.h and graph.h are not part of this model:
  - Edge is the record (endVertex, weight).
  - A fresh vertex's flag and counter are taken to be set by unvisit/setIterations before use. Every traversal and the cost computation call unvisitVertices first.
- currentNeighbor is modelled as a position in the ascending target order, with the number of targets standing for end().
- The code's comments and its behaviour disagree in a few places; the model follows the code:
  - Graph::getEdgeWeight returns -1 for a missing edge, not INT_MAX as its comment says.
  - A repeated connect returns true.
  - add never changes the edge counter.
  - add(A, A, w) on a graph without A returns true and creates A with no edge.
