# A verified model of the short_2sat checker

The checker decides 2-SAT instances. Each variable `i` has two literals, written as the signed vertex ids `i` and `-i`. Each clause becomes implication edges between literals. The formula is satisfiable exactly when no variable has both of its literals in one strongly connected component of that implication graph.

This project models the three parts that do the work:

- **The graph** (`dirgraph.dfy`, module `DirGraph`) is `DirectedGraph`.
  - It is a class with three fields: an ordered vertex map, an ordered edge map, and the counter that hands out edge ids.
  - Each `Vertex` records the id sets of its incoming and outgoing edges. The ghost predicate `Consistent` states that these sets and the edge map agree. Every mutating method keeps that agreement.
  - The queries list edges by ascending edge id, as the ordered sets iterate them.
- **Kosaraju's engine** (`kosaraju.dfy`, module `Kosaraju`) is the class `Kosaraju`.
  - Its fields are the explored and finished sets, the finishing order, each group's member list and size, and each vertex's group.
  - It borrows the graph and only reads it.
  - The first pass searches by incoming edges. It runs either recursively (`DfsIn`) or with an explicit stack (`DfsInIter`), as the engine's flag says.
  - The second pass searches by outgoing edges in reverse finishing order.
- **The decision** (`twosat.dfy`, module `TwoSat`) is the loop at the end of `main`. It compares the groups of `i` and `-i` for each variable.

The pure functions the engine is proved against live in four modules:

- `Search` has the reference depth-first search `Visit`/`VisitEach`, with entry and finishing orders, paths and reachability.
- `StackSearch` has the explicit-stack search `Run`.
- `InPass` has the first pass as the engine runs it, by either route.
- `Scc` has the second pass, defines its bookkeeping, and proves Kosaraju's theorem. `Ordered` and `Wrappers` are small helper modules.

Each engine method is proved to leave exactly the state one of these functions computes. Lemmas then prove what the source promises about those functions:

- each vertex is finished once;
- the first pass finishes in postorder;
- the recursive and explicit-stack first passes agree;
- groups are exactly the mutually reachable classes;
- each member list is its group's component;
- the sizes add up to the vertex count.

From these, `Decide` is proved to answer "satisfiable" exactly when no variable's two literals reach each other.

## Model

| member | source | states |
|---|---|---|
| DirGraph.NewVertex | src/dirgraph.rs:72-80 | a new vertex has the given id, no incoming or outgoing edge ids and a zero adjustment |
| DirGraph.Vertex.AddOutgoingEdgeId | src/dirgraph.rs:87-92 | the outgoing set gains the id; the rest of the vertex is unchanged |
| DirGraph.Vertex.DeleteOutgoingEdgeId | src/dirgraph.rs:94-98 | the outgoing set loses the id; the rest of the vertex is unchanged |
| DirGraph.Vertex.AddIncomingEdgeId | src/dirgraph.rs:100-105 | the incoming set gains the id; the rest of the vertex is unchanged |
| DirGraph.Vertex.DeleteIncomingEdgeId | src/dirgraph.rs:107-112 | the incoming set loses the id; the rest of the vertex is unchanged |
| DirGraph.AddDeleteOutgoing | src/dirgraph.rs:87-98 | adding a new outgoing id and deleting it again gives back the same vertex |
| DirGraph.AddDeleteIncoming | src/dirgraph.rs:100-112 | adding a new incoming id and deleting it again gives back the same vertex |
| DirGraph.Vertex.GetOutgoingEdgeIds | src/dirgraph.rs:115-118 | lists exactly the ids of the outgoing set, each once, strictly ascending |
| DirGraph.Vertex.GetIncomingEdgeIds | src/dirgraph.rs:121-124 | lists exactly the ids of the incoming set, each once, strictly ascending |
| DirGraph.DirectedGraph.constructor | src/dirgraph.rs:188-196 | the graph starts empty and consistent, and the first edge id will be 1 |
| DirGraph.DirectedGraph.DefineVertex | src/dirgraph.rs:199-210 | a new id gains a bare vertex and returns Some(new vertex count); an existing id returns None and changes nothing; edges and counter are untouched |
| DirGraph.DirectedGraph.DefineEdge | src/dirgraph.rs:212-218 | stores the edge under the current counter value, returns that id and advances the counter; vertices are untouched |
| DirGraph.DirectedGraph.AddEdge | src/dirgraph.rs:156-179 | declares both endpoints, stores the edge under the next id (never stored before) and lists it as outgoing at the source and incoming at the dest; returns Some(id), advances the counter, keeps the graph consistent |
| DirGraph.DirectedGraph.AddVertex | src/dirgraph.rs:181-183 | declares the vertex and otherwise changes nothing; keeps the graph consistent |
| DirGraph.DeclareConsistent | src/dirgraph.rs:181-183 | declaring a vertex, new or existing, keeps the maps in agreement |
| DirGraph.AddEdgeConsistent | src/dirgraph.rs:156-179 | adding an edge keeps the maps in agreement in both directions, with the new id unused before |
| DirGraph.UnlinkConsistent | src/dirgraph.rs:419-432 | removing a stored edge and unlisting it at its endpoints keeps the maps in agreement, and the id is then gone from every vertex |
| DirGraph.DirectedGraph.DeleteEdge | src/dirgraph.rs:419-432 | a stored id is unlisted at both endpoints and removed from the edge map, with Ok; every other vertex set and edge is unchanged; an unknown id gives the error and changes nothing; the graph stays consistent and ids are never reissued |
| DirGraph.DirectedGraph.VertexCount | src/dirgraph.rs:434-436 | the number of vertices equals the length of the vertex id list |
| DirGraph.DirectedGraph.EdgeCount | src/dirgraph.rs:438-440 | the number of edges equals the length of the edge id list |
| DirGraph.DirectedGraph.GetVertexIds | src/dirgraph.rs:354-357 | every vertex id once, strictly ascending |
| DirGraph.DirectedGraph.GetEdgeIds | src/dirgraph.rs:359-362 | every edge id once, strictly ascending |
| DirGraph.DirectedGraph.GetOutgoingEdgeIds | src/dirgraph.rs:254-258 | exactly the vertex's outgoing ids, strictly ascending |
| DirGraph.DirectedGraph.GetIncomingEdgeIds | src/dirgraph.rs:285-290 | exactly the vertex's incoming ids, strictly ascending |
| DirGraph.DirectedGraph.GetOutgoingEdges | src/dirgraph.rs:229-237 | the stored edge under each outgoing id, in ascending id order |
| DirGraph.DirectedGraph.GetIncomingEdges | src/dirgraph.rs:260-268 | the stored edge under each incoming id, in ascending id order |
| DirGraph.DirectedGraph.OutgoingEdgesSpec | src/dirgraph.rs:229-237 | in a consistent graph the outgoing edges of `v` are exactly the stored edges leaving `v`, each once, by strictly ascending id |
| DirGraph.DirectedGraph.IncomingEdgesSpec | src/dirgraph.rs:260-268 | in a consistent graph the incoming edges of `v` are exactly the stored edges entering `v`, each once, by strictly ascending id |
| DirGraph.DirectedGraph.GetOutgoingVertexIds | src/dirgraph.rs:240-251 | the dest of each outgoing edge, in the same order |
| DirGraph.DirectedGraph.GetIncomingVertexIds | src/dirgraph.rs:271-282 | the source of each incoming edge, in the same order |
| DirGraph.DirectedGraph.OutgoingVertexIdsSpec | src/dirgraph.rs:240-251 | one entry per outgoing edge, so parallel edges repeat; `u` occurs iff some stored edge runs from `v` to `u` |
| DirGraph.DirectedGraph.IncomingVertexIdsSpec | src/dirgraph.rs:271-282 | one entry per incoming edge; `u` occurs iff some stored edge runs from `u` to `v` |
| DirGraph.FirstWeightToFinds | src/dirgraph.rs:312-325 | the search over a list of edges finds the weight of the first edge with the wanted dest, and None iff there is none |
| DirGraph.FirstWeightFromFinds | src/dirgraph.rs:293-310 | the same search by source |
| DirGraph.DirectedGraph.OutgoingConnectionWeightSpec | src/dirgraph.rs:312-325 | None iff no stored edge runs from `v` to `d`; otherwise the weight of the lowest-id such edge |
| DirGraph.DirectedGraph.IncomingConnectionWeightSpec | src/dirgraph.rs:293-310 | None iff no stored edge runs from `s` to `v`; otherwise the weight of the lowest-id such edge |
| DirGraph.DirectedGraph.VerifyPath | src/dirgraph.rs:442-461 | the result is the path's weight: the sum of the connection weights of its consecutive pairs, None when a pair has no edge |
| DirGraph.WalkSumNone | src/dirgraph.rs:442-461 | a walk has no total iff one of its hops is missing |
| DirGraph.PathWeightNone | src/dirgraph.rs:442-461 | in a consistent graph a path has no weight iff some consecutive pair is joined by no stored edge |
| DirGraph.PathWeightSingle | src/dirgraph.rs:442-461 | a one-vertex path weighs Some(0) |
| DirGraph.PathWeightConcat | src/dirgraph.rs:442-461 | joining two walks at a shared vertex adds their weights, and has none when either has none |
| DirGraph.DirectedGraph.AdjustEdges | src/dirgraph.rs:464-476 | every edge's weight becomes its old weight plus the source's adjustment minus the dest's; vertices, ids and endpoints unchanged; the graph stays consistent |
| DirGraph.DirectedGraph.ReweightEdges | src/dirgraph.rs:466-475 | the loop re-weights each edge of the ascending id list exactly once |
| DirGraph.Adjusted | src/dirgraph.rs:470-473 | re-weighting changes only the weight, by the source's minus the dest's adjustment |
| DirGraph.ReweightConsistent | src/dirgraph.rs:464-476 | changing only edge weights keeps the maps in agreement |
| Ordered.AscendingIncreasing | src/dirgraph.rs:354-362 | the ordered-map key order lists each key once, strictly ascending |
| Search.VisitLists | src/kosaraju.rs:122-150 | a search from an unexplored vertex enters and finishes each vertex it explores exactly once, entering the start first and finishing it last |
| Search.VisitEachLists | src/kosaraju.rs:213-238 | searches from each vertex of a list in turn enter and finish each vertex they explore exactly once |
| Search.VisitEachShut | src/kosaraju.rs:213-238 | afterwards every vertex of the list is explored, and so is every successor of a vertex they explored |
| Search.VisitPostorder | src/kosaraju.rs:139-148 | the start is finished last, after every successor that was unexplored when it was entered |
| Search.VisitReach | src/kosaraju.rs:122-150 | every vertex a search newly explores is reachable from whatever reaches its start |
| Search.VisitOutlasts | src/kosaraju.rs:122-150 | the finishing-order property of depth-first search: when a search explores the start of a path that avoids what was explored before, some vertex of that start's component finishes no earlier than the path's end |
| StackSearch.RunVisit | src/kosaraju.rs:154-210 | the explicit-stack search from an unexplored vertex, with every finished vertex explored, explores what the recursive search explores, finishes exactly those vertices and appends the same finishing order |
| StackSearch.RunPushes | src/kosaraju.rs:190-203 | running the pushed segment of the stack does what the recursive searches from the successor list do in turn |
| StackSearch.RunConcat | src/kosaraju.rs:158-208 | what lies below the top part of the stack waits until the top part is done |
| InPass.InSearchVisit | src/kosaraju.rs:110-119 | `dfs_incoming` from an unexplored vertex, by either route, leaves the explored set and finishing order of the reference search |
| InPass.InFromVisit | src/kosaraju.rs:122-150 | `dfs_in` explores what the reference search explores and appends its finishing order; it never marks a vertex finished, though the stack search below it finishes everything else it explored |
| InPass.InScanVisit | src/kosaraju.rs:139-145 | after `i` incoming edges the scan of `dfs_in` leaves what the reference searches over their sources leave |
| InPass.InEachVisitEach | src/kosaraju.rs:213-238 | the recursive and explicit-stack first passes both leave the explored set and finishing order of the reference searches |
| Scc.FirstPass | src/kosaraju.rs:213-238 | the first pass over every vertex finishes each vertex exactly once and gives an order with the finishing-order property |
| Scc.FinishingOrder | src/kosaraju.rs:266-268 | the first pass's finishing order is a permutation of the vertex ids |
| Scc.Mark | src/kosaraju.rs:82-87 | entering vertices for a group appends them to its list, assigns them to it, and sets its size to the list's length; other groups are untouched |
| Scc.MarkTwice | src/kosaraju.rs:82-87 | entering two runs of vertices for one group in turn is entering them together |
| Scc.OutgoingLabel | src/kosaraju.rs:73-108 | the engine's second-pass search labels exactly as the reference search does: what it enters goes to the start's group in entry order |
| Scc.ScanLabel | src/kosaraju.rs:91-103 | after `i` outgoing edges the scan of `dfs_outgoing` has labelled what the reference search over their dests labels |
| Scc.SecondPass | src/kosaraju.rs:240-260 | over the starts in reverse finishing order the second pass keeps its invariant: the explored set is closed under successors, every start taken is explored, each explored vertex is grouped with an explored vertex of its component, and the component of an explored vertex lies wholly in its group |
| Scc.KosarajuTheorem | src/kosaraju.rs:263-283 | after both passes every vertex is explored and has a group, and two vertices share a group exactly when they reach each other |
| Scc.LabelBooks | src/kosaraju.rs:82-87 | a search on its own behalf keeps the books: each list is duplicate-free, names exactly the explored vertices of its group and contains its start, and each size is its list's length |
| Scc.KosarajuBooks | src/kosaraju.rs:263-289 | after both passes the books hold, each group's list is its start's component, and the sizes add up to the number of vertices |
| Scc.ComponentsFound | src/kosaraju.rs:263-289 | both passes together find the strongly connected components, with lists, sizes and groups in agreement |
| Scc.SizesCover | src/kosaraju.rs:285-289 | every group's size is among the sizes listed |
| Scc.SizesExact | src/kosaraju.rs:285-289 | the sizes listed are the groups' sizes, one entry per group, under some enumeration of the groups naming each once |
| Scc.SizesSum | src/kosaraju.rs:285-289 | under the books the sizes add up to the number of explored vertices |
| Kosaraju.ViewsTransposed | src/kosaraju.rs:110-150 | in a consistent graph, searching by incoming edges is searching the transpose of the graph searched by outgoing edges |
| Kosaraju.FirstPassResult | src/kosaraju.rs:213-238 | the first pass over all vertices from nothing explored explores every vertex and yields the finishing order of the reference searches; with the explicit stack it finishes every vertex |
| Kosaraju.Kosaraju.constructor | src/kosaraju.rs:23-35 | nothing is explored, finished or grouped, and the borrowed graph's two searched views are recorded |
| Kosaraju.Kosaraju.IsExplored | src/kosaraju.rs:37-39 | true iff the vertex is explored |
| Kosaraju.Kosaraju.MarkExplored | src/kosaraju.rs:41-43 | the vertex joins the explored set |
| Kosaraju.Kosaraju.IsFinished | src/kosaraju.rs:45-47 | true iff the vertex is finished |
| Kosaraju.Kosaraju.MarkFinished | src/kosaraju.rs:49-52 | the vertex joins the finished set |
| Kosaraju.Kosaraju.SetGroup | src/kosaraju.rs:54-57 | the vertex's group is set, all others kept |
| Kosaraju.Kosaraju.GetGroup | src/kosaraju.rs:59-62 | Some(group) iff the vertex has a group, None otherwise |
| Kosaraju.Kosaraju.AddSearchEntry | src/kosaraju.rs:66-69 | the group's size is set, all others kept |
| Kosaraju.Kosaraju.JoinSearch | src/kosaraju.rs:77-87 | the vertex is explored, appended to the start's list and assigned to the start, and the start's size becomes the length of its list |
| Kosaraju.Kosaraju.DfsOutgoing | src/kosaraju.rs:73-108 | the state after `dfs_outgoing` is that of the reference labelling search from the vertex for the start's group |
| Kosaraju.Kosaraju.ScanEdges | src/kosaraju.rs:91-103 | after the edge loop the state is the scan over all outgoing edges |
| Kosaraju.Kosaraju.DfsIncoming | src/kosaraju.rs:110-119 | the state after `dfs_incoming` is the engine's first-pass search, by the route the flag selects |
| Kosaraju.Kosaraju.DfsIn | src/kosaraju.rs:122-150 | the state after `dfs_in` is the recursive first-pass search from the vertex |
| Kosaraju.Kosaraju.ScanSources | src/kosaraju.rs:139-145 | after the edge loop the state is the scan over all incoming edges |
| Kosaraju.Kosaraju.DfsInIter | src/kosaraju.rs:154-210 | the state after `dfs_in_iter` is the explicit-stack search from the vertex run until the stack is empty |
| Kosaraju.Kosaraju.PushSources | src/kosaraju.rs:190-203 | exactly the unexplored sources of the incoming edges, scanned from the last edge so the first ends on top |
| Kosaraju.Kosaraju.DfsLoopIncoming | src/kosaraju.rs:213-238 | resets the order, explored set, lists and sizes but not the finished set, then leaves the state of the first pass over the list |
| Kosaraju.Kosaraju.DfsLoopOutgoing | src/kosaraju.rs:240-260 | resets the explored set, lists and sizes but not the groups, then leaves the state of the second pass over the list |
| Kosaraju.Kosaraju.FirstPassAll | src/kosaraju.rs:266-268 | the first pass over all vertex ids leaves the reference finishing order, and with the explicit stack every vertex finished |
| Kosaraju.Kosaraju.FindScc | src/kosaraju.rs:263-283 | the finishing order is the reference one and the lists, sizes and groups are those of the two reference passes, which `ComponentsFound` proves are the strongly connected components |
| Kosaraju.Kosaraju.GetSccSizes | src/kosaraju.rs:285-289 | exactly the groups' sizes, one entry per group in some enumeration of the groups, so each group's size appears and every entry is a group's size; under the books they add up to the number of explored vertices |
| Kosaraju.Kosaraju.GetFinishOrder | src/kosaraju.rs:291-294 | a copy of the finishing order |
| Kosaraju.Kosaraju.GetSccGroup | src/kosaraju.rs:296-299 | the group's member list; under the books it lists, once each, exactly the explored vertices of that group, and its length is the group's size |
| Kosaraju.Kosaraju.GetTopSccGroups | src/kosaraju.rs:301-307 | maps exactly the sized groups, each to its member list |
| TwoSat.ConstraintsMet | src/main.rs:76-85 | true iff for every variable `1..n` its two literals' groups differ as options; a variable neither of whose literals has a group makes it false; with no variables it is true |
| TwoSat.DecisionMeansApart | src/main.rs:76-91 | when groups are the components and every literal is a vertex, the check passes iff no variable's two literals reach each other |
| TwoSat.Decide | src/main.rs:68-91 | on a consistent graph declaring every literal, a fresh engine with the explicit-stack first pass answers true iff no variable's two literals reach each other along outgoing edges |

## Left out

- Logging is not modelled. That covers `log_writeln!`, `trace!`/`debug!`/`info!`, the progress stars of the two loop routines, and the log-only sort at the end of `find_scc`. None of it changes the engine's state.
- `print_graph`, `log_graph` and `log_scc_to_files` are not modelled: they only write output.
- The worker thread, its stack size, logger setup and file handling in `main` are not modelled. There is a single worker.
- Command-line parsing (`cmd_line.rs`), the log directory (`log_files.rs`) and the constraint reader (`parse.rs`) are not part of this model. The graph and the number of variables are inputs to `Decide`. The reader declares the literals `±1..n`, and `Decide` takes that as a precondition.
- The ordered-map iterator types (`vertex_iter`, `edge_iter`, and the mutable variant) are not modelled. The queries use the ascending key order directly.
- The engine's hash maps have no defined iteration order.
  - Kosaraju.Kosaraju.GetSccSizes: lists sizes in ascending group order, where the source's order is unspecified. Its contract does not fix the order: it promises an entry for each group, each entry the size of its group, and the sum.
  - Kosaraju.Kosaraju.GetTopSccGroups: builds the map in ascending group order, which cannot be observed in the result.
- Machine integers are unbounded `int`. The model does not capture `i32` overflow in `verify_path`'s sum or in `adjust_edges`, nor the `usize`/`isize` bounds on ids and counts.
- The recursion depth of `dfs_in` and `dfs_outgoing`, and the stack the worker thread is given for it, are not modelled.
- `Edge::new` and the edge field accessors are the datatype constructor `Edge` and its fields.
- `get_vertex_from_id`, `get_edge_from_id` and `set_adjustment` are map lookups and updates on fields. They have no members of their own.
- The `error!` messages that vertex edge-id updates log are not modelled. The messages cover an id already present or one missing. The set operations alone are modelled, and they behave the same either way.
- Kosaraju.Kosaraju.FindScc: requires, when the explicit stack is selected, that no vertex is marked finished yet.
  - The source never clears the finished set between runs.
  - A reused engine with the explicit stack would treat vertices finished by an earlier run as already finished: it would pop them without appending them to the finishing order.
  - Every engine `main` builds is fresh, so the requirement holds there.
  - The recursive first pass never marks a vertex finished, so nothing is required for it.
- Kosaraju.Kosaraju.GetSccGroup: requires the group to have a member list. The source unwraps the lookup there and would panic otherwise.
- DirGraph.DirectedGraph.VerifyPath: requires a non-empty path. The source computes `path.len() - 1` on an unsigned length, which would underflow on an empty path. When the path has a pair, the first vertex must exist, because the source unwraps it.
- The graph is only read while the engine borrows it. This follows from the engine methods' `modifies` clauses, which never name the graph. The engine records the graph's maps as ghost constants and requires that they are still equal to the graph's.
