# Graph traversal in three ownership styles, modelled in Dafny

The repository's `graphs` crate builds the same small directed graph three
times, each time with a different way of letting vertices point at each
other: `typed_arena` references behind `RefCell` (ref_arena.rs), `Rc<RefCell<Node>>`
(rc_graph.rs), and `typed_arena` references behind `UnsafeCell`
(ref_graph.rs). Each vertex has a name and an ordered list of edges. Each
variant walks the graph depth-first (pre-order, children in edge order) and
breadth-first, and every walk shares one `seen` set of names so that cycles
end.

The model replaces every reference scheme with one arena: a vertex is
`Node(name, edges)` at an index of a `seq<Node>`, and an edge is the index
of its target.

- **Arena.** The class `NodeArena.Arena` holds that sequence. `Alloc` stands
  for `Node::new`, and `Push` for pushing onto a vertex's edge list.
- **Callback.** The callback `f` becomes the trace of names it is called
  with, in call order.
- **`seen`.** The `&mut HashSet` becomes a `set<string>` passed in and
  returned.
- **Method and function pairs.** Each traversal is an imperative method
  proved equal to a recursive specification function. The properties are
  proved about those functions:
  - at-most-once reporting;
  - exact accounting of `seen`;
  - soundness and completeness against reachability through unseen vertices.

Modules:

- `NodeArena` (arena.dfy): vertices, the arena class, edge pushes, `first`,
  and reachability (`ReachableNames`, `Closed`).
- `Traversal` (traversal.dfy) holds the node-level DFS and the BFS that checks
  `seen` again after each dequeue.
  - ref_arena.rs and ref_graph.rs share all of it.
  - rc_graph.rs shares only the DFS.
- `Scenario` (scenario.dfy): the six-vertex `init` graph over any six
  distinct names, and the traversal results on it.
- `RefArena` (ref_arena.dfy): the `Graph` class of ref_arena.rs, its
  graph invariant, the graph-level traversals and `init_graph`.
- `RcGraph` and `RcScenario` (rc_graph.dfy): the BFS of rc_graph.rs.
  - It reports the start without checking `seen`.
  - It reports each dequeued vertex without checking `seen` again.
  - Its termination is proved with a queue weight.
  - The module also holds its `init` scenario, and a four-vertex diamond on
    which that BFS reports a vertex twice.
- `RefGraph` (ref_graph.dfy): `init` of ref_graph.rs written into a
  caller-owned arena, and what the traversals and `first` give on it.

## Model

| member | source | states |
|---|---|---|
| NodeArena.Arena.Alloc | graphs/src/ref_arena.rs:18-23 | `Node::new`: the new vertex gets the next index, carries the given name and has no edges; earlier vertices are unchanged |
| NodeArena.Arena.Push | graphs/src/ref_arena.rs:91 | pushing an edge changes the arena exactly as `AppendEdge` describes |
| NodeArena.AppendEdge | graphs/src/ref_arena.rs:91 | the target is appended at the end of the start's edge list, duplicates and self-loops included; every name and every other vertex stay as they were |
| NodeArena.AppendEdgeWellFormed | graphs/src/ref_arena.rs:91 | an edge between two vertices of the arena keeps every edge target inside the arena |
| NodeArena.First | graphs/src/rc_graph.rs:65-67 | `first` (also ref_graph.rs:62-64) is defined only for a non-empty edge list; it returns a vertex of the arena, and that vertex heads the edge list |
| Traversal.DfsTraverse | graphs/src/ref_arena.rs:25-37 | the recursive `Node::dfs_traverse`, which ref_graph.rs:19-33 and rc_graph.rs:19-31 repeat, returns the trace and the `seen` set of the pre-order specification `Dfs`: the start first, then each edge target's traversal in edge-list order, each subtree finishing before the next sibling starts |
| Traversal.DfsFacts | graphs/src/ref_arena.rs:29-33 | a start that is already seen reports nothing and leaves `seen` unchanged; otherwise its name is reported first; the reported names are distinct and were not seen before; `seen` grows by exactly those names; the start ends up seen |
| Traversal.DfsSound | graphs/src/ref_arena.rs:32-36 | every reported name is reachable from the start along vertices whose names were not seen at entry |
| Traversal.DfsClosed | graphs/src/ref_arena.rs:34-36 | with unique names, no edge of a newly seen vertex leads to a name left unseen |
| Traversal.DfsExact | graphs/src/ref_arena.rs:25-37 | with unique names, the reported names are exactly the names reachable from the start through vertices not seen at entry |
| Traversal.DfsSecondIsFirst | graphs/src/ref_graph.rs:62-64 | when neither the start nor its `first` target is seen, the second name depth-first traversal reports is that of `first` |
| Traversal.UnseenTargetsFacts | graphs/src/ref_arena.rs:52-56 | what is enqueued is exactly the edge targets whose names are not in `seen`: every enqueued target has an unseen name, and every target with an unseen name is enqueued |
| Traversal.EnqueueUnseen | graphs/src/ref_arena.rs:52-56 | the inner loop appends, to the back of the queue, the targets whose names are unseen, in edge-list order |
| Traversal.BfsTraverse | graphs/src/ref_arena.rs:39-61 | `Node::bfs_traverse` (also ref_graph.rs:35-60) returns the trace and `seen` of the queue specification `Bfs`: pop the front; skip it if seen; otherwise report it, mark it and enqueue its unseen targets |
| Traversal.BfsLoopFacts | graphs/src/ref_arena.rs:43-60 | the loop reports each name at most once and only if unseen; `seen` grows by exactly the reported names; every vertex that was ever queued ends up seen, so the queue drains |
| Traversal.BfsFacts | graphs/src/ref_arena.rs:39-61 | from a single-entry queue: an already-seen start reports nothing; otherwise the start is reported first; names are reported once; `seen` grows by exactly them; the start ends up seen |
| Traversal.BfsSound | graphs/src/ref_arena.rs:49-56 | every reported name is reachable from the start through vertices not seen at entry |
| Traversal.BfsExact | graphs/src/ref_arena.rs:39-61 | with unique names, when the queue is empty the reported names are exactly the names reachable from the start through vertices not seen at entry |
| RefArena.Graph.constructor | graphs/src/ref_arena.rs:69-75 | `Graph::new`: no vertices, no names, edge counter 0 |
| RefArena.Graph.CountAccounting | graphs/src/ref_arena.rs:77-83 | in a valid graph, `num_edges` is the number of `add_edge` calls made, and `num_vertices` is the number of distinct names among their endpoints |
| RefArena.Graph.AddVertices | graphs/src/ref_arena.rs:85-88 | appends the vertex to `vertices` and adds its name to `names`, unconditionally; the edge counter is unchanged |
| RefArena.Graph.AddEdge | graphs/src/ref_arena.rs:90-99 | the edge is pushed and the counter goes up by exactly one; `start` is registered if its name is new, then `end` is registered if its name is still new; the vertex count grows by 0, 1 or 2; the graph invariant is kept |
| RefArena.AddEdgeKeepsValid | graphs/src/ref_arena.rs:90-99 | after `add_edge`, `vertices` and `names` still correspond one to one with no repeated name, every edge out of a registered vertex leads to a registered name, and the counters match the history |
| RefArena.DriveCovers | graphs/src/ref_arena.rs:105-112 | over registered roots whose reachable names are all registered: trying the roots in insertion order with one shared `seen`, and stopping once `seen` holds `length` names, reports every registered name exactly once, whether or not it stops early |
| RefArena.Graph.DfsTraverse | graphs/src/ref_arena.rs:101-113 | the graph-level DFS returns the trace of `Drive` in depth-first order, and that trace holds every registered name exactly once |
| RefArena.Graph.BfsTraverse | graphs/src/ref_arena.rs:115-127 | the graph-level BFS returns the trace of `Drive` in breadth-first order, and that trace holds every registered name exactly once |
| RefArena.Graph.CoversAll | graphs/src/ref_arena.rs:101-127 | in a valid graph, both graph-level traversals report every registered vertex exactly once |
| RefArena.InitGraph | graphs/src/ref_arena.rs:154-175 | `init_graph` builds the arena A->B, A->C, A->D, C->E, C->F, C->A, D->E; the graph registers A..F in that order (6 vertices) and counts 7 edges |
| RefArena.FinalStage | graphs/src/ref_arena.rs:167-173 | after the seven `add_edge` calls, the arena, the registered vertices (by index 0..5) and the registered names are those above |
| RefArena.ScenarioDfs | graphs/src/ref_arena.rs:186 | the graph-level DFS on the `init_graph` graph reports A, B, C, E, F, D |
| RefArena.ScenarioBfs | graphs/src/ref_arena.rs:188 | the graph-level BFS on the `init_graph` graph reports A, B, C, D, E, F |
| Scenario.BfsFromE | graphs/src/ref_arena.rs:49 | once D is reported, the queue may hold E twice; the second copy is skipped by the `seen` check, and the rest reports E, F |
| RcGraph.StepDecreases | graphs/src/rc_graph.rs:48-62 | one round of the rc_graph.rs loop makes the queue strictly lighter, so the loop ends even though a vertex can be queued several times |
| RcGraph.RcBfsTraverse | graphs/src/rc_graph.rs:34-63 | `Node::bfs_traverse` of rc_graph.rs returns the trace and `seen` of `RcBfs`: report and mark the start unconditionally, enqueue its unseen targets, then report and mark every dequeued vertex with no re-check, enqueueing its unseen targets |
| RcGraph.RcBfsFacts | graphs/src/rc_graph.rs:40-46 | the start is reported first and ends up seen even if it was seen already; next come the start's targets that were unseen, in edge-list order; `seen` grows by exactly the reported names |
| RcGraph.RcBfsLoopFacts | graphs/src/rc_graph.rs:49-54 | the loop reports every queued entry, once per copy and in queue order, before anything it enqueues; `seen` grows by exactly the reported names |
| RcGraph.RcBfsSound | graphs/src/rc_graph.rs:34-63 | every reported name is reachable from the start through vertices unseen at entry (the start itself aside) |
| RcGraph.RcBfsExact | graphs/src/rc_graph.rs:34-63 | with unique names and an unseen start, the set of reported names is exactly the set reachable from the start through unseen vertices |
| RcScenario.Init | graphs/src/rc_graph.rs:74-96 | `init` allocates A..F, pushes A->B, A->C, A->D and C->E, C->F, C->A, and returns A |
| RcScenario.InitDfs | graphs/src/rc_graph.rs:101-106 | on that graph, DFS from A reports A, B, C, E, F, D, and `first` of A is B |
| RcScenario.InitRcBfs | graphs/src/rc_graph.rs:103 | on that graph, the rc_graph.rs BFS from A reports A, B, C, D, E, F |
| RcScenario.DiamondRcBfs | graphs/src/rc_graph.rs:48-59 | on the diamond a->b, a->c, b->d, c->d, with any four distinct names, the rc_graph.rs BFS reports a, b, c, d, d |
| RcScenario.DiamondBfs | graphs/src/ref_arena.rs:45-57 | on the same diamond, the BFS with the post-dequeue check reports a, b, c, d |
| RcScenario.DiamondRepeats | graphs/src/rc_graph.rs:48-62 | with the names A..D, the rc_graph.rs trace A, B, C, D, D repeats a name, while the checked BFS gives A, B, C, D |
| RefGraph.Init | graphs/src/ref_graph.rs:71-91 | `init` appends A..F to the caller's arena, with the six edges as offsets from A's index, returns A's index, and leaves the arena's earlier vertices alone |
| RefGraph.FreshInit | graphs/src/ref_graph.rs:94-95 | in a fresh arena, `init` builds the six-vertex graph at indices 0..5 |
| RefGraph.InitTraversals | graphs/src/ref_graph.rs:93-100 | on that graph, DFS from A reports A, B, C, E, F, D, BFS reports A, B, C, D, E, F, and `first` of A is B |

## Left out

- The `main` functions, `foo`, and all `print!`/`println!` output. These are I/O. The callback is modelled as the trace it would be called with.
- `typed_arena`, lifetimes, and the `Rc`/`RefCell`/`UnsafeCell` borrow and aliasing mechanics. An index into one arena stands in for every reference.
- The model has no runtime borrow panics. None can occur on these call paths, and a borrow panic is not part of the traversal logic.
- The hashing internals of `HashSet` and the ring buffer of `VecDeque`. They are a Dafny `set` and a `seq` used as a queue.
- `usize` overflow of `edge_num`. The counter is an unbounded `nat`.
- graphs/src/ref_graph_generic_mod.rs is not part of this model. It does not compile, and its only behaviour is a DFS already covered.
- Commented-out code in ref_arena.rs (`first`, `foo`, `init`, and part of `main`) is not modelled.
- Traversal.DfsExact: holds only when vertex names are unique.
  - The source keys `seen` by name.
  - Two vertices sharing a name make the second one look visited, so what lies beyond it can be missed.
- The same unique-names premise applies to Traversal.DfsClosed, Traversal.BfsExact and RcGraph.RcBfsExact.
- Traversal.BfsFacts: states only that the start is reported first. The breadth-first level order beyond that is not stated as a separate lemma. It is given only by the queue specification `BfsLoop`, which `BfsTraverse` is proved equal to.
- RcGraph.RcBfsExact: also requires the start to be unseen at entry, because the rc_graph.rs BFS reports a seen start anyway. RcGraph.RcBfsSound covers the general case.
- RefArena.Graph.AddEdge: requires the graph invariant `Valid`.
  - One of its clauses says a vertex whose name is not registered has no edges yet, i.e. every edge in the arena came in through this graph.
  - The source accepts any two nodes. Nodes shared with another graph, or given edges some other way, are not modelled.
- RefArena.Graph.DfsTraverse and RefArena.Graph.BfsTraverse: also require `Valid`, for the same reason.
- NodeArena.First: requires a non-empty edge list instead of modelling the index-out-of-bounds panic that `first` raises on an empty one (rc_graph.rs:66, ref_graph.rs:63). The panic aborts the program, and the only call site, in `main`, applies `first` to A, which has three edges.
- RefArena.Graph.NumVertices and RefArena.Graph.NumEdges are plain getters. What they report is stated by RefArena.Graph.CountAccounting.
- `add_edge` history is a ghost field. It exists only to state count accounting.
- RefArena.InitGraph adds its seven edges through a recursive driver over the edge table. The source writes seven straight-line calls. The order and the effect are the same.
- The three programs each declare their own `Node` type. Here they share one vertex type and one arena.
  - Only ref_arena.rs has a `Graph`.
  - rc_graph.rs allocates its own nodes, so `RcScenario.Init` creates a fresh arena.
  - ref_graph.rs receives its arena from the caller, so `RefGraph.Init` appends to one.

## Findings

| source | as written | input that shows it | evidently intended | confidence | as-written member | corrected member |
|---|---|---|---|---|---|---|
| graphs/src/rc_graph.rs:48-59 | a dequeued vertex is reported and marked with no `seen` check; the check happens only when enqueueing, so a vertex enqueued by two parents before it is dequeued is reported twice | the diamond A->B, A->C, B->D, C->D from A: the trace is A, B, C, D, D | each reachable name is reported once, as in the BFS of ref_arena.rs and ref_graph.rs, which checks `seen` after dequeueing | not executed | RcScenario.DiamondRepeats | Traversal.BfsTraverse |
