/**
 * ref_arena.rs: a `Graph` that registers vertices by name as edges are added,
 * counts edges, and traverses every registered vertex by trying each one as
 * a root in insertion order.
 *
 * The vertices of a graph live in a `NodeArena.Arena`; the graph keeps the
 * arena indices of the registered vertices (`vertices`), their names
 * (`names`) and the edge counter (`edgeNum`). The ghost `history` records the
 * `add_edge` calls made so far, for the count accounting.
 */
module RefArena {
  import opened NodeArena
  import opened Traversal
  import Scenario

  /** The names of the vertices at the arena indices `vs`. */
  function VertexNames(g: seq<Node>, vs: seq<nat>): set<string>
    requires InArena(g, vs)
  {
    if vs == [] then {}
    else VertexNames(g, vs[..|vs| - 1]) + {g[vs[|vs| - 1]].name}
  }

  lemma {:induction false} VertexNamesMember(g: seq<Node>, vs: seq<nat>, x: string)
    requires InArena(g, vs)
    ensures x in VertexNames(g, vs) <==> exists j :: 0 <= j < |vs| && g[vs[j]].name == x
  {
    if vs != [] {
      var init := vs[..|vs| - 1];
      VertexNamesMember(g, init, x);
      if exists j :: 0 <= j < |vs| && g[vs[j]].name == x {
        var j :| 0 <= j < |vs| && g[vs[j]].name == x;
        if j < |init| {
          assert init[j] == vs[j];
        }
      }
      if exists j :: 0 <= j < |init| && g[init[j]].name == x {
        var j :| 0 <= j < |init| && g[init[j]].name == x;
        assert vs[j] == init[j];
      }
    }
  }

  /** No two of the vertices at `vs` share a name. */
  predicate DistinctNames(g: seq<Node>, vs: seq<nat>)
    requires InArena(g, vs)
  {
    forall i, j :: 0 <= i < j < |vs| ==> g[vs[i]].name != g[vs[j]].name
  }

  /** Distinctly named vertices have as many names as vertices. */
  lemma {:induction false} VertexNamesCard(g: seq<Node>, vs: seq<nat>)
    requires InArena(g, vs) && DistinctNames(g, vs)
    ensures |VertexNames(g, vs)| == |vs|
  {
    if vs != [] {
      var init := vs[..|vs| - 1];
      VertexNamesCard(g, init);
      var x := g[vs[|vs| - 1]].name;
      VertexNamesMember(g, init, x);
      forall j | 0 <= j < |init| ensures g[init[j]].name != x {
        assert init[j] == vs[j];
      }
    }
  }

  /** Renaming-free arena changes keep the names of `vs`. */
  lemma {:induction false} VertexNamesSame(g: seq<Node>, h: seq<Node>, vs: seq<nat>)
    requires InArena(g, vs) && |h| == |g|
    requires forall u :: 0 <= u < |g| ==> h[u].name == g[u].name
    ensures VertexNames(h, vs) == VertexNames(g, vs)
  {
    if vs != [] {
      VertexNamesSame(g, h, vs[..|vs| - 1]);
    }
  }

  /** Every endpoint of the recorded edges is a vertex of the arena. */
  predicate EndpointsIn(g: seq<Node>, history: seq<(nat, nat)>) {
    forall k :: 0 <= k < |history| ==> history[k].0 < |g| && history[k].1 < |g|
  }

  /** The names of all endpoints of the recorded edges. */
  function EndpointNames(g: seq<Node>, history: seq<(nat, nat)>): set<string>
    requires EndpointsIn(g, history)
  {
    if history == [] then {}
    else
      var last := history[|history| - 1];
      EndpointNames(g, history[..|history| - 1]) + {g[last.0].name, g[last.1].name}
  }

  lemma {:induction false} EndpointNamesSame(g: seq<Node>, h: seq<Node>, history: seq<(nat, nat)>)
    requires EndpointsIn(g, history) && |h| == |g|
    requires forall u :: 0 <= u < |g| ==> h[u].name == g[u].name
    ensures EndpointNames(h, history) == EndpointNames(g, history)
  {
    if history != [] {
      EndpointNamesSame(g, h, history[..|history| - 1]);
    }
  }

  /** The graph-level traversal: try `roots[i..]` in order, all sharing one
      `seen` set, and stop as soon as `seen` has `length` names. */
  function Drive(order: Order, g: seq<Node>, roots: seq<nat>, i: nat, seen: set<string>, length: nat): Walk
    requires WellFormed(g) && InArena(g, roots) && i <= |roots|
    decreases |roots| - i
  {
    if i == |roots| then Walk([], seen)
    else
      var first := Traverse(order, g, roots[i], seen);
      if |first.seen| >= length then first
      else
        var rest := Drive(order, g, roots, i + 1, first.seen, length);
        Walk(first.trace + rest.trace, rest.seen)
  }

  /** When every vertex reachable from a root has a registered name and the
      roots are the registered vertices, the drive reports every registered
      name exactly once, whether or not it stops early. */
  lemma {:induction false} DriveCovers(order: Order, g: seq<Node>, roots: seq<nat>, i: nat, seen: set<string>, names: set<string>)
    requires WellFormed(g) && InArena(g, roots) && i <= |roots|
    requires names == VertexNames(g, roots) && Closed(g, {}, names)
    requires seen <= names
    requires forall j :: 0 <= j < i ==> g[roots[j]].name in seen
    ensures var w := Drive(order, g, roots, i, seen, |names|);
      && w.seen == names
      && w.seen == seen + Elems(w.trace)
      && Distinct(w.trace)
      && Elems(w.trace) !! seen
    decreases |roots| - i
  {
    if i == |roots| {
      RootsSeen(g, roots, seen);
    } else {
      var v := roots[i];
      var first := Traverse(order, g, v, seen);
      FirstWithin(order, g, roots, i, seen, names);
      if |first.seen| >= |names| {
        SubsetFull(first.seen, names);
        assert Drive(order, g, roots, i, seen, |names|) == first;
      } else {
        assert forall j :: 0 <= j < i + 1 ==> g[roots[j]].name in first.seen;
        DriveCovers(order, g, roots, i + 1, first.seen, names);
        var rest := Drive(order, g, roots, i + 1, first.seen, |names|);
        JoinWalks(seen, first, rest);
      }
    }
  }

  /** One iteration of the graph-level loop: the root's walk moves to the
      reported prefix, and the drive either stops there (once `seen` holds
      `length` names) or goes on with the next root. */
  lemma DriveStep(order: Order, g: seq<Node>, roots: seq<nat>, i: nat, seen: set<string>, length: nat, trace: seq<string>)
    requires WellFormed(g) && InArena(g, roots) && i < |roots|
    ensures var first := Traverse(order, g, roots[i], seen);
      var w := Resume(trace, Drive(order, g, roots, i, seen, length));
      && (|first.seen| >= length ==> w == Resume(trace, first))
      && (|first.seen| < length ==> w == Resume(trace + first.trace, Drive(order, g, roots, i + 1, first.seen, length)))
  {
    var first := Traverse(order, g, roots[i], seen);
    if |first.seen| < length {
      var rest := Drive(order, g, roots, i + 1, first.seen, length);
      assert trace + (first.trace + rest.trace) == (trace + first.trace) + rest.trace;
    }
  }

  /** Two walks run one after the other, sharing `seen`, compose. */
  lemma JoinWalks(seen: set<string>, first: Walk, rest: Walk)
    requires first.seen == seen + Elems(first.trace) && Distinct(first.trace) && Elems(first.trace) !! seen
    requires rest.seen == first.seen + Elems(rest.trace) && Distinct(rest.trace) && Elems(rest.trace) !! first.seen
    ensures var w := Walk(first.trace + rest.trace, rest.seen);
      w.seen == seen + Elems(w.trace) && Distinct(w.trace) && Elems(w.trace) !! seen
  {
    DistinctConcat(first.trace, rest.trace);
  }

  lemma RootsSeen(g: seq<Node>, roots: seq<nat>, seen: set<string>)
    requires InArena(g, roots)
    requires forall j :: 0 <= j < |roots| ==> g[roots[j]].name in seen
    ensures VertexNames(g, roots) <= seen
  {
    forall x | x in VertexNames(g, roots) ensures x in seen {
      VertexNamesMember(g, roots, x);
    }
  }

  /** One root's traversal stays inside the registered names. */
  lemma FirstWithin(order: Order, g: seq<Node>, roots: seq<nat>, i: nat, seen: set<string>, names: set<string>)
    requires WellFormed(g) && InArena(g, roots) && i < |roots|
    requires names == VertexNames(g, roots) && Closed(g, {}, names)
    requires seen <= names
    ensures var w := Traverse(order, g, roots[i], seen);
      && w.seen <= names
      && w.seen == seen + Elems(w.trace)
      && Distinct(w.trace)
      && Elems(w.trace) !! seen
      && g[roots[i]].name in w.seen
  {
    var v := roots[i];
    VertexNamesMember(g, roots, g[v].name);
    TraverseFacts(order, g, v, seen);
    ClosedCovers(g, {}, names, v);
    ReachMono(g, {}, seen, v);
  }

  /** `Graph` of ref_arena.rs. */
  class Graph {
    var vertices: seq<nat>
    var names: set<string>
    var edgeNum: nat
    ghost var history: seq<(nat, nat)>

    /** The graph invariant, relative to the arena its vertices live in:
        vertices and names correspond one to one, every edge out of a
        registered name leads to a registered name, a vertex whose name is
        not registered has no edges yet, and the counters agree with the
        `add_edge` calls made so far. */
    ghost predicate Valid(nodes: seq<Node>)
      reads this
    {
      && WellFormed(nodes)
      && InArena(nodes, vertices)
      && names == VertexNames(nodes, vertices)
      && DistinctNames(nodes, vertices)
      && Closed(nodes, {}, names)
      && (forall u :: 0 <= u < |nodes| && nodes[u].name !in names ==> nodes[u].edges == [])
      && edgeNum == |history|
      && EndpointsIn(nodes, history)
      && names == EndpointNames(nodes, history)
    }

    /** `Graph::new`: no vertices, no edges. */
    constructor ()
      ensures vertices == [] && names == {} && edgeNum == 0 && history == []
    {
      vertices, names, edgeNum := [], {}, 0;
      history := [];
    }

    /** `num_vertices`. */
    function NumVertices(): nat
      reads this
    {
      |vertices|
    }

    /** `num_edges`. */
    function NumEdges(): nat
      reads this
    {
      edgeNum
    }

    /** `add_vertices`: register a vertex and its name, unconditionally. */
    method AddVertices(arena: Arena, node: nat)
      requires node < |arena.nodes|
      modifies this
      ensures vertices == old(vertices) + [node]
      ensures names == old(names) + {arena.nodes[node].name}
      ensures edgeNum == old(edgeNum) && history == old(history)
    {
      vertices := vertices + [node];
      names := names + {arena.nodes[node].name};
    }

    /** `add_edge`: always push the edge and bump the counter, then register
        `start` and then `end`, each only if its name is new. */
    method AddEdge(arena: Arena, start: nat, end: nat)
      requires Valid(arena.nodes) && start < |arena.nodes| && end < |arena.nodes|
      modifies this, arena
      ensures arena.nodes == AppendEdge(old(arena.nodes), start, end)
      ensures edgeNum == old(edgeNum) + 1 && history == old(history) + [(start, end)]
      ensures var s, e := old(arena.nodes[start].name), old(arena.nodes[end].name);
        && vertices == old(vertices) + (if s in old(names) then [] else [start])
                                     + (if e in old(names) + {s} then [] else [end])
        && names == old(names) + {s, e}
      ensures old(|vertices|) <= |vertices| <= old(|vertices|) + 2
      ensures Valid(arena.nodes)
    {
      ghost var g := arena.nodes;
      arena.Push(start, end);
      edgeNum := edgeNum + 1;
      history := history + [(start, end)];
      if arena.nodes[start].name !in names {
        AddVertices(arena, start);
      }
      if arena.nodes[end].name !in names {
        AddVertices(arena, end);
      }
      AddEdgeKeepsValid(g, arena.nodes, start, end, old(vertices), vertices, old(names), names, old(history));
    }

    /** `Graph::dfs_traverse`. */
    method DfsTraverse(arena: Arena) returns (trace: seq<string>)
      requires Valid(arena.nodes)
      ensures trace == Drive(DepthFirst, arena.nodes, vertices, 0, {}, NumVertices()).trace
      ensures Distinct(trace) && Elems(trace) == names
    {
      var g := arena.nodes;
      var length := NumVertices();
      var seen: set<string> := {};
      trace := [];
      CoversAll(DepthFirst, g);
      for i := 0 to |vertices|
        invariant Drive(DepthFirst, g, vertices, 0, {}, length) == Resume(trace, Drive(DepthFirst, g, vertices, i, seen, length))
      {
        DriveStep(DepthFirst, g, vertices, i, seen, length, trace);
        var t, s := Traversal.DfsTraverse(g, vertices[i], seen);
        assert Walk(t, s) == Traverse(DepthFirst, g, vertices[i], seen);
        trace, seen := trace + t, s;
        if |seen| >= length {
          return;
        }
      }
      assert trace + [] == trace;
    }

    /** `Graph::bfs_traverse`. */
    method BfsTraverse(arena: Arena) returns (trace: seq<string>)
      requires Valid(arena.nodes)
      ensures trace == Drive(BreadthFirst, arena.nodes, vertices, 0, {}, NumVertices()).trace
      ensures Distinct(trace) && Elems(trace) == names
    {
      var g := arena.nodes;
      var length := NumVertices();
      var seen: set<string> := {};
      trace := [];
      CoversAll(BreadthFirst, g);
      for i := 0 to |vertices|
        invariant Drive(BreadthFirst, g, vertices, 0, {}, length) == Resume(trace, Drive(BreadthFirst, g, vertices, i, seen, length))
      {
        DriveStep(BreadthFirst, g, vertices, i, seen, length, trace);
        var t, s := Traversal.BfsTraverse(g, vertices[i], seen);
        assert Walk(t, s) == Traverse(BreadthFirst, g, vertices[i], seen);
        trace, seen := trace + t, s;
        if |seen| >= length {
          return;
        }
      }
      assert trace + [] == trace;
    }

    /** Full coverage: both graph-level traversals report every registered
        vertex exactly once. */
    lemma CoversAll(order: Order, g: seq<Node>)
      requires Valid(g)
      ensures var w := Drive(order, g, vertices, 0, {}, NumVertices());
        Distinct(w.trace) && Elems(w.trace) == names
    {
      VertexNamesCard(g, vertices);
      DriveCovers(order, g, vertices, 0, {}, names);
    }

    /** Count accounting: after the recorded `add_edge` calls, `num_edges` is
        their number and `num_vertices` the number of distinct endpoint
        names they mention. */
    lemma CountAccounting(g: seq<Node>)
      requires Valid(g)
      ensures NumEdges() == |history|
      ensures NumVertices() == |names| == |EndpointNames(g, history)|
    {
      VertexNamesCard(g, vertices);
    }
  }

  /** The invariant step of `add_edge`, stated on the values before and after. */
  lemma AddEdgeKeepsValid(g: seq<Node>, h: seq<Node>, start: nat, end: nat,
                          vs: seq<nat>, vs': seq<nat>, names: set<string>, names': set<string>,
                          history: seq<(nat, nat)>)
    requires start < |g| && end < |g| && WellFormed(g)
    requires InArena(g, vs) && names == VertexNames(g, vs) && DistinctNames(g, vs)
    requires Closed(g, {}, names)
    requires forall u :: 0 <= u < |g| && g[u].name !in names ==> g[u].edges == []
    requires EndpointsIn(g, history) && names == EndpointNames(g, history)
    requires h == AppendEdge(g, start, end)
    requires var s, e := g[start].name, g[end].name;
      vs' == vs + (if s in names then [] else [start]) + (if e in names + {s} then [] else [end])
    requires names' == names + {g[start].name, g[end].name}
    ensures WellFormed(h) && InArena(h, vs') && names' == VertexNames(h, vs') && DistinctNames(h, vs')
    ensures Closed(h, {}, names')
    ensures forall u :: 0 <= u < |h| && h[u].name !in names' ==> h[u].edges == []
    ensures EndpointsIn(h, history + [(start, end)]) && names' == EndpointNames(h, history + [(start, end)])
  {
    AppendEdgeWellFormed(g, start, end);
    RegisterEndpoints(g, h, start, end, vs, vs', names, names');
    AppendEdgeClosed(g, h, start, end, names, names');
    RecordEdge(g, h, start, end, history);
  }

  /** Recording one more `add_edge` call adds its two endpoint names. */
  lemma RecordEdge(g: seq<Node>, h: seq<Node>, start: nat, end: nat, history: seq<(nat, nat)>)
    requires start < |g| && end < |g| && EndpointsIn(g, history)
    requires h == AppendEdge(g, start, end)
    ensures EndpointsIn(h, history + [(start, end)])
    ensures EndpointNames(h, history + [(start, end)]) == EndpointNames(g, history) + {g[start].name, g[end].name}
  {
    var hist := history + [(start, end)];
    assert hist[..|hist| - 1] == history;
    EndpointNamesSame(g, h, history);
  }

  /** Registering the endpoints whose names are new keeps vertices and names
      in one-to-one correspondence. */
  lemma RegisterEndpoints(g: seq<Node>, h: seq<Node>, start: nat, end: nat,
                          vs: seq<nat>, vs': seq<nat>, names: set<string>, names': set<string>)
    requires start < |g| && end < |g| && h == AppendEdge(g, start, end)
    requires InArena(g, vs) && names == VertexNames(g, vs) && DistinctNames(g, vs)
    requires var s, e := g[start].name, g[end].name;
      vs' == vs + (if s in names then [] else [start]) + (if e in names + {s} then [] else [end])
    requires names' == names + {g[start].name, g[end].name}
    ensures InArena(h, vs') && names' == VertexNames(h, vs') && DistinctNames(h, vs')
  {
    var s, e := g[start].name, g[end].name;
    var mid := vs + (if s in names then [] else [start]);
    RegisterOne(g, vs, start, names);
    var names1 := VertexNames(g, mid);
    assert names1 == names + {s};
    RegisterOne(g, mid, end, names1);
    assert vs' == mid + (if e in names1 then [] else [end]);
    assert names1 + {e} == names';
    VertexNamesSame(g, h, vs');
  }

  lemma RegisterOne(g: seq<Node>, vs: seq<nat>, u: nat, names: set<string>)
    requires u < |g| && InArena(g, vs) && names == VertexNames(g, vs) && DistinctNames(g, vs)
    ensures var vs' := vs + (if g[u].name in names then [] else [u]);
      InArena(g, vs') && VertexNames(g, vs') == names + {g[u].name} && DistinctNames(g, vs')
  {
    if g[u].name !in names {
      var vs' := vs + [u];
      assert vs'[..|vs'| - 1] == vs;
      forall j | 0 <= j < |vs| ensures g[vs[j]].name != g[u].name {
        VertexNamesMember(g, vs, g[u].name);
      }
      assert forall j :: 0 <= j < |vs| ==> vs'[j] == vs[j];
    } else {
      assert vs + [] == vs;
    }
  }

  /** Pushing an edge between two registered names keeps every edge out of a
      registered name inside the registered names. */
  lemma AppendEdgeClosed(g: seq<Node>, h: seq<Node>, start: nat, end: nat, names: set<string>, names': set<string>)
    requires start < |g| && end < |g| && WellFormed(g)
    requires Closed(g, {}, names)
    requires forall u :: 0 <= u < |g| && g[u].name !in names ==> g[u].edges == []
    requires h == AppendEdge(g, start, end)
    requires names' == names + {g[start].name, g[end].name}
    ensures Closed(h, {}, names')
    ensures forall u :: 0 <= u < |h| && h[u].name !in names' ==> h[u].edges == []
  {
    AppendEdgeWellFormed(g, start, end);
    forall u, j | 0 <= u < |h| && h[u].name in names' && 0 <= j < |h[u].edges|
      ensures h[h[u].edges[j]].name in names'
    {
      if u == start && j == |g[start].edges| {
        assert h[u].edges[j] == end;
      } else {
        assert h[u].edges[j] == g[u].edges[j];
      }
    }
  }

  /** The topology built by `init_graph` over six names: `SixNodes` plus
      the edge from the fourth vertex to the fifth. */
  function SevenNodes(a: string, b: string, c: string, d: string, e: string, f: string): seq<Node> {
    [Node(a, [1, 2, 3]), Node(b, []), Node(c, [4, 5, 0]),
     Node(d, [4]), Node(e, []), Node(f, [])]
  }

  /** The arena built by `init_graph`: A->B, A->C, A->D, C->E, C->F, C->A, D->E. */
  function SevenEdges(): seq<Node> {
    SevenNodes("A", "B", "C", "D", "E", "F")
  }

  /** `init_graph`: allocate A..F, then add A->B, A->C, A->D, C->E, C->F,
      C->A and D->E through the graph. */
  method InitGraph() returns (arena: Arena, graph: Graph)
    ensures fresh(arena) && fresh(graph)
    ensures arena.nodes == SevenEdges()
    ensures graph.Valid(arena.nodes)
    ensures graph.vertices == [0, 1, 2, 3, 4, 5]
    ensures graph.names == {"A", "B", "C", "D", "E", "F"}
    ensures graph.NumVertices() == 6 && graph.NumEdges() == 7
  {
    arena := new Arena();
    var a := arena.Alloc("A");
    var b := arena.Alloc("B");
    var c := arena.Alloc("C");
    var d := arena.Alloc("D");
    var e := arena.Alloc("E");
    var f := arena.Alloc("F");
    graph := new Graph();
    InitialStage(arena, graph);
    AddScenarioEdges(arena, graph, 0);
    FinalStage();
  }

  /** The six vertices `init_graph` allocates, before any edge. */
  function Unlinked(): seq<Node> {
    [Node("A", []), Node("B", []), Node("C", []), Node("D", []), Node("E", []), Node("F", [])]
  }

  /** The edges `init_graph` adds, in order. */
  function ScenarioEdges(): (r: seq<(nat, nat)>)
    ensures |r| == 7 && forall k :: 0 <= k < 7 ==> r[k].0 < 6 && r[k].1 < 6
  {
    [(0, 1), (0, 2), (0, 3), (2, 4), (2, 5), (2, 0), (3, 4)]
  }

  /** The arena after the first `k` edges of `init_graph`. */
  function StageNodes(k: nat): (r: seq<Node>)
    requires k <= 7
    ensures |r| == 6
  {
    if k == 0 then Unlinked()
    else AppendEdge(StageNodes(k - 1), ScenarioEdges()[k - 1].0, ScenarioEdges()[k - 1].1)
  }

  /** The registered names after the first `k` edges. */
  function StageNames(k: nat): set<string>
    requires k <= 7
  {
    if k == 0 then {}
    else
      var (s, e) := ScenarioEdges()[k - 1];
      StageNames(k - 1) + {StageNodes(k - 1)[s].name, StageNodes(k - 1)[e].name}
  }

  /** The registered vertices after the first `k` edges: each endpoint whose
      name was not yet registered, start before end. */
  function StageVertices(k: nat): seq<nat>
    requires k <= 7
  {
    if k == 0 then []
    else
      var (s, e) := ScenarioEdges()[k - 1];
      var g, names := StageNodes(k - 1), StageNames(k - 1);
      StageVertices(k - 1) + (if g[s].name in names then [] else [s])
        + (if g[e].name in names + {g[s].name} then [] else [e])
  }

  /** The graph state after the first `k` edges of `init_graph`. */
  ghost predicate AtStage(arena: Arena, graph: Graph, k: nat)
    requires k <= 7
    reads arena, graph
  {
    && arena.nodes == StageNodes(k)
    && graph.Valid(arena.nodes)
    && graph.vertices == StageVertices(k)
    && graph.names == StageNames(k)
    && graph.edgeNum == k
  }

  method InitialStage(arena: Arena, graph: Graph)
    requires arena.nodes == Unlinked()
    requires graph.vertices == [] && graph.names == {} && graph.edgeNum == 0 && graph.history == []
    ensures AtStage(arena, graph, 0)
  {
    assert WellFormed(arena.nodes);
    assert forall u :: 0 <= u < |arena.nodes| ==> arena.nodes[u].edges == [];
  }

  /** The `add_edge` calls of `init_graph` from the `k`-th on, in order. */
  method AddScenarioEdges(arena: Arena, graph: Graph, k: nat)
    requires k <= 7 && AtStage(arena, graph, k)
    modifies arena, graph
    ensures AtStage(arena, graph, 7)
    decreases 7 - k
  {
    if k < 7 {
      var (start, end) := ScenarioEdges()[k];
      graph.AddEdge(arena, start, end);
      AddScenarioEdges(arena, graph, k + 1);
    }
  }

  /** After all seven edges: the `SevenEdges` arena with A..F registered in
      allocation order. */
  lemma FinalStage()
    ensures StageNodes(7) == SevenEdges()
    ensures StageVertices(7) == [0, 1, 2, 3, 4, 5]
    ensures StageNames(7) == {"A", "B", "C", "D", "E", "F"}
  {
    Stage7();
  }

  lemma Stage1()
    ensures StageNodes(1) == [Node("A", [1]), Node("B", []), Node("C", []), Node("D", []), Node("E", []), Node("F", [])]
    ensures StageNames(1) == {"A", "B"}
    ensures StageVertices(1) == [0, 1]
  {
    LetterNames();
    assert StageNodes(1)[0].edges == [1];
  }

  lemma Stage2()
    ensures StageNodes(2) == [Node("A", [1, 2]), Node("B", []), Node("C", []), Node("D", []), Node("E", []), Node("F", [])]
    ensures StageNames(2) == {"A", "B", "C"}
    ensures StageVertices(2) == [0, 1, 2]
  {
    Stage1();
    LetterNames();
    assert StageNodes(2)[0].edges == [1, 2];
  }

  lemma Stage3()
    ensures StageNodes(3) == [Node("A", [1, 2, 3]), Node("B", []), Node("C", []), Node("D", []), Node("E", []), Node("F", [])]
    ensures StageNames(3) == {"A", "B", "C", "D"}
    ensures StageVertices(3) == [0, 1, 2, 3]
  {
    Stage2();
    LetterNames();
    assert StageNodes(3)[0].edges == [1, 2, 3];
  }

  lemma Stage4()
    ensures StageNodes(4) == [Node("A", [1, 2, 3]), Node("B", []), Node("C", [4]), Node("D", []), Node("E", []), Node("F", [])]
    ensures StageNames(4) == {"A", "B", "C", "D", "E"}
    ensures StageVertices(4) == [0, 1, 2, 3, 4]
  {
    Stage3();
    LetterNames();
    assert StageNodes(4)[2].edges == [4];
  }

  lemma Stage5()
    ensures StageNodes(5) == [Node("A", [1, 2, 3]), Node("B", []), Node("C", [4, 5]), Node("D", []), Node("E", []), Node("F", [])]
    ensures StageNames(5) == {"A", "B", "C", "D", "E", "F"}
    ensures StageVertices(5) == [0, 1, 2, 3, 4, 5]
  {
    Stage4();
    LetterNames();
    assert StageNodes(5)[2].edges == [4, 5];
  }

  lemma Stage6()
    ensures StageNodes(6) == [Node("A", [1, 2, 3]), Node("B", []), Node("C", [4, 5, 0]), Node("D", []), Node("E", []), Node("F", [])]
    ensures StageNames(6) == {"A", "B", "C", "D", "E", "F"}
    ensures StageVertices(6) == [0, 1, 2, 3, 4, 5]
  {
    Stage5();
    LetterNames();
    assert StageNodes(6)[2].edges == [4, 5, 0];
  }

  lemma Stage7()
    ensures StageNodes(7) == [Node("A", [1, 2, 3]), Node("B", []), Node("C", [4, 5, 0]), Node("D", [4]), Node("E", []), Node("F", [])]
    ensures StageNames(7) == {"A", "B", "C", "D", "E", "F"}
    ensures StageVertices(7) == [0, 1, 2, 3, 4, 5]
  {
    Stage6();
    LetterNames();
    assert StageNodes(7)[3].edges == [4];
  }

  /** Depth-first over the `init_graph` graph: A, B, C, E, F, D. */
  lemma ScenarioDfs()
    ensures Drive(DepthFirst, SevenEdges(), [0, 1, 2, 3, 4, 5], 0, {}, 6).trace
      == ["A", "B", "C", "E", "F", "D"]
  {
    LetterNames();
    DriveSeven(DepthFirst, "A", "B", "C", "D", "E", "F");
  }

  /** Breadth-first over the `init_graph` graph: A, B, C, D, E, F. */
  lemma ScenarioBfs()
    ensures Drive(BreadthFirst, SevenEdges(), [0, 1, 2, 3, 4, 5], 0, {}, 6).trace
      == ["A", "B", "C", "D", "E", "F"]
  {
    LetterNames();
    DriveSeven(BreadthFirst, "A", "B", "C", "D", "E", "F");
  }

  /** Whatever the six distinct names, the first root's walk reaches all six
      vertices, so the drive stops after it. */
  lemma DriveSeven(order: Order, a: string, b: string, c: string, d: string, e: string, f: string)
    requires DistinctSix(a, b, c, d, e, f)
    ensures WellFormed(SevenNodes(a, b, c, d, e, f))
    ensures Drive(order, SevenNodes(a, b, c, d, e, f), [0, 1, 2, 3, 4, 5], 0, {}, 6).trace
      == if order == DepthFirst then [a, b, c, e, f, d] else [a, b, c, d, e, f]
  {
    var g := SevenNodes(a, b, c, d, e, f);
    assert Scenario.InitShape(g, a, b, c, d, e, f);
    Scenario.ShapeWellFormed(g, a, b, c, d, e, f);
    Scenario.SixNames(a, b, c, d, e, f);
    if order == DepthFirst {
      Scenario.DfsFromA(g, a, b, c, d, e, f);
    } else {
      Scenario.BfsFromA(g, a, b, c, d, e, f);
    }
    DriveStopsAfterFirst(order, g, [0, 1, 2, 3, 4, 5], 6);
  }

  /** A first root whose walk already sees `length` names is the whole drive. */
  lemma DriveStopsAfterFirst(order: Order, g: seq<Node>, roots: seq<nat>, length: nat)
    requires WellFormed(g) && InArena(g, roots) && roots != []
    requires |Traverse(order, g, roots[0], {}).seen| >= length
    ensures Drive(order, g, roots, 0, {}, length) == Traverse(order, g, roots[0], {})
  {
  }
}
