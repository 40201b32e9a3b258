/**
 * The node-level traversals shared by ref_arena.rs and ref_graph.rs (whose
 * `Node::dfs_traverse` and `Node::bfs_traverse` are the same code over
 * different cells) and, for the depth-first one, rc_graph.rs.
 *
 * The callback `f` is modelled by the trace of names it is called with, in
 * call order; the `&mut HashSet` of seen names is passed in and returned.
 * Each traversal is a method proved equal to a specification function, and
 * the lemmas below state what the specification guarantees.
 */
module Traversal {
  import opened NodeArena

  /** What a traversal call leaves behind: the names reported to the
      callback, in order, and the final `seen` set. */
  datatype Walk = Walk(trace: seq<string>, seen: set<string>)

  /** What a traversal reports when it has reported `trace` so far and the
      rest comes from `w`. */
  function Resume(trace: seq<string>, w: Walk): Walk {
    Walk(trace + w.trace, w.seen)
  }

  /** The names of the arena not yet seen: the termination measure. */
  function Unseen(g: seq<Node>, seen: set<string>): set<string> {
    Names(g) - seen
  }

  // ---------------------------------------------------------------------
  // Depth-first, pre-order

  /** Pre-order depth-first traversal from `v`. */
  function Dfs(g: seq<Node>, v: nat, seen: set<string>): (w: Walk)
    requires WellFormed(g) && v < |g|
    ensures seen <= w.seen
    decreases Unseen(g, seen), 0, 0
  {
    var n := g[v].name;
    if n in seen then Walk([], seen)
    else
      NameInNames(g, v);
      var rest := DfsEdges(g, v, 0, seen + {n});
      Walk([n] + rest.trace, rest.seen)
  }

  /** The traversals of the targets of `g[v].edges[i..]`, in edge order, each
      subtree finished before the next sibling starts. */
  function DfsEdges(g: seq<Node>, v: nat, i: nat, seen: set<string>): (w: Walk)
    requires WellFormed(g) && v < |g| && i <= |g[v].edges|
    ensures seen <= w.seen
    decreases Unseen(g, seen), 1, |g[v].edges| - i
  {
    if i == |g[v].edges| then Walk([], seen)
    else
      var first := Dfs(g, g[v].edges[i], seen);
      var rest := DfsEdges(g, v, i + 1, first.seen);
      Walk(first.trace + rest.trace, rest.seen)
  }

  /** `Node::dfs_traverse`. */
  method DfsTraverse(g: seq<Node>, v: nat, seen: set<string>) returns (trace: seq<string>, seen': set<string>)
    requires WellFormed(g) && v < |g|
    ensures Walk(trace, seen') == Dfs(g, v, seen)
    decreases Unseen(g, seen)
  {
    var n := g[v].name;
    if n in seen {
      return [], seen;
    }
    NameInNames(g, v);
    trace := [n];
    seen' := seen + {n};
    var edges := g[v].edges;
    for i := 0 to |edges|
      invariant seen + {n} <= seen'
      invariant Dfs(g, v, seen) == Resume(trace, DfsEdges(g, v, i, seen'))
    {
      var t, s := DfsTraverse(g, edges[i], seen');
      trace, seen' := trace + t, s;
    }
  }

  /** Seen-check and accounting: a vertex already seen reports nothing and
      leaves `seen` alone; otherwise its name is reported first. Either way
      the names reported are new, reported once each, and exactly what `seen`
      gains, and the start ends up seen. */
  lemma {:induction false} DfsFacts(g: seq<Node>, v: nat, seen: set<string>)
    requires WellFormed(g) && v < |g|
    ensures var w := Dfs(g, v, seen);
      && w.seen == seen + Elems(w.trace)
      && Distinct(w.trace)
      && Elems(w.trace) !! seen
      && g[v].name in w.seen
      && (g[v].name in seen ==> w.trace == [])
      && (g[v].name !in seen ==> w.trace != [] && w.trace[0] == g[v].name)
    decreases Unseen(g, seen), 0, 0
  {
    var n := g[v].name;
    if n !in seen {
      NameInNames(g, v);
      DfsEdgesFacts(g, v, 0, seen + {n});
      var rest := DfsEdges(g, v, 0, seen + {n});
      DistinctConcat([n], rest.trace);
    }
  }

  lemma {:induction false} DfsEdgesFacts(g: seq<Node>, v: nat, i: nat, seen: set<string>)
    requires WellFormed(g) && v < |g| && i <= |g[v].edges|
    ensures var w := DfsEdges(g, v, i, seen);
      && w.seen == seen + Elems(w.trace)
      && Distinct(w.trace)
      && Elems(w.trace) !! seen
      && forall j :: i <= j < |g[v].edges| ==> g[g[v].edges[j]].name in w.seen
    decreases Unseen(g, seen), 1, |g[v].edges| - i
  {
    if i < |g[v].edges| {
      var e := g[v].edges[i];
      DfsFacts(g, e, seen);
      var first := Dfs(g, e, seen);
      DfsEdgesFacts(g, v, i + 1, first.seen);
      var rest := DfsEdges(g, v, i + 1, first.seen);
      DistinctConcat(first.trace, rest.trace);
    }
  }

  /** With unique names, depth-first traversal leaves no edge of a newly
      seen vertex unexplored. */
  lemma {:induction false} DfsClosed(g: seq<Node>, v: nat, seen: set<string>)
    requires WellFormed(g) && v < |g| && UniqueNames(g)
    ensures Closed(g, seen, Dfs(g, v, seen).seen)
    decreases Unseen(g, seen), 0, 0
  {
    var n := g[v].name;
    if n !in seen {
      NameInNames(g, v);
      DfsEdgesClosed(g, v, 0, seen + {n});
      DfsEdgesFacts(g, v, 0, seen + {n});
    }
  }

  lemma {:induction false} DfsEdgesClosed(g: seq<Node>, v: nat, i: nat, seen: set<string>)
    requires WellFormed(g) && v < |g| && i <= |g[v].edges| && UniqueNames(g)
    ensures Closed(g, seen, DfsEdges(g, v, i, seen).seen)
    decreases Unseen(g, seen), 1, |g[v].edges| - i
  {
    if i < |g[v].edges| {
      var e := g[v].edges[i];
      DfsClosed(g, e, seen);
      var first := Dfs(g, e, seen);
      DfsEdgesClosed(g, v, i + 1, first.seen);
      ClosedTrans(g, seen, first.seen, DfsEdges(g, v, i + 1, first.seen).seen);
    }
  }

  /** Every name depth-first traversal reports is reachable from the start
      without passing a vertex that was seen at entry. */
  lemma {:induction false} DfsSound(g: seq<Node>, v: nat, seen: set<string>)
    requires WellFormed(g) && v < |g|
    ensures Elems(Dfs(g, v, seen).trace) <= ReachableNames(g, seen, v)
    decreases Unseen(g, seen), 0, 0
  {
    var n := g[v].name;
    if n !in seen {
      NameInNames(g, v);
      ReachSelf(g, seen, v);
      DfsEdgesSound(g, v, 0, seen + {n}, seen);
    }
  }

  lemma {:induction false} DfsEdgesSound(g: seq<Node>, v: nat, i: nat, seen: set<string>, base: set<string>)
    requires WellFormed(g) && v < |g| && i <= |g[v].edges|
    requires base <= seen && g[v].name !in base
    ensures Elems(DfsEdges(g, v, i, seen).trace) <= ReachableNames(g, base, v)
    decreases Unseen(g, seen), 1, |g[v].edges| - i
  {
    if i < |g[v].edges| {
      var e := g[v].edges[i];
      DfsSound(g, e, seen);
      ReachMono(g, base, seen, e);
      ReachPrepend(g, base, v, e);
      var first := Dfs(g, e, seen);
      DfsEdgesSound(g, v, i + 1, first.seen, base);
    }
  }

  /** With unique names, depth-first traversal reports exactly the names
      reachable from the start through vertices not seen at entry. */
  lemma DfsExact(g: seq<Node>, v: nat, seen: set<string>)
    requires WellFormed(g) && v < |g| && UniqueNames(g)
    ensures Elems(Dfs(g, v, seen).trace) == ReachableNames(g, seen, v)
  {
    var w := Dfs(g, v, seen);
    DfsSound(g, v, seen);
    DfsFacts(g, v, seen);
    DfsClosed(g, v, seen);
    ClosedCovers(g, seen, w.seen, v);
    forall x | x in ReachableNames(g, seen, v) ensures x in Elems(w.trace) {
      var u :| 0 <= u < |g| && ReachesNode(g, seen, v, u) && g[u].name == x;
      var p :| WalkFrom(g, seen, v, p) && p[|p| - 1] == u;
    }
  }

  /** `first`: the target of the first edge is the second name depth-first
      traversal reports, unless it was seen before. */
  lemma DfsSecondIsFirst(g: seq<Node>, v: nat, seen: set<string>)
    requires WellFormed(g) && v < |g| && |g[v].edges| > 0
    requires g[v].name !in seen && g[First(g, v)].name !in seen + {g[v].name}
    ensures |Dfs(g, v, seen).trace| >= 2 && Dfs(g, v, seen).trace[1] == g[First(g, v)].name
  {
    var n := g[v].name;
    var e := First(g, v);
    DfsFacts(g, e, seen + {n});
    var first := Dfs(g, e, seen + {n});
    var rest := DfsEdges(g, v, 1, first.seen);
    assert DfsEdges(g, v, 0, seen + {n}).trace == first.trace + rest.trace;
  }

  // ---------------------------------------------------------------------
  // Breadth-first, with the seen check both before enqueueing and after
  // dequeueing

  /** The targets in `es` whose names are not in `seen`, in order: what the
      inner `for` loop pushes onto the queue. */
  function UnseenTargets(g: seq<Node>, es: seq<nat>, seen: set<string>): (r: seq<nat>)
    requires InArena(g, es)
    ensures |r| <= |es| && InArena(g, r)
  {
    if es == [] then []
    else
      var init := UnseenTargets(g, es[..|es| - 1], seen);
      var e := es[|es| - 1];
      if g[e].name in seen then init else init + [e]
  }

  /** Exactly the targets of `es` whose names are unseen make it into the
      queue. */
  lemma {:induction false} UnseenTargetsFacts(g: seq<Node>, es: seq<nat>, seen: set<string>)
    requires InArena(g, es)
    ensures var r := UnseenTargets(g, es, seen);
      && (forall j :: 0 <= j < |r| ==> r[j] in es && g[r[j]].name !in seen)
      && (forall e :: e in es && g[e].name !in seen ==> e in r)
  {
    if es != [] {
      var init := es[..|es| - 1];
      UnseenTargetsFacts(g, init, seen);
      assert forall x :: x in es ==> x in init || x == es[|es| - 1];
    }
  }

  /** The queue loop of `bfs_traverse`: pop the front; skip it if seen;
      otherwise report it, mark it and enqueue its unseen targets. */
  function BfsLoop(g: seq<Node>, queue: seq<nat>, seen: set<string>): (w: Walk)
    requires WellFormed(g) && InArena(g, queue)
    decreases Unseen(g, seen), |queue|
  {
    if queue == [] then Walk([], seen)
    else
      var u := queue[0];
      var n := g[u].name;
      if n in seen then BfsLoop(g, queue[1..], seen)
      else
        NameInNames(g, u);
        var seen1 := seen + {n};
        var rest := BfsLoop(g, queue[1..] + UnseenTargets(g, g[u].edges, seen1), seen1);
        Walk([n] + rest.trace, rest.seen)
  }

  /** Breadth-first traversal from `v`: the loop started on the queue [v]. */
  function Bfs(g: seq<Node>, v: nat, seen: set<string>): Walk
    requires WellFormed(g) && v < |g|
  {
    BfsLoop(g, [v], seen)
  }

  /** The inner `for` loop of both `bfs_traverse` variants: push each edge
      target whose name is not in `seen` onto the back of the queue. */
  method EnqueueUnseen(g: seq<Node>, queue: seq<nat>, edges: seq<nat>, seen: set<string>) returns (queue': seq<nat>)
    requires InArena(g, edges)
    ensures queue' == queue + UnseenTargets(g, edges, seen)
  {
    queue' := queue;
    for i := 0 to |edges|
      invariant queue' == queue + UnseenTargets(g, edges[..i], seen)
    {
      assert edges[..i + 1][..i] == edges[..i];
      if g[edges[i]].name !in seen {
        queue' := queue' + [edges[i]];
      }
    }
    assert edges[..|edges|] == edges;
  }

  /** `Node::bfs_traverse` in ref_arena.rs and ref_graph.rs. */
  method BfsTraverse(g: seq<Node>, v: nat, seen: set<string>) returns (trace: seq<string>, seen': set<string>)
    requires WellFormed(g) && v < |g|
    ensures Walk(trace, seen') == Bfs(g, v, seen)
  {
    var queue := [v];
    trace, seen' := [], seen;
    while queue != []
      invariant InArena(g, queue)
      invariant Bfs(g, v, seen) == Resume(trace, BfsLoop(g, queue, seen'))
      decreases Unseen(g, seen'), |queue|
    {
      var u := queue[0];
      queue := queue[1..];
      var n := g[u].name;
      if n !in seen' {
        NameInNames(g, u);
        trace := trace + [n];
        seen' := seen' + {n};
        queue := EnqueueUnseen(g, queue, g[u].edges, seen');
      }
    }
  }

  /** Breadth-first accounting: each name is reported at most once, only if
      it was not seen, `seen` grows by exactly the reported names, and every
      vertex that was ever queued ends up seen (the queue drains). */
  lemma {:induction false} BfsLoopFacts(g: seq<Node>, queue: seq<nat>, seen: set<string>)
    requires WellFormed(g) && InArena(g, queue)
    ensures var w := BfsLoop(g, queue, seen);
      && w.seen == seen + Elems(w.trace)
      && Distinct(w.trace)
      && Elems(w.trace) !! seen
      && forall j :: 0 <= j < |queue| ==> g[queue[j]].name in w.seen
    decreases Unseen(g, seen), |queue|
  {
    if queue != [] {
      var u := queue[0];
      var n := g[u].name;
      if n in seen {
        BfsLoopFacts(g, queue[1..], seen);
        assert forall j :: 1 <= j < |queue| ==> queue[j] == queue[1..][j - 1];
      } else {
        NameInNames(g, u);
        var seen1 := seen + {n};
        var q := queue[1..] + UnseenTargets(g, g[u].edges, seen1);
        BfsLoopFacts(g, q, seen1);
        DistinctConcat([n], BfsLoop(g, q, seen1).trace);
        assert forall j :: 1 <= j < |queue| ==> queue[j] == q[j - 1];
      }
    }
  }

  /** Every vertex named in `seen` but not in `base` has each of its edge
      targets named in `seen` or waiting in `queue`. */
  ghost predicate Frontier(g: seq<Node>, base: set<string>, seen: set<string>, queue: seq<nat>) {
    WellFormed(g) &&
    forall u, j :: 0 <= u < |g| && g[u].name in seen && g[u].name !in base && 0 <= j < |g[u].edges|
      ==> g[g[u].edges[j]].name in seen || g[u].edges[j] in queue
  }

  /** With unique names, the breadth-first loop leaves no edge of a newly
      seen vertex unexplored. */
  lemma {:induction false} BfsLoopClosed(g: seq<Node>, queue: seq<nat>, seen: set<string>, base: set<string>)
    requires WellFormed(g) && InArena(g, queue) && UniqueNames(g)
    requires base <= seen && Frontier(g, base, seen, queue)
    ensures Closed(g, base, BfsLoop(g, queue, seen).seen)
    decreases Unseen(g, seen), |queue|
  {
    var w := BfsLoop(g, queue, seen);
    if queue == [] {
    } else {
      var u := queue[0];
      var n := g[u].name;
      if n in seen {
        assert Frontier(g, base, seen, queue[1..]) by {
          forall x | x in queue && x != u ensures x in queue[1..] {
            var k :| 0 <= k < |queue| && queue[k] == x;
            assert queue[1..][k - 1] == x;
          }
        }
        BfsLoopClosed(g, queue[1..], seen, base);
      } else {
        NameInNames(g, u);
        var seen1 := seen + {n};
        var targets := UnseenTargets(g, g[u].edges, seen1);
        UnseenTargetsFacts(g, g[u].edges, seen1);
        var q := queue[1..] + targets;
        assert Frontier(g, base, seen1, q) by {
          forall x | x in queue && x != u ensures x in q {
            var k :| 0 <= k < |queue| && queue[k] == x;
            assert q[k - 1] == x;
          }
          forall x | x in targets ensures x in q {
            var k :| 0 <= k < |targets| && targets[k] == x;
            assert q[|queue| - 1 + k] == x;
          }
        }
        BfsLoopClosed(g, q, seen1, base);
      }
    }
  }

  /** Every name the breadth-first loop reports is reachable from `v`
      avoiding `base`, given that every queued vertex is. */
  lemma {:induction false} BfsLoopSound(g: seq<Node>, queue: seq<nat>, seen: set<string>, base: set<string>, v: nat)
    requires WellFormed(g) && InArena(g, queue)
    requires base <= seen
    requires forall j :: 0 <= j < |queue| ==> g[queue[j]].name in base || ReachesNode(g, base, v, queue[j])
    ensures Elems(BfsLoop(g, queue, seen).trace) <= ReachableNames(g, base, v)
    decreases Unseen(g, seen), |queue|
  {
    if queue != [] {
      var u := queue[0];
      var n := g[u].name;
      if n in seen {
        assert forall j :: 1 <= j < |queue| ==> queue[j] == queue[1..][j - 1];
        BfsLoopSound(g, queue[1..], seen, base, v);
      } else {
        NameInNames(g, u);
        var seen1 := seen + {n};
        var targets := UnseenTargets(g, g[u].edges, seen1);
        UnseenTargetsFacts(g, g[u].edges, seen1);
        var q := queue[1..] + targets;
        assert n in ReachableNames(g, base, v);
        forall j | 0 <= j < |q| ensures g[q[j]].name in base || ReachesNode(g, base, v, q[j]) {
          if j < |queue| - 1 {
            assert q[j] == queue[j + 1];
          } else {
            assert q[j] == targets[j - (|queue| - 1)];
            ReachExtend(g, base, v, u, q[j]);
          }
        }
        BfsLoopSound(g, q, seen1, base, v);
      }
    }
  }

  /** Breadth-first accounting from the start vertex; the start ends up seen. */
  lemma BfsFacts(g: seq<Node>, v: nat, seen: set<string>)
    requires WellFormed(g) && v < |g|
    ensures var w := Bfs(g, v, seen);
      && w.seen == seen + Elems(w.trace)
      && Distinct(w.trace)
      && Elems(w.trace) !! seen
      && g[v].name in w.seen
      && (g[v].name in seen ==> w.trace == [])
      && (g[v].name !in seen ==> w.trace != [] && w.trace[0] == g[v].name)
  {
    BfsLoopFacts(g, [v], seen);
  }

  /** Breadth-first traversal reports only names reachable from the start
      without passing a vertex seen at entry. */
  lemma BfsSound(g: seq<Node>, v: nat, seen: set<string>)
    requires WellFormed(g) && v < |g|
    ensures Elems(Bfs(g, v, seen).trace) <= ReachableNames(g, seen, v)
  {
    if g[v].name !in seen {
      ReachSelf(g, seen, v);
    }
    BfsLoopSound(g, [v], seen, seen, v);
  }

  /** With unique names, breadth-first traversal reports exactly the names
      reachable from the start through vertices not seen at entry: when the
      queue is empty, everything reachable is seen. */
  lemma BfsExact(g: seq<Node>, v: nat, seen: set<string>)
    requires WellFormed(g) && v < |g| && UniqueNames(g)
    ensures Elems(Bfs(g, v, seen).trace) == ReachableNames(g, seen, v)
  {
    var w := Bfs(g, v, seen);
    BfsSound(g, v, seen);
    BfsFacts(g, v, seen);
    BfsLoopClosed(g, [v], seen, seen);
    ClosedCovers(g, seen, w.seen, v);
    forall x | x in ReachableNames(g, seen, v) ensures x in Elems(w.trace) {
      var u :| 0 <= u < |g| && ReachesNode(g, seen, v, u) && g[u].name == x;
      var p :| WalkFrom(g, seen, v, p) && p[|p| - 1] == u;
    }
  }

  // ---------------------------------------------------------------------
  // Both orders behind one name, for the graph-level drivers

  datatype Order = DepthFirst | BreadthFirst

  function Traverse(order: Order, g: seq<Node>, v: nat, seen: set<string>): Walk
    requires WellFormed(g) && v < |g|
  {
    match order
    case DepthFirst => Dfs(g, v, seen)
    case BreadthFirst => Bfs(g, v, seen)
  }

  /** What the graph-level drivers rely on, for either order. */
  lemma TraverseFacts(order: Order, g: seq<Node>, v: nat, seen: set<string>)
    requires WellFormed(g) && v < |g|
    ensures var w := Traverse(order, g, v, seen);
      && w.seen == seen + Elems(w.trace)
      && Distinct(w.trace)
      && Elems(w.trace) !! seen
      && g[v].name in w.seen
      && Elems(w.trace) <= ReachableNames(g, seen, v)
  {
    match order
    case DepthFirst => DfsFacts(g, v, seen); DfsSound(g, v, seen);
    case BreadthFirst => BfsFacts(g, v, seen); BfsSound(g, v, seen);
  }
}
