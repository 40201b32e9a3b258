/**
 * rc_graph.rs: the `Rc<RefCell<Node>>` variant. Its depth-first traversal
 * is the one of `Traversal` (rc_graph.rs:19-31 is the same code as
 * ref_arena.rs:25-37); its breadth-first traversal differs:
 *
 *   - the start vertex is reported and marked seen without a `seen` check;
 *   - a neighbour is enqueued only when its name is not yet seen, but a
 *     dequeued vertex is reported with no second check.
 *
 * A vertex can therefore wait in the queue several times, and each copy is
 * reported. The loop still ends: a popped entry is replaced only by entries
 * whose names are unseen after the pop, so the weight below, which gives
 * each queue entry `Base(g)` to the power of the number of names still
 * unseen once that entry's own name is marked, strictly decreases.
 */
module RcGraph {
  import opened NodeArena
  import opened Traversal

  // ---------------------------------------------------------------------
  // The termination weight

  /** The largest edge-list length of the arena. */
  function MaxDegree(g: seq<Node>): (m: nat)
    ensures forall u :: 0 <= u < |g| ==> |g[u].edges| <= m
  {
    if g == [] then 0
    else
      var m := MaxDegree(g[..|g| - 1]);
      assert forall u :: 0 <= u < |g| - 1 ==> g[..|g| - 1][u] == g[u];
      if |g[|g| - 1].edges| > m then |g[|g| - 1].edges| else m
  }

  /** One more than any out-degree. */
  function Base(g: seq<Node>): nat {
    MaxDegree(g) + 1
  }

  /** `x` copies of `y` added up: multiplication by repeated addition, so
      that the weight arguments stay within linear arithmetic. */
  function Times(x: nat, y: nat): nat {
    if x == 0 then 0 else y + Times(x - 1, y)
  }

  /** `Times(x, p) < Times(b, p)` for `x < b` and `p >= 1`. */
  lemma {:induction false} TimesBelow(x: nat, b: nat, p: nat)
    requires x < b && p >= 1
    ensures Times(x, p) < Times(b, p)
  {
    if x + 1 < b {
      TimesBelow(x, b - 1, p);
    }
  }

  function Pow(b: nat, n: nat): (r: nat)
    ensures b >= 1 ==> r >= 1
  {
    if n == 0 then 1 else Times(b, Pow(b, n - 1))
  }

  lemma PowSucc(b: nat, n: nat)
    requires n >= 1
    ensures Pow(b, n) == Times(b, Pow(b, n - 1))
  {
  }

  lemma {:induction false} PowMono(b: nat, m: nat, n: nat)
    requires b >= 1 && m <= n
    ensures Pow(b, m) <= Pow(b, n)
  {
    if m < n {
      PowMono(b, m, n - 1);
      assert Pow(b, n) == Pow(b, n - 1) + Times(b - 1, Pow(b, n - 1));
    }
  }

  /** The weight of one queue entry. */
  function EntryWeight(g: seq<Node>, u: nat, seen: set<string>): nat
    requires u < |g|
  {
    Pow(Base(g), |Unseen(g, seen + {g[u].name})|)
  }

  /** The weight of a queue: the sum of its entries' weights. */
  function Weight(g: seq<Node>, queue: seq<nat>, seen: set<string>): nat
    requires InArena(g, queue)
  {
    if queue == [] then 0 else EntryWeight(g, queue[0], seen) + Weight(g, queue[1..], seen)
  }

  lemma {:induction false} WeightAppend(g: seq<Node>, q1: seq<nat>, q2: seq<nat>, seen: set<string>)
    requires InArena(g, q1) && InArena(g, q2)
    ensures InArena(g, q1 + q2)
    ensures Weight(g, q1 + q2, seen) == Weight(g, q1, seen) + Weight(g, q2, seen)
  {
    if q1 == [] {
      assert q1 + q2 == q2;
    } else {
      assert (q1 + q2)[1..] == q1[1..] + q2;
      WeightAppend(g, q1[1..], q2, seen);
    }
  }

  /** Seeing more names never makes a queue heavier. */
  lemma {:induction false} WeightMono(g: seq<Node>, queue: seq<nat>, seen: set<string>, seen': set<string>)
    requires InArena(g, queue) && seen <= seen'
    ensures Weight(g, queue, seen') <= Weight(g, queue, seen)
  {
    if queue != [] {
      var n := g[queue[0]].name;
      SubsetCard(Unseen(g, seen' + {n}), Unseen(g, seen + {n}));
      PowMono(Base(g), |Unseen(g, seen' + {n})|, |Unseen(g, seen + {n})|);
      WeightMono(g, queue[1..], seen, seen');
    }
  }

  /** Marking a name that is in the arena and not yet seen leaves one name
      fewer unseen. */
  lemma UnseenMinusOne(g: seq<Node>, u: nat, seen: set<string>)
    requires u < |g| && g[u].name !in seen
    ensures |Unseen(g, seen)| >= 1
    ensures |Unseen(g, seen + {g[u].name})| == |Unseen(g, seen)| - 1
  {
    NameInNames(g, u);
    assert Unseen(g, seen + {g[u].name}) == Unseen(g, seen) - {g[u].name};
  }

  /** Entries whose names are all unseen each weigh `Base(g)` to the power
      of one less than the number of unseen names. */
  lemma {:induction false} WeightUnseen(g: seq<Node>, t: seq<nat>, seen: set<string>)
    requires InArena(g, t)
    requires forall j :: 0 <= j < |t| ==> g[t[j]].name !in seen
    ensures t == [] || (|Unseen(g, seen)| >= 1
      && Weight(g, t, seen) == Times(|t|, Pow(Base(g), |Unseen(g, seen)| - 1)))
  {
    if t != [] {
      var k := |Unseen(g, seen)|;
      UnseenMinusOne(g, t[0], seen);
      var p := Pow(Base(g), k - 1);
      assert EntryWeight(g, t[0], seen) == p;
      assert forall j :: 0 <= j < |t[1..]| ==> t[1..][j] == t[j + 1];
      WeightUnseen(g, t[1..], seen);
      assert Weight(g, t, seen) == p + Weight(g, t[1..], seen);
      assert Weight(g, t[1..], seen) == Times(|t| - 1, p);
    }
  }

  /** The unseen targets of a popped entry weigh less, together, than the
      entry itself did. */
  lemma TargetsLighter(g: seq<Node>, u: nat, seen1: set<string>)
    requires WellFormed(g) && u < |g|
    ensures Weight(g, UnseenTargets(g, g[u].edges, seen1), seen1) < Pow(Base(g), |Unseen(g, seen1)|)
  {
    var t := UnseenTargets(g, g[u].edges, seen1);
    UnseenTargetsFacts(g, g[u].edges, seen1);
    WeightUnseen(g, t, seen1);
    if t != [] {
      assert |t| <= |g[u].edges| < Base(g);
      LighterArith(|t|, Base(g), |Unseen(g, seen1)|, Weight(g, t, seen1));
    }
  }

  /** `n` entries of weight `b^(k-1)`, for `n < b`, weigh less than `b^k`. */
  lemma LighterArith(n: nat, b: nat, k: nat, w: nat)
    requires n < b && k >= 1 && w == Times(n, Pow(b, k - 1))
    ensures w < Pow(b, k)
  {
    PowSucc(b, k);
    if n == 0 {
      assert w == 0;
    } else {
      TimesBelow(n, b, Pow(b, k - 1));
    }
  }

  /** One round of the queue loop makes the queue strictly lighter. */
  lemma StepDecreases(g: seq<Node>, queue: seq<nat>, seen: set<string>)
    requires WellFormed(g) && InArena(g, queue) && queue != []
    ensures var seen1 := seen + {g[queue[0]].name};
      var next := queue[1..] + UnseenTargets(g, g[queue[0]].edges, seen1);
      InArena(g, next) && Weight(g, next, seen1) < Weight(g, queue, seen)
  {
    var u := queue[0];
    var seen1 := seen + {g[u].name};
    var t := UnseenTargets(g, g[u].edges, seen1);
    var rest := queue[1..];
    WeightAppend(g, rest, t, seen1);
    WeightMono(g, rest, seen, seen1);
    TargetsLighter(g, u, seen1);
    assert Weight(g, queue, seen) == Pow(Base(g), |Unseen(g, seen1)|) + Weight(g, rest, seen);
  }

  // ---------------------------------------------------------------------
  // The traversal

  /** The queue loop of `bfs_traverse` (rc_graph.rs:48-62): pop the front,
      report it and mark it seen with no check, enqueue its unseen targets. */
  function RcBfsLoop(g: seq<Node>, queue: seq<nat>, seen: set<string>): (w: Walk)
    requires WellFormed(g) && InArena(g, queue)
    decreases Weight(g, queue, seen)
  {
    if queue == [] then Walk([], seen)
    else
      var u := queue[0];
      var n := g[u].name;
      var seen1 := seen + {n};
      StepDecreases(g, queue, seen);
      var rest := RcBfsLoop(g, queue[1..] + UnseenTargets(g, g[u].edges, seen1), seen1);
      Walk([n] + rest.trace, rest.seen)
  }

  /** `Node::bfs_traverse` of rc_graph.rs: report and mark the start, queue
      its unseen targets, then run the loop. */
  function RcBfs(g: seq<Node>, v: nat, seen: set<string>): Walk
    requires WellFormed(g) && v < |g|
  {
    var n := g[v].name;
    var seen1 := seen + {n};
    var rest := RcBfsLoop(g, UnseenTargets(g, g[v].edges, seen1), seen1);
    Walk([n] + rest.trace, rest.seen)
  }

  /** One round of the queue loop moves the front name from the queue's
      walk to the reported prefix. */
  lemma RcResumeStep(g: seq<Node>, queue: seq<nat>, seen: set<string>, trace: seq<string>)
    requires WellFormed(g) && InArena(g, queue) && queue != []
    ensures var n := g[queue[0]].name;
      var seen1 := seen + {n};
      var next := queue[1..] + UnseenTargets(g, g[queue[0]].edges, seen1);
      InArena(g, next) && Weight(g, next, seen1) < Weight(g, queue, seen)
      && Resume(trace, RcBfsLoop(g, queue, seen)) == Resume(trace + [n], RcBfsLoop(g, next, seen1))
  {
    StepDecreases(g, queue, seen);
    var n := g[queue[0]].name;
    var seen1 := seen + {n};
    var rest := RcBfsLoop(g, queue[1..] + UnseenTargets(g, g[queue[0]].edges, seen1), seen1);
    assert RcBfsLoop(g, queue, seen) == Walk([n] + rest.trace, rest.seen);
    assert trace + ([n] + rest.trace) == (trace + [n]) + rest.trace;
  }

  /** `Node::bfs_traverse` of rc_graph.rs, with the queue as a sequence. */
  method RcBfsTraverse(g: seq<Node>, v: nat, seen: set<string>) returns (trace: seq<string>, seen': set<string>)
    requires WellFormed(g) && v < |g|
    ensures Walk(trace, seen') == RcBfs(g, v, seen)
  {
    trace := [g[v].name];
    seen' := seen + {g[v].name};
    var queue := EnqueueUnseen(g, [], g[v].edges, seen');
    assert queue == UnseenTargets(g, g[v].edges, seen');
    while queue != []
      invariant InArena(g, queue)
      invariant RcBfs(g, v, seen) == Resume(trace, RcBfsLoop(g, queue, seen'))
      decreases Weight(g, queue, seen')
    {
      RcResumeStep(g, queue, seen', trace);
      var u := queue[0];
      queue := queue[1..];
      var n := g[u].name;
      trace := trace + [n];
      seen' := seen' + {n};
      queue := EnqueueUnseen(g, queue, g[u].edges, seen');
    }
    assert trace + [] == trace;
  }

  // ---------------------------------------------------------------------
  // What the traversal reports

  /** The loop reports every queued entry, in queue order and once per
      copy, before anything it enqueues itself; `seen` grows by exactly the
      reported names. */
  lemma {:induction false} RcBfsLoopFacts(g: seq<Node>, queue: seq<nat>, seen: set<string>)
    requires WellFormed(g) && InArena(g, queue)
    ensures var w := RcBfsLoop(g, queue, seen);
      && w.seen == seen + Elems(w.trace)
      && |w.trace| >= |queue|
      && forall j :: 0 <= j < |queue| ==> w.trace[j] == g[queue[j]].name
    decreases Weight(g, queue, seen)
  {
    if queue != [] {
      var u := queue[0];
      var n := g[u].name;
      var seen1 := seen + {n};
      StepDecreases(g, queue, seen);
      var next := queue[1..] + UnseenTargets(g, g[u].edges, seen1);
      RcBfsLoopFacts(g, next, seen1);
      var rest := RcBfsLoop(g, next, seen1);
      var w := RcBfsLoop(g, queue, seen);
      assert w.trace == [n] + rest.trace;
      ElemsCons(n, rest.trace);
      forall j | 0 < j < |queue| ensures w.trace[j] == g[queue[j]].name {
        assert next[j - 1] == queue[j];
      }
    }
  }

  lemma ElemsCons<T>(x: T, s: seq<T>)
    ensures Elems([x] + s) == {x} + Elems(s)
  {
    assert forall y :: y in [x] + s <==> y == x || y in s;
  }

  /** The start is always reported first and ends up seen, even if it was
      seen already; next come its targets that were unseen, in edge-list
      order; `seen` grows by exactly the reported names. */
  lemma RcBfsFacts(g: seq<Node>, v: nat, seen: set<string>)
    requires WellFormed(g) && v < |g|
    ensures var w := RcBfs(g, v, seen);
      var t := UnseenTargets(g, g[v].edges, seen + {g[v].name});
      && w.trace != [] && w.trace[0] == g[v].name
      && w.seen == seen + Elems(w.trace)
      && g[v].name in w.seen
      && |w.trace| >= 1 + |t|
      && forall j :: 0 <= j < |t| ==> w.trace[1 + j] == g[t[j]].name
  {
    var n := g[v].name;
    var t := UnseenTargets(g, g[v].edges, seen + {n});
    RcBfsLoopFacts(g, t, seen + {n});
    ElemsCons(n, RcBfsLoop(g, t, seen + {n}).trace);
  }

  /** Every name the loop reports is reachable from `v` avoiding `base`,
      given that every queued vertex is. */
  lemma {:induction false} RcBfsLoopSound(g: seq<Node>, queue: seq<nat>, seen: set<string>, base: set<string>, v: nat)
    requires WellFormed(g) && InArena(g, queue) && base <= seen
    requires forall j :: 0 <= j < |queue| ==> ReachesNode(g, base, v, queue[j])
    ensures Elems(RcBfsLoop(g, queue, seen).trace) <= ReachableNames(g, base, v)
    decreases Weight(g, queue, seen)
  {
    if queue != [] {
      var u := queue[0];
      var n := g[u].name;
      var seen1 := seen + {n};
      StepDecreases(g, queue, seen);
      var next := queue[1..] + UnseenTargets(g, g[u].edges, seen1);
      ReachesNext(g, queue, seen, base, v);
      RcBfsLoopSound(g, next, seen1, base, v);
      ElemsCons(n, RcBfsLoop(g, next, seen1).trace);
    }
  }

  /** One round keeps every queued vertex reachable, and the popped one is. */
  lemma ReachesNext(g: seq<Node>, queue: seq<nat>, seen: set<string>, base: set<string>, v: nat)
    requires WellFormed(g) && InArena(g, queue) && base <= seen && queue != []
    requires forall j :: 0 <= j < |queue| ==> ReachesNode(g, base, v, queue[j])
    ensures g[queue[0]].name in ReachableNames(g, base, v)
    ensures var seen1 := seen + {g[queue[0]].name};
      var next := queue[1..] + UnseenTargets(g, g[queue[0]].edges, seen1);
      forall j :: 0 <= j < |next| ==> ReachesNode(g, base, v, next[j])
  {
    var u := queue[0];
    var seen1 := seen + {g[u].name};
    var targets := UnseenTargets(g, g[u].edges, seen1);
    UnseenTargetsFacts(g, g[u].edges, seen1);
    var next := queue[1..] + targets;
    forall j | 0 <= j < |next| ensures ReachesNode(g, base, v, next[j]) {
      if j < |queue| - 1 {
        assert next[j] == queue[j + 1];
      } else {
        assert next[j] == targets[j - (|queue| - 1)];
        ReachExtend(g, base, v, u, next[j]);
      }
    }
  }

  /** Every reported name is reachable from the start through vertices
      whose names were unseen at entry (the start itself excepted). */
  lemma RcBfsSound(g: seq<Node>, v: nat, seen: set<string>)
    requires WellFormed(g) && v < |g|
    ensures Elems(RcBfs(g, v, seen).trace) <= ReachableNames(g, seen - {g[v].name}, v)
  {
    var n := g[v].name;
    var base := seen - {n};
    var seen1 := seen + {n};
    var t := UnseenTargets(g, g[v].edges, seen1);
    UnseenTargetsFacts(g, g[v].edges, seen1);
    ReachSelf(g, base, v);
    forall j | 0 <= j < |t| ensures ReachesNode(g, base, v, t[j]) {
      ReachExtend(g, base, v, v, t[j]);
    }
    RcBfsLoopSound(g, t, seen1, base, v);
    ElemsCons(n, RcBfsLoop(g, t, seen1).trace);
  }

  /** With unique names the loop leaves no edge of a newly seen vertex
      unexplored. */
  lemma {:induction false} RcBfsLoopClosed(g: seq<Node>, queue: seq<nat>, seen: set<string>, base: set<string>)
    requires WellFormed(g) && InArena(g, queue) && UniqueNames(g)
    requires base <= seen && Frontier(g, base, seen, queue)
    ensures Closed(g, base, RcBfsLoop(g, queue, seen).seen)
    decreases Weight(g, queue, seen)
  {
    if queue != [] {
      var u := queue[0];
      var seen1 := seen + {g[u].name};
      StepDecreases(g, queue, seen);
      var next := queue[1..] + UnseenTargets(g, g[u].edges, seen1);
      FrontierNext(g, queue, seen, base);
      RcBfsLoopClosed(g, next, seen1, base);
    }
  }

  /** One round keeps the frontier: the popped vertex's unexplored edges
      are now queued. */
  lemma FrontierNext(g: seq<Node>, queue: seq<nat>, seen: set<string>, base: set<string>)
    requires WellFormed(g) && InArena(g, queue) && UniqueNames(g) && queue != []
    requires base <= seen && Frontier(g, base, seen, queue)
    ensures var seen1 := seen + {g[queue[0]].name};
      Frontier(g, base, seen1, queue[1..] + UnseenTargets(g, g[queue[0]].edges, seen1))
  {
    var u := queue[0];
    var seen1 := seen + {g[u].name};
    var targets := UnseenTargets(g, g[u].edges, seen1);
    UnseenTargetsFacts(g, g[u].edges, seen1);
    var next := queue[1..] + targets;
    forall x | x in queue && x != u ensures x in next {
      var k :| 0 <= k < |queue| && queue[k] == x;
      assert next[k - 1] == x;
    }
    forall x | x in targets ensures x in next {
      var k :| 0 <= k < |targets| && targets[k] == x;
      assert next[|queue| - 1 + k] == x;
    }
  }

  /** With unique names and an unseen start, the traversal reports exactly
      the names reachable from the start through vertices not seen at entry
      (some of them more than once). */
  lemma RcBfsExact(g: seq<Node>, v: nat, seen: set<string>)
    requires WellFormed(g) && v < |g| && UniqueNames(g) && g[v].name !in seen
    ensures Elems(RcBfs(g, v, seen).trace) == ReachableNames(g, seen, v)
  {
    var n := g[v].name;
    var seen1 := seen + {n};
    var t := UnseenTargets(g, g[v].edges, seen1);
    UnseenTargetsFacts(g, g[v].edges, seen1);
    var w := RcBfs(g, v, seen);
    assert seen - {n} == seen;
    RcBfsSound(g, v, seen);
    RcBfsFacts(g, v, seen);
    assert Frontier(g, seen, seen1, t);
    RcBfsLoopClosed(g, t, seen1, seen);
    ClosedCovers(g, seen, w.seen, v);
    forall x | x in ReachableNames(g, seen, v) ensures x in Elems(w.trace) {
      var u :| 0 <= u < |g| && ReachesNode(g, seen, v, u) && g[u].name == x;
      var p :| WalkFrom(g, seen, v, p) && p[|p| - 1] == u;
    }
  }
}

/**
 * `init` of rc_graph.rs and what the two traversals of rc_graph.rs report
 * on it, plus the four-vertex diamond on which the breadth-first traversal
 * reports a vertex twice.
 */
module RcScenario {
  import opened NodeArena
  import opened Traversal
  import opened RcGraph
  import Scenario

  /** `init`: six fresh vertices A..F, then A->B, A->C, A->D and C->E, C->F,
      C->A pushed through the vertices' edge lists; the root is A. */
  method Init() returns (arena: Arena, root: nat)
    ensures fresh(arena) && arena.nodes == SixEdges() && root == 0
  {
    arena := new Arena();
    root := arena.Alloc("A");
    var b := arena.Alloc("B");
    var c := arena.Alloc("C");
    var d := arena.Alloc("D");
    var e := arena.Alloc("E");
    var f := arena.Alloc("F");
    arena.Push(root, b);
    arena.Push(root, c);
    arena.Push(root, d);
    assert arena.nodes[0] == Node("A", [1, 2, 3]);
    arena.Push(c, e);
    arena.Push(c, f);
    arena.Push(c, root);
    assert arena.nodes[2] == Node("C", [4, 5, 0]);
    assert forall u :: 0 <= u < 6 && u != 0 && u != 2 ==> arena.nodes[u] == SixEdges()[u];
  }

  /** Depth-first from A on the `init` graph: A, B, C, E, F, D; `first`
      of A is B. */
  lemma InitDfs()
    ensures WellFormed(SixEdges())
    ensures Dfs(SixEdges(), 0, {}).trace == ["A", "B", "C", "E", "F", "D"]
    ensures SixEdges()[First(SixEdges(), 0)].name == "B"
  {
    Scenario.SixEdgesShape();
    Scenario.DfsFromA(SixEdges(), "A", "B", "C", "D", "E", "F");
  }

  /** Breadth-first from A on the `init` graph: A, B, C, D, E, F. */
  lemma InitRcBfs()
    ensures WellFormed(SixEdges())
    ensures RcBfs(SixEdges(), 0, {}).trace == ["A", "B", "C", "D", "E", "F"]
  {
    Scenario.SixEdgesShape();
    RcBfsFromA(SixEdges(), "A", "B", "C", "D", "E", "F");
  }

  /** One round of the loop, stated on the walk the rest of the loop makes. */
  lemma RcVisit(g: seq<Node>, queue: seq<nat>, n: string, seen: set<string>, seen1: set<string>, next: seq<nat>, t: seq<string>, s: set<string>)
    requires WellFormed(g) && InArena(g, queue) && queue != [] && n == g[queue[0]].name
    requires seen1 == seen + {n}
    requires next == queue[1..] + UnseenTargets(g, g[queue[0]].edges, seen1)
    requires RcBfsLoop(g, next, seen1) == Walk(t, s)
    ensures RcBfsLoop(g, queue, seen) == Walk([n] + t, s)
  {
  }

  /** Five names prepended one by one form the five-name sequence. */
  lemma Cons5<T>(b: T, c: T, d: T, e: T, f: T)
    ensures [b] + ([c] + ([d] + ([e] + [f]))) == [b, c, d, e, f]
  {
  }

  lemma Cons6<T>(a: T, b: T, c: T, d: T, e: T, f: T)
    ensures [a] + [b, c, d, e, f] == [a, b, c, d, e, f]
  {
  }

  /** The `init` shape, over any six distinct names, with D a leaf: once C
      is reported, D, E, F. */
  lemma RcBfsFromD(g: seq<Node>, a: string, b: string, c: string, d: string, e: string, f: string)
    requires Scenario.InitShape(g, a, b, c, d, e, f) && g[3].edges == []
    ensures WellFormed(g)
    ensures RcBfsLoop(g, [3, 4, 5], {a, b, c}) == Walk([d] + ([e] + [f]), {a, b, c, d, e, f})
  {
    Scenario.ShapeWellFormed(g, a, b, c, d, e, f);
    var s3, s4, s5, s6 := {a, b, c}, {a, b, c, d}, {a, b, c, d, e}, {a, b, c, d, e, f};
    assert s3 + {d} == s4 && s4 + {e} == s5 && s5 + {f} == s6;
    assert UnseenTargets(g, [], s6) == [];
    RcVisit(g, [5], f, s5, s6, [], [], s6);
    assert [5][1..] + [] == [];
    RcVisit(g, [4, 5], e, s4, s5, [5], [f], s6);
    assert [3, 4, 5][1..] + [] == [4, 5];
    RcVisit(g, [3, 4, 5], d, s3, s4, [4, 5], [e] + [f], s6);
  }

  /** Once A is reported: B, C, D, E, F. */
  lemma RcBfsFromB(g: seq<Node>, a: string, b: string, c: string, d: string, e: string, f: string)
    requires Scenario.InitShape(g, a, b, c, d, e, f) && g[3].edges == []
    ensures WellFormed(g)
    ensures RcBfsLoop(g, [1, 2, 3], {a}) == Walk([b] + ([c] + ([d] + ([e] + [f]))), {a, b, c, d, e, f})
  {
    RcBfsFromD(g, a, b, c, d, e, f);
    var s2, s3, s6 := {a, b}, {a, b, c}, {a, b, c, d, e, f};
    assert {a} + {b} == s2 && s2 + {c} == s3;
    Scenario.TargetsOfC(g, a, b, c, d, e, f);
    assert [2, 3][1..] + [4, 5] == [3, 4, 5];
    RcVisit(g, [2, 3], c, s2, s3, [3, 4, 5], [d] + ([e] + [f]), s6);
    assert UnseenTargets(g, [], s2) == [];
    assert [1, 2, 3][1..] + [] == [2, 3];
    RcVisit(g, [1, 2, 3], b, {a}, s2, [2, 3], [c] + ([d] + ([e] + [f])), s6);
  }

  lemma RcBfsFromA(g: seq<Node>, a: string, b: string, c: string, d: string, e: string, f: string)
    requires Scenario.InitShape(g, a, b, c, d, e, f) && g[3].edges == []
    ensures WellFormed(g)
    ensures RcBfs(g, 0, {}).trace == [a, b, c, d, e, f]
  {
    RcBfsFromB(g, a, b, c, d, e, f);
    Scenario.TargetsOfA(g, a, b, c, d, e, f);
    var s0: set<string> := {};
    assert s0 + {a} == {a};
    Cons5(b, c, d, e, f);
    Cons6(a, b, c, d, e, f);
  }

  // ---------------------------------------------------------------------
  // The diamond A->B, A->C, B->D, C->D

  function Diamond(a: string, b: string, c: string, d: string): seq<Node> {
    [Node(a, [1, 2]), Node(b, [3]), Node(c, [3]), Node(d, [])]
  }

  /** The diamond over four distinct names, vertex by vertex. */
  predicate DiamondShape(g: seq<Node>, a: string, b: string, c: string, d: string) {
    && |g| == 4
    && g[0] == Node(a, [1, 2]) && g[1] == Node(b, [3]) && g[2] == Node(c, [3]) && g[3] == Node(d, [])
    && DistinctFour(a, b, c, d)
  }

  /** Four pairwise different names. */
  predicate DistinctFour(a: string, b: string, c: string, d: string) {
    a != b && a != c && a != d && b != c && b != d && c != d
  }

  /** From the point where B has been reported: C, then D twice. */
  lemma DiamondRcTail(g: seq<Node>, a: string, b: string, c: string, d: string)
    requires DiamondShape(g, a, b, c, d)
    ensures WellFormed(g)
    ensures RcBfsLoop(g, [2, 3], {a, b}) == Walk([c] + ([d] + [d]), {a, b, c, d})
  {
    var s2, s3, s4 := {a, b}, {a, b, c}, {a, b, c, d};
    assert s2 + {c} == s3;
    DiamondRcTwice(g, a, b, c, d);
    Scenario.UnseenTargets1(g, 3, s3);
    assert [2, 3][1..] + [3] == [3, 3];
    RcVisit(g, [2, 3], c, s2, s3, [3, 3], [d] + [d], s4);
  }

  lemma DiamondWellFormed(g: seq<Node>, a: string, b: string, c: string, d: string)
    requires DiamondShape(g, a, b, c, d)
    ensures WellFormed(g)
  {
    forall u, j | 0 <= u < |g| && 0 <= j < |g[u].edges| ensures g[u].edges[j] < |g| {
      if u == 0 {
        assert g[u].edges == [1, 2];
      } else if u == 1 || u == 2 {
        assert g[u].edges == [3];
      }
    }
  }

  /** Both queued copies of D are reported. */
  lemma DiamondRcTwice(g: seq<Node>, a: string, b: string, c: string, d: string)
    requires DiamondShape(g, a, b, c, d)
    ensures WellFormed(g)
    ensures RcBfsLoop(g, [3, 3], {a, b, c}) == Walk([d] + [d], {a, b, c, d})
  {
    DiamondWellFormed(g, a, b, c, d);
    var s3, s4 := {a, b, c}, {a, b, c, d};
    assert s3 + {d} == s4 && s4 + {d} == s4;
    assert UnseenTargets(g, [], s4) == [];
    RcVisit(g, [3], d, s4, s4, [], [], s4);
    assert [3, 3][1..] + [] == [3];
    RcVisit(g, [3, 3], d, s3, s4, [3], [d], s4);
  }

  /** From the point where A has been reported: B, C, then D twice. */
  lemma DiamondRcFromB(g: seq<Node>, a: string, b: string, c: string, d: string)
    requires DiamondShape(g, a, b, c, d)
    ensures WellFormed(g)
    ensures RcBfsLoop(g, [1, 2], {a}) == Walk([b] + ([c] + ([d] + [d])), {a, b, c, d})
  {
    DiamondRcTail(g, a, b, c, d);
    var s2 := {a, b};
    assert {a} + {b} == s2;
    Scenario.UnseenTargets1(g, 3, s2);
    assert [1, 2][1..] + [3] == [2, 3];
    RcVisit(g, [1, 2], b, {a}, s2, [2, 3], [c] + ([d] + [d]), {a, b, c, d});
  }

  /** On the diamond, D is queued once by B and once more by C before it is
      reported, and both copies are reported. */
  lemma DiamondRcBfs(a: string, b: string, c: string, d: string)
    requires DistinctFour(a, b, c, d)
    ensures WellFormed(Diamond(a, b, c, d))
    ensures RcBfs(Diamond(a, b, c, d), 0, {}).trace == [a, b, c, d, d]
  {
    var g := Diamond(a, b, c, d);
    assert DiamondShape(g, a, b, c, d);
    DiamondRcFromB(g, a, b, c, d);
    Scenario.UnseenTargets2(g, 1, 2, {a});
    var s0: set<string> := {};
    assert s0 + {a} == {a};
    Cons5(a, b, c, d, d);
  }

  /** From the point where A has been reported: B, C, then D once. */
  lemma DiamondTail(g: seq<Node>, a: string, b: string, c: string, d: string)
    requires DiamondShape(g, a, b, c, d)
    ensures WellFormed(g)
    ensures BfsLoop(g, [1, 2], {a}) == Walk([b] + ([c] + [d]), {a, b, c, d})
  {
    DiamondWellFormed(g, a, b, c, d);
    var s2, s3, s4 := {a, b}, {a, b, c}, {a, b, c, d};
    assert {a} + {b} == s2 && s2 + {c} == s3;
    DiamondOnce(g, a, b, c, d);
    Scenario.UnseenTargets1(g, 3, s3);
    assert [2, 3][1..] + [3] == [3, 3];
    Scenario.BfsStep(g, [2, 3], c, s2, s3, [3, 3], [d], s4);
    Scenario.UnseenTargets1(g, 3, s2);
    assert [1, 2][1..] + [3] == [2, 3];
    Scenario.BfsStep(g, [1, 2], b, {a}, s2, [2, 3], [c] + [d], s4);
  }

  /** The second copy of D is skipped. */
  lemma DiamondOnce(g: seq<Node>, a: string, b: string, c: string, d: string)
    requires DiamondShape(g, a, b, c, d)
    ensures WellFormed(g)
    ensures BfsLoop(g, [3, 3], {a, b, c}) == Walk([d], {a, b, c, d})
  {
    DiamondWellFormed(g, a, b, c, d);
    var s3, s4 := {a, b, c}, {a, b, c, d};
    assert s3 + {d} == s4;
    assert BfsLoop(g, [3], s4) == Walk([], s4);
    assert [3, 3][1..] + UnseenTargets(g, [], s4) == [3];
  }

  /** The same diamond under `Node::bfs_traverse` of ref_arena.rs, which
      re-checks `seen` after dequeueing: D once. */
  lemma DiamondBfs(a: string, b: string, c: string, d: string)
    requires DistinctFour(a, b, c, d)
    ensures WellFormed(Diamond(a, b, c, d))
    ensures Bfs(Diamond(a, b, c, d), 0, {}).trace == [a, b, c, d]
  {
    var g := Diamond(a, b, c, d);
    assert DiamondShape(g, a, b, c, d);
    DiamondTail(g, a, b, c, d);
    Scenario.UnseenTargets2(g, 1, 2, {a});
    var s0: set<string> := {};
    assert s0 + {a} == {a};
    assert [0][1..] + [1, 2] == [1, 2];
    Scenario.BfsStep(g, [0], a, s0, {a}, [1, 2], [b] + ([c] + [d]), {a, b, c, d});
    Cons4(a, b, c, d);
  }

  lemma Cons4<T>(a: T, b: T, c: T, d: T)
    ensures [a] + ([b] + ([c] + [d])) == [a, b, c, d]
  {
  }

  /** With the names of the Rust vertices: the rc_graph.rs traversal reports
      D twice, the ref_arena.rs one once. */
  lemma DiamondRepeats()
    ensures WellFormed(Diamond("A", "B", "C", "D"))
    ensures RcBfs(Diamond("A", "B", "C", "D"), 0, {}).trace == ["A", "B", "C", "D", "D"]
    ensures !Distinct(RcBfs(Diamond("A", "B", "C", "D"), 0, {}).trace)
    ensures Bfs(Diamond("A", "B", "C", "D"), 0, {}).trace == ["A", "B", "C", "D"]
  {
    LetterNames();
    DiamondRcBfs("A", "B", "C", "D");
    DiamondBfs("A", "B", "C", "D");
    var t := RcBfs(Diamond("A", "B", "C", "D"), 0, {}).trace;
    assert t[3] == t[4];
  }
}
