/**
 * The fixed graphs the Rust `init` / `init_graph` functions build, and what
 * the traversals report on them.
 *
 * Both builders wire six vertices as A->B, A->C, A->D, C->E, C->F, C->A;
 * ref_arena.rs adds D->E. The lemmas below hold for any six distinct names
 * and for either shape of D, so the solver never has to compare string
 * literals while unfolding a traversal.
 */
module Scenario {
  import opened NodeArena
  import opened Traversal

  /** The shared wiring, named `a`..`f`; vertex `d` has no edge or one to `e`. */
  predicate InitShape(g: seq<Node>, a: string, b: string, c: string, d: string, e: string, f: string) {
    && |g| == 6
    && g[0] == Node(a, [1, 2, 3]) && g[1] == Node(b, []) && g[2] == Node(c, [4, 5, 0])
    && g[3].name == d && (g[3].edges == [] || g[3].edges == [4])
    && g[4] == Node(e, []) && g[5] == Node(f, [])
    && DistinctSix(a, b, c, d, e, f)
  }

  lemma ShapeWellFormed(g: seq<Node>, a: string, b: string, c: string, d: string, e: string, f: string)
    requires InitShape(g, a, b, c, d, e, f)
    ensures WellFormed(g)
  {
    forall u, j | 0 <= u < |g| && 0 <= j < |g[u].edges| ensures g[u].edges[j] < |g| {
      if u == 0 {
        assert g[u].edges == [1, 2, 3];
      } else if u == 2 {
        assert g[u].edges == [4, 5, 0];
      } else if u == 3 {
        assert g[u].edges == [4];
      }
    }
  }

  lemma SixEdgesShape()
    ensures InitShape(SixEdges(), "A", "B", "C", "D", "E", "F")
  {
    LetterNames();
  }

  // ---------------------------------------------------------------------
  // Depth-first: A, B, C, E, F, D

  /** A vertex without edges whose name is new reports just itself. */
  lemma DfsLeaf(g: seq<Node>, v: nat, seen: set<string>)
    requires WellFormed(g) && v < |g| && g[v].edges == [] && g[v].name !in seen
    ensures Dfs(g, v, seen) == Walk([g[v].name], seen + {g[v].name})
  {
    assert DfsEdges(g, v, 0, seen + {g[v].name}) == Walk([], seen + {g[v].name});
  }

  /** The subtree of C: C, E, F, and the edge back to the seen A. */
  lemma DfsFromC(g: seq<Node>, a: string, b: string, c: string, d: string, e: string, f: string)
    requires InitShape(g, a, b, c, d, e, f)
    ensures WellFormed(g)
    ensures Dfs(g, 2, {a, b}) == Walk([c, e, f], {a, b, c, e, f})
  {
    ShapeWellFormed(g, a, b, c, d, e, f);
    var s3, s4, s5 := {a, b, c}, {a, b, c, e}, {a, b, c, e, f};
    assert {a, b} + {c} == s3 && s3 + {e} == s4 && s4 + {f} == s5;
    DfsLeaf(g, 4, s3);
    DfsLeaf(g, 5, s4);
    assert DfsEdges(g, 2, 3, s5) == Walk([], s5);
    assert DfsEdges(g, 2, 2, s5) == Walk([], s5);
    assert DfsEdges(g, 2, 1, s4) == Walk([f], s5);
    assert DfsEdges(g, 2, 0, s3) == Walk([e, f], s5);
  }

  /** The subtree of D: D, and its edge (if any) to the seen E. */
  lemma DfsFromD(g: seq<Node>, a: string, b: string, c: string, d: string, e: string, f: string)
    requires InitShape(g, a, b, c, d, e, f)
    ensures WellFormed(g)
    ensures Dfs(g, 3, {a, b, c, e, f}) == Walk([d], {a, b, c, d, e, f})
  {
    ShapeWellFormed(g, a, b, c, d, e, f);
    var s6 := {a, b, c, d, e, f};
    assert {a, b, c, e, f} + {d} == s6;
    if g[3].edges == [4] {
      assert Dfs(g, 4, s6) == Walk([], s6);
      assert DfsEdges(g, 3, 1, s6) == Walk([], s6);
    }
    assert DfsEdges(g, 3, 0, s6) == Walk([], s6);
  }

  /** Pre-order from A: A, B, C, E, F, D, and every name is seen. */
  lemma DfsFromA(g: seq<Node>, a: string, b: string, c: string, d: string, e: string, f: string)
    requires InitShape(g, a, b, c, d, e, f)
    ensures WellFormed(g)
    ensures Dfs(g, 0, {}) == Walk([a, b, c, e, f, d], {a, b, c, d, e, f})
  {
    ShapeWellFormed(g, a, b, c, d, e, f);
    var s0: set<string> := {};
    var s1, s2, s5, s6 := {a}, {a, b}, {a, b, c, e, f}, {a, b, c, d, e, f};
    assert s0 + {a} == s1 && s1 + {b} == s2;
    DfsLeaf(g, 1, s1);
    DfsFromC(g, a, b, c, d, e, f);
    DfsFromD(g, a, b, c, d, e, f);
    assert DfsEdges(g, 0, 3, s6) == Walk([], s6);
    assert DfsEdges(g, 0, 2, s5) == Walk([d], s6);
    assert DfsEdges(g, 0, 1, s2) == Walk([c, e, f, d], s6);
    assert DfsEdges(g, 0, 0, s1) == Walk([b, c, e, f, d], s6);
  }

  // ---------------------------------------------------------------------
  // Breadth-first: A, B, C, D, E, F

  lemma UnseenTargets1(g: seq<Node>, x: nat, seen: set<string>)
    requires x < |g|
    ensures UnseenTargets(g, [x], seen) == if g[x].name in seen then [] else [x]
  {
    assert [x][..0] == [];
  }

  lemma UnseenTargets2(g: seq<Node>, x: nat, y: nat, seen: set<string>)
    requires x < |g| && y < |g|
    ensures UnseenTargets(g, [x, y], seen)
      == (if g[x].name in seen then [] else [x]) + (if g[y].name in seen then [] else [y])
  {
    assert [x, y][..1] == [x];
    UnseenTargets1(g, x, seen);
  }

  lemma UnseenTargets3(g: seq<Node>, x: nat, y: nat, z: nat, seen: set<string>)
    requires x < |g| && y < |g| && z < |g|
    ensures UnseenTargets(g, [x, y, z], seen)
      == (if g[x].name in seen then [] else [x]) + (if g[y].name in seen then [] else [y])
         + (if g[z].name in seen then [] else [z])
  {
    assert [x, y, z][..2] == [x, y];
    UnseenTargets2(g, x, y, seen);
    var init := UnseenTargets(g, [x, y], seen);
    assert UnseenTargets(g, [x, y, z], seen) == if g[z].name in seen then init else init + [z];
  }

  /** Once D is reported: E, F, and any second copy of E is skipped. */
  lemma BfsFromE(g: seq<Node>, a: string, b: string, c: string, d: string, e: string, f: string, queue: seq<nat>)
    requires InitShape(g, a, b, c, d, e, f)
    requires queue == [4, 5] || queue == [4, 5, 4]
    ensures WellFormed(g) && InArena(g, queue)
    ensures BfsLoop(g, queue, {a, b, c, d}) == Walk([e, f], {a, b, c, d, e, f})
  {
    ShapeWellFormed(g, a, b, c, d, e, f);
    var s5, s6 := {a, b, c, d, e}, {a, b, c, d, e, f};
    assert {a, b, c, d} + {e} == s5 && s5 + {f} == s6;
    var tail := queue[2..];
    assert tail == [] || tail == [4];
    assert BfsLoop(g, tail, s6) == Walk([], s6);
    assert [5] + tail + UnseenTargets(g, g[5].edges, s6) == [5] + tail;
    assert ([5] + tail)[1..] == tail;
    assert BfsLoop(g, [5] + tail, s5) == Walk([f], s6);
    assert queue[1..] + UnseenTargets(g, g[4].edges, s5) == [5] + tail;
  }

  /** Once C is reported: D, E, F. */
  lemma BfsFromD(g: seq<Node>, a: string, b: string, c: string, d: string, e: string, f: string)
    requires InitShape(g, a, b, c, d, e, f)
    ensures WellFormed(g)
    ensures BfsLoop(g, [3, 4, 5], {a, b, c}) == Walk([d, e, f], {a, b, c, d, e, f})
  {
    ShapeWellFormed(g, a, b, c, d, e, f);
    var s4 := {a, b, c, d};
    assert {a, b, c} + {d} == s4;
    var next := [3, 4, 5][1..] + UnseenTargets(g, g[3].edges, s4);
    if g[3].edges == [4] {
      UnseenTargets1(g, 4, s4);
      assert next == [4, 5, 4];
    } else {
      assert next == [4, 5];
    }
    BfsFromE(g, a, b, c, d, e, f, next);
  }

  /** One step of the queue loop that reports the unseen front vertex. */
  lemma BfsVisit(g: seq<Node>, queue: seq<nat>, seen: set<string>, next: seq<nat>, seen': set<string>)
    requires WellFormed(g) && InArena(g, queue) && queue != [] && g[queue[0]].name !in seen
    requires seen' == seen + {g[queue[0]].name}
    requires next == queue[1..] + UnseenTargets(g, g[queue[0]].edges, seen')
    ensures InArena(g, next)
    ensures BfsLoop(g, queue, seen)
      == Walk([g[queue[0]].name] + BfsLoop(g, next, seen').trace, BfsLoop(g, next, seen').seen)
  {
  }

  /** The same step, stated on the walk the rest of the loop makes. */
  lemma BfsStep(g: seq<Node>, queue: seq<nat>, n: string, seen: set<string>, seen1: set<string>, next: seq<nat>, t: seq<string>, s: set<string>)
    requires WellFormed(g) && InArena(g, queue) && queue != [] && n == g[queue[0]].name && n !in seen
    requires seen1 == seen + {n}
    requires next == queue[1..] + UnseenTargets(g, g[queue[0]].edges, seen1)
    requires BfsLoop(g, next, seen1) == Walk(t, s)
    ensures BfsLoop(g, queue, seen) == Walk([n] + t, s)
  {
  }

  /** Once A is reported: B, then C and the rest. */
  lemma BfsFromB(g: seq<Node>, a: string, b: string, c: string, d: string, e: string, f: string)
    requires InitShape(g, a, b, c, d, e, f)
    ensures WellFormed(g)
    ensures BfsLoop(g, [1, 2, 3], {a}) == Walk([b, c, d, e, f], {a, b, c, d, e, f})
  {
    ShapeWellFormed(g, a, b, c, d, e, f);
    var s2, s3 := {a, b}, {a, b, c};
    assert {a} + {b} == s2 && s2 + {c} == s3;
    BfsFromD(g, a, b, c, d, e, f);
    TargetsOfC(g, a, b, c, d, e, f);
    assert [2, 3][1..] + [4, 5] == [3, 4, 5];
    BfsVisit(g, [2, 3], s2, [3, 4, 5], s3);
    assert [1, 2, 3][1..] + UnseenTargets(g, g[1].edges, s2) == [2, 3];
    BfsVisit(g, [1, 2, 3], {a}, [2, 3], s2);
  }

  /** Level order from A: A, B, C, D, E, F, and every name is seen. */
  lemma BfsFromA(g: seq<Node>, a: string, b: string, c: string, d: string, e: string, f: string)
    requires InitShape(g, a, b, c, d, e, f)
    ensures WellFormed(g)
    ensures Bfs(g, 0, {}) == Walk([a, b, c, d, e, f], {a, b, c, d, e, f})
  {
    ShapeWellFormed(g, a, b, c, d, e, f);
    var s0: set<string> := {};
    assert s0 + {a} == {a};
    BfsFromB(g, a, b, c, d, e, f);
    TargetsOfA(g, a, b, c, d, e, f);
    assert [0][1..] + [1, 2, 3] == [1, 2, 3];
    BfsVisit(g, [0], s0, [1, 2, 3], {a});
  }

  /** A's edge targets, with only A seen: all three. */
  lemma TargetsOfA(g: seq<Node>, a: string, b: string, c: string, d: string, e: string, f: string)
    requires InitShape(g, a, b, c, d, e, f)
    ensures UnseenTargets(g, g[0].edges, {a}) == [1, 2, 3]
  {
    UnseenTargets3(g, 1, 2, 3, {a});
  }

  /** C's edge targets, with A, B, C seen: E and F. */
  lemma TargetsOfC(g: seq<Node>, a: string, b: string, c: string, d: string, e: string, f: string)
    requires InitShape(g, a, b, c, d, e, f)
    ensures UnseenTargets(g, g[2].edges, {a, b, c}) == [4, 5]
  {
    UnseenTargets3(g, 4, 5, 0, {a, b, c});
  }

  lemma SixNames(a: string, b: string, c: string, d: string, e: string, f: string)
    requires DistinctSix(a, b, c, d, e, f)
    ensures |{a, b, c, d, e, f}| == 6
  {
  }
}
