/**
 * ref_graph.rs: the `typed_arena` + `UnsafeCell` variant. Its node-level
 * traversals are those of `Traversal` (ref_graph.rs:19-60 is the code of
 * ref_arena.rs:25-61 over an `UnsafeCell` edge list) and its `first` is
 * `NodeArena.First`; what is particular to it is `init`, which allocates
 * into an arena the caller owns.
 */
module RefGraph {
  import opened NodeArena
  import opened Traversal
  import Scenario

  /** The six vertices `init` allocates, once their edges are pushed, when
      the first of them lands at arena index `o`. */
  function InitNodes(o: nat): seq<Node> {
    [Node("A", [o + 1, o + 2, o + 3]), Node("B", []), Node("C", [o + 4, o + 5, o]),
     Node("D", []), Node("E", []), Node("F", [])]
  }

  /** `init`: allocate A..F in the given arena, push A->B, A->C, A->D and
      C->E, C->F, C->A, and return A. Whatever the arena held before is
      left as it was. */
  method Init(arena: Arena) returns (root: nat)
    modifies arena
    ensures root == old(|arena.nodes|)
    ensures arena.nodes == old(arena.nodes) + InitNodes(root)
  {
    root := arena.Alloc("A");
    var b := arena.Alloc("B");
    var c := arena.Alloc("C");
    var d := arena.Alloc("D");
    var e := arena.Alloc("E");
    var f := arena.Alloc("F");
    arena.Push(root, b);
    arena.Push(root, c);
    arena.Push(root, d);
    assert arena.nodes[root] == Node("A", [root + 1, root + 2, root + 3]);
    arena.Push(c, e);
    arena.Push(c, f);
    arena.Push(c, root);
    assert arena.nodes[c] == Node("C", [root + 4, root + 5, root]);
    assert |arena.nodes| == root + 6;
    assert forall u :: 0 <= u < root + 6 && u != root && u != c ==>
        arena.nodes[u] == (old(arena.nodes) + InitNodes(root))[u];
  }

  /** In the fresh arena `main` passes, `init` builds the six-vertex graph
      at indices 0..5. */
  lemma FreshInit()
    ensures InitNodes(0) == SixEdges()
  {
  }

  /** What `main` does with the graph of `init` in a fresh arena: depth-first
      from A gives A, B, C, E, F, D; breadth-first gives A, B, C, D, E, F;
      `first` of A is B. */
  lemma InitTraversals()
    ensures WellFormed(InitNodes(0))
    ensures Dfs(InitNodes(0), 0, {}).trace == ["A", "B", "C", "E", "F", "D"]
    ensures Bfs(InitNodes(0), 0, {}).trace == ["A", "B", "C", "D", "E", "F"]
    ensures InitNodes(0)[First(InitNodes(0), 0)].name == "B"
  {
    FreshInit();
    Scenario.SixEdgesShape();
    Scenario.DfsFromA(SixEdges(), "A", "B", "C", "D", "E", "F");
    Scenario.BfsFromA(SixEdges(), "A", "B", "C", "D", "E", "F");
  }
}
