/**
 * The node store shared by the three graph variants.
 *
 * The Rust variants keep vertices in a `typed_arena::Arena` (or behind
 * `Rc<RefCell<..>>`) and let each vertex hold references to its edge
 * targets. Here every vertex lives at an index of one arena and an edge is
 * the index of its target, so cycles and back-edges need no aliasing.
 */
module NodeArena {

  /** A vertex: its name and the arena indices of its edge targets, in the
      order the edges were pushed. */
  datatype Node = Node(name: string, edges: seq<nat>)

  /** Every edge target is a vertex of the arena. */
  predicate WellFormed(g: seq<Node>) {
    forall u, j :: 0 <= u < |g| && 0 <= j < |g[u].edges| ==> g[u].edges[j] < |g|
  }

  /** Every element of `q` is a vertex of the arena. */
  predicate InArena(g: seq<Node>, q: seq<nat>) {
    forall j :: 0 <= j < |q| ==> q[j] < |g|
  }

  /** The names carried by the vertices of the arena. */
  function Names(g: seq<Node>): set<string> {
    set u | 0 <= u < |g| :: g[u].name
  }

  lemma NameInNames(g: seq<Node>, u: nat)
    requires u < |g|
    ensures g[u].name in Names(g)
  {
  }

  /** No two vertices of the arena share a name. */
  predicate UniqueNames(g: seq<Node>) {
    forall u, w :: 0 <= u < |g| && 0 <= w < |g| && g[u].name == g[w].name ==> u == w
  }

  predicate Distinct<T(==)>(s: seq<T>) {
    forall i, j :: 0 <= i < j < |s| ==> s[i] != s[j]
  }

  function Elems<T>(s: seq<T>): set<T> {
    set x | x in s
  }

  lemma DistinctConcat<T>(a: seq<T>, b: seq<T>)
    requires Distinct(a) && Distinct(b) && Elems(a) !! Elems(b)
    ensures Distinct(a + b) && Elems(a + b) == Elems(a) + Elems(b)
  {
    forall i, j | 0 <= i < j < |a + b| ensures (a + b)[i] != (a + b)[j] {
      if j < |a| {
      } else if i >= |a| {
        assert (a + b)[i] == b[i - |a|] && (a + b)[j] == b[j - |a|];
      } else {
        assert (a + b)[i] == a[i] && (a + b)[j] == b[j - |a|];
        assert a[i] in Elems(a) && b[j - |a|] in Elems(b);
      }
    }
  }

  /** A subset at least as large as its superset is the superset. */
  lemma SubsetFull<T>(a: set<T>, b: set<T>)
    requires a <= b && |a| >= |b|
    ensures a == b
  {
    if a != b {
      assert !(forall y :: y in a <==> y in b);
      var x :| x in b && x !in a;
      SubsetCard(a, b - {x});
    }
  }

  lemma SubsetCard<T>(a: set<T>, b: set<T>)
    requires a <= b
    ensures |a| <= |b|
  {
    if a != {} {
      var x :| x in a;
      SubsetCard(a - {x}, b - {x});
    }
  }

  /** The arena after pushing `to` onto the edge list of `from`. */
  function AppendEdge(g: seq<Node>, from: nat, to: nat): (r: seq<Node>)
    requires from < |g|
    ensures |r| == |g|
    ensures r[from].edges == g[from].edges + [to]
    ensures forall u :: 0 <= u < |g| ==> r[u].name == g[u].name
    ensures forall u :: 0 <= u < |g| && u != from ==> r[u] == g[u]
  {
    g[from := Node(g[from].name, g[from].edges + [to])]
  }

  lemma AppendEdgeWellFormed(g: seq<Node>, from: nat, to: nat)
    requires WellFormed(g) && from < |g| && to < |g|
    ensures WellFormed(AppendEdge(g, from, to))
  {
    var r := AppendEdge(g, from, to);
    forall u, j | 0 <= u < |r| && 0 <= j < |r[u].edges| ensures r[u].edges[j] < |r| {
      if u == from && j == |g[from].edges| {
        assert r[u].edges[j] == to;
      } else if u == from {
        assert r[u].edges[j] == g[u].edges[j];
      }
    }
  }

  /** The target of the first edge of `v` (`first` in rc_graph.rs and
      ref_graph.rs; indexing an empty edge list panics there). */
  function First(g: seq<Node>, v: nat): (e: nat)
    requires WellFormed(g) && v < |g| && |g[v].edges| > 0
    ensures e < |g|
    ensures g[v].edges == [e] + g[v].edges[1..]
  {
    g[v].edges[0]
  }

  /** The six-vertex topology built by `init` in rc_graph.rs and ref_graph.rs,
      over any six names: edges 0->1, 0->2, 0->3, 2->4, 2->5, 2->0. */
  function SixNodes(a: string, b: string, c: string, d: string, e: string, f: string): seq<Node> {
    [Node(a, [1, 2, 3]), Node(b, []), Node(c, [4, 5, 0]),
     Node(d, []), Node(e, []), Node(f, [])]
  }

  /** That topology with the names of the Rust scenario:
      A->B, A->C, A->D, C->E, C->F, C->A, at indices A=0 .. F=5. */
  function SixEdges(): seq<Node> {
    SixNodes("A", "B", "C", "D", "E", "F")
  }

  /** Six pairwise different names. */
  predicate DistinctSix(a: string, b: string, c: string, d: string, e: string, f: string) {
    && a != b && a != c && a != d && a != e && a != f
    && b != c && b != d && b != e && b != f
    && c != d && c != e && c != f
    && d != e && d != f && e != f
  }

  lemma LetterNames()
    ensures DistinctSix("A", "B", "C", "D", "E", "F")
  {
    assert "A"[0] == 'A' && "B"[0] == 'B' && "C"[0] == 'C';
    assert "D"[0] == 'D' && "E"[0] == 'E' && "F"[0] == 'F';
  }

  // ---------------------------------------------------------------------
  // Reachability

  /** `p` is a walk along edges of the arena. */
  ghost predicate IsPath(g: seq<Node>, p: seq<nat>) {
    |p| > 0 &&
    (forall i :: 0 <= i < |p| ==> p[i] < |g|) &&
    forall i :: 0 <= i < |p| - 1 ==> p[i + 1] in g[p[i]].edges
  }

  /** `p` is a walk from `v` none of whose vertices carries a name in `avoid`. */
  ghost predicate WalkFrom(g: seq<Node>, avoid: set<string>, v: nat, p: seq<nat>) {
    IsPath(g, p) && p[0] == v &&
    forall i :: 0 <= i < |p| ==> g[p[i]].name !in avoid
  }

  /** Vertex `u` can be reached from `v` without passing a name in `avoid`. */
  ghost predicate ReachesNode(g: seq<Node>, avoid: set<string>, v: nat, u: nat) {
    exists p :: WalkFrom(g, avoid, v, p) && p[|p| - 1] == u
  }

  /** The names of the vertices reachable from `v` avoiding `avoid`. */
  ghost function ReachableNames(g: seq<Node>, avoid: set<string>, v: nat): set<string> {
    set u | 0 <= u < |g| && ReachesNode(g, avoid, v, u) :: g[u].name
  }

  lemma ReachSelf(g: seq<Node>, avoid: set<string>, v: nat)
    requires v < |g| && g[v].name !in avoid
    ensures ReachesNode(g, avoid, v, v) && g[v].name in ReachableNames(g, avoid, v)
  {
    assert WalkFrom(g, avoid, v, [v]);
  }

  lemma ReachExtend(g: seq<Node>, avoid: set<string>, v: nat, u: nat, e: nat)
    requires ReachesNode(g, avoid, v, u) && u < |g| && e in g[u].edges && e < |g|
    requires g[e].name !in avoid
    ensures ReachesNode(g, avoid, v, e) && g[e].name in ReachableNames(g, avoid, v)
  {
    var p :| WalkFrom(g, avoid, v, p) && p[|p| - 1] == u;
    var q := p + [e];
    assert WalkFrom(g, avoid, v, q);
  }

  /** Whatever is reachable from an edge target of an unavoided `v` is
      reachable from `v`. */
  lemma ReachPrepend(g: seq<Node>, avoid: set<string>, v: nat, e: nat)
    requires v < |g| && e in g[v].edges && g[v].name !in avoid
    ensures ReachableNames(g, avoid, e) <= ReachableNames(g, avoid, v)
  {
    forall x | x in ReachableNames(g, avoid, e) ensures x in ReachableNames(g, avoid, v) {
      var u :| 0 <= u < |g| && ReachesNode(g, avoid, e, u) && g[u].name == x;
      var p :| WalkFrom(g, avoid, e, p) && p[|p| - 1] == u;
      var q := [v] + p;
      assert q[|q| - 1] == u;
      assert WalkFrom(g, avoid, v, q);
    }
  }

  /** Avoiding fewer names reaches at least as much. */
  lemma ReachMono(g: seq<Node>, small: set<string>, big: set<string>, v: nat)
    requires small <= big
    ensures ReachableNames(g, big, v) <= ReachableNames(g, small, v)
  {
    forall x | x in ReachableNames(g, big, v) ensures x in ReachableNames(g, small, v) {
      var u :| 0 <= u < |g| && ReachesNode(g, big, v, u) && g[u].name == x;
      var p :| WalkFrom(g, big, v, p) && p[|p| - 1] == u;
      assert WalkFrom(g, small, v, p);
    }
  }

  /** Every vertex whose name was added to `base` to form `s` has all its edge
      targets named in `s`: the traversal that grew `base` into `s` left no
      edge of a newly seen vertex unexplored. */
  ghost predicate Closed(g: seq<Node>, base: set<string>, s: set<string>) {
    WellFormed(g) &&
    forall u, j :: 0 <= u < |g| && g[u].name in s && g[u].name !in base && 0 <= j < |g[u].edges|
      ==> g[g[u].edges[j]].name in s
  }

  lemma ClosedTrans(g: seq<Node>, a: set<string>, b: set<string>, c: set<string>)
    requires Closed(g, a, b) && Closed(g, b, c) && a <= b <= c
    ensures Closed(g, a, c)
  {
  }

  /** A closed extension contains every name reachable from a vertex it
      contains. */
  lemma {:induction false} ClosedCovers(g: seq<Node>, base: set<string>, s: set<string>, v: nat)
    requires Closed(g, base, s) && v < |g| && g[v].name in s
    ensures ReachableNames(g, base, v) <= s
  {
    forall x | x in ReachableNames(g, base, v) ensures x in s {
      var u :| 0 <= u < |g| && ReachesNode(g, base, v, u) && g[u].name == x;
      var p :| WalkFrom(g, base, v, p) && p[|p| - 1] == u;
      WalkInside(g, base, s, p, |p| - 1);
    }
  }

  lemma {:induction false} WalkInside(g: seq<Node>, base: set<string>, s: set<string>, p: seq<nat>, k: nat)
    requires Closed(g, base, s) && IsPath(g, p) && g[p[0]].name in s && k < |p|
    requires forall i :: 0 <= i < |p| ==> g[p[i]].name !in base
    ensures g[p[k]].name in s
  {
    if k > 0 {
      WalkInside(g, base, s, p, k - 1);
      var u := p[k - 1];
      assert p[(k - 1) + 1] in g[u].edges;
      var j :| 0 <= j < |g[u].edges| && g[u].edges[j] == p[k];
      assert g[u].name in s && g[u].name !in base;
    }
  }

  // ---------------------------------------------------------------------
  // Allocation and edge pushes

  /** The `typed_arena::Arena<Node>` the vertices are allocated in. */
  class Arena {
    var nodes: seq<Node>

    constructor ()
      ensures nodes == []
    {
      nodes := [];
    }

    /** `Node::new(name, arena)`: a fresh vertex with no edges. */
    method Alloc(name: string) returns (id: nat)
      modifies this
      ensures id == |old(nodes)|
      ensures nodes == old(nodes) + [Node(name, [])]
    {
      id := |nodes|;
      nodes := nodes + [Node(name, [])];
    }

    /** `from.edges.push(to)`: append one edge, whatever it duplicates. */
    method Push(from: nat, to: nat)
      requires from < |nodes| && to < |nodes|
      modifies this
      ensures nodes == AppendEdge(old(nodes), from, to)
    {
      nodes := AppendEdge(nodes, from, to);
    }
  }
}
