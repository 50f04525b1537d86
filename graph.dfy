/**
 * The undirected tree over the V feature vertices: its edge rows, the neighbour
 * sets and the direction-agnostic edge-index map built from them, the default
 * path topology, and a rooted parent/depth description of a tree used as the
 * "edges form a tree" precondition.
 */
module Graph {
  import opened Basics

  /** One row `v1, v2` of the `(V-1, 2)` edge tensor. */
  datatype Edge = Edge(v1: nat, v2: nat)

  /** Every endpoint names one of the V vertices and no edge is a loop. */
  predicate ValidEdges(V: nat, edges: seq<Edge>)
  {
    forall e :: 0 <= e < |edges| ==> edges[e].v1 < V && edges[e].v2 < V && edges[e].v1 != edges[e].v2
  }

  /** Edge `e` joins `a` and `b`, in either orientation. */
  predicate Joins(e: Edge, a: nat, b: nat)
  {
    (e.v1 == a && e.v2 == b) || (e.v1 == b && e.v2 == a)
  }

  /** No unordered pair of vertices is listed twice. */
  predicate Simple(edges: seq<Edge>)
  {
    forall e, f :: 0 <= e < f < |edges| ==> !Joins(edges[f], edges[e].v1, edges[e].v2)
  }

  /** Each row lists its smaller endpoint first, as the complete-graph pair index expects. */
  predicate Ordered(edges: seq<Edge>)
  {
    forall e :: 0 <= e < |edges| ==> edges[e].v1 < edges[e].v2
  }

  /** The vertices the edge rows join to `v`: what `neighbors[v]` holds after adding every row. */
  function Neighbors(edges: seq<Edge>, v: nat): set<nat>
    decreases |edges|
  {
    if edges == [] then {}
    else
      var e := edges[|edges| - 1];
      Neighbors(edges[..|edges| - 1], v) + (if e.v1 == v then {e.v2} else {}) + (if e.v2 == v then {e.v1} else {})
  }

  /** `b` is a neighbour of `a` exactly when some edge row joins them. */
  lemma {:induction false} NeighborsJoin(edges: seq<Edge>, a: nat, b: nat)
    ensures b in Neighbors(edges, a) <==> exists e :: 0 <= e < |edges| && Joins(edges[e], a, b)
  {
    if edges != [] {
      var n := |edges| - 1;
      NeighborsJoin(edges[..n], a, b);
      if b in Neighbors(edges, a) && b !in Neighbors(edges[..n], a) {
        assert Joins(edges[n], a, b);
      }
      if e :| 0 <= e < |edges| && Joins(edges[e], a, b) {
        if e < n {
          assert Joins(edges[..n][e], a, b);
        }
      }
    }
  }

  /** The neighbour sets are symmetric. */
  lemma NeighborsSymmetric(edges: seq<Edge>, a: nat, b: nat)
    ensures b in Neighbors(edges, a) <==> a in Neighbors(edges, b)
  {
    NeighborsJoin(edges, a, b);
    NeighborsJoin(edges, b, a);
    if exists e :: 0 <= e < |edges| && Joins(edges[e], a, b) {
      var e :| 0 <= e < |edges| && Joins(edges[e], a, b);
      assert Joins(edges[e], b, a);
    }
    if exists e :: 0 <= e < |edges| && Joins(edges[e], b, a) {
      var e :| 0 <= e < |edges| && Joins(edges[e], b, a);
      assert Joins(edges[e], a, b);
    }
  }

  /** Neighbours of an in-range vertex are in range and distinct from it. */
  lemma {:induction false} NeighborsInRange(V: nat, edges: seq<Edge>, v: nat)
    requires ValidEdges(V, edges)
    ensures forall u :: u in Neighbors(edges, v) ==> u < V && u != v
  {
    forall u | u in Neighbors(edges, v) ensures u < V && u != v {
      NeighborsJoin(edges, v, u);
    }
  }

  /** The map `_edge_index` after each row `e` has stored `e` under both of its orientations. */
  function EdgeIndexMap(edges: seq<Edge>): map<(nat, nat), nat>
    decreases |edges|
  {
    if edges == [] then map[]
    else
      var n := |edges| - 1;
      var e := edges[n];
      EdgeIndexMap(edges[..n])[(e.v1, e.v2) := n][(e.v2, e.v1) := n]
  }

  /**
   * The edge-index map is keyed by exactly the ordered neighbour pairs; the value
   * stored under `(a, b)` is the last row joining `a` and `b`, so it is the same
   * for both orientations.
   */
  lemma {:induction false} EdgeIndexMapSpec(edges: seq<Edge>, a: nat, b: nat)
    ensures (a, b) in EdgeIndexMap(edges) <==> b in Neighbors(edges, a)
    ensures (a, b) in EdgeIndexMap(edges) ==>
      && (b, a) in EdgeIndexMap(edges)
      && EdgeIndexMap(edges)[(a, b)] == EdgeIndexMap(edges)[(b, a)]
      && EdgeIndexMap(edges)[(a, b)] < |edges|
      && Joins(edges[EdgeIndexMap(edges)[(a, b)]], a, b)
      && forall f :: EdgeIndexMap(edges)[(a, b)] < f < |edges| ==> !Joins(edges[f], a, b)
  {
    if edges != [] {
      var n := |edges| - 1;
      EdgeIndexMapSpec(edges[..n], a, b);
      if !Joins(edges[n], a, b) && (a, b) in EdgeIndexMap(edges[..n]) {
        var m := EdgeIndexMap(edges[..n]);
        forall f | m[(a, b)] < f < |edges| ensures !Joins(edges[f], a, b) {
          if f < n {
            assert edges[f] == edges[..n][f];
          }
        }
      }
    }
  }

  /** When no pair is listed twice, `_edge_index[v1, v2] == _edge_index[v2, v1] == e` for row `e`. */
  lemma EdgeIndexOfRow(edges: seq<Edge>, e: nat)
    requires Simple(edges)
    requires e < |edges|
    ensures (edges[e].v1, edges[e].v2) in EdgeIndexMap(edges)
    ensures (edges[e].v2, edges[e].v1) in EdgeIndexMap(edges)
    ensures EdgeIndexMap(edges)[(edges[e].v1, edges[e].v2)] == e
    ensures EdgeIndexMap(edges)[(edges[e].v2, edges[e].v1)] == e
  {
    var a, b := edges[e].v1, edges[e].v2;
    NeighborsJoin(edges, a, b);
    assert Joins(edges[e], a, b);
    EdgeIndexMapSpec(edges, a, b);
  }

  /** The default topology `[[0, 1], [1, 2], ..., [V-2, V-1]]` used when no edges are given. */
  function DefaultEdges(V: nat): (edges: seq<Edge>)
    requires V >= 1
    ensures |edges| == V - 1
  {
    seq(V - 1, i requires 0 <= i => Edge(i, i + 1))
  }

  /* ---------------- Trees as parent/depth witnesses ---------------- */

  /**
   * `parent` and `depth` describe a rooting: the root has depth 0 and every
   * other vertex has an in-range parent one level closer to the root.
   */
  predicate ParentLinks(V: nat, root: nat, parent: seq<nat>, depth: seq<nat>)
  {
    && root < V && |parent| == V && |depth| == V && depth[root] == 0
    && (forall v :: 0 <= v < V ==> Linked(V, root, parent, depth, v))
    && (forall v :: 0 <= v < V ==> depth[v] < V)
  }

  /** A non-root vertex has an in-range parent one level up. */
  predicate Linked(V: nat, root: nat, parent: seq<nat>, depth: seq<nat>, v: nat)
    requires |parent| == V && |depth| == V && v < V
  {
    v != root ==> parent[v] < V && depth[v] == depth[parent[v]] + 1
  }

  /** The children of `v` under the rooting. */
  function Children(V: nat, root: nat, parent: seq<nat>, v: nat): set<nat>
    requires |parent| == V
  {
    set c | 0 <= c < V && c != root && parent[c] == v
  }

  /** The tree neighbours of `v`: its parent (unless it is the root) and its children. */
  function Family(V: nat, root: nat, parent: seq<nat>, v: nat): set<nat>
    requires |parent| == V && v < V
  {
    (if v == root then {} else {parent[v]}) + Children(V, root, parent, v)
  }

  /**
   * The `V - 1` edge rows form a tree, rooted at `root` by the witness
   * `parent`/`depth`: every vertex's neighbours are exactly its parent and its children.
   */
  ghost predicate RootedTree(V: nat, edges: seq<Edge>, root: nat, parent: seq<nat>, depth: seq<nat>)
  {
    && |edges| + 1 == V
    && ValidEdges(V, edges)
    && ParentLinks(V, root, parent, depth)
    && forall v :: 0 <= v < V ==> Neighbors(edges, v) == Family(V, root, parent, v)
  }

  /** The rows can be rooted at `r`. */
  ghost predicate RootableAt(V: nat, edges: seq<Edge>, r: nat)
  {
    exists parent: seq<nat>, depth: seq<nat> :: RootedTree(V, edges, r, parent, depth)
  }

  /**
   * The `V - 1` edge rows form a tree on `V >= 1` vertices, which can then be
   * rooted at any vertex.
   */
  ghost predicate Tree(V: nat, edges: seq<Edge>)
  {
    V >= 1 && forall r :: 0 <= r < V ==> RootableAt(V, edges, r)
  }

  /** The `k`-th ancestor of `x` (stopping at the root). */
  function Ancestor(V: nat, root: nat, parent: seq<nat>, depth: seq<nat>, x: nat, k: nat): (a: nat)
    requires ParentLinks(V, root, parent, depth) && x < V
    ensures a < V
    decreases k
  {
    if k == 0 || x == root then x
    else
      assert Linked(V, root, parent, depth, x);
      Ancestor(V, root, parent, depth, parent[x], k - 1)
  }

  /** `x` lies in the subtree of `v`. */
  predicate Below(V: nat, root: nat, parent: seq<nat>, depth: seq<nat>, x: nat, v: nat)
    requires ParentLinks(V, root, parent, depth) && x < V && v < V
  {
    depth[x] >= depth[v] && Ancestor(V, root, parent, depth, x, depth[x] - depth[v]) == v
  }

  /** Walking up `k <= depth[x]` steps lands exactly `k` levels higher. */
  lemma {:induction false} AncestorDepth(V: nat, root: nat, parent: seq<nat>, depth: seq<nat>, x: nat, k: nat)
    requires ParentLinks(V, root, parent, depth) && x < V && k <= depth[x]
    ensures depth[Ancestor(V, root, parent, depth, x, k)] == depth[x] - k
    decreases k
  {
    if k > 0 {
      assert Linked(V, root, parent, depth, x);
      AncestorDepth(V, root, parent, depth, parent[x], k - 1);
    }
  }

  /** Walking up `a` steps and then `b` steps is walking up `a + b` steps. */
  lemma {:induction false} AncestorAdd(V: nat, root: nat, parent: seq<nat>, depth: seq<nat>, x: nat, a: nat, b: nat)
    requires ParentLinks(V, root, parent, depth) && x < V && a <= depth[x]
    ensures Ancestor(V, root, parent, depth, Ancestor(V, root, parent, depth, x, a), b)
         == Ancestor(V, root, parent, depth, x, a + b)
    decreases a
  {
    if a > 0 {
      assert Linked(V, root, parent, depth, x);
      AncestorAdd(V, root, parent, depth, parent[x], a - 1, b);
    }
  }

  /** Every vertex lies in the subtree of the root. */
  lemma BelowRoot(V: nat, root: nat, parent: seq<nat>, depth: seq<nat>, x: nat)
    requires ParentLinks(V, root, parent, depth) && x < V
    ensures Below(V, root, parent, depth, x, root)
  {
    AncestorDepth(V, root, parent, depth, x, depth[x]);
    DepthZeroIsRoot(V, root, parent, depth, Ancestor(V, root, parent, depth, x, depth[x]));
  }

  /** Only the root sits at depth 0. */
  lemma DepthZeroIsRoot(V: nat, root: nat, parent: seq<nat>, depth: seq<nat>, y: nat)
    requires ParentLinks(V, root, parent, depth) && y < V && depth[y] == 0
    ensures y == root
  {
    assert Linked(V, root, parent, depth, y);
  }

  /** A child lies in the subtree of its parent. */
  lemma BelowParent(V: nat, root: nat, parent: seq<nat>, depth: seq<nat>, c: nat)
    requires ParentLinks(V, root, parent, depth) && c < V && c != root
    ensures parent[c] < V && Below(V, root, parent, depth, c, parent[c])
  {
    assert Linked(V, root, parent, depth, c);
  }

  /** Subtrees nest: below a descendant of `v` is below `v`. */
  lemma BelowTrans(V: nat, root: nat, parent: seq<nat>, depth: seq<nat>, x: nat, c: nat, v: nat)
    requires ParentLinks(V, root, parent, depth) && x < V && c < V && v < V
    requires Below(V, root, parent, depth, x, c) && Below(V, root, parent, depth, c, v)
    ensures Below(V, root, parent, depth, x, v)
  {
    AncestorAdd(V, root, parent, depth, x, depth[x] - depth[c], depth[c] - depth[v]);
  }

  /** The child of `v` whose subtree holds `u`, for `u` strictly below `v`. */
  function Branch(V: nat, root: nat, parent: seq<nat>, depth: seq<nat>, u: nat, v: nat): nat
    requires ParentLinks(V, root, parent, depth) && u < V && v < V
  {
    if depth[u] > depth[v] then Ancestor(V, root, parent, depth, u, depth[u] - depth[v] - 1) else u
  }

  /** A proper descendant of `v` lies below a child of `v`: its branch. */
  lemma BranchChild(V: nat, root: nat, parent: seq<nat>, depth: seq<nat>, u: nat, v: nat)
    requires ParentLinks(V, root, parent, depth) && u < V && v < V
    requires Below(V, root, parent, depth, u, v) && u != v
    ensures Branch(V, root, parent, depth, u, v) in Children(V, root, parent, v)
    ensures Below(V, root, parent, depth, u, Branch(V, root, parent, depth, u, v))
  {
    assert depth[u] > depth[v];
    var k := depth[u] - depth[v] - 1;
    var c := Ancestor(V, root, parent, depth, u, k);
    AncestorDepth(V, root, parent, depth, u, k);
    AncestorAdd(V, root, parent, depth, u, k, 1);
    assert c != root;
    assert c in Children(V, root, parent, v);
  }

  /** Below a child `c` is strictly below its parent, on the branch of `c`. */
  lemma BelowChild(V: nat, root: nat, parent: seq<nat>, depth: seq<nat>, u: nat, c: nat)
    requires ParentLinks(V, root, parent, depth) && u < V && c < V && c != root
    requires Below(V, root, parent, depth, u, c)
    ensures parent[c] < V && Below(V, root, parent, depth, u, parent[c]) && u != parent[c]
    ensures Branch(V, root, parent, depth, u, parent[c]) == c
  {
    assert Linked(V, root, parent, depth, c);
    BelowParent(V, root, parent, depth, c);
    BelowTrans(V, root, parent, depth, u, c, parent[c]);
    assert depth[u] - depth[parent[c]] - 1 == depth[u] - depth[c];
  }

  /** The vertices in the subtree of `v`, `v` included. */
  ghost function Subtree(V: nat, root: nat, parent: seq<nat>, depth: seq<nat>, v: nat): set<nat>
    requires ParentLinks(V, root, parent, depth) && v < V
  {
    set u: nat | u < V && Below(V, root, parent, depth, u, v)
  }

  /** `v` and the subtrees of those of its children listed in `done`. */
  ghost function Explored(V: nat, root: nat, parent: seq<nat>, depth: seq<nat>, v: nat, done: seq<nat>): set<nat>
    requires ParentLinks(V, root, parent, depth) && v < V
  {
    set u: nat | u < V && Below(V, root, parent, depth, u, v) && (u == v || Branch(V, root, parent, depth, u, v) in done)
  }

  lemma ExploredStart(V: nat, root: nat, parent: seq<nat>, depth: seq<nat>, v: nat)
    requires ParentLinks(V, root, parent, depth) && v < V
    ensures Explored(V, root, parent, depth, v, []) == {v}
  {
    assert Below(V, root, parent, depth, v, v);
  }

  /** Exploring one more child `c` adds exactly the subtree of `c`, which was disjoint from what was explored. */
  lemma ExploredStep(V: nat, root: nat, parent: seq<nat>, depth: seq<nat>, v: nat, done: seq<nat>, c: nat)
    requires ParentLinks(V, root, parent, depth) && v < V
    requires c in Children(V, root, parent, v) && c !in done
    ensures Explored(V, root, parent, depth, v, done + [c])
         == Explored(V, root, parent, depth, v, done) + Subtree(V, root, parent, depth, c)
    ensures Explored(V, root, parent, depth, v, done) !! Subtree(V, root, parent, depth, c)
    ensures Subtree(V, root, parent, depth, c) <= Subtree(V, root, parent, depth, v)
  {
    var before, after := Explored(V, root, parent, depth, v, done), Explored(V, root, parent, depth, v, done + [c]);
    var sub := Subtree(V, root, parent, depth, c);
    forall u | u in sub
      ensures u in after && u !in before && u in Subtree(V, root, parent, depth, v)
    {
      BelowChild(V, root, parent, depth, u, c);
    }
    forall u | u in after && u !in before ensures u in sub {
      BranchChild(V, root, parent, depth, u, v);
    }
  }

  /** Once every child is explored, the whole subtree is. */
  lemma ExploredAll(V: nat, root: nat, parent: seq<nat>, depth: seq<nat>, v: nat, done: seq<nat>)
    requires ParentLinks(V, root, parent, depth) && v < V
    requires forall c :: c in Children(V, root, parent, v) ==> c in done
    ensures Explored(V, root, parent, depth, v, done) == Subtree(V, root, parent, depth, v)
  {
    forall u | u in Subtree(V, root, parent, depth, v) && u != v
      ensures u in Explored(V, root, parent, depth, v, done)
    {
      BranchChild(V, root, parent, depth, u, v);
    }
  }

  /** Two vertices on the same level have disjoint subtrees. */
  lemma BelowDisjoint(V: nat, root: nat, parent: seq<nat>, depth: seq<nat>, x: nat, a: nat, b: nat)
    requires ParentLinks(V, root, parent, depth) && x < V && a < V && b < V
    requires depth[a] == depth[b] && a != b
    ensures !(Below(V, root, parent, depth, x, a) && Below(V, root, parent, depth, x, b))
  {
  }

  /* ---------------- Degrees ---------------- */

  /** `d[0] + ... + d[n - 1]`. */
  function Total(d: seq<nat>, n: nat): nat
    requires n <= |d|
  {
    if n == 0 then 0 else Total(d, n - 1) + d[n - 1]
  }

  /** The degree `len(neighbors[v])` of every vertex `v < V`. */
  function Degrees(edges: seq<Edge>, V: nat): (d: seq<nat>)
    ensures |d| == V
    ensures forall v :: 0 <= v < V ==> d[v] == |Neighbors(edges, v)|
  {
    seq(V, v requires 0 <= v => |Neighbors(edges, v)|)
  }

  /** Raising entries `a` and `b` by at most one each raises the total by at most one per index below `n`. */
  lemma {:induction false} TotalStep(d: seq<nat>, d': seq<nat>, n: nat, a: nat, b: nat)
    requires n <= |d| == |d'|
    requires forall v :: 0 <= v < n ==> d[v] <= d'[v] + (if a == v then 1 else 0) + (if b == v then 1 else 0)
    ensures Total(d, n) <= Total(d', n) + (if a < n then 1 else 0) + (if b < n then 1 else 0)
  {
    if n > 0 {
      TotalStep(d, d', n - 1, a, b);
    }
  }

  lemma {:induction false} TotalZero(d: seq<nat>, n: nat)
    requires n <= |d| && forall v :: 0 <= v < n ==> d[v] == 0
    ensures Total(d, n) == 0
  {
    if n > 0 {
      TotalZero(d, n - 1);
    }
  }

  lemma {:induction false} TotalAtLeast(d: seq<nat>, n: nat)
    requires n <= |d| && forall v :: 0 <= v < n ==> d[v] >= 2
    ensures Total(d, n) >= 2 * n
  {
    if n > 0 {
      TotalAtLeast(d, n - 1);
    }
  }

  /** The last row adds at most one neighbour to each of its endpoints and none to other vertices. */
  lemma NeighborsLast(edges: seq<Edge>, v: nat)
    requires edges != []
    ensures |Neighbors(edges, v)| <= |Neighbors(edges[..|edges| - 1], v)|
      + (if edges[|edges| - 1].v1 == v then 1 else 0) + (if edges[|edges| - 1].v2 == v then 1 else 0)
  {
    var e := edges[|edges| - 1];
    var before := Neighbors(edges[..|edges| - 1], v);
    var a: set<nat> := if e.v1 == v then {e.v2} else {};
    var b: set<nat> := if e.v2 == v then {e.v1} else {};
    assert Neighbors(edges, v) == before + a + b;
    assert |before + a| <= |before| + |a|;
    assert |before + a + b| <= |before + a| + |b|;
  }

  /** Each row contributes at most two to the total degree. */
  lemma {:induction false} DegreesBound(edges: seq<Edge>, V: nat)
    ensures Total(Degrees(edges, V), V) <= 2 * |edges|
  {
    var d := Degrees(edges, V);
    if edges == [] {
      TotalZero(d, V);
    } else {
      var init := edges[..|edges| - 1];
      var e := edges[|edges| - 1];
      var d' := Degrees(init, V);
      forall v | 0 <= v < V
        ensures d[v] <= d'[v] + (if e.v1 == v then 1 else 0) + (if e.v2 == v then 1 else 0)
      {
        NeighborsLast(edges, v);
      }
      TotalStep(d, d', V, e.v1, e.v2);
      DegreesBound(init, V);
    }
  }

  /** `V - 1` rows over `V` vertices leave some vertex with at most one neighbour. */
  lemma SomeLeaf(V: nat, edges: seq<Edge>)
    requires V >= 1 && |edges| + 1 == V
    ensures exists v :: 0 <= v < V && |Neighbors(edges, v)| <= 1
  {
    if forall v :: 0 <= v < V ==> |Neighbors(edges, v)| >= 2 {
      TotalAtLeast(Degrees(edges, V), V);
      DegreesBound(edges, V);
      assert false;
    }
  }

  /* ---------------- The default path ---------------- */

  /** On the default path, `v` is joined to `v - 1` and `v + 1` when they exist. */
  lemma DefaultEdgesNeighbors(V: nat, v: nat)
    requires 1 <= V && v < V
    ensures Neighbors(DefaultEdges(V), v) == (if v > 0 then {v - 1} else {}) + (if v + 1 < V then {v + 1} else {})
  {
    var edges := DefaultEdges(V);
    var expected := (if v > 0 then {v - 1} else {}) + (if v + 1 < V then {v + 1} else {});
    forall b: nat ensures b in Neighbors(edges, v) <==> b in expected {
      NeighborsJoin(edges, v, b);
      if b in expected {
        var e := if b < v then b else v;
        assert Joins(edges[e], v, b);
      }
    }
  }

  /** The path rooted at `r`: every vertex points one step towards `r`. */
  function PathParent(V: nat, r: nat): (parent: seq<nat>)
    ensures |parent| == V
  {
    seq(V, (v: int) requires 0 <= v => if v < r then v + 1 else if v > r then v - 1 else 0)
  }

  /** The distance `|v - r|` along the path. */
  function PathDepth(V: nat, r: nat): (depth: seq<nat>)
    ensures |depth| == V
  {
    seq(V, (v: int) requires 0 <= v => if v < r then r - v else v - r)
  }

  /** The default path is a tree, rooted at any of its vertices by walking towards that vertex. */
  lemma DefaultEdgesTree(V: nat)
    requires V >= 1
    ensures Tree(V, DefaultEdges(V))
  {
    forall r | 0 <= r < V ensures RootableAt(V, DefaultEdges(V), r) {
      DefaultEdgesRootedAt(V, r);
    }
  }

  lemma DefaultEdgesRootedAt(V: nat, r: nat)
    requires r < V
    ensures RootedTree(V, DefaultEdges(V), r, PathParent(V, r), PathDepth(V, r))
  {
    var edges, parent, depth := DefaultEdges(V), PathParent(V, r), PathDepth(V, r);
    assert ValidEdges(V, edges);
    forall v | 0 <= v < V ensures Linked(V, r, parent, depth, v) {
    }
    assert ParentLinks(V, r, parent, depth);
    forall v | 0 <= v < V ensures Neighbors(edges, v) == Family(V, r, parent, v) {
      DefaultEdgesNeighbors(V, v);
      var kids := Children(V, r, parent, v);
      assert kids == (if v <= r && v > 0 then {v - 1} else {}) + (if v >= r && v + 1 < V then {v + 1} else {}) by {
        forall c: nat ensures c in kids <==> c in (if v <= r && v > 0 then {v - 1} else {}) + (if v >= r && v + 1 < V then {v + 1} else {}) {
        }
      }
    }
  }
}
