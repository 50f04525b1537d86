/**
 * The `TreeCat` object: `V` feature columns, each with a latent categorical
 * state in `[0, M)`, coupled along the edges of a tree. Setting `edges`
 * rebuilds the neighbour sets, the edge-index map and the root; `model`
 * samples one row of latent states and feature values by walking the tree
 * from the root. Random draws (`pyro.sample`) are the functions of `Draws`.
 */
module Tabular {
  import opened Basics
  import opened Graph
  import opened Pairs
  import opened Stats
  import opened Center

  /**
   * What the random draws of one run of `model` return: the sampled vertex and
   * edge probability tables, the categorical draw of a vertex's state from a
   * probability row, and the draw of a feature value from its mixture component.
   */
  datatype Draws<X> = Draws(vertexProbs: seq<seq<real>>, edgeProbs: seq<seq<real>>,
                            sampleZ: (nat, seq<real>) -> nat, sampleX: (nat, nat) -> X)

  /** The cell `(a, b)` of an `M x M` table stored row-major, or of its transpose. */
  function Cell(M: nat, a: nat, b: nat, transpose: bool): (c: nat)
    requires a < M && b < M
    ensures c < M * M
  {
    PairCodeBounds(M, a, b);
    PairCodeBounds(M, b, a);
    if transpose then M * b + a else M * a + b
  }

  /**
   * `Vindex(joint)[..., a, :]` for the joint reshaped to `M x M`, transposed
   * first when `transpose`: the distribution of a vertex given its parent's state `a`.
   */
  function Conditional(M: nat, joint: seq<real>, a: nat, transpose: bool): (probs: seq<real>)
    requires |joint| == M * M && a < M
    ensures |probs| == M
    ensures forall b :: 0 <= b < M ==> probs[b] == joint[Cell(M, a, b, transpose)]
  {
    seq(M, b requires 0 <= b < M => joint[Cell(M, a, b, transpose)])
  }

  /**
   * With the transposition exactly when the parent `v0` has the larger id, the
   * conditional of `v` at state `b` reads the joint cell whose code decodes to
   * (state of the lower-id vertex, state of the higher-id vertex): the cell that
   * `update` counts the pair `(v1, v2)`, `v1 < v2`, into.
   */
  lemma ConditionalCell(M: nat, v: nat, v0: nat, a: nat, b: nat)
    requires v != v0 && a < M && b < M
    ensures Cell(M, a, b, v0 > v) / M == (if v0 < v then a else b)
    ensures Cell(M, a, b, v0 > v) % M == (if v0 < v then b else a)
  {
    PairCodeBounds(M, a, b);
    PairCodeBounds(M, b, a);
  }

  /** The value `model` leaves in `x[u]`: the observed column, an imputed draw, or what was there. */
  function Emitted<X>(data: seq<Option<X>>, impute: bool, draws: Draws<X>, u: nat, s: nat, before: Option<X>): (r: Option<X>)
    requires u < |data|
    ensures data[u].Some? ==> r == data[u]
    ensures data[u].None? && !impute ==> r == before
    ensures data[u].None? && impute ==> r == Some(draws.sampleX(u, s))
  {
    if data[u].Some? || impute then Some(if data[u].Some? then data[u].value else draws.sampleX(u, s))
    else before
  }

  class TreeCat {
    /** `len(features)`, the number of columns. */
    const V: nat
    /** `capacity`, the number of latent states. */
    const M: nat
    const edgeGuide: EdgeGuide
    var edges: seq<Edge>
    var root: nat
    var neighbors: seq<set<nat>>
    var edgeIndex: map<(nat, nat), nat>
    var savedZ: Option<seq<Option<nat>>>

    /** The derived structures agree with `edges`. */
    ghost predicate Wired()
      reads this`edges, this`root, this`neighbors, this`edgeIndex
    {
      && V >= 1 && M > 1
      && |edges| + 1 == V && ValidEdges(V, edges)
      && CenterOfTree(edges) == Some(root) && root < V
      && neighbors == NeighborTable(V, edges)
      && edgeIndex == EdgeIndexMap(edges)
    }

    ghost predicate Valid()
      reads this, edgeGuide, edgeGuide.vertexStats, edgeGuide.completeStats
    {
      && Wired()
      && edgeGuide.Valid() && edgeGuide.M == M && edgeGuide.V == V && edgeGuide.edges == edges
    }

    /**
     * `TreeCat(features, capacity, edges, annealing_rate)` for `V` features;
     * without edges, the path `0 - 1 - ... - (V-1)`.
     */
    constructor (V: nat, capacity: nat, edges: Option<seq<Edge>>, annealingRate: real)
      requires capacity > 1                                    // `assert capacity > 1`
      requires V >= 1                                          // `edges.shape == (V - 1, 2)` needs `V - 1 >= 0`
      requires edges.Some? ==> |edges.value| + 1 == V          // `assert edges.shape == (E, 2)`
      requires edges.Some? ==> ValidEdges(V, edges.value)      // every row indexes `neighbors`
      requires 0.0 < annealingRate                             // `_EdgeGuide`'s `assert 0 < annealing_rate`
      ensures Valid() && fresh(edgeGuide)
      ensures this.V == V && M == capacity && savedZ == None
      ensures this.edges == (if edges.None? then DefaultEdges(V) else edges.value)
      ensures edgeGuide.annealingRate == annealingRate && edgeGuide.countStats == 1.0
    {
      var es := if edges.None? then DefaultEdges(V) else edges.value;
      this.V := V;
      M := capacity;
      edgeGuide := new EdgeGuide(capacity, es, annealingRate);
      this.edges := es;
      savedZ := None;
      new;
      SetEdges(es);
    }

    /**
     * The `edges` setter: store the rows (also in the edge guide), choose the
     * centre of the tree as root, and rebuild the neighbour sets and the
     * edge-index map, one row at a time.
     */
    method SetEdges(edges: seq<Edge>)
      requires V >= 1 && M > 1 && |edges| + 1 == V && ValidEdges(V, edges)
      requires edgeGuide.Valid() && edgeGuide.M == M && edgeGuide.V == V
      modifies this, edgeGuide`edges
      ensures Valid()
      ensures this.edges == edges && root < V && CenterOfTree(edges) == Some(root)
      ensures neighbors == NeighborTable(V, edges) && edgeIndex == EdgeIndexMap(edges)
      ensures savedZ == old(savedZ) && edgeGuide.countStats == old(edgeGuide.countStats)
    {
      this.edges := edges;
      edgeGuide.edges := edges;
      var center, _ := FindCenterOfTree(edges);
      root := center;
      Rebuild(edges);
    }

    /** The loop of the setter: `_neighbors` and `_edge_index` filled row by row. */
    method Rebuild(edges: seq<Edge>)
      requires ValidEdges(V, edges)
      modifies this`neighbors, this`edgeIndex
      ensures neighbors == NeighborTable(V, edges) && edgeIndex == EdgeIndexMap(edges)
    {
      neighbors := seq(V, _ => {});
      edgeIndex := map[];
      var e := 0;
      while e < |edges|
        invariant e <= |edges| && |neighbors| == V
        invariant forall v :: 0 <= v < V ==> neighbors[v] == Neighbors(edges[..e], v)
        invariant edgeIndex == EdgeIndexMap(edges[..e])
      {
        var v1, v2 := edges[e].v1, edges[e].v2;
        neighbors := neighbors[v1 := neighbors[v1] + {v2}];
        neighbors := neighbors[v2 := neighbors[v2] + {v1}];
        edgeIndex := edgeIndex[(v1, v2) := e];
        edgeIndex := edgeIndex[(v2, v1) := e];
        assert edges[..e + 1][..e] == edges[..e];
        e := e + 1;
      }
      assert edges[..e] == edges;
    }

    /** The parts of the object that `_propagate` reads. */
    ghost function Layout(): TreeLayout
      reads this`edges, this`root, this`edgeIndex
    {
      TreeLayout(V, M, edges, root, edgeIndex)
    }

    /**
     * What the walk of `_propagate` relies on: the rooting links every vertex
     * to `root`, each non-root vertex finds its edge row in `_edge_index`, and
     * `_neighbors[v]` is the parent of `v` (unless it is the root) and its children.
     */
    ghost predicate Walks(parent: seq<nat>, depth: seq<nat>)
      reads this`edges, this`root, this`neighbors, this`edgeIndex
    {
      && Rooted(Layout(), parent, depth)
      && |neighbors| == V
      && forall v :: 0 <= v < V ==> neighbors[v] == Family(V, root, parent, v)
    }

    /** On a rooting at `root`, `_edge_index[w, parent[w]]` is a row joining `w` to its parent. */
    lemma RootedIndex(parent: seq<nat>, depth: seq<nat>)
      requires Wired() && RootedTree(V, edges, root, parent, depth)
      ensures Walks(parent, depth)
      ensures forall w :: 0 <= w < V && w != root ==> Joins(edges[edgeIndex[(w, parent[w])]], w, parent[w])
    {
      forall w | 0 <= w < V && w != root
        ensures (w, parent[w]) in edgeIndex && edgeIndex[(w, parent[w])] < |edges|
        ensures Joins(edges[edgeIndex[(w, parent[w])]], w, parent[w])
      {
        assert Linked(V, root, parent, depth, w);
        assert parent[w] in Family(V, root, parent, w);
        assert parent[w] in Neighbors(edges, w);
        EdgeIndexMapSpec(edges, w, parent[w]);
      }
    }

    /**
     * The loop over `_neighbors[v]` in `_propagate`: the one neighbour already
     * sampled is the parent `v0`, every unsampled one is a child.
     */
    method Scan(z: array<Option<nat>>, v: nat, ghost parent: seq<nat>, ghost depth: seq<nat>)
      returns (v0: Option<nat>, children: seq<nat>)
      requires Walks(parent, depth)
      requires z.Length == V && v < V
      requires forall u :: u in Subtree(V, root, parent, depth, v) ==> z[u] == None
      requires v != root ==> parent[v] < V && z[parent[v]].Some?
      ensures v0 == (if v == root then None else Some(parent[v]))
      ensures forall c :: c in children <==> c in Children(V, root, parent, v)
      ensures forall i, j :: 0 <= i < j < |children| ==> children[i] != children[j]
    {
      forall c | c in Children(V, root, parent, v) ensures z[c] == None {
        BelowParent(V, root, parent, depth, c);
      }
      v0 := None;
      children := [];
      var rest := neighbors[v];
      while rest != {}
        invariant rest <= Family(V, root, parent, v)
        invariant forall c :: c in children <==> c in Children(V, root, parent, v) && c !in rest
        invariant forall i, j :: 0 <= i < j < |children| ==> children[i] != children[j]
        invariant v0 == (if v != root && parent[v] !in rest then Some(parent[v]) else None)
        decreases |rest|
      {
        var v2 :| v2 in rest;
        if z[v2] == None {
          children := children + [v2];
        } else {
          v0 := Some(v2);
        }
        rest := rest - {v2};
      }
    }

    /**
     * The first half of `_propagate(..., v)`: find the parent and the children,
     * sample `z[v]` from `vertex_probs[v]` at the root and otherwise from the
     * parent-conditioned row of the edge's joint, and set `x[v]` when the
     * column is observed or imputation is on.
     */
    method Sample<X>(data: seq<Option<X>>, impute: bool, draws: Draws<X>,
                     z: array<Option<nat>>, x: array<Option<X>>, v: nat,
                     ghost parent: seq<nat>, ghost depth: seq<nat>) returns (children: seq<nat>)
      requires Walks(parent, depth) && Fits(Layout(), draws)
      requires |data| == V && z.Length == V && x.Length == V && v < V && z as object != x as object
      requires forall u :: u in Subtree(V, root, parent, depth, v) ==> z[u] == None
      requires v != root ==> parent[v] < V && z[parent[v]] == Some(Latent(Layout(), draws, parent, depth, parent[v]))
      modifies z, x
      ensures Covered(Layout(), data, impute, draws, parent, depth, z[..], x[..], old(z[..]), old(x[..]), {v})
      ensures forall c :: c in children <==> c in Children(V, root, parent, v)
      ensures forall i, j :: 0 <= i < j < |children| ==> children[i] != children[j]
    {
      ghost var lay := Layout();
      var v0;
      v0, children := Scan(z, v, parent, depth);
      ghost var s := Latent(lay, draws, parent, depth, v);
      var probs: seq<real>;
      if v0.None? {
        probs := draws.vertexProbs[v];
      } else {
        var joint := draws.edgeProbs[edgeIndex[(v, v0.value)]];
        probs := Conditional(M, joint, z[v0.value].value, v0.value > v);
      }
      assert draws.sampleZ(v, probs) == s;
      z[v] := Some(draws.sampleZ(v, probs));
      if data[v].Some? || impute {
        x[v] := Some(if data[v].Some? then data[v].value else draws.sampleX(v, z[v].value));
      }
      CoveredOne(lay, data, impute, draws, parent, depth, z[..], x[..], old(z[..]), old(x[..]), v);
    }

    /**
     * `_propagate(..., v)`: sample `v`, then recurse into each child in turn.
     * It is entered only at an unsampled vertex whose subtree is unsampled and
     * whose parent is sampled, so every vertex's state is assigned exactly once.
     */
    method Propagate<X>(data: seq<Option<X>>, impute: bool, draws: Draws<X>,
                        z: array<Option<nat>>, x: array<Option<X>>, v: nat,
                        ghost parent: seq<nat>, ghost depth: seq<nat>)
      requires Walks(parent, depth) && Fits(Layout(), draws)
      requires |data| == V && z.Length == V && x.Length == V && v < V && z as object != x as object
      requires forall u :: u in Subtree(V, root, parent, depth, v) ==> z[u] == None
      requires v != root ==> parent[v] < V && z[parent[v]] == Some(Latent(Layout(), draws, parent, depth, parent[v]))
      modifies z, x
      ensures Covered(Layout(), data, impute, draws, parent, depth, z[..], x[..], old(z[..]), old(x[..]),
                      Subtree(V, root, parent, depth, v))
      decreases V - depth[v]
    {
      ghost var lay := Layout();
      var children := Sample(data, impute, draws, z, x, v, parent, depth);
      ExploredStart(V, lay.root, parent, depth, v);
      ghost var done: seq<nat> := [];
      var i := 0;
      while i < |children|
        invariant i <= |children| && done == children[..i]
        invariant Covered(lay, data, impute, draws, parent, depth, z[..], x[..], old(z[..]), old(x[..]),
                          Explored(V, lay.root, parent, depth, v, done))
      {
        var c := children[i];
        assert c !in done;
        ExploredStep(V, lay.root, parent, depth, v, done, c);
        assert Linked(V, lay.root, parent, depth, c);
        ghost var z1, x1 := z[..], x[..];
        Propagate(data, impute, draws, z, x, c, parent, depth);
        CoveredCompose(lay, data, impute, draws, parent, depth, z[..], x[..], z1, x1, old(z[..]), old(x[..]),
                       Explored(V, lay.root, parent, depth, v, done), Subtree(V, lay.root, parent, depth, c));
        done := done + [c];
        i := i + 1;
      }
      ExploredAll(V, lay.root, parent, depth, v, done);
    }

    /**
     * `model(data, impute=impute)` for one data row: check the columns, walk the
     * tree from the root with every state unset, keep the states in `_saved_z`
     * and return the (possibly imputed) columns.
     */
    method Model<X>(data: seq<Option<X>>, impute: bool, draws: Draws<X>,
                    ghost parent: seq<nat>, ghost depth: seq<nat>) returns (x: seq<Option<X>>)
      requires Valid() && RootedTree(V, edges, root, parent, depth)
      requires |data| == V                                  // `assert len(data) == len(self.features)`
      requires exists v :: 0 <= v < V && data[v].Some?      // `assert not all(column is None ...)`
      requires Fits(Layout(), draws)
      modifies this`savedZ
      ensures Rooted(Layout(), parent, depth)
      ensures savedZ.Some? && |savedZ.value| == V && |x| == V
      ensures forall u :: 0 <= u < V ==> savedZ.value[u] == Some(Latent(Layout(), draws, parent, depth, u))
      ensures forall u :: 0 <= u < V ==>
        x[u] == Emitted(data, impute, draws, u, Latent(Layout(), draws, parent, depth, u), None)
    {
      var zs := new Option<nat>[V](_ => None);
      var xs := new Option<X>[V](_ => None);
      ghost var z0, x0 := zs[..], xs[..];
      RootedIndex(parent, depth);
      assert forall u :: 0 <= u < V ==> zs[u] == None;
      Propagate(data, impute, draws, zs, xs, root, parent, depth);
      CoveredAll(Layout(), data, impute, draws, parent, depth, zs[..], xs[..], z0, x0);
      savedZ := Some(zs[..]);
      x := xs[..];
    }
  }

  /** What `_propagate` reads of the model: the sizes, the edge rows, the root and `_edge_index`. */
  datatype TreeLayout = TreeLayout(V: nat, M: nat, edges: seq<Edge>, root: nat, edgeIndex: map<(nat, nat), nat>)

  /**
   * The draws fit the model: one row of `M` probabilities per vertex, one of
   * `M * M` per edge, and a categorical draw from `M` probabilities lies in `[0, M)`.
   */
  ghost predicate Fits<X>(lay: TreeLayout, draws: Draws<X>)
  {
    && |draws.vertexProbs| == lay.V && (forall v :: 0 <= v < lay.V ==> |draws.vertexProbs[v]| == lay.M)
    && |draws.edgeProbs| == |lay.edges| && (forall e :: 0 <= e < |lay.edges| ==> |draws.edgeProbs[e]| == lay.M * lay.M)
    && (forall u: nat, p: seq<real> :: |p| == lay.M ==> draws.sampleZ(u, p) < lay.M)
  }

  /**
   * `parent`/`depth` link every vertex to the layout's root, and every other
   * vertex finds the row of the edge to its parent in `_edge_index`.
   */
  ghost predicate Rooted(lay: TreeLayout, parent: seq<nat>, depth: seq<nat>)
  {
    && ParentLinks(lay.V, lay.root, parent, depth)
    && forall w :: 0 <= w < lay.V && w != lay.root ==>
         (w, parent[w]) in lay.edgeIndex && lay.edgeIndex[(w, parent[w])] < |lay.edges|
  }

  /**
   * The state `_propagate` draws for `u`: from `vertex_probs[root]` at the
   * root, otherwise from the row of its parent's state in the joint of the
   * edge to its parent, transposed when the parent has the larger id.
   */
  ghost function Latent<X>(lay: TreeLayout, draws: Draws<X>, parent: seq<nat>, depth: seq<nat>, u: nat): (s: nat)
    requires Rooted(lay, parent, depth) && Fits(lay, draws) && u < lay.V
    ensures s < lay.M
    decreases depth[u]
  {
    if u == lay.root then draws.sampleZ(u, draws.vertexProbs[u])
    else
      assert Linked(lay.V, lay.root, parent, depth, u);
      var v0 := parent[u];
      draws.sampleZ(u, Conditional(lay.M, draws.edgeProbs[lay.edgeIndex[(u, v0)]],
                                   Latent(lay, draws, parent, depth, v0), v0 > u))
  }

  /**
   * The vertices in `S` have been sampled: each holds its drawn state and its
   * emitted value over what `x0` held; every other entry is as in `z0`, `x0`.
   */
  ghost predicate Covered<X>(lay: TreeLayout, data: seq<Option<X>>, impute: bool, draws: Draws<X>,
                             parent: seq<nat>, depth: seq<nat>,
                             zs: seq<Option<nat>>, xs: seq<Option<X>>, z0: seq<Option<nat>>, x0: seq<Option<X>>,
                             S: set<nat>)
    requires Rooted(lay, parent, depth) && Fits(lay, draws) && |data| == lay.V
  {
    && |zs| == lay.V && |xs| == lay.V && |z0| == lay.V && |x0| == lay.V
    && forall u :: 0 <= u < lay.V ==>
         if u in S then
           zs[u] == Some(Latent(lay, draws, parent, depth, u))
           && xs[u] == Emitted(data, impute, draws, u, Latent(lay, draws, parent, depth, u), x0[u])
         else zs[u] == z0[u] && xs[u] == x0[u]
  }

  /** Sampling the one vertex `v`. */
  lemma CoveredOne<X>(lay: TreeLayout, data: seq<Option<X>>, impute: bool, draws: Draws<X>,
                      parent: seq<nat>, depth: seq<nat>,
                      zs: seq<Option<nat>>, xs: seq<Option<X>>, z0: seq<Option<nat>>, x0: seq<Option<X>>, v: nat)
    requires Rooted(lay, parent, depth) && Fits(lay, draws) && |data| == lay.V
    requires |z0| == lay.V && |x0| == lay.V && v < lay.V
    requires zs == z0[v := Some(Latent(lay, draws, parent, depth, v))]
    requires xs == x0[v := Emitted(data, impute, draws, v, Latent(lay, draws, parent, depth, v), x0[v])]
    ensures Covered(lay, data, impute, draws, parent, depth, zs, xs, z0, x0, {v})
  {
  }

  /** Sampling `S` and then a disjoint `T` samples `S + T`. */
  lemma CoveredCompose<X>(lay: TreeLayout, data: seq<Option<X>>, impute: bool, draws: Draws<X>,
                          parent: seq<nat>, depth: seq<nat>,
                          z2: seq<Option<nat>>, x2: seq<Option<X>>, z1: seq<Option<nat>>, x1: seq<Option<X>>,
                          z0: seq<Option<nat>>, x0: seq<Option<X>>, S: set<nat>, T: set<nat>)
    requires Rooted(lay, parent, depth) && Fits(lay, draws) && |data| == lay.V
    requires Covered(lay, data, impute, draws, parent, depth, z1, x1, z0, x0, S)
    requires Covered(lay, data, impute, draws, parent, depth, z2, x2, z1, x1, T)
    requires S !! T
    ensures Covered(lay, data, impute, draws, parent, depth, z2, x2, z0, x0, S + T)
  {
  }

  /** Sampling the subtree of the root samples every vertex. */
  lemma CoveredAll<X>(lay: TreeLayout, data: seq<Option<X>>, impute: bool, draws: Draws<X>,
                      parent: seq<nat>, depth: seq<nat>,
                      zs: seq<Option<nat>>, xs: seq<Option<X>>, z0: seq<Option<nat>>, x0: seq<Option<X>>)
    requires Rooted(lay, parent, depth) && Fits(lay, draws) && |data| == lay.V
    requires Covered(lay, data, impute, draws, parent, depth, zs, xs, z0, x0,
                     Subtree(lay.V, lay.root, parent, depth, lay.root))
    ensures forall u :: 0 <= u < lay.V ==> zs[u] == Some(Latent(lay, draws, parent, depth, u))
    ensures forall u :: 0 <= u < lay.V ==>
      xs[u] == Emitted(data, impute, draws, u, Latent(lay, draws, parent, depth, u), x0[u])
  {
    forall u | 0 <= u < lay.V ensures u in Subtree(lay.V, lay.root, parent, depth, lay.root) {
      BelowRoot(lay.V, lay.root, parent, depth, u);
    }
  }
}
