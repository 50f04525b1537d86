/**
 * The conjugate posterior of the edge guide and the scores the tree-structure
 * search reads: posterior means of the per-vertex and per-edge categorical
 * distributions (`get_posterior`), the Dirichlet-multinomial score of a row of
 * counts (`_dirmul_log_prob`) and the per-pair edge logits (`compute_edge_logits`).
 * All of them are pure functions of the statistics tables.
 */
module Posterior {
  import opened Basics
  import opened Graph
  import opened Pairs

  /** `_vertex_prior`: a Jeffreys prior, a uniform Dirichlet with concentration 1/2 per state. */
  const VertexPrior: real := 0.5

  /** `_edge_prior = 0.5 / M`: the same total mass 1/2 spread over the `M` states of a row of the joint. */
  function EdgePrior(M: nat): (p: real)
    requires M >= 1
    ensures 0.0 < p <= VertexPrior
    ensures p * M as real == VertexPrior
  {
    0.5 / M as real
  }

  /** A categorical distribution: every entry positive, all of them summing to one. */
  predicate Distribution(p: seq<real>)
  {
    (forall i :: 0 <= i < |p| ==> p[i] > 0.0) && Sum(p) == 1.0
  }

  /** Every entry divided by `t`. */
  function Divide(s: seq<real>, t: real): (r: seq<real>)
    requires t != 0.0
    ensures |r| == |s|
    ensures forall i :: 0 <= i < |s| ==> r[i] == s[i] / t
  {
    seq(|s|, i requires 0 <= i < |s| => s[i] / t)
  }

  lemma {:induction false} SumDivide(s: seq<real>, t: real)
    requires t != 0.0
    ensures Sum(Divide(s, t)) == Sum(s) / t
  {
    if s != [] {
      assert Divide(s, t)[1..] == Divide(s[1..], t);
      SumDivide(s[1..], t);
      DivideAdd(s[0], Sum(s[1..]), t);
    }
  }

  lemma DivideAdd(a: real, b: real, t: real)
    requires t != 0.0
    ensures (a + b) / t == a / t + b / t
  {
  }

  /** `prior + row`. */
  function Shift(row: seq<real>, prior: real): (r: seq<real>)
    ensures |r| == |row|
    ensures forall i :: 0 <= i < |row| ==> r[i] == prior + row[i]
  {
    seq(|row|, i requires 0 <= i < |row| => prior + row[i])
  }

  lemma {:induction false} SumPositive(s: seq<real>)
    requires |s| > 0 && forall i :: 0 <= i < |s| ==> s[i] > 0.0
    ensures Sum(s) > 0.0
  {
    if |s| > 1 {
      SumPositive(s[1..]);
    }
  }

  lemma DividePositive(a: real, t: real)
    requires a > 0.0 && t > 0.0
    ensures a / t > 0.0
  {
  }

  lemma DivideSelf(t: real)
    requires t > 0.0
    ensures t / t == 1.0
  {
    assert 1.0 * t == t;
  }

  /** A row divided by its own (positive) sum is a distribution. */
  lemma DivideBySum(s: seq<real>)
    requires |s| > 0 && forall i :: 0 <= i < |s| ==> s[i] > 0.0
    ensures Sum(s) > 0.0
    ensures Distribution(Divide(s, Sum(s)))
  {
    SumPositive(s);
    var t := Sum(s);
    SumDivide(s, t);
    DivideSelf(t);
    forall i | 0 <= i < |s|
      ensures Divide(s, t)[i] > 0.0
    {
      DividePositive(s[i], t);
    }
  }

  /**
   * `(prior + row) / (prior + row).sum(-1)`: the posterior mean of a
   * categorical under a uniform Dirichlet prior, given non-negative counts.
   */
  function Normalize(prior: real, row: seq<real>): (p: seq<real>)
    requires prior > 0.0 && NonNegative(row) && |row| > 0
    ensures |p| == |row|
    ensures Distribution(p)
  {
    DivideBySum(Shift(row, prior));
    Divide(Shift(row, prior), Sum(Shift(row, prior)))
  }

  /** The posterior mean ranks states exactly as their counts do. */
  lemma NormalizeOrder(prior: real, row: seq<real>, i: nat, j: nat)
    requires prior > 0.0 && NonNegative(row) && |row| > 0
    requires i < |row| && j < |row|
    ensures row[i] <= row[j] <==> Normalize(prior, row)[i] <= Normalize(prior, row)[j]
  {
    var shifted := Shift(row, prior);
    DivideBySum(shifted);
    DivideMonotone(shifted[i], shifted[j], Sum(shifted));
  }

  lemma DivideMonotone(a: real, b: real, t: real)
    requires t > 0.0
    ensures a <= b <==> a / t <= b / t
  {
    if a <= b {
      assert b / t - a / t == (b - a) / t;
    } else {
      assert a / t - b / t == (a - b) / t;
    }
  }

  /** Equal counts give the uniform distribution, as for the initial pseudo-observation. */
  lemma {:induction false} NormalizeUniform(prior: real, row: seq<real>, c: real, i: nat)
    requires prior > 0.0 && |row| > 0 && c >= 0.0
    requires forall j :: 0 <= j < |row| ==> row[j] == c
    requires i < |row|
    ensures Normalize(prior, row)[i] == 1.0 / |row| as real
  {
    var shifted := Shift(row, prior);
    assert shifted == seq(|row|, j => prior + c);
    SumConst(|row|, prior + c);
    DivideCancel(prior + c, |row| as real);
  }

  lemma DivideCancel(a: real, n: real)
    requires a > 0.0 && n > 0.0
    ensures a / (n * a) == 1.0 / n
  {
    assert (1.0 / n) * (n * a) == a;
  }

  /**
   * The complete-graph row of the edge `(v1, v2)`: the row of the pair
   * `(min, max)`, whichever way round the edge is stored.
   */
  function EdgeRowIndex(e: Edge): nat
  {
    if e.v1 < e.v2 then PairIndex(e.v1, e.v2) else PairIndex(e.v2, e.v1)
  }

  /** `k = v1 + v2 * (v2 - 1) // 2` exactly as written, for the edge row `(v1, v2)` in its stored order. */
  function EdgeRowIndexAsWritten(e: Edge): nat
  {
    PairIndex(e.v1, e.v2)
  }

  /** Every valid edge reads the statistics of its own pair of endpoints. */
  lemma EdgeRowIndexJoins(V: nat, e: Edge)
    requires e.v1 < V && e.v2 < V && e.v1 != e.v2
    ensures EdgeRowIndex(e) < PairCount(V)
    ensures Joins(e, CompleteGraph(V)[EdgeRowIndex(e)].0, CompleteGraph(V)[EdgeRowIndex(e)].1)
  {
    if e.v1 < e.v2 {
      CompleteGraphAt(V, e.v1, e.v2);
    } else {
      CompleteGraphAt(V, e.v2, e.v1);
    }
  }

  /** On rows stored as `v1 < v2`, the formula as written and the corrected one agree on every row. */
  lemma EdgeRowIndexOrdered(edges: seq<Edge>)
    requires Ordered(edges)
    ensures forall e :: 0 <= e < |edges| ==> EdgeRowIndexAsWritten(edges[e]) == EdgeRowIndex(edges[e])
  {
  }

  /**
   * On the tree `2 - 0 - 1` stored as rows `(2, 0), (0, 1)`, the row `(2, 0)`
   * gets `k = 2`, which is the pair `(1, 2)`: the edge reads the statistics of
   * two vertices it does not join. On `V = 2` with the row `(1, 0)` the index
   * `k = 1` is past the last row `K - 1 = 0`.
   */
  lemma ReversedRowMisread()
    ensures ValidEdges(3, [Edge(2, 0), Edge(0, 1)])
    ensures EdgeRowIndexAsWritten(Edge(2, 0)) == 2 && CompleteGraph(3)[2] == (1, 2)
    ensures !Joins(Edge(2, 0), 1, 2)
    ensures EdgeRowIndexAsWritten(Edge(1, 0)) >= PairCount(2)
  {
    ReversedRowValid();
    ReversedRowIndices();
    ReversedRowPair();
  }

  lemma ReversedRowPair()
    ensures |CompleteGraph(3)| == 3 && CompleteGraph(3)[2] == (1, 2)
  {
    CompleteGraphAt(3, 1, 2);
    assert PairIndex(1, 2) == 2;
  }

  lemma ReversedRowValid()
    ensures ValidEdges(3, [Edge(2, 0), Edge(0, 1)])
  {
    var es := [Edge(2, 0), Edge(0, 1)];
    assert es[0].v1 < 3 && es[1].v1 < 3;
  }

  lemma ReversedRowIndices()
    ensures EdgeRowIndexAsWritten(Edge(2, 0)) == 2
    ensures EdgeRowIndexAsWritten(Edge(1, 0)) == 1 && PairCount(2) == 1
  {
    assert 0 * (0 - 1) == 0;
  }

  /**
   * `get_posterior()` on the contents of the two tables: the posterior mean of
   * every vertex's distribution, and of the joint of every edge, read from the
   * complete-graph row of its pair.
   */
  function GetPosterior(M: nat, vertexRows: seq<seq<real>>, pairRows: seq<seq<real>>, edges: seq<Edge>)
    : (post: (seq<seq<real>>, seq<seq<real>>))
    requires M >= 1
    requires forall v :: 0 <= v < |vertexRows| ==> |vertexRows[v]| == M && NonNegative(vertexRows[v])
    requires forall k :: 0 <= k < |pairRows| ==> |pairRows[k]| == M * M && NonNegative(pairRows[k])
    requires |pairRows| == PairCount(|vertexRows|) && ValidEdges(|vertexRows|, edges)
    ensures |post.0| == |vertexRows| && |post.1| == |edges|
    ensures forall v :: 0 <= v < |vertexRows| ==> |post.0[v]| == M && Distribution(post.0[v])
    ensures forall e :: 0 <= e < |edges| ==> |post.1[e]| == M * M && Distribution(post.1[e])
  {
    (VertexPosterior(M, vertexRows), EdgePosterior(M, |vertexRows|, pairRows, edges))
  }

  /** `vertex_probs`: the posterior mean of each vertex's row. */
  function VertexPosterior(M: nat, vertexRows: seq<seq<real>>): (probs: seq<seq<real>>)
    requires M >= 1
    requires forall v :: 0 <= v < |vertexRows| ==> |vertexRows[v]| == M && NonNegative(vertexRows[v])
    ensures |probs| == |vertexRows|
    ensures forall v :: 0 <= v < |vertexRows| ==> probs[v] == Normalize(VertexPrior, vertexRows[v])
  {
    seq(|vertexRows|, v requires 0 <= v < |vertexRows| => Normalize(VertexPrior, vertexRows[v]))
  }

  /** `edge_probs`: the posterior mean of the joint of each edge, from its pair's row. */
  function EdgePosterior(M: nat, V: nat, pairRows: seq<seq<real>>, edges: seq<Edge>): (probs: seq<seq<real>>)
    requires M >= 1
    requires forall k :: 0 <= k < |pairRows| ==> |pairRows[k]| == M * M && NonNegative(pairRows[k])
    requires |pairRows| == PairCount(V) && ValidEdges(V, edges)
    ensures |probs| == |edges|
    ensures forall e :: 0 <= e < |edges| ==> EdgeRowIndex(edges[e]) < |pairRows|
    ensures forall e :: 0 <= e < |edges| ==> probs[e] == Normalize(EdgePrior(M), pairRows[EdgeRowIndex(edges[e])])
  {
    var probs := seq(|edges|, e requires 0 <= e < |edges| => EdgeProbs(M, V, pairRows, edges[e]));
    assert forall e :: 0 <= e < |edges| ==> probs[e] == EdgeProbs(M, V, pairRows, edges[e]);
    probs
  }

  function EdgeProbs(M: nat, V: nat, pairRows: seq<seq<real>>, edge: Edge): (p: seq<real>)
    requires M >= 1
    requires forall k :: 0 <= k < |pairRows| ==> |pairRows[k]| == M * M && NonNegative(pairRows[k])
    requires |pairRows| == PairCount(V) && edge.v1 < V && edge.v2 < V && edge.v1 != edge.v2
    ensures EdgeRowIndex(edge) < |pairRows| && p == Normalize(EdgePrior(M), pairRows[EdgeRowIndex(edge)])
  {
    EdgeRowIndexJoins(V, edge);
    Normalize(EdgePrior(M), pairRows[EdgeRowIndex(edge)])
  }

  /** The edge posterior of row `e` is the posterior mean of the statistics of its own pair. */
  lemma GetPosteriorEdge(M: nat, vertexRows: seq<seq<real>>, pairRows: seq<seq<real>>, edges: seq<Edge>, e: nat)
    requires M >= 1
    requires forall v :: 0 <= v < |vertexRows| ==> |vertexRows[v]| == M && NonNegative(vertexRows[v])
    requires forall k :: 0 <= k < |pairRows| ==> |pairRows[k]| == M * M && NonNegative(pairRows[k])
    requires |pairRows| == PairCount(|vertexRows|) && ValidEdges(|vertexRows|, edges)
    requires e < |edges|
    ensures EdgeRowIndex(edges[e]) < |pairRows|
    ensures Joins(edges[e], CompleteGraph(|vertexRows|)[EdgeRowIndex(edges[e])].0,
                            CompleteGraph(|vertexRows|)[EdgeRowIndex(edges[e])].1)
    ensures GetPosterior(M, vertexRows, pairRows, edges).1[e] == Normalize(EdgePrior(M), pairRows[EdgeRowIndex(edges[e])])
  {
    EdgeRowIndexJoins(|vertexRows|, edges[e]);
  }

  /**
   * `_dirmul_log_prob(alpha, counts)` on one row: the sum over the row of
   * `lgamma(alpha + c) - lgamma(1 + c)`. The log-gamma function is a parameter.
   */
  function DirMulLogProb(lgamma: real -> real, alpha: real, counts: seq<real>): real
  {
    if counts == [] then 0.0
    else (lgamma(counts[0] + alpha) - lgamma(counts[0] + 1.0)) + DirMulLogProb(lgamma, alpha, counts[1..])
  }

  /** `(counts + shift).lgamma()`. */
  function LogGammaAll(lgamma: real -> real, shift: real, counts: seq<real>): (r: seq<real>)
    ensures |r| == |counts|
    ensures forall i :: 0 <= i < |counts| ==> r[i] == lgamma(counts[i] + shift)
  {
    seq(|counts|, i requires 0 <= i < |counts| => lgamma(counts[i] + shift))
  }

  /**
   * The paired per-entry form equals the two-sum form of the documentation:
   * `(alpha + counts).lgamma().sum(-1) - (1 + counts).lgamma().sum(-1)`.
   */
  lemma {:induction false} DirMulLogProbSums(lgamma: real -> real, alpha: real, counts: seq<real>)
    ensures DirMulLogProb(lgamma, alpha, counts) ==
      Sum(LogGammaAll(lgamma, alpha, counts)) - Sum(LogGammaAll(lgamma, 1.0, counts))
  {
    if counts != [] {
      assert LogGammaAll(lgamma, alpha, counts)[1..] == LogGammaAll(lgamma, alpha, counts[1..]);
      assert LogGammaAll(lgamma, 1.0, counts)[1..] == LogGammaAll(lgamma, 1.0, counts[1..]);
      DirMulLogProbSums(lgamma, alpha, counts[1..]);
    }
  }

  /** A row whose entries are all `c` scores `|counts|` times the score of one entry. */
  lemma {:induction false} DirMulLogProbConstant(lgamma: real -> real, alpha: real, counts: seq<real>, c: real, n: nat)
    requires |counts| == n && forall i :: 0 <= i < n ==> counts[i] == c
    ensures DirMulLogProb(lgamma, alpha, counts) == n as real * (lgamma(c + alpha) - lgamma(c + 1.0))
  {
    if n > 0 {
      var t := lgamma(c + alpha) - lgamma(c + 1.0);
      DirMulLogProbConstant(lgamma, alpha, counts[1..], c, n - 1);
      assert DirMulLogProb(lgamma, alpha, counts) == t + DirMulLogProb(lgamma, alpha, counts[1..]);
      assert n as real * t == (n - 1) as real * t + t;
    }
  }

  /** `vertex_logits = _dirmul_log_prob(vertex_prior, vertex_stats)`, one score per vertex. */
  function VertexLogits(lgamma: real -> real, vertexRows: seq<seq<real>>): (r: seq<real>)
    ensures |r| == |vertexRows|
    ensures forall v :: 0 <= v < |vertexRows| ==> r[v] == DirMulLogProb(lgamma, VertexPrior, vertexRows[v])
  {
    seq(|vertexRows|, v requires 0 <= v < |vertexRows| => DirMulLogProb(lgamma, VertexPrior, vertexRows[v]))
  }

  /**
   * `compute_edge_logits()`: the score of each pair's joint table, less the
   * scores of its two endpoints' tables, one logit per row of the grid.
   */
  function EdgeLogits(lgamma: real -> real, M: nat, vertexRows: seq<seq<real>>, pairRows: seq<seq<real>>,
                      grid: seq<(nat, nat)>): (logits: seq<real>)
    requires M >= 1 && |pairRows| == |grid|
    requires forall k :: 0 <= k < |grid| ==> grid[k].0 < |vertexRows| && grid[k].1 < |vertexRows|
    ensures |logits| == |grid|
  {
    var vertexLogits := VertexLogits(lgamma, vertexRows);
    seq(|grid|, k requires 0 <= k < |grid| =>
      DirMulLogProb(lgamma, EdgePrior(M), pairRows[k]) - vertexLogits[grid[k].0] - vertexLogits[grid[k].1])
  }

  /**
   * On the complete graph, the logit at the row of the pair `(v1, v2)` scores
   * that pair's joint against the tables of `v1` and `v2` themselves; there are
   * exactly `K = V*(V-1)/2` logits.
   */
  lemma EdgeLogitsAt(lgamma: real -> real, M: nat, vertexRows: seq<seq<real>>, pairRows: seq<seq<real>>,
                     v1: nat, v2: nat)
    requires M >= 1 && |pairRows| == PairCount(|vertexRows|)
    requires v1 < v2 < |vertexRows|
    ensures |EdgeLogits(lgamma, M, vertexRows, pairRows, CompleteGraph(|vertexRows|))| == PairCount(|vertexRows|)
    ensures PairIndex(v1, v2) < PairCount(|vertexRows|)
    ensures EdgeLogits(lgamma, M, vertexRows, pairRows, CompleteGraph(|vertexRows|))[PairIndex(v1, v2)] ==
      DirMulLogProb(lgamma, EdgePrior(M), pairRows[PairIndex(v1, v2)])
        - DirMulLogProb(lgamma, VertexPrior, vertexRows[v1]) - DirMulLogProb(lgamma, VertexPrior, vertexRows[v2])
  {
    CompleteGraphAt(|vertexRows|, v1, v2);
  }

  /**
   * From the statistics `_EdgeGuide` starts with, `1/M` in every vertex cell
   * and `1/M^2` in every pair cell (any constant per table will do), every
   * pair of the complete graph gets the same logit, so the first tree sampled
   * from these logits is drawn uniformly.
   */
  lemma EdgeLogitsUniform(lgamma: real -> real, M: nat, vertexRows: seq<seq<real>>, pairRows: seq<seq<real>>,
                          grid: seq<(nat, nat)>, a: real, b: real)
    requires M >= 1 && |pairRows| == |grid|
    requires forall k :: 0 <= k < |grid| ==> grid[k].0 < |vertexRows| && grid[k].1 < |vertexRows|
    requires forall v :: 0 <= v < |vertexRows| ==> |vertexRows[v]| == M
    requires forall v, j :: 0 <= v < |vertexRows| && 0 <= j < |vertexRows[v]| ==> vertexRows[v][j] == a
    requires forall k :: 0 <= k < |pairRows| ==> |pairRows[k]| == M * M
    requires forall k, j :: 0 <= k < |pairRows| && 0 <= j < |pairRows[k]| ==> pairRows[k][j] == b
    ensures forall k :: 0 <= k < |grid| ==>
      EdgeLogits(lgamma, M, vertexRows, pairRows, grid)[k] ==
        (M * M) as real * (lgamma(b + EdgePrior(M)) - lgamma(b + 1.0))
        - 2.0 * (M as real * (lgamma(a + VertexPrior) - lgamma(a + 1.0)))
  {
    var vertexScore := M as real * (lgamma(a + VertexPrior) - lgamma(a + 1.0));
    var pairScore := (M * M) as real * (lgamma(b + EdgePrior(M)) - lgamma(b + 1.0));
    var vertexLogits := VertexLogits(lgamma, vertexRows);
    var logits := EdgeLogits(lgamma, M, vertexRows, pairRows, grid);
    forall v | 0 <= v < |vertexRows|
      ensures vertexLogits[v] == vertexScore
    {
      DirMulLogProbConstant(lgamma, VertexPrior, vertexRows[v], a, M);
    }
    forall k | 0 <= k < |grid|
      ensures logits[k] == pairScore - 2.0 * vertexScore
    {
      DirMulLogProbConstant(lgamma, EdgePrior(M), pairRows[k], b, M * M);
      assert logits[k] == DirMulLogProb(lgamma, EdgePrior(M), pairRows[k]) - vertexLogits[grid[k].0] - vertexLogits[grid[k].1];
    }
  }
}
