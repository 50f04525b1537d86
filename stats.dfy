/**
 * `_EdgeGuide`'s sufficient statistics: a pseudo-count `countStats`, a `V x M`
 * table of per-vertex state counts and a `K x (M*M)` table of per-pair joint
 * state counts, one row per pair of the complete graph. Each `update` adds one
 * unit per data row and then shrinks everything by an annealed decay factor,
 * so that every row of both tables keeps summing to `countStats`.
 */
module Stats {
  import opened Basics
  import opened Graph
  import opened Pairs
  import opened Posterior

  /** Row `i` of a table. */
  function Row(table: array2<real>, i: nat): (row: seq<real>)
    reads table
    requires i < table.Length0
    ensures |row| == table.Length1
    ensures forall j :: 0 <= j < table.Length1 ==> row[j] == table[i, j]
  {
    seq(table.Length1, j requires 0 <= j < table.Length1 reads table => table[i, j])
  }

  /** All rows of a table. */
  function Rows(table: array2<real>): (rows: seq<seq<real>>)
    reads table
    ensures |rows| == table.Length0
    ensures forall i :: 0 <= i < table.Length0 ==> rows[i] == Row(table, i)
  {
    seq(table.Length0, i requires 0 <= i < table.Length0 reads table => Row(table, i))
  }

  /** `num_rows`, defaulting to the batch size. */
  function RowsOrBatch(numRows: Option<nat>, batch: nat): nat
  {
    if numRows.Some? then numRows.value else batch
  }

  /**
   * `decay = min(annealing, exponential_smoothing)` with
   * `annealing = (1 + rate) / (1 + batch / count)` and
   * `exponential_smoothing = 1 / (1 + batch / rows)`.
   */
  function Decay(rate: real, batch: nat, count: real, rows: nat): (d: real)
    requires rate > 0.0 && count > 0.0 && rows > 0
    ensures 0.0 < d <= 1.0
  {
    var annealing := (1.0 + rate) / (1.0 + batch as real / count);
    var smoothing := 1.0 / (1.0 + batch as real / rows as real);
    if smoothing < annealing then smoothing else annealing
  }

  /** `(count + batch) * (1 / (1 + batch / count)) == count`, divisions cleared. */
  lemma ShrinkBack(count: real, b: real, x: real)
    requires count > 0.0 && b >= 0.0
    ensures (count + b) * (x / (1.0 + b / count)) == x * count
  {
    var q := b / count;
    assert q * count == b;
    assert count + b == count * (1.0 + q);
    var y := x / (1.0 + q);
    assert y * (1.0 + q) == x;
    calc {
      (count + b) * y;
      count * (1.0 + q) * y;
      count * (y * (1.0 + q));
    }
  }

  /** `(count + batch) * decay` grows with `decay`. */
  lemma ScaleMono(c: real, d: real, e: real)
    requires c >= 0.0 && d <= e
    ensures c * d <= c * e
  {
  }

  /** `count_stats` after an update: `(count + batch) * decay`. */
  function DecayedCount(rate: real, batch: nat, count: real, rows: nat): real
    requires rate > 0.0 && count > 0.0 && rows > 0
  {
    (count + batch as real) * Decay(rate, batch, count, rows)
  }

  lemma DecayedCountProduct(rate: real, batch: nat, count: real, rows: nat, total: real, d: real)
    requires rate > 0.0 && count > 0.0 && rows > 0
    requires total == count + batch as real && d == Decay(rate, batch, count, rows)
    ensures total * d == DecayedCount(rate, batch, count, rows)
  {
  }

  /**
   * The decayed count `(count + batch) * decay` stays positive and grows by at
   * most the factor `1 + rate` per update: the annealing limit.
   */
  lemma DecayedCountGrowth(rate: real, batch: nat, count: real, rows: nat)
    requires rate > 0.0 && count > 0.0 && rows > 0
    ensures 0.0 < DecayedCount(rate, batch, count, rows) <= (1.0 + rate) * count
  {
    var b := batch as real;
    var d := Decay(rate, batch, count, rows);
    var annealing := (1.0 + rate) / (1.0 + b / count);
    ShrinkBack(count, b, 1.0 + rate);
    ScaleMono(count + b, d, annealing);
  }

  /**
   * Once the count has reached the dataset size it stays there or below:
   * exponential smoothing makes the statistics approximate the whole dataset.
   */
  lemma DecayedCountAtMostRows(rate: real, batch: nat, count: real, rows: nat)
    requires rate > 0.0 && count > 0.0 && rows > 0
    requires count <= rows as real
    ensures DecayedCount(rate, batch, count, rows) <= rows as real
  {
    var b, n := batch as real, rows as real;
    var d := Decay(rate, batch, count, rows);
    var smoothing := 1.0 / (1.0 + b / n);
    ShrinkBack(n, b, 1.0);
    ScaleMono(count + b, d, smoothing);
    ScaleMono(smoothing, count + b, n + b);
  }

  /**
   * Early in training annealing dominates: one pseudo-observation and a batch of
   * 100 rows out of 10000 grow the count by exactly the factor `1 + rate`.
   */
  lemma DecayEarlyTraining()
    ensures Decay(0.01, 100, 1.0, 10000) == 0.01
    ensures DecayedCount(0.01, 100, 1.0, 10000) == 1.01
  {
    assert (1.0 + 0.01) / (1.0 + 100.0 / 1.0) == 0.01;
    assert 1.0 / (1.0 + 100.0 / 10000.0) == 100.0 / 101.0;
  }

  /** A batch of latent states: `V` rows of equal length, every state below `M`. */
  predicate Batch(z: seq<seq<nat>>, M: nat)
  {
    && |z| > 0
    && (forall v :: 0 <= v < |z| ==> |z[v]| == |z[0]|)
    && (forall v, i :: 0 <= v < |z| && 0 <= i < |z[v]| ==> z[v][i] < M)
  }

  lemma {:induction false} MulLe(M: nat, x: nat, y: nat)
    requires x <= y
    ensures M * x <= M * y
  {
    if x < y {
      MulLe(M, x, y - 1);
      assert M * y == M * (y - 1) + M;
    }
  }

  /** The joint cell `M * a + b` of two states below `M` lies in `[0, M*M)` and gives back both states. */
  lemma PairCodeBounds(M: nat, a: nat, b: nat)
    requires a < M && b < M
    ensures M * a + b < M * M
    ensures (M * a + b) / M == a && (M * a + b) % M == b
  {
    MulLe(M, a + 1, M);
    assert M * (a + 1) == M * a + M;
    CellDivMod(M, a, b);
  }

  /** Division by `M` splits `M * a + b`, for `b < M`, back into `a` and `b`. */
  lemma CellDivMod(M: nat, a: nat, b: nat)
    requires b < M
    ensures (M * a + b) / M == a && (M * a + b) % M == b
  {
    var x := M * a + b;
    var q, r := x / M, x % M;
    assert x == M * q + r && 0 <= r < M;
    assert M * (q - a) == M * q - M * a;
    MulAwayFromZero(M, q - a);
  }

  /** A non-zero multiple of `M` is at least `M` away from zero. */
  lemma MulAwayFromZero(M: nat, d: int)
    ensures d >= 1 ==> M * d >= M
    ensures d <= -1 ==> M * d + M <= 0
  {
    if d >= 1 {
      MulLe(M, 1, d);
    } else if d <= -1 {
      MulLe(M, 1, -d);
      assert M * -d == -(M * d);
    }
  }

  /**
   * `M * za + zb` for one pair of vertices, row by row: the cell of the `M x M`
   * joint that each data row's pair of states falls in; it determines both states.
   */
  function PairCodes(M: nat, za: seq<nat>, zb: seq<nat>): (codes: seq<nat>)
    requires |za| == |zb|
    requires forall i :: 0 <= i < |za| ==> za[i] < M && zb[i] < M
    ensures |codes| == |za|
    ensures forall i :: 0 <= i < |codes| ==> codes[i] < M * M && codes[i] / M == za[i] && codes[i] % M == zb[i]
  {
    if za == [] then []
    else
      PairCodeBounds(M, za[0], zb[0]);
      [M * za[0] + zb[0]] + PairCodes(M, za[1..], zb[1..])
  }

  /** `zz = (M * z)[grid[0]] + z[grid[1]]`: the joint codes of every pair of the grid. */
  function JointCodes(M: nat, grid: seq<(nat, nat)>, z: seq<seq<nat>>): (zz: seq<seq<nat>>)
    requires Batch(z, M)
    requires forall k :: 0 <= k < |grid| ==> grid[k].0 < |z| && grid[k].1 < |z|
    ensures |zz| == |grid|
    ensures forall k :: 0 <= k < |grid| ==> zz[k] == PairCodes(M, z[grid[k].0], z[grid[k].1])
  {
    seq(|grid|, k requires 0 <= k < |grid| => PairCodes(M, z[grid[k].0], z[grid[k].1]))
  }

  lemma ScaledSum(s: seq<real>, d: real, total: real)
    requires Sum(s) == total
    ensures Sum(Scale(s, d)) == total * d
  {
    SumScale(s, d);
  }

  /** Scaling a non-negative row by a non-negative factor keeps it non-negative. */
  lemma ScaleNonNegative(s: seq<real>, d: real)
    requires NonNegative(s) && d >= 0.0
    ensures NonNegative(Scale(s, d))
  {
    forall j | 0 <= j < |s|
      ensures Scale(s, d)[j] >= 0.0
    {
      ScaleMono(d, 0.0, s[j]);
    }
  }

  /**
   * A row that receives the histogram of `codes` and is then scaled by `d`
   * keeps non-negative entries, and a row that summed to `total - |codes|`
   * now sums to `total * d`.
   */
  lemma RowUpdate(row: seq<real>, codes: seq<nat>, d: real, total: real)
    requires forall i :: 0 <= i < |codes| ==> codes[i] < |row|
    requires NonNegative(row) && d >= 0.0
    requires Sum(row) + |codes| as real == total
    ensures NonNegative(Scale(Add(row, Hist(codes, |row|)), d))
    ensures Sum(Scale(Add(row, Hist(codes, |row|)), d)) == total * d
  {
    var s := Add(row, Hist(codes, |row|));
    assert NonNegative(s);
    ScaleNonNegative(s, d);
    SumAdd(row, Hist(codes, |row|));
    HistTotal(codes, |row|);
    ScaledSum(s, d, total);
  }

  /** `table[r].scatter_add_(-1, codes, 1)`: one unit into row `r` per entry of `codes`. */
  method ScatterRow(table: array2<real>, r: nat, codes: seq<nat>)
    requires r < table.Length0
    requires forall n :: 0 <= n < |codes| ==> codes[n] < table.Length1
    modifies table
    ensures forall i, j :: 0 <= i < table.Length0 && 0 <= j < table.Length1 ==>
      table[i, j] == old(table[i, j]) + if i == r then Count(codes, j) as real else 0.0
  {
    assert codes[..0] == [];
    assert forall j :: Count(codes[..0], j) == 0;
    for n := 0 to |codes|
      invariant forall i, j :: 0 <= i < table.Length0 && 0 <= j < table.Length1 ==>
        table[i, j] == old(table[i, j]) + if i == r then Count(codes[..n], j) as real else 0.0
    {
      assert codes[..n + 1] == codes[..n] + [codes[n]];
      forall j | 0 <= j < table.Length1
        ensures Count(codes[..n + 1], j) == Count(codes[..n], j) + if codes[n] == j then 1 else 0
      {
        CountSnoc(codes[..n], codes[n], j);
      }
      table[r, codes[n]] := table[r, codes[n]] + 1.0;
    }
    assert codes[..|codes|] == codes;
  }

  /** `table.scatter_add_(-1, codes, 1)` for a whole table: row `i` receives the histogram of `codes[i]`. */
  method ScatterTable(table: array2<real>, codes: seq<seq<nat>>)
    requires |codes| == table.Length0
    requires forall i, n :: 0 <= i < |codes| && 0 <= n < |codes[i]| ==> codes[i][n] < table.Length1
    modifies table
    ensures forall i :: 0 <= i < table.Length0 ==> Row(table, i) == Add(old(Row(table, i)), Hist(codes[i], table.Length1))
  {
    for r := 0 to |codes|
      invariant forall i, j :: 0 <= i < table.Length0 && 0 <= j < table.Length1 ==>
        table[i, j] == old(table[i, j]) + if i < r then Count(codes[i], j) as real else 0.0
    {
      ScatterRow(table, r, codes[r]);
    }
    forall i | 0 <= i < table.Length0
      ensures Row(table, i) == Add(old(Row(table, i)), Hist(codes[i], table.Length1))
    {
      assert forall j :: 0 <= j < table.Length1 ==> Row(table, i)[j] == Add(old(Row(table, i)), Hist(codes[i], table.Length1))[j];
    }
  }

  /** `table *= d`. */
  method ScaleTable(table: array2<real>, d: real)
    modifies table
    ensures forall i :: 0 <= i < table.Length0 ==> Row(table, i) == Scale(old(Row(table, i)), d)
  {
    forall i, j | 0 <= i < table.Length0 && 0 <= j < table.Length1 {
      table[i, j] := table[i, j] * d;
    }
    forall i | 0 <= i < table.Length0
      ensures Row(table, i) == Scale(old(Row(table, i)), d)
    {
      assert forall j :: 0 <= j < table.Length1 ==> Row(table, i)[j] == Scale(old(Row(table, i)), d)[j];
    }
  }

  /**
   * `table.scatter_add_(-1, codes, 1); table *= d` on a table whose rows all
   * sum to `total` once the batch is added: afterwards they sum to `total * d`.
   */
  method Accumulate(table: array2<real>, codes: seq<seq<nat>>, d: real, ghost total: real, ghost target: real)
    requires |codes| == table.Length0
    requires forall i, n :: 0 <= i < |codes| && 0 <= n < |codes[i]| ==> codes[i][n] < table.Length1
    requires forall i :: 0 <= i < table.Length0 ==>
      NonNegative(Row(table, i)) && Sum(Row(table, i)) + |codes[i]| as real == total
    requires d >= 0.0 && target == total * d
    modifies table
    ensures forall i :: 0 <= i < table.Length0 ==>
      Row(table, i) == Scale(Add(old(Row(table, i)), Hist(codes[i], table.Length1)), d)
    ensures RowsSumTo(table, target)
  {
    ScatterTable(table, codes);
    ghost var mid := Rows(table);
    ScaleTable(table, d);
    forall i | 0 <= i < table.Length0
      ensures Row(table, i) == Scale(Add(old(Row(table, i)), Hist(codes[i], table.Length1)), d)
      ensures NonNegative(Row(table, i)) && Sum(Row(table, i)) == target
    {
      assert mid[i] == Add(old(Row(table, i)), Hist(codes[i], table.Length1));
      RowUpdate(old(Row(table, i)), codes[i], d, total);
    }
  }

  /** Every row of `table` has non-negative entries summing to `total`. */
  ghost predicate RowsSumTo(table: array2<real>, total: real)
    reads table
  {
    forall i :: 0 <= i < table.Length0 ==> NonNegative(Row(table, i)) && Sum(Row(table, i)) == total
  }

  /** A table filled with `c = 1 / width` has non-negative rows summing to 1. */
  lemma UniformRows(table: array2<real>, c: real)
    requires table.Length1 > 0 && c == 1.0 / table.Length1 as real
    requires forall i, j :: 0 <= i < table.Length0 && 0 <= j < table.Length1 ==> table[i, j] == c
    ensures RowsSumTo(table, 1.0)
  {
    SumConst(table.Length1, c);
    forall i | 0 <= i < table.Length0
      ensures NonNegative(Row(table, i)) && Sum(Row(table, i)) == 1.0
    {
      assert Row(table, i) == seq(table.Length1, j => c);
    }
  }

  /** The conjugate edge guide: the statistics the tree's posterior and the structure search read. */
  class EdgeGuide {
    /** `capacity`: the number of latent states. */
    const M: nat
    /** The number of vertices, `len(edges) + 1` at construction. */
    const V: nat
    var edges: seq<Edge>
    const annealingRate: real
    /** `_grid = make_complete_graph(V)`. */
    const grid: seq<(nat, nat)>
    var countStats: real
    const vertexStats: array2<real>
    const completeStats: array2<real>

    ghost predicate Valid()
      reads this, vertexStats, completeStats
    {
      && M >= 1
      && V == |edges| + 1
      && annealingRate > 0.0
      && grid == CompleteGraph(V)
      && vertexStats != completeStats
      && vertexStats.Length0 == V && vertexStats.Length1 == M
      && completeStats.Length0 == PairCount(V) && completeStats.Length1 == M * M
      && countStats > 0.0
      && RowsSumTo(vertexStats, countStats)
      && RowsSumTo(completeStats, countStats)
    }

    /**
     * `_EdgeGuide(capacity, edges, annealing_rate)`: a single pseudo-observation
     * spread uniformly over every row of both tables.
     */
    constructor (capacity: nat, edges: seq<Edge>, annealingRate: real)
      requires 0.0 < annealingRate
      requires capacity >= 1  // `1. / M` divides by the capacity
      ensures Valid()
      ensures M == capacity && V == |edges| + 1 && this.edges == edges && this.annealingRate == annealingRate
      ensures countStats == 1.0
      ensures forall v, j :: 0 <= v < V && 0 <= j < M ==> vertexStats[v, j] == 1.0 / M as real
      ensures forall k, j :: 0 <= k < PairCount(V) && 0 <= j < M * M ==> completeStats[k, j] == 1.0 / (M * M) as real
      ensures fresh(vertexStats) && fresh(completeStats)
    {
      var m := capacity as real;
      var mm := (capacity * capacity) as real;
      M := capacity;
      V := |edges| + 1;
      this.edges := edges;
      this.annealingRate := annealingRate;
      grid := CompleteGraph(|edges| + 1);
      countStats := 1.0;
      vertexStats := new real[|edges| + 1, capacity]((v, j) => 1.0 / m);
      completeStats := new real[PairCount(|edges| + 1), capacity * capacity]((k, j) => 1.0 / mm);
      new;
      UniformRows(vertexStats, 1.0 / m);
      UniformRows(completeStats, 1.0 / mm);
    }

    /**
     * `update(num_rows, z)` for a `V x batch` array of latent states `z`:
     * accumulate the batch into both tables and decay everything. The source's
     * check `count_stats > 0` always passes: `Valid()` keeps it.
     */
    method Update(numRows: Option<nat>, z: seq<seq<nat>>)
      requires Valid()
      requires |z| == V && Batch(z, M)
      requires |z[0]| <= RowsOrBatch(numRows, |z[0]|)  // `assert batch_size <= num_rows`
      requires RowsOrBatch(numRows, |z[0]|) > 0         // `batch_size / num_rows` divides by `num_rows`
      modifies this`countStats, vertexStats, completeStats
      ensures Valid()
      ensures countStats == DecayedCount(annealingRate, |z[0]|, old(countStats), RowsOrBatch(numRows, |z[0]|))
      ensures forall v :: 0 <= v < V ==>
        Row(vertexStats, v) == Scale(Add(old(Row(vertexStats, v)), Hist(z[v], M)),
          Decay(annealingRate, |z[0]|, old(countStats), RowsOrBatch(numRows, |z[0]|)))
      ensures forall k :: 0 <= k < PairCount(V) ==>
        Row(completeStats, k) == Scale(Add(old(Row(completeStats, k)), Hist(PairCodes(M, z[grid[k].0], z[grid[k].1]), M * M)),
          Decay(annealingRate, |z[0]|, old(countStats), RowsOrBatch(numRows, |z[0]|)))
    {
      var batch := |z[0]|;
      var rows := RowsOrBatch(numRows, batch);
      var decay := Decay(annealingRate, batch, countStats, rows);
      var total := countStats + batch as real;
      var count := total * decay;
      DecayedCountProduct(annealingRate, batch, countStats, rows, total, decay);
      DecayedCountGrowth(annealingRate, batch, countStats, rows);
      Absorb(z, decay, total, count);
      countStats := count;
    }

    /**
     * `get_posterior()` on the current tables: a distribution for every
     * vertex, and for every edge row one read from the row of its pair.
     */
    function GetPosterior(): (post: (seq<seq<real>>, seq<seq<real>>))
      requires Valid() && ValidEdges(V, edges)
      reads this, vertexStats, completeStats
      ensures |post.0| == V && |post.1| == |edges|
      ensures forall v :: 0 <= v < V ==>
        post.0[v] == Normalize(VertexPrior, Row(vertexStats, v)) && Distribution(post.0[v])
      ensures forall e :: 0 <= e < |edges| ==>
        && EdgeRowIndex(edges[e]) < PairCount(V)
        && post.1[e] == Normalize(EdgePrior(M), Row(completeStats, EdgeRowIndex(edges[e])))
        && Distribution(post.1[e])
    {
      var vertexRows, pairRows := Rows(vertexStats), Rows(completeStats);
      var post := Posterior.GetPosterior(M, vertexRows, pairRows, edges);
      assert forall e :: 0 <= e < |edges| ==>
        EdgeRowIndex(edges[e]) < PairCount(V) && post.1[e] == Normalize(EdgePrior(M), pairRows[EdgeRowIndex(edges[e])]);
      post
    }

    /**
     * `compute_edge_logits()` on the current tables: one logit per row of the
     * grid, the one of pair `(v1, v2)` scoring its joint table against the
     * tables of `v1` and `v2`.
     */
    function ComputeEdgeLogits(lgamma: real -> real): (logits: seq<real>)
      requires Valid()
      reads this, vertexStats, completeStats
      ensures |logits| == PairCount(V)
      ensures forall v1: nat, v2: nat :: v1 < v2 < V ==>
        && PairIndex(v1, v2) < PairCount(V)
        && logits[PairIndex(v1, v2)]
           == DirMulLogProb(lgamma, EdgePrior(M), Row(completeStats, PairIndex(v1, v2)))
              - DirMulLogProb(lgamma, VertexPrior, Row(vertexStats, v1))
              - DirMulLogProb(lgamma, VertexPrior, Row(vertexStats, v2))
    {
      var vertexRows, pairRows := Rows(vertexStats), Rows(completeStats);
      var logits := EdgeLogits(lgamma, M, vertexRows, pairRows, grid);
      assert forall v1: nat, v2: nat :: v1 < v2 < V ==>
        && PairIndex(v1, v2) < PairCount(V)
        && logits[PairIndex(v1, v2)]
           == DirMulLogProb(lgamma, EdgePrior(M), pairRows[PairIndex(v1, v2)])
              - DirMulLogProb(lgamma, VertexPrior, vertexRows[v1]) - DirMulLogProb(lgamma, VertexPrior, vertexRows[v2])
      by {
        forall v1: nat, v2: nat | v1 < v2 < V
          ensures PairIndex(v1, v2) < PairCount(V)
          ensures logits[PairIndex(v1, v2)]
                  == DirMulLogProb(lgamma, EdgePrior(M), pairRows[PairIndex(v1, v2)])
                     - DirMulLogProb(lgamma, VertexPrior, vertexRows[v1]) - DirMulLogProb(lgamma, VertexPrior, vertexRows[v2])
        {
          EdgeLogitsAt(lgamma, M, vertexRows, pairRows, v1, v2);
        }
      }
      logits
    }

    /** Both `scatter_add_` calls and both `*= decay` of `update`, for a given decay factor `d`. */
    method Absorb(z: seq<seq<nat>>, d: real, ghost total: real, ghost target: real)
      requires Valid()
      requires |z| == V && Batch(z, M)
      requires d >= 0.0 && total == countStats + |z[0]| as real && target == total * d
      modifies vertexStats, completeStats
      ensures forall v :: 0 <= v < V ==> Row(vertexStats, v) == Scale(Add(old(Row(vertexStats, v)), Hist(z[v], M)), d)
      ensures forall k :: 0 <= k < PairCount(V) ==>
        Row(completeStats, k) == Scale(Add(old(Row(completeStats, k)), Hist(PairCodes(M, z[grid[k].0], z[grid[k].1]), M * M)), d)
      ensures RowsSumTo(vertexStats, target) && RowsSumTo(completeStats, target)
    {
      Accumulate(vertexStats, z, d, total, target);
      var zz := JointCodes(M, grid, z);
      Accumulate(completeStats, zz, d, total, target);
    }
  }
}
