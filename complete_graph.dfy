/**
 * The complete graph on `V` vertices as the edge guide stores it: `K = V*(V-1)/2`
 * unordered pairs `v1 < v2`, pair `(v1, v2)` kept in row `k = v1 + v2*(v2-1)/2`.
 * The pair list itself (`make_complete_graph`) is not part of this model; it is
 * specified here as the one list that agrees with that row formula.
 */
module Pairs {

  /** `n*(n-1)/2`, the number of pairs among `n` vertices. */
  function Tri(n: nat): (t: nat)
    ensures 2 * t == n * (n - 1)
  {
    if n == 0 then 0 else Tri(n - 1) + (n - 1)
  }

  /** `V * (V - 1) // 2`: the number of rows of the complete-graph table. */
  function PairCount(V: nat): (K: nat)
    ensures K == Tri(V)
  {
    V * (V - 1) / 2
  }

  /** `k = v1 + v2 * (v2 - 1) // 2`, the row of the pair `(v1, v2)`. */
  function PairIndex(v1: nat, v2: nat): nat
  {
    v1 + v2 * (v2 - 1) / 2
  }

  /** For `v1 < v2` the row of `(v1, v2)` is `v1` places into the block `[Tri(v2), Tri(v2 + 1))` of partner `v2`. */
  lemma PairIndexBlock(v1: nat, v2: nat)
    requires v1 < v2
    ensures PairIndex(v1, v2) == Tri(v2) + v1
    ensures Tri(v2) <= PairIndex(v1, v2) < Tri(v2 + 1)
  {
  }

  lemma {:induction false} TriMonotone(a: nat, b: nat)
    requires a <= b
    ensures Tri(a) <= Tri(b)
  {
    if a < b {
      TriMonotone(a, b - 1);
    }
  }

  /** Every pair `v1 < v2 < V` has its row in `[0, K)`. */
  lemma PairIndexRange(V: nat, v1: nat, v2: nat)
    requires v1 < v2 < V
    ensures PairIndex(v1, v2) < PairCount(V)
  {
    PairIndexBlock(v1, v2);
    TriMonotone(v2 + 1, V);
  }

  /** Distinct pairs get distinct rows. */
  lemma PairIndexInjective(a1: nat, a2: nat, b1: nat, b2: nat)
    requires a1 < a2 && b1 < b2
    requires PairIndex(a1, a2) == PairIndex(b1, b2)
    ensures a1 == b1 && a2 == b2
  {
    PairIndexBlock(a1, a2);
    PairIndexBlock(b1, b2);
    if a2 < b2 {
      TriMonotone(a2 + 1, b2);
    } else if b2 < a2 {
      TriMonotone(b2 + 1, a2);
    }
  }

  /** The pairs `(v1, v2)`, `v1 < v2 < V`, listed by `v2` and then by `v1`. */
  function CompleteGraph(V: nat): (grid: seq<(nat, nat)>)
    ensures |grid| == PairCount(V)
    ensures forall k :: 0 <= k < |grid| ==> grid[k].0 < grid[k].1 < V
  {
    if V == 0 then []
    else CompleteGraph(V - 1) + seq(V - 1, (i: int) requires 0 <= i => (i, V - 1))
  }

  /** The list and the row formula agree: row `PairIndex(v1, v2)` holds `(v1, v2)` ... */
  lemma {:induction false} CompleteGraphAt(V: nat, v1: nat, v2: nat)
    requires v1 < v2 < V
    ensures PairIndex(v1, v2) < |CompleteGraph(V)|
    ensures CompleteGraph(V)[PairIndex(v1, v2)] == (v1, v2)
  {
    var k := PairIndex(v1, v2);
    var prev := CompleteGraph(V - 1);
    var tail: seq<(nat, nat)> := seq(V - 1, (i: int) requires 0 <= i => (i, V - 1));
    assert CompleteGraph(V) == prev + tail;
    assert |prev| == Tri(V - 1);
    PairIndexRange(V, v1, v2);
    if v2 < V - 1 {
      PairIndexRange(V - 1, v1, v2);
      CompleteGraphAt(V - 1, v1, v2);
      assert (prev + tail)[k] == prev[k];
    } else {
      PairIndexBlock(v1, v2);
      assert k == |prev| + v1;
      assert (prev + tail)[k] == tail[v1];
    }
  }

  /** ... and every row `k` holds the pair whose index is `k`. */
  lemma {:induction false} CompleteGraphIndex(V: nat, k: nat)
    requires k < PairCount(V)
    ensures CompleteGraph(V)[k].0 < CompleteGraph(V)[k].1
    ensures PairIndex(CompleteGraph(V)[k].0, CompleteGraph(V)[k].1) == k
  {
    if k < Tri(V - 1) {
      CompleteGraphIndex(V - 1, k);
    } else {
      PairIndexBlock(k - Tri(V - 1), V - 1);
    }
  }
}
