/**
 * `find_center_of_tree`: strip leaves with a queue of degree-one vertices,
 * detaching each dequeued vertex from its neighbours in increasing id order;
 * the last vertex dequeued is the centre. The method works on a mutable array
 * of neighbour sets and a queue, and is proved equal to the functional run `Strip`.
 */
module Center {
  import opened Basics
  import opened Graph

  /** The working copy `neighbors` built from the edge rows, one set per vertex. */
  function NeighborTable(V: nat, edges: seq<Edge>): (nb: seq<set<nat>>)
    ensures |nb| == V
    ensures forall v :: 0 <= v < V ==> nb[v] == Neighbors(edges, v)
  {
    seq(V, v requires 0 <= v => Neighbors(edges, v))
  }

  /** The initial queue: the vertices below `n`, in increasing order, with at most one neighbour. */
  function Leaves(nb: seq<set<nat>>, n: nat): (q: seq<nat>)
    requires n <= |nb|
    ensures forall x: nat :: x in q <==> x < n && |nb[x]| <= 1
    ensures forall i :: 0 <= i < |q| ==> q[i] < n
    ensures forall i, j :: 0 <= i < j < |q| ==> q[i] < q[j]
  {
    if n == 0 then [] else Leaves(nb, n - 1) + (if |nb[n - 1]| <= 1 then [n - 1] else [])
  }

  /**
   * The loop over `sorted(neighbors[v])` from candidate `u` upward: each neighbour
   * `u` of `v` loses `v`, and joins the queue when it is left with exactly one neighbour.
   */
  function Detach(nb: seq<set<nat>>, v: nat, ns: set<nat>, u: nat, queue: seq<nat>): (seq<set<nat>>, seq<nat>)
    decreases |nb| - u
  {
    if u >= |nb| then (nb, queue)
    else if u in ns then
      var nb' := nb[u := nb[u] - {v}];
      Detach(nb', v, ns, u + 1, if |nb'[u]| == 1 then queue + [u] else queue)
    else
      Detach(nb, v, ns, u + 1, queue)
  }

  /**
   * What one run of the inner loop does to the table: every neighbour of `v`
   * from `u` up loses `v`, and nothing else changes.
   */
  lemma {:induction false} DetachTable(nb: seq<set<nat>>, v: nat, ns: set<nat>, u: nat, queue: seq<nat>)
    ensures |Detach(nb, v, ns, u, queue).0| == |nb|
    ensures forall x :: 0 <= x < |nb| ==>
      Detach(nb, v, ns, u, queue).0[x] == if u <= x && x in ns then nb[x] - {v} else nb[x]
    decreases |nb| - u
  {
    if u < |nb| {
      var nb' := nb[u := nb[u] - {v}];
      if u in ns {
        DetachTable(nb', v, ns, u + 1, if |nb'[u]| == 1 then queue + [u] else queue);
      } else {
        DetachTable(nb, v, ns, u + 1, queue);
      }
    }
  }

  /**
   * What one run of the inner loop does to the queue: it keeps its entries and
   * gains, in increasing order, neighbours of `v` from `u` up that are left with
   * one neighbour.
   */
  lemma {:induction false} DetachQueue(nb: seq<set<nat>>, v: nat, ns: set<nat>, u: nat, queue: seq<nat>)
    ensures var q := Detach(nb, v, ns, u, queue).1;
      && |queue| <= |q| && q[..|queue|] == queue
      && (forall i :: |queue| <= i < |q| ==> u <= q[i] < |nb| && q[i] in ns && |nb[q[i]] - {v}| == 1)
      && (forall i, j :: |queue| <= i < j < |q| ==> q[i] < q[j])
    decreases |nb| - u
  {
    if u < |nb| {
      var nb' := nb[u := nb[u] - {v}];
      if u in ns {
        var q' := if |nb'[u]| == 1 then queue + [u] else queue;
        DetachQueue(nb', v, ns, u + 1, q');
        var q := Detach(nb', v, ns, u + 1, q').1;
        assert Detach(nb, v, ns, u, queue).1 == q;
        assert q[..|queue|] == q'[..|queue|] == queue;
        forall i | |queue| <= i < |q|
          ensures u <= q[i] < |nb| && q[i] in ns && |nb[q[i]] - {v}| == 1
        {
          if i >= |q'| {
            assert nb'[q[i]] == nb[q[i]];
          } else {
            assert q[i] == q'[i] == u;
          }
        }
        forall i, j | |queue| <= i < j < |q|
          ensures q[i] < q[j]
        {
          if i < |q'| {
            assert q[i] == q'[i] == u && j >= |q'|;
          }
        }
      } else {
        DetachQueue(nb, v, ns, u + 1, queue);
      }
    }
  }

  /** The `while queue` loop, run for at most `fuel` dequeues; `last` is the last vertex dequeued. */
  function Strip(nb: seq<set<nat>>, queue: seq<nat>, last: Option<nat>, fuel: nat): Option<nat>
    decreases fuel
  {
    if queue == [] || fuel == 0 then last
    else
      var v := queue[0];
      var r := Detach(nb, v, if v < |nb| then nb[v] else {}, 0, queue[1..]);
      Strip(r.0, r.1, Some(v), fuel - 1)
  }

  /**
   * The loop binds `v` as soon as the queue is non-empty, and every vertex it
   * dequeues is a row of the table when the queue starts with such vertices.
   */
  lemma {:induction false} StripVertex(nb: seq<set<nat>>, queue: seq<nat>, last: Option<nat>, fuel: nat)
    requires forall i :: 0 <= i < |queue| ==> queue[i] < |nb|
    ensures queue != [] && fuel > 0 ==> Strip(nb, queue, last, fuel).Some?
    ensures Strip(nb, queue, last, fuel) == last || Strip(nb, queue, last, fuel).value < |nb|
    decreases fuel
  {
    if queue != [] && fuel > 0 {
      var v := queue[0];
      DetachQueue(nb, v, if v < |nb| then nb[v] else {}, 0, queue[1..]);
      DetachTable(nb, v, if v < |nb| then nb[v] else {}, 0, queue[1..]);
      var r := Detach(nb, v, if v < |nb| then nb[v] else {}, 0, queue[1..]);
      assert forall i :: 0 <= i < |queue[1..]| ==> r.1[i] == queue[1..][i];
      StripVertex(r.0, r.1, Some(v), fuel - 1);
    }
  }

  /**
   * What `find_center_of_tree(edges)` returns; `None` when the initial queue is
   * empty and the loop never binds `v`. One dequeue per vertex is enough fuel.
   */
  function CenterOfTree(edges: seq<Edge>): (r: Option<nat>)
    ensures r.Some? && r.value < |edges| + 1
  {
    var V := |edges| + 1;
    var nb := NeighborTable(V, edges);
    SomeLeaf(V, edges);
    StripVertex(nb, Leaves(nb, V), None, V);
    Strip(nb, Leaves(nb, V), None, V)
  }

  /** A set of vertices below `V` has at most `V` members. */
  lemma {:induction false} SubsetRangeCard(P: set<nat>, V: nat)
    requires forall x :: x in P ==> x < V
    ensures |P| <= V
  {
    if V > 0 {
      var P' := P - {V - 1};
      SubsetRangeCard(P', V - 1);
      assert P <= P' + {V - 1};
      assert |P' + {V - 1}| <= |P'| + 1;
    } else {
      assert P == {};
    }
  }

  /** A neighbour table of a loop-free undirected graph on `V` vertices: in range and symmetric. */
  ghost predicate SymmetricTable(V: nat, N: seq<set<nat>>)
  {
    && |N| == V
    && (forall a, b :: 0 <= a < V && b in N[a] ==> b < V && b != a && a in N[b])
  }

  lemma NeighborTableSymmetric(V: nat, edges: seq<Edge>)
    requires ValidEdges(V, edges)
    ensures SymmetricTable(V, NeighborTable(V, edges))
  {
    var N := NeighborTable(V, edges);
    forall a, b | 0 <= a < V && b in N[a] ensures b < V && b != a && a in N[b] {
      NeighborsInRange(V, edges, a);
      NeighborsSymmetric(edges, a, b);
    }
  }

  /**
   * The bookkeeping of leaf stripping over the initial table `N` while vertex
   * `cur` (if any) is being detached, with `P` the vertices already dequeued
   * and detached. The queue holds distinct, undetached vertices; every other
   * undetached vertex still has its original neighbours minus the detached
   * ones, and it is in the queue exactly when at most one of them is left.
   * Since a neighbour count only falls, no vertex can join the queue twice.
   */
  ghost predicate Frontier(V: nat, N: seq<set<nat>>, nb: seq<set<nat>>, queue: seq<nat>,
                           P: set<nat>, cur: set<nat>)
  {
    && |nb| == V && |N| == V
    && (forall x :: x in P ==> x < V)
    && (forall x :: x in cur ==> x < V && x !in P)
    && (forall i :: 0 <= i < |queue| ==> queue[i] < V && queue[i] !in P && queue[i] !in cur)
    && (forall i, j :: 0 <= i < j < |queue| ==> queue[i] != queue[j])
    && (forall x {:trigger nb[x]} :: 0 <= x < V && x !in P && x !in cur ==> nb[x] == N[x] - P)
    && (forall x {:trigger nb[x]} :: 0 <= x < V && x !in P && x !in cur ==> (x in queue <==> |nb[x]| <= 1))
  }

  /** `neighbors = [set() for _ in range(V)]` filled from the edge rows. */
  method NewNeighborTable(V: nat, edges: seq<Edge>) returns (neighbors: array<set<nat>>)
    requires ValidEdges(V, edges)
    ensures fresh(neighbors)
    ensures neighbors[..] == NeighborTable(V, edges)
  {
    neighbors := new set<nat>[V](_ => {});
    for e := 0 to |edges|
      invariant forall v :: 0 <= v < V ==> neighbors[v] == Neighbors(edges[..e], v)
    {
      assert edges[..e + 1][..e] == edges[..e];
      var v1, v2 := edges[e].v1, edges[e].v2;
      neighbors[v1] := neighbors[v1] + {v2};
      neighbors[v2] := neighbors[v2] + {v1};
    }
    assert edges[..|edges|] == edges;
  }

  /**
   * The state of the inner loop while `v` is detached from the neighbours in
   * `ns` below `u`: those neighbours have lost `v`, and the other facts of
   * `Frontier` hold with `v` as the vertex in progress.
   */
  ghost predicate Detaching(V: nat, N: seq<set<nat>>, nb: seq<set<nat>>, queue: seq<nat>,
                            P: set<nat>, v: nat, ns: set<nat>, u: nat)
  {
    && |nb| == V && |N| == V && v < V && v !in P
    && nb[v] == ns
    && (forall i :: 0 <= i < |queue| ==> queue[i] < V && queue[i] !in P && queue[i] != v)
    && (forall i, j :: 0 <= i < j < |queue| ==> queue[i] != queue[j])
    && (forall x {:trigger nb[x]} :: 0 <= x < V && x !in P && x != v ==>
          nb[x] == N[x] - P - (if x in ns && x < u then {v} else {}))
    && (forall x {:trigger nb[x]} :: 0 <= x < V && x !in P && x != v ==> (x in queue <==> |nb[x]| <= 1))
  }

  /** The neighbour tables and queue after one iteration of the inner loop, at candidate `u`. */
  function DetachOne(nb: seq<set<nat>>, v: nat, ns: set<nat>, u: nat, queue: seq<nat>): (seq<set<nat>>, seq<nat>)
    requires u < |nb|
  {
    if u in ns then
      var nb' := nb[u := nb[u] - {v}];
      (nb', if |nb'[u]| == 1 then queue + [u] else queue)
    else (nb, queue)
  }

  /** A candidate that is not a neighbour changes nothing. */
  lemma DetachingSkip(V: nat, N: seq<set<nat>>, nb: seq<set<nat>>, queue: seq<nat>,
                      P: set<nat>, v: nat, ns: set<nat>, u: nat)
    requires Detaching(V, N, nb, queue, P, v, ns, u) && u !in ns
    ensures Detaching(V, N, nb, queue, P, v, ns, u + 1)
  {
    forall x | 0 <= x < V && x !in P && x != v
      ensures nb[x] == N[x] - P - (if x in ns && x < u + 1 then {v} else {})
    {
      assert (x in ns && x < u + 1) == (x in ns && x < u);
    }
  }

  /**
   * Detaching `v` from its neighbour `u`: `v` is in `u`'s set (the `remove`
   * succeeds), and `u` joins the queue only if it was not already there.
   */
  lemma DetachingDrop(V: nat, N: seq<set<nat>>, nb: seq<set<nat>>, queue: seq<nat>,
                      P: set<nat>, v: nat, ns: set<nat>, u: nat)
    requires SymmetricTable(V, N) && u < V
    requires Detaching(V, N, nb, queue, P, v, ns, u) && u in ns && ns == N[v] - P
    ensures v in nb[u]
    ensures Detaching(V, N, DetachOne(nb, v, ns, u, queue).0, DetachOne(nb, v, ns, u, queue).1, P, v, ns, u + 1)
  {
    DropMember(V, N, nb, queue, P, v, ns, u);
    var nb' := nb[u := nb[u] - {v}];
    var q' := if |nb'[u]| == 1 then queue + [u] else queue;
    assert DetachOne(nb, v, ns, u, queue) == (nb', q');
    DropTable(V, N, nb, queue, P, v, ns, u);
    DropQueue(V, N, nb, queue, P, v, ns, u);
  }

  /** The neighbour `u` still holds `v`, and is an undetached vertex other than `v`. */
  lemma DropMember(V: nat, N: seq<set<nat>>, nb: seq<set<nat>>, queue: seq<nat>,
                   P: set<nat>, v: nat, ns: set<nat>, u: nat)
    requires SymmetricTable(V, N) && u < V
    requires Detaching(V, N, nb, queue, P, v, ns, u) && u in ns && ns == N[v] - P
    ensures u != v && u !in P && v in nb[u] && nb[u] == N[u] - P
  {
    assert v in N[u];
  }

  /** Removing `v` from `u`'s set extends the detached prefix by `u`. */
  lemma DropTable(V: nat, N: seq<set<nat>>, nb: seq<set<nat>>, queue: seq<nat>,
                  P: set<nat>, v: nat, ns: set<nat>, u: nat)
    requires Detaching(V, N, nb, queue, P, v, ns, u) && u in ns
    requires u < V && u != v && u !in P && v in nb[u]
    ensures var nb' := nb[u := nb[u] - {v}];
      && |nb'| == V && nb'[v] == ns
      && forall x {:trigger nb'[x]} :: 0 <= x < V && x !in P && x != v ==>
           nb'[x] == N[x] - P - (if x in ns && x < u + 1 then {v} else {})
  {
    var nb' := nb[u := nb[u] - {v}];
    forall x | 0 <= x < V && x !in P && x != v
      ensures nb'[x] == N[x] - P - (if x in ns && x < u + 1 then {v} else {})
    {
      if x != u {
        assert (x in ns && x < u + 1) == (x in ns && x < u);
      }
    }
  }

  /** `u` joins the queue when it is left with one neighbour, and then it was not in the queue. */
  lemma DropQueue(V: nat, N: seq<set<nat>>, nb: seq<set<nat>>, queue: seq<nat>,
                  P: set<nat>, v: nat, ns: set<nat>, u: nat)
    requires Detaching(V, N, nb, queue, P, v, ns, u)
    requires u < V && u != v && u !in P && v in nb[u]
    ensures var nb' := nb[u := nb[u] - {v}];
      var q' := if |nb'[u]| == 1 then queue + [u] else queue;
      && (forall i :: 0 <= i < |q'| ==> q'[i] < V && q'[i] !in P && q'[i] != v)
      && (forall i, j :: 0 <= i < j < |q'| ==> q'[i] != q'[j])
      && (forall x {:trigger nb'[x]} :: 0 <= x < V && x !in P && x != v ==> (x in q' <==> |nb'[x]| <= 1))
  {
    var nb' := nb[u := nb[u] - {v}];
    var q' := if |nb'[u]| == 1 then queue + [u] else queue;
    assert |nb'[u]| == |nb[u]| - 1;
    if |nb'[u]| == 1 {
      assert u !in queue;
      forall i, j | 0 <= i < j < |q'| ensures q'[i] != q'[j] {
        if j == |queue| {
          assert q'[i] in queue;
        }
      }
    }
    forall x | 0 <= x < V && x !in P && x != v
      ensures x in q' <==> |nb'[x]| <= 1
    {
      if x != u {
        assert x in q' <==> x in queue;
      }
    }
  }

  /** One iteration of `for v2 in sorted(neighbors[v])`, at candidate `u`. */
  method DetachStep(V: nat, ghost N: seq<set<nat>>, neighbors: array<set<nat>>, v: nat, ns: set<nat>, u: nat,
                    queue: seq<nat>, ghost P: set<nat>)
      returns (queue': seq<nat>)
    requires SymmetricTable(V, N) && u < V
    requires Detaching(V, N, neighbors[..], queue, P, v, ns, u)
    requires ns == N[v] - P
    modifies neighbors
    ensures (neighbors[..], queue') == DetachOne(old(neighbors[..]), v, ns, u, queue)
    ensures Detaching(V, N, neighbors[..], queue', P, v, ns, u + 1)
  {
    ghost var nb := neighbors[..];
    queue' := queue;
    if u in ns {
      DetachingDrop(V, N, nb, queue, P, v, ns, u);
      neighbors[u] := neighbors[u] - {v};
      if |neighbors[u]| == 1 {
        queue' := queue' + [u];
      }
      assert neighbors[..] == nb[u := nb[u] - {v}];
    } else {
      DetachingSkip(V, N, nb, queue, P, v, ns, u);
    }
  }

  /** Starting to detach `v`, which has just left the queue. */
  lemma DetachingStart(V: nat, N: seq<set<nat>>, nb: seq<set<nat>>, queue: seq<nat>, P: set<nat>, v: nat)
    requires Frontier(V, N, nb, queue, P, {v}) && nb[v] == N[v] - P
    ensures Detaching(V, N, nb, queue, P, v, nb[v], 0)
  {
  }

  /** Once every candidate has been tried, `v` counts as detached. */
  lemma DetachingDone(V: nat, N: seq<set<nat>>, nb: seq<set<nat>>, queue: seq<nat>, P: set<nat>, v: nat, ns: set<nat>)
    requires SymmetricTable(V, N)
    requires Detaching(V, N, nb, queue, P, v, ns, V) && ns == N[v] - P
    requires forall x :: x in P ==> x < V
    ensures Frontier(V, N, nb, queue, P + {v}, {})
  {
    forall x | 0 <= x < V && x !in P + {v}
      ensures nb[x] == N[x] - (P + {v})
    {
      if x !in ns {
        assert v !in N[x];
      }
    }
  }

  /** `Detach` from candidate `u` is one `DetachOne` step followed by `Detach` from `u + 1`. */
  lemma DetachUnfold(nb: seq<set<nat>>, v: nat, ns: set<nat>, u: nat, queue: seq<nat>)
    requires u < |nb|
    ensures Detach(nb, v, ns, u, queue)
         == Detach(DetachOne(nb, v, ns, u, queue).0, v, ns, u + 1, DetachOne(nb, v, ns, u, queue).1)
  {
  }

  /**
   * The inner `for v2 in sorted(neighbors[v])` loop: `v` leaves the set of each
   * of its remaining neighbours (each `remove` finds it), and a neighbour left
   * with exactly one neighbour joins the queue, which it had never joined before.
   */
  method DetachVertex(V: nat, ghost N: seq<set<nat>>, neighbors: array<set<nat>>, v: nat, queue: seq<nat>,
                      ghost P: set<nat>)
      returns (queue': seq<nat>)
    requires SymmetricTable(V, N)
    requires Frontier(V, N, neighbors[..], queue, P, {v})
    requires neighbors[v] == N[v] - P
    modifies neighbors
    ensures Frontier(V, N, neighbors[..], queue', P + {v}, {})
    ensures Detach(old(neighbors[..]), v, old(neighbors[v]), 0, queue) == (neighbors[..], queue')
  {
    var ns := neighbors[v];
    ghost var goal := Detach(neighbors[..], v, ns, 0, queue);
    DetachingStart(V, N, neighbors[..], queue, P, v);
    queue' := queue;
    var u: nat := 0;
    while u < V
      invariant u <= V
      invariant Detaching(V, N, neighbors[..], queue', P, v, ns, u)
      invariant Detach(neighbors[..], v, ns, u, queue') == goal
    {
      ghost var nbU, qU := neighbors[..], queue';
      queue' := DetachStep(V, N, neighbors, v, ns, u, queue', P);
      DetachUnfold(nbU, v, ns, u, qU);
      u := u + 1;
    }
    assert u == V;
    DetachingDone(V, N, neighbors[..], queue', P, v, ns);
  }

  /** Before the first dequeue: nothing detached, and the queue holds exactly the leaves. */
  lemma FrontierInit(V: nat, N: seq<set<nat>>)
    requires |N| == V
    ensures Frontier(V, N, N, Leaves(N, V), {}, {})
  {
    var q := Leaves(N, V);
    forall i, j | 0 <= i < j < |q| ensures q[i] != q[j] {
      assert q[i] < q[j];
    }
  }

  /** `queue.popleft()` makes the head the vertex in progress. */
  lemma FrontierPop(V: nat, N: seq<set<nat>>, nb: seq<set<nat>>, queue: seq<nat>, P: set<nat>)
    requires Frontier(V, N, nb, queue, P, {}) && queue != []
    ensures Frontier(V, N, nb, queue[1..], P, {queue[0]})
    ensures nb[queue[0]] == N[queue[0]] - P
  {
    forall i | 0 <= i < |queue| - 1 ensures queue[1..][i] != queue[0] {
      assert queue[1..][i] == queue[i + 1];
    }
  }

  /**
   * One iteration of `while queue`: pop the head `v`, detach it, and remember
   * it as the last vertex dequeued; this is one step of `Strip`.
   */
  method Dequeue(V: nat, ghost N: seq<set<nat>>, neighbors: array<set<nat>>, queue: seq<nat>,
                 ghost P: set<nat>, last: Option<nat>, ghost fuel: nat)
      returns (queue': seq<nat>, last': Option<nat>)
    requires SymmetricTable(V, N)
    requires Frontier(V, N, neighbors[..], queue, P, {}) && queue != [] && fuel > 0
    modifies neighbors
    ensures last' == Some(queue[0]) && queue[0] < V && queue[0] !in P
    ensures Frontier(V, N, neighbors[..], queue', P + {queue[0]}, {})
    ensures Strip(old(neighbors[..]), queue, last, fuel) == Strip(neighbors[..], queue', last', fuel - 1)
  {
    var v := queue[0];
    FrontierPop(V, N, neighbors[..], queue, P);
    queue' := DetachVertex(V, N, neighbors, v, queue[1..], P);
    last' := Some(v);
  }

  /** `deque(v for v in range(V) if len(neighbors[v]) <= 1)`. */
  method InitialQueue(V: nat, neighbors: array<set<nat>>) returns (queue: seq<nat>)
    requires neighbors.Length == V
    ensures queue == Leaves(neighbors[..], V)
  {
    ghost var nb := neighbors[..];
    queue := [];
    var v: nat := 0;
    while v < V
      invariant v <= V && queue == Leaves(nb, v)
    {
      assert neighbors[v] == nb[v];
      if |neighbors[v]| <= 1 {
        queue := queue + [v];
      }
      v := v + 1;
    }
  }

  /** `dequeued` lists, without repeats, the vertices of `P` in dequeue order; `last` is its final entry. */
  ghost predicate History(P: set<nat>, dequeued: seq<nat>, last: Option<nat>)
  {
    && (forall x :: x in dequeued <==> x in P)
    && (forall i, j :: 0 <= i < j < |dequeued| ==> dequeued[i] != dequeued[j])
    && last == (if dequeued == [] then None else Some(dequeued[|dequeued| - 1]))
  }

  lemma HistoryStep(P: set<nat>, dequeued: seq<nat>, last: Option<nat>, v: nat)
    requires History(P, dequeued, last) && v !in P
    ensures History(P + {v}, dequeued + [v], Some(v))
  {
    var d := dequeued + [v];
    forall i, j | 0 <= i < j < |d|
      ensures d[i] != d[j]
    {
      if j == |dequeued| {
        assert d[i] in dequeued;
      }
    }
  }

  /**
   * The `while queue` loop from the initial queue: it runs `Strip` to
   * completion and returns the last vertex dequeued. `dequeued` lists the
   * vertices in dequeue order, each once, and `done` holds the same vertices;
   * the table is left with an empty queue over `done`, so every vertex never
   * dequeued keeps its neighbours outside `done`.
   */
  method StripAll(V: nat, ghost N: seq<set<nat>>, neighbors: array<set<nat>>, queue0: seq<nat>)
      returns (center: nat, ghost dequeued: seq<nat>, ghost done: set<nat>)
    requires SymmetricTable(V, N)
    requires Frontier(V, N, neighbors[..], queue0, {}, {}) && queue0 != []
    modifies neighbors
    ensures Strip(old(neighbors[..]), queue0, None, V) == Some(center)
    ensures History(done, dequeued, Some(center))
    ensures Frontier(V, N, neighbors[..], [], done, {})
  {
    ghost var goal := Strip(neighbors[..], queue0, None, V);
    var queue := queue0;
    ghost var P: set<nat> := {};
    ghost var fuel: nat := V;
    dequeued := [];
    var last: Option<nat> := None;
    while queue != []
      invariant Frontier(V, N, neighbors[..], queue, P, {})
      invariant fuel + |P| == V
      invariant last.Some? || queue != []
      invariant History(P, dequeued, last)
      invariant Strip(neighbors[..], queue, last, fuel) == goal
      decreases fuel
    {
      ghost var v := queue[0];
      StripCount(V, N, neighbors[..], queue, P, fuel);
      HistoryStep(P, dequeued, last, v);
      queue, last := Dequeue(V, N, neighbors, queue, P, last, fuel);
      P := P + {v};
      fuel := fuel - 1;
      dequeued := dequeued + [v];
    }
    center, done := last.value, P;
  }

  /** A sequence without repeats has as many entries as the set of its entries. */
  lemma {:induction false} DistinctCard(P: set<nat>, s: seq<nat>)
    requires forall x :: x in s <==> x in P
    requires forall i, j :: 0 <= i < j < |s| ==> s[i] != s[j]
    ensures |P| == |s|
  {
    if s != [] {
      var n := |s| - 1;
      forall x | x in s[..n]
        ensures x in P - {s[n]}
      {
        var i :| 0 <= i < n && s[i] == x;
      }
      DistinctCard(P - {s[n]}, s[..n]);
    }
  }

  /** The head of the queue is a new vertex, so one more dequeue still fits in the fuel. */
  lemma StripCount(V: nat, N: seq<set<nat>>, nb: seq<set<nat>>, queue: seq<nat>, P: set<nat>, fuel: nat)
    requires Frontier(V, N, nb, queue, P, {}) && queue != [] && fuel + |P| == V
    ensures fuel > 0 && (fuel - 1) + |P + {queue[0]}| == V
  {
    SubsetRangeCard(P + {queue[0]}, V);
  }

  /** Once the queue is empty, every vertex not dequeued keeps two neighbours that were not dequeued. */
  lemma StripStalled(V: nat, N: seq<set<nat>>, nb: seq<set<nat>>, P: set<nat>, dequeued: seq<nat>, last: Option<nat>,
                     center: nat)
    requires Frontier(V, N, nb, [], P, {}) && History(P, dequeued, last) && last == Some(center)
    ensures center < V
    ensures dequeued != [] && dequeued[|dequeued| - 1] == center
    ensures |P| == |dequeued|
    ensures forall i :: 0 <= i < |dequeued| ==> dequeued[i] < V
    ensures forall x :: 0 <= x < V && x !in P ==> |N[x] - P| > 1
  {
    assert forall i :: 0 <= i < |dequeued| ==> dequeued[i] in P;
    assert dequeued[|dequeued| - 1] in P;
    DistinctCard(P, dequeued);
    forall x | 0 <= x < V && x !in P
      ensures |N[x] - P| > 1
    {
      assert nb[x] == N[x] - P;
    }
  }

  /**
   * Leaf stripping as the source runs it. Every vertex is enqueued at most
   * once, so `dequeued` has no repeats; the result is the last vertex dequeued
   * and equals `CenterOfTree`, which is therefore never `None` on valid edges.
   * On a tree every vertex is dequeued, exactly once.
   */
  method FindCenterOfTree(edges: seq<Edge>) returns (center: nat, ghost dequeued: seq<nat>)
    requires ValidEdges(|edges| + 1, edges)
    ensures CenterOfTree(edges) == Some(center)
    ensures center < |edges| + 1
    ensures dequeued != [] && dequeued[|dequeued| - 1] == center
    ensures forall i, j :: 0 <= i < j < |dequeued| ==> dequeued[i] != dequeued[j]
    ensures forall i :: 0 <= i < |dequeued| ==> dequeued[i] < |edges| + 1
    ensures Tree(|edges| + 1, edges) ==>
      |dequeued| == |edges| + 1 && forall v :: 0 <= v < |edges| + 1 ==> v in dequeued
  {
    var V := |edges| + 1;
    var neighbors := NewNeighborTable(V, edges);
    ghost var N := neighbors[..];
    NeighborTableSymmetric(V, edges);
    var queue := InitialQueue(V, neighbors);
    SomeLeaf(V, edges);
    FrontierInit(V, N);
    ghost var done;
    center, dequeued, done := StripAll(V, N, neighbors, queue);
    StripStalled(V, N, neighbors[..], done, dequeued, Some(center), center);
    if Tree(V, edges) {
      StrippedTree(V, edges, dequeued, done);
    }
  }

  /** On a tree, a stalled strip is a finished one: every vertex was dequeued, once. */
  lemma StrippedTree(V: nat, edges: seq<Edge>, dequeued: seq<nat>, D: set<nat>)
    requires Tree(V, edges) && |edges| + 1 == V
    requires forall i :: 0 <= i < |dequeued| ==> dequeued[i] < V
    requires (forall x :: x in D <==> x in dequeued) && |D| == |dequeued|
    requires forall x :: 0 <= x < V && x !in D ==> |Neighbors(edges, x) - D| > 1
    ensures |dequeued| == V && forall v :: 0 <= v < V ==> v in dequeued
  {
    assert RootableAt(V, edges, 0);
    var parent: seq<nat>, depth: seq<nat> :| RootedTree(V, edges, 0, parent, depth);
    var N := NeighborTable(V, edges);
    assert forall x :: 0 <= x < V ==> N[x] == Family(V, 0, parent, x);
    NoStuckVertex(V, 0, parent, depth, N, D);
    forall x | x in D
      ensures x < V
    {
      var i :| 0 <= i < |dequeued| && dequeued[i] == x;
    }
    CoverCard(D, V);
    SubsetRangeCard(D, V);
  }

  /** A set holding every vertex below `V` has at least `V` members. */
  lemma {:induction false} CoverCard(P: set<nat>, V: nat)
    requires forall x :: 0 <= x < V ==> x in P
    ensures |P| >= V
  {
    if V > 0 {
      CoverCard(P - {V - 1}, V - 1);
    }
  }

  /** A vertex of greatest depth in a non-empty set. */
  lemma Deepest(U: set<nat>, depth: seq<nat>) returns (m: nat)
    requires U != {} && forall x :: x in U ==> x < |depth|
    ensures m in U && forall y :: y in U ==> depth[y] <= depth[m]
    decreases |U|
  {
    var x :| x in U;
    if U == {x} {
      m := x;
    } else {
      var m' := Deepest(U - {x}, depth);
      m := if depth[x] <= depth[m'] then m' else x;
    }
  }

  /**
   * Leaf stripping cannot stall on a tree: if every vertex outside `D` had
   * two neighbours outside `D`, the deepest vertex outside `D` (for some
   * rooting) would have only its parent left, so `D` holds every vertex.
   */
  lemma NoStuckVertex(V: nat, root: nat, parent: seq<nat>, depth: seq<nat>, N: seq<set<nat>>, D: set<nat>)
    requires ParentLinks(V, root, parent, depth) && |N| == V
    requires forall x :: 0 <= x < V ==> N[x] == Family(V, root, parent, x)
    requires forall x :: 0 <= x < V && x !in D ==> |N[x] - D| > 1
    ensures forall x :: 0 <= x < V ==> x in D
  {
    var U := set x: nat | x < V && x !in D;
    assert forall x :: 0 <= x < V && x !in D ==> x in U;
    if U != {} {
      var m := Deepest(U, depth);
      DeepestLeft(V, root, parent, depth, N, D, m);
      assert false;
    }
  }

  /** A vertex with every child in `D` has at most its parent left outside `D`. */
  lemma DeepestLeft(V: nat, root: nat, parent: seq<nat>, depth: seq<nat>, N: seq<set<nat>>, D: set<nat>, m: nat)
    requires ParentLinks(V, root, parent, depth) && |N| == V && m < V
    requires forall x :: 0 <= x < V ==> N[x] == Family(V, root, parent, x)
    requires forall y :: 0 <= y < V && y !in D ==> depth[y] <= depth[m]
    ensures |N[m] - D| <= 1
  {
    forall c | c in Children(V, root, parent, m)
      ensures c in D
    {
      assert Linked(V, root, parent, depth, c);
    }
    var up: set<nat> := if m != root && parent[m] !in D then {parent[m]} else {};
    assert N[m] - D == up;
  }
}
