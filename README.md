# TreeCat tree core, modelled in Dafny

TreeCat (`pyro/contrib/tabular/treecat.py`) models sparse tabular data. Each of
the `V` feature columns carries a latent categorical state in `[0, M)`, and the
states are coupled along the `V - 1` edges of a tree. This project models the
parts of that module that work on the tree itself:

- **`find_center_of_tree`** strips degree-one vertices with a queue. The
  model is a method over an array of neighbour sets and a queue. It is proved
  equal to a functional run, `Center.Strip`. Each vertex is enqueued at most
  once, every `remove` finds its vertex, and the result is the last vertex
  dequeued. On a tree every vertex is dequeued exactly once. On the default
  path `0 - 1 - ... - (V-1)` the centre is the middle vertex `V // 2`.
- **The `edges` setter and `__init__` of `TreeCat`** store the rows, pick
  the centre as root, and build the symmetric neighbour sets. They also
  build the edge-index map, which holds both orientations of every row.
- **`TreeCat._propagate` and `TreeCat.model`** sample one data row by a
  recursive walk from the root. A recursive call enters only an unsampled
  subtree, and the single sampled neighbour is the parent. Every state is
  drawn exactly once: from `vertex_probs` at the root, and otherwise from
  the parent-conditioned row of the edge's joint. That joint is transposed
  exactly when the parent has the larger id. `x[v]` is set exactly when the
  column is observed or imputation is on. `pyro.sample` is a parameter
  (`Tabular.Draws`): the vertex and edge probability tables plus two draw
  functions.
- **`_EdgeGuide`** is a class over two `array2<real>` tables and the pseudo
  count:
  - `__init__` spreads one pseudo-observation over every row;
  - `update` scatters a batch of states into both tables and decays them,
    and it keeps every row non-negative and summing to the count;
  - `get_posterior` returns a distribution for every vertex and edge;
  - `compute_edge_logits` scores every pair of the complete graph. It uses
    `_dirmul_log_prob` with `lgamma` as a parameter.
- **`print_tree`** walks the tree depth-first with an explicit stack. The
  emitted lines are proved to be, once reversed, the pre-order of the tree
  from the chosen root. Children come in increasing id order, each name is
  indented by its depth, and every vertex appears exactly once, with the
  root first at indent 0.

Modules, one per file:

| module | file |
|---|---|
| `Basics` | `basics.dfy` |
| `Graph` | `graph.dfy` |
| `Center` | `center.dfy` |
| `PathCenter` | `path_center.dfy` |
| `Pairs` | `complete_graph.dfy` |
| `Posterior` | `posterior.dfy` |
| `Stats` | `stats.dfy` |
| `Tabular` | `treecat.dfy` |
| `Listing` and `Printing` | `print_tree.dfy` |

## Model

| member | source | states |
|---|---|---|
| Graph.Neighbors | pyro/contrib/tabular/treecat.py:82-84 | the neighbour set of `v` after adding every row; its contract is `NeighborsJoin` |
| Graph.NeighborsJoin | pyro/contrib/tabular/treecat.py:82-84 | `b` is in the neighbour set of `a` exactly when some edge row joins `a` and `b` |
| Graph.NeighborsSymmetric | pyro/contrib/tabular/treecat.py:82-84 | the neighbour sets are symmetric: `b in neighbors[a] <==> a in neighbors[b]` |
| Graph.NeighborsInRange | pyro/contrib/tabular/treecat.py:82-84 | on valid rows every neighbour is an in-range vertex other than `v` itself |
| Graph.EdgeIndexMap | pyro/contrib/tabular/treecat.py:85-86 | `_edge_index` after storing both orientations of every row; its contract is `EdgeIndexMapSpec` |
| Graph.EdgeIndexMapSpec | pyro/contrib/tabular/treecat.py:85-86 | `_edge_index` is keyed by exactly the neighbour pairs; each key's value is the same for both orientations and is the last row joining the pair |
| Graph.EdgeIndexOfRow | pyro/contrib/tabular/treecat.py:82-86 | without repeated pairs, `_edge_index[v1, v2] == _edge_index[v2, v1] == e` for row `e` |
| Graph.DefaultEdges | pyro/contrib/tabular/treecat.py:40-42 | the default topology has `V - 1` rows |
| Graph.DefaultEdgesNeighbors | pyro/contrib/tabular/treecat.py:40-42 | on the default path, `v` neighbours exactly `v - 1` and `v + 1` where they exist |
| Graph.DefaultEdgesTree | pyro/contrib/tabular/treecat.py:40-42 | the default path is a tree that can be rooted at every vertex |
| Graph.SomeLeaf | pyro/contrib/tabular/treecat.py:423-428 | `V - 1` rows over `V` vertices leave a vertex with at most one neighbour, so the initial queue is never empty |
| Graph.BelowRoot | pyro/contrib/tabular/treecat.py:137-138 | every vertex lies in the subtree of the root |
| Graph.ExploredStep | pyro/contrib/tabular/treecat.py:176-177 | recursing into one more child adds exactly that child's subtree, disjoint from what was already sampled and inside `v`'s subtree |
| Graph.ExploredAll | pyro/contrib/tabular/treecat.py:176-177 | once every child has been recursed into, the whole subtree of `v` is sampled |
| Graph.BelowDisjoint | pyro/contrib/tabular/treecat.py:176-177 | two distinct vertices on the same level have disjoint subtrees |
| Center.NeighborTable | pyro/contrib/tabular/treecat.py:424-427 | entry `v` of the neighbour table is the set of vertices the rows join to `v` |
| Center.NeighborTableSymmetric | pyro/contrib/tabular/treecat.py:424-427 | the table built from valid rows is in range, loop-free and symmetric |
| Center.NewNeighborTable | pyro/contrib/tabular/treecat.py:424-427 | the array filled row by row equals `NeighborTable` |
| Center.Detach | pyro/contrib/tabular/treecat.py:431-434 | the inner `for v2 in sorted(neighbors[v])` loop as a function; its contract is `DetachTable` and `DetachQueue` |
| Center.DetachTable | pyro/contrib/tabular/treecat.py:431-432 | the inner loop removes `v` from every neighbour of `v` and changes no other set |
| Center.DetachQueue | pyro/contrib/tabular/treecat.py:431-434 | the inner loop keeps the queue and appends, in increasing id order, only neighbours of `v` left with exactly one neighbour |
| Center.Strip | pyro/contrib/tabular/treecat.py:429-435 | the `while queue` loop as a function returning the last vertex dequeued; its contract is `StripVertex` |
| Center.StripVertex | pyro/contrib/tabular/treecat.py:429-435 | a non-empty queue binds `v`, and the vertex returned is a vertex of the table |
| Center.CenterOfTree | pyro/contrib/tabular/treecat.py:413-435 | on any `V - 1` rows the loop binds `v`, and the result is a vertex below `V` |
| Center.Leaves | pyro/contrib/tabular/treecat.py:428 | the initial queue holds exactly the vertices with at most one neighbour, in increasing order |
| Center.InitialQueue | pyro/contrib/tabular/treecat.py:428 | the loop builds exactly `Leaves` |
| Center.FrontierInit | pyro/contrib/tabular/treecat.py:428 | before the first dequeue the queue is duplicate-free and holds exactly the vertices of degree at most one |
| Center.FrontierPop | pyro/contrib/tabular/treecat.py:430 | `popleft` yields an undetached vertex whose set is its original neighbours minus the detached ones |
| Center.DetachingDrop | pyro/contrib/tabular/treecat.py:431-434 | `neighbors[v2].remove(v)` always finds `v`, and `v2` joins the queue only if it was never in it |
| Center.DetachStep | pyro/contrib/tabular/treecat.py:431-434 | one inner iteration is one step of the functional `Detach` and keeps the stripping invariant |
| Center.DetachVertex | pyro/contrib/tabular/treecat.py:431-434 | the inner loop over `sorted(neighbors[v])` computes `Detach` and leaves `v` detached from every neighbour |
| Center.Dequeue | pyro/contrib/tabular/treecat.py:429-434 | one outer iteration dequeues a not-yet-dequeued vertex and is one step of `Strip` |
| Center.HistoryStep | pyro/contrib/tabular/treecat.py:429-430 | appending a vertex never dequeued before keeps the dequeue history free of repeats |
| Center.StripCount | pyro/contrib/tabular/treecat.py:429-430 | each dequeue takes a vertex never dequeued before, so at most `V` dequeues happen |
| Center.StripAll | pyro/contrib/tabular/treecat.py:429-435 | the `while queue` loop returns `Strip`'s result, the last vertex dequeued, with no vertex dequeued twice, and stops with an empty queue |
| Center.StripStalled | pyro/contrib/tabular/treecat.py:429-435 | when the queue runs dry the result is the last vertex dequeued and in range, and every vertex never dequeued still has two or more neighbours that were not dequeued |
| Center.NoStuckVertex | pyro/contrib/tabular/treecat.py:428-434 | on a tree, no set of undequeued vertices can all keep two undequeued neighbours: the deepest of them has at most one |
| Center.DeepestLeft | pyro/contrib/tabular/treecat.py:428-434 | an undequeued vertex of greatest depth has at most one undequeued neighbour, its parent |
| Center.StrippedTree | pyro/contrib/tabular/treecat.py:413-435 | on a tree the loop stops only after dequeuing every vertex, each exactly once |
| Center.FindCenterOfTree | pyro/contrib/tabular/treecat.py:413-435 | the result is `CenterOfTree(edges)`, in range, the last vertex dequeued, each vertex dequeued at most once; on a tree every vertex is dequeued exactly once |
| PathCenter.DetachOutside | pyro/contrib/tabular/treecat.py:431-434 | the inner loop changes nothing when no neighbour is left to visit |
| PathCenter.DetachSingle | pyro/contrib/tabular/treecat.py:431-434 | detaching a vertex with a single neighbour `w` removes it from `w`'s set and enqueues `w` exactly when `w` keeps one neighbour |
| PathCenter.DefaultSegment | pyro/contrib/tabular/treecat.py:40-42 | the neighbour table of the default path is the segment `0 .. V-1`: each end sees its inner neighbour, each inner vertex both of its neighbours |
| PathCenter.SegmentLeaves | pyro/contrib/tabular/treecat.py:428 | below the far end of the path only vertex `0` has at most one neighbour |
| PathCenter.PathEnds | pyro/contrib/tabular/treecat.py:428 | the initial queue of the default path is its two ends, lower first (just `[0]` when `V = 1`) |
| PathCenter.StripOne | pyro/contrib/tabular/treecat.py:429-435 | a queue holding one isolated vertex returns it |
| PathCenter.StripTwo | pyro/contrib/tabular/treecat.py:429-435 | on a two-vertex segment the upper end is dequeued last |
| PathCenter.PopLow | pyro/contrib/tabular/treecat.py:430-434 | dequeuing the lower end of a segment of three or more enqueues its inner neighbour |
| PathCenter.PopHigh | pyro/contrib/tabular/treecat.py:430-434 | dequeuing the upper end next removes it from its inner neighbour, which is enqueued if one neighbour is left |
| PathCenter.StripThree | pyro/contrib/tabular/treecat.py:429-435 | on a three-vertex segment the middle vertex is dequeued last |
| PathCenter.StripLonger | pyro/contrib/tabular/treecat.py:429-435 | on a longer segment two dequeues leave the segment shortened by one at each end, with its two new ends queued |
| PathCenter.StripSegment | pyro/contrib/tabular/treecat.py:429-435 | stripping a segment `lo .. hi` from both ends returns its middle vertex `(lo + hi + 1) // 2` |
| PathCenter.CenterOfPath | pyro/contrib/tabular/treecat.py:413-435 | on the default path of `V` vertices the centre is the middle vertex `V // 2` (the upper of the two middle vertices for even `V`) |
| Pairs.PairCount | pyro/contrib/tabular/treecat.py:289 | `K = V * (V - 1) // 2` is the number of pairs among `V` vertices |
| Pairs.PairIndexBlock | pyro/contrib/tabular/treecat.py:368 | for `v1 < v2`, `k = v1 + v2 * (v2 - 1) // 2` lies in the block of partner `v2` |
| Pairs.PairIndexRange | pyro/contrib/tabular/treecat.py:368 | every pair `v1 < v2 < V` has its row in `[0, K)` |
| Pairs.PairIndexInjective | pyro/contrib/tabular/treecat.py:368 | distinct ordered pairs get distinct rows |
| Pairs.CompleteGraph | pyro/contrib/tabular/treecat.py:294 | `_grid` has `K` pairs, each `v1 < v2 < V` |
| Pairs.CompleteGraphAt | pyro/contrib/tabular/treecat.py:294 | row `PairIndex(v1, v2)` of `_grid` holds `(v1, v2)` |
| Pairs.CompleteGraphIndex | pyro/contrib/tabular/treecat.py:294 | every row `k` of `_grid` holds an ordered pair whose index is `k` |
| Posterior.EdgePrior | pyro/contrib/tabular/treecat.py:297-298 | the edge prior `0.5 / M` is positive, at most the vertex prior, and gives a joint row the same total mass 1/2 |
| Posterior.DivideBySum | pyro/contrib/tabular/treecat.py:372 | a positive row divided by its own sum is a distribution |
| Posterior.Normalize | pyro/contrib/tabular/treecat.py:371-374 | `(prior + row) / sum` is a distribution of the row's length |
| Posterior.NormalizeOrder | pyro/contrib/tabular/treecat.py:371-374 | the posterior mean ranks states exactly as their counts do, in both directions |
| Posterior.NormalizeUniform | pyro/contrib/tabular/treecat.py:300-303 | equal counts, as after the initial pseudo-observation, give the uniform distribution |
| Posterior.EdgeRowIndex | pyro/contrib/tabular/treecat.py:368 | the corrected row of an edge, the row of `(min(v1, v2), max(v1, v2))`; its contract is `EdgeRowIndexJoins` |
| Posterior.EdgeRowIndexAsWritten | pyro/contrib/tabular/treecat.py:368 | `k = v1 + v2 * (v2 - 1) // 2` in the stored orientation; `ReversedRowMisread` and `EdgeRowIndexOrdered` state where it goes wrong and where it is right |
| Posterior.EdgeRowIndexJoins | pyro/contrib/tabular/treecat.py:367-369 | the corrected row index of a valid edge is in range and its `_grid` pair is that edge's own pair of ends |
| Posterior.EdgeRowIndexOrdered | pyro/contrib/tabular/treecat.py:368 | when every row is stored as `v1 < v2` (`Graph.Ordered`, as on the default path) the formula as written and the corrected one agree on every row |
| Posterior.ReversedRowMisread | pyro/contrib/tabular/treecat.py:367-369 | the formula as written sends the valid row `(2, 0)` to pair `(1, 2)`, which it does not join, and sends `(1, 0)` with `V = 2` past the last row |
| Posterior.VertexPosterior | pyro/contrib/tabular/treecat.py:371-372 | vertex `v`'s posterior is the normalisation of its row under the Jeffreys prior |
| Posterior.EdgePosterior | pyro/contrib/tabular/treecat.py:367-374 | edge `e`'s posterior normalises the complete-graph row of its own pair under the edge prior |
| Posterior.GetPosterior | pyro/contrib/tabular/treecat.py:356-375 | one distribution of `M` entries per vertex and one of `M * M` per edge |
| Posterior.GetPosteriorEdge | pyro/contrib/tabular/treecat.py:367-374 | edge `e`'s posterior is read from a row whose pair the edge joins |
| Posterior.DirMulLogProb | pyro/contrib/tabular/treecat.py:399-410 | the per-row score, the sum of `lgamma(c + alpha) - lgamma(c + 1)`; its contract is `DirMulLogProbSums` |
| Posterior.LogGammaAll | pyro/contrib/tabular/treecat.py:408 | `(counts + shift).lgamma()` entry by entry |
| Posterior.DirMulLogProbSums | pyro/contrib/tabular/treecat.py:399-410 | the paired per-entry computation equals the documented `(alpha + counts).lgamma().sum(-1) - (1 + counts).lgamma().sum(-1)` |
| Posterior.DirMulLogProbConstant | pyro/contrib/tabular/treecat.py:399-410 | a row of `n` equal counts `c` scores `n * (lgamma(c + alpha) - lgamma(c + 1))` |
| Posterior.VertexLogits | pyro/contrib/tabular/treecat.py:391 | one Dirichlet-multinomial score per vertex |
| Posterior.EdgeLogits | pyro/contrib/tabular/treecat.py:388-396 | one logit per row of the grid (`edge_logits.shape == (K,)`) |
| Posterior.EdgeLogitsUniform | pyro/contrib/tabular/treecat.py:377-396 | with the constant rows `__init__` starts from, every pair of the complete graph gets the same logit, so the first spanning tree drawn from them is uniform |
| Posterior.EdgeLogitsAt | pyro/contrib/tabular/treecat.py:388-396 | the logit at pair `(v1, v2)`'s row scores that pair's joint minus the scores of `v1` and `v2` themselves |
| Stats.Decay | pyro/contrib/tabular/treecat.py:325-327 | the decay factor lies in `(0, 1]` |
| Stats.DecayedCountGrowth | pyro/contrib/tabular/treecat.py:320-331 | the updated count stays positive and grows by at most the factor `1 + annealing_rate` |
| Stats.DecayedCountAtMostRows | pyro/contrib/tabular/treecat.py:320-331 | once the count has reached `num_rows` it never exceeds it |
| Stats.DecayEarlyTraining | pyro/contrib/tabular/treecat.py:325-331 | with count 1, a batch of 100 and 10000 rows, annealing wins and the count becomes exactly `1.01` |
| Stats.PairCodeBounds | pyro/contrib/tabular/treecat.py:335 | the joint code `M * a + b` lies in `[0, M * M)` and decodes back to `a` and `b` |
| Stats.PairCodes | pyro/contrib/tabular/treecat.py:335 | each data row's joint code of two vertices is in range and determines both states |
| Stats.JointCodes | pyro/contrib/tabular/treecat.py:335 | `zz` has one row of joint codes per grid pair, built from that pair's two state rows |
| Stats.RowUpdate | pyro/contrib/tabular/treecat.py:330-337 | adding a batch histogram and scaling by `d` keeps a row non-negative and makes it sum to `(count + batch) * d` |
| Stats.ScatterRow | pyro/contrib/tabular/treecat.py:333 | `scatter_add_` into one row adds one unit per occurrence of each code and changes no other row |
| Stats.ScatterTable | pyro/contrib/tabular/treecat.py:333 | `scatter_add_` adds to each row the histogram of its codes |
| Stats.ScaleTable | pyro/contrib/tabular/treecat.py:334 | `*= decay` scales every row |
| Stats.Accumulate | pyro/contrib/tabular/treecat.py:333-337 | scatter then scale: each row becomes `(old + histogram) * d` and all rows sum to the new count |
| Stats.UniformRows | pyro/contrib/tabular/treecat.py:301-303 | a table filled with `1 / width` has non-negative rows summing to 1 |
| Stats.EdgeGuide.constructor | pyro/contrib/tabular/treecat.py:285-303 | one pseudo-observation: count 1, vertex cells `1 / M`, pair cells `1 / M ** 2`, every row summing to the count |
| Stats.EdgeGuide.Update | pyro/contrib/tabular/treecat.py:306-337 | the count becomes `(count + batch) * decay`; each vertex row and each pair row becomes `(old + batch histogram) * decay`; all rows stay non-negative and sum to the new count |
| Stats.EdgeGuide.Absorb | pyro/contrib/tabular/treecat.py:332-337 | both scatters and both decays of `update`, row by row |
| Stats.EdgeGuide.GetPosterior | pyro/contrib/tabular/treecat.py:356-375 | on the current tables: every vertex posterior and every edge posterior (from its own pair's row) is a distribution |
| Stats.EdgeGuide.ComputeEdgeLogits | pyro/contrib/tabular/treecat.py:377-396 | `K` logits; the one of pair `(v1, v2)` is its joint's score minus its two endpoints' scores |
| Tabular.Cell | pyro/contrib/tabular/treecat.py:161-165 | the cell read from the `M x M` joint, transposed or not, is in range |
| Tabular.Conditional | pyro/contrib/tabular/treecat.py:161-165 | `Vindex(joint)[..., a, :]`: entry `b` is the joint's cell `(a, b)`, or `(b, a)` when transposed |
| Tabular.ConditionalCell | pyro/contrib/tabular/treecat.py:161-165 | transposing exactly when `v0 > v` makes the conditional read the cell whose code is (lower-id state, higher-id state), the cell `update` counts into |
| Tabular.Emitted | pyro/contrib/tabular/treecat.py:170-173 | `x[v]` is the observed column, an imputed draw when imputation is on, or unchanged otherwise |
| Tabular.Latent | pyro/contrib/tabular/treecat.py:154-167 | the state drawn for a vertex is below `M` |
| Tabular.TreeCat.constructor | pyro/contrib/tabular/treecat.py:36-56 | requires capacity > 1 and `V - 1` valid rows, defaulting to the path; the object is wired and its edge guide holds one pseudo-observation |
| Tabular.TreeCat.SetEdges | pyro/contrib/tabular/treecat.py:72-86 | the rows are stored here and in the edge guide; the root is the centre; the neighbour sets and the edge index are rebuilt from the rows |
| Tabular.TreeCat.Rebuild | pyro/contrib/tabular/treecat.py:80-86 | the loop yields `NeighborTable` and `EdgeIndexMap` of the rows |
| Tabular.TreeCat.RootedIndex | pyro/contrib/tabular/treecat.py:148-161 | on a rooting at the root, each vertex's neighbours are its parent and children, and `_edge_index[w, parent[w]]` is a row joining them |
| Tabular.TreeCat.Scan | pyro/contrib/tabular/treecat.py:146-152 | the one sampled neighbour is the parent (none at the root), and the unsampled neighbours are exactly the children, without repeats |
| Tabular.TreeCat.Sample | pyro/contrib/tabular/treecat.py:143-173 | `z[v]` gets its drawn state, `x[v]` its emitted value, and nothing else changes |
| Tabular.TreeCat.Propagate | pyro/contrib/tabular/treecat.py:143-177 | exactly the subtree of `v` is sampled, each vertex once, with its drawn state and emitted value; entries outside it are unchanged |
| Tabular.TreeCat.Model | pyro/contrib/tabular/treecat.py:101-141 | requires `V` columns with at least one observed; every vertex gets its drawn state in `_saved_z` and its emitted value in the result |
| Tabular.CoveredOne | pyro/contrib/tabular/treecat.py:166-173 | sampling one vertex covers exactly that vertex |
| Tabular.CoveredCompose | pyro/contrib/tabular/treecat.py:175-177 | sampling disjoint sets one after the other covers their union |
| Tabular.CoveredAll | pyro/contrib/tabular/treecat.py:135-138 | sampling the root's subtree samples every vertex |
| Listing.Reverse | pyro/contrib/tabular/treecat.py:472 | `lines.reverse()`: same length, entry `i` is entry `n - 1 - i`, same members |
| Listing.Descending | pyro/contrib/tabular/treecat.py:463 | `sorted(S, reverse=True)` lists exactly the members of `S` |
| Listing.DescendingSorted | pyro/contrib/tabular/treecat.py:463 | that list is strictly decreasing |
| Listing.AscendingReversed | pyro/contrib/tabular/treecat.py:463 | the descending order reversed is the increasing order |
| Listing.FirstOutsideSpec | pyro/contrib/tabular/treecat.py:463-468 | the inner loop stops at an unseen candidate, and finds none exactly when every candidate is seen |
| Listing.FirstOutsideDescending | pyro/contrib/tabular/treecat.py:463-468 | scanning in decreasing order finds the largest unseen neighbour |
| Listing.NextChild | pyro/contrib/tabular/treecat.py:463-468 | the `for ... break` loop returns the first candidate not in `seen` |
| Printing.ChildrenDown | pyro/contrib/tabular/treecat.py:463 | the walk descends into exactly the children of `v` |
| Printing.ChildrenDownUnique | pyro/contrib/tabular/treecat.py:463 | no child comes twice in the descending order |
| Printing.PreOrder | pyro/contrib/tabular/treecat.py:438-473 | the picture below `v` starts with `v` at its depth, and every line's indent is its vertex's depth |
| Printing.PostOrder | pyro/contrib/tabular/treecat.py:461-471 | the popping order ends with `v` at its depth, and every line's indent is its vertex's depth |
| Printing.PostOrderReverse | pyro/contrib/tabular/treecat.py:472 | the popping order reversed is the pre-order with children in increasing id order |
| Printing.PreOrderCovers | pyro/contrib/tabular/treecat.py:461-473 | the pre-order below `v` names exactly the subtree of `v` |
| Printing.PreOrderDistinct | pyro/contrib/tabular/treecat.py:461-473 | no vertex is printed twice |
| Printing.PreOrderParentsFirst | pyro/contrib/tabular/treecat.py:461-473 | every line after the first names a vertex whose parent is printed earlier |
| Printing.PreOrderWhole | pyro/contrib/tabular/treecat.py:458-473 | from the root, every vertex is printed exactly once, the root first at indent 0 |
| Printing.ChooseNext | pyro/contrib/tabular/treecat.py:463-468 | the first unseen neighbour of the top, in decreasing id order, is its next unfinished child, and there is none once all children are finished |
| Printing.WalkStart | pyro/contrib/tabular/treecat.py:458-460 | `stack = [root]`, `seen = {root}`, no lines: the walk's invariant holds |
| Printing.WalkPush | pyro/contrib/tabular/treecat.py:463-468 | pushing the first unseen neighbour of the top, in decreasing id order, keeps the invariant; that neighbour was unseen, so each vertex is pushed once |
| Printing.WalkPop | pyro/contrib/tabular/treecat.py:469-471 | when the top has no unseen neighbour, popping it keeps the invariant and emits its name with indent `len(stack)` after the pop |
| Printing.LabelReverse | pyro/contrib/tabular/treecat.py:470-472 | naming the lines and reversing them commute |
| Printing.Walk | pyro/contrib/tabular/treecat.py:458-471 | the `while stack` loop emits the names of the post-order from the start vertex, children taken in decreasing id order |
| Printing.IndexOf | pyro/contrib/tabular/treecat.py:458 | `feature_names.index(root)` is the first position holding the name |
| Printing.Render | pyro/contrib/tabular/treecat.py:473 | `"\n".join` of the indented lines; `PrintTree`'s contract states the lines it renders |
| Printing.PrintTree | pyro/contrib/tabular/treecat.py:438-473 | the text pictures the tree from the named root, or without a root from the first vertex carrying the centre's name: pre-order, children in increasing id, each name indented by its depth |

## Left out

- Tensors, devices, `torch.no_grad` and the debug logging in `update` (lines 339-354) are left out. Tables are `array2<real>` and values are exact reals, so floating-point rounding is not modelled.
- `lgamma` is an uninterpreted parameter of `_dirmul_log_prob`. The numerical-stability reshaping is modelled only by its result.
- `pyro.sample`, the Dirichlet draws of `model`, the feature mixtures (`sample_shared`, `sample_group`, `value_dist`) and `poutine.markov` become the `Draws` parameter. That parameter supplies the probability tables and two draw functions. Enumeration and plates are not modelled.
- Tabular.TreeCat.Model: models one data row. `num_rows`, the subsampled `data` plate, batching and the `unsqueeze` of batched probabilities are left out.
- Tabular.TreeCat.Model: takes a rooting of the tree at the root as a ghost witness. `__init__` accepts any `V - 1` valid rows and does not check that they form a tree, and a non-tree input is not modelled.
- Printing.PrintTree: requires the rows to form a tree (`Graph.Tree`, rootable at every vertex). The docstring promises a tree, and the claim that any tree can be re-rooted is not proved. On a non-tree input the source prints a depth-first spanning tree of one component, which is not modelled.
- `make_complete_graph` (pyro/distributions/spanning_tree.py) is not part of this model. `_grid` is specified as `Pairs.CompleteGraph`: the list of pairs that agrees with the row formula `k = v1 + v2 * (v2 - 1) // 2`.
- `guide`, `_feature_guide` (AutoDelta), `sample`, `log_prob`, `impute`, structure learning, `__getstate__`/`__setstate__` and the `edges` getter lie outside the tree core and are left out.
- The `TreeCat` class stores no `features`. `V` stands for `len(features)`.
- `_vertex_prior`/`_edge_prior` are the constants `Posterior.VertexPrior` and `Posterior.EdgePrior`, not stored fields.
- Python's `assert` failures and the division by zero in `update` when `num_rows == 0` become `requires` clauses. `assert self._count_stats > 0` is instead proved always to pass (`EdgeGuide.Valid`).
- pyro/poutine/do_messenger.py is not part of this model.
- Center.FindCenterOfTree: the docstring promises a maximally central vertex. The model proves that the result is the last vertex dequeued, that on a tree every vertex is dequeued exactly once, and that on the default path the result is the middle vertex `V // 2` (`PathCenter.CenterOfPath`). It does not prove minimum eccentricity on every tree.
- Posterior.GetPosterior, Posterior.EdgePosterior, Posterior.GetPosteriorEdge, Stats.EdgeGuide.GetPosterior: these read each edge's statistics from the corrected row `EdgeRowIndex`, not from line 368's formula as written. The two agree on rows stored as `v1 < v2` (`Posterior.EdgeRowIndexOrdered`). On rows stored as `v1 > v2` these members model the intended row, as the finding below explains.
- Graph.Neighbors, Graph.EdgeIndexMap, Center.Detach, Center.Strip, Posterior.DirMulLogProb, Posterior.EdgeRowIndex, Posterior.EdgeRowIndexAsWritten, Printing.Render: these functions carry no `ensures` of their own. Their contracts are the lemmas named in their rows.

## Findings

| source | as written | input that shows it | evidently intended | confidence | as-written member | corrected member |
|---|---|---|---|---|---|---|
| pyro/contrib/tabular/treecat.py:367-369 | `k = v1 + v2 * (v2 - 1) // 2` uses each row in its stored orientation, although the constructor and the setter accept rows in either orientation | `V = 3`, edges `[(2, 0), (0, 1)]`: row `(2, 0)` gets `k = 2`, the pair `(1, 2)`, which the edge does not join; `V = 2`, edges `[(1, 0)]`: `k = 1` lies past the only row `0` | the row of the pair `(min(v1, v2), max(v1, v2))` | not executed | Posterior.ReversedRowMisread | Posterior.EdgeRowIndexJoins, used by Posterior.GetPosterior, Posterior.EdgePosterior, Posterior.GetPosteriorEdge and Stats.EdgeGuide.GetPosterior |
