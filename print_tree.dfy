/**
 * `print_tree`: the text picture of a feature tree. A depth-first walk from the
 * root pushes, at each step, the largest unseen neighbour of the vertex on top
 * of the stack, and pops (emitting the vertex with the stack height as its
 * indent) when there is none. The emitted lines, reversed, are the pre-order of
 * the tree with children in increasing id order, each line indented by its
 * depth; that traversal is `PreOrder` below, and the walk is proved to produce it.
 */
module Listing {
  import opened Basics

  function Reverse<T(!new)>(s: seq<T>): (r: seq<T>)
    ensures |r| == |s|
    ensures forall i :: 0 <= i < |s| ==> r[i] == s[|s| - 1 - i]
  {
    if s == [] then [] else Reverse(s[1..]) + [s[0]]
  }

  lemma ReverseAppend<T(!new)>(a: seq<T>, b: seq<T>)
    ensures Reverse(a + b) == Reverse(b) + Reverse(a)
  {
    assert forall i :: 0 <= i < |a + b| ==> Reverse(a + b)[i] == (Reverse(b) + Reverse(a))[i];
  }

  /** `sorted(S, reverse=True)` for a set of vertices below `n`. */
  function Descending(S: set<nat>, n: nat): (d: seq<nat>)
    ensures forall x :: x in d <==> x in S && x < n
  {
    if n == 0 then [] else (if n - 1 in S then [n - 1] else []) + Descending(S, n - 1)
  }

  /** The order is strictly decreasing. */
  lemma {:induction false} DescendingSorted(S: set<nat>, n: nat)
    ensures forall i :: 0 <= i < |Descending(S, n)| ==> Descending(S, n)[i] < n
    ensures forall i, j :: 0 <= i < j < |Descending(S, n)| ==> Descending(S, n)[i] > Descending(S, n)[j]
  {
    if n > 0 {
      DescendingSorted(S, n - 1);
      DescendingStep(S, n);
    }
  }

  /** `sorted(S)` for a set of vertices below `n`. */
  function Ascending(S: set<nat>, n: nat): (a: seq<nat>)
    ensures forall x :: x in a <==> x in S && x < n
    ensures forall i :: 0 <= i < |a| ==> a[i] < n
    ensures forall i, j :: 0 <= i < j < |a| ==> a[i] < a[j]
  {
    if n == 0 then [] else Ascending(S, n - 1) + (if n - 1 in S then [n - 1] else [])
  }

  /** The two sort orders are each other's reverse. */
  lemma {:induction false} AscendingReversed(S: set<nat>, n: nat)
    ensures Reverse(Descending(S, n)) == Ascending(S, n)
  {
    if n > 0 {
      var top: seq<nat> := if n - 1 in S then [n - 1] else [];
      var rest := Descending(S, n - 1);
      assert Descending(S, n) == top + rest;
      assert Ascending(S, n) == Ascending(S, n - 1) + top;
      AscendingReversed(S, n - 1);
      ReverseAppend(top, rest);
      assert Reverse(top) == top;
    }
  }

  /** The first candidate not in `seen`: what the `for ... if neighbor not in seen: ... break` loop stops at. */
  function FirstOutside(cands: seq<nat>, seen: set<nat>): Option<nat>
  {
    if cands == [] then None
    else if cands[0] !in seen then Some(cands[0])
    else FirstOutside(cands[1..], seen)
  }

  function Head(s: seq<nat>): Option<nat>
  {
    if s == [] then None else Some(s[0])
  }

  /** It is a candidate outside `seen`, and there is none exactly when every candidate is in `seen`. */
  lemma {:induction false} FirstOutsideSpec(cands: seq<nat>, seen: set<nat>)
    ensures FirstOutside(cands, seen).Some? ==>
      FirstOutside(cands, seen).value in cands && FirstOutside(cands, seen).value !in seen
    ensures FirstOutside(cands, seen).None? <==> forall c :: c in cands ==> c in seen
  {
    if cands != [] && cands[0] in seen {
      FirstOutsideSpec(cands[1..], seen);
      assert forall c :: c in cands ==> c == cands[0] || c in cands[1..];
    }
  }

  lemma DescendingStep(S: set<nat>, n: nat)
    requires n > 0
    ensures Descending(S, n) == (if n - 1 in S then [n - 1] else []) + Descending(S, n - 1)
  {
  }

  lemma FirstOutsideCons(x: nat, rest: seq<nat>, seen: set<nat>)
    ensures FirstOutside([x] + rest, seen) == if x in seen then FirstOutside(rest, seen) else Some(x)
  {
    assert ([x] + rest)[1..] == rest;
  }

  /** Scanning the candidates in decreasing order finds the largest one outside `seen`. */
  lemma {:induction false} FirstOutsideDescending(S: set<nat>, n: nat, seen: set<nat>)
    ensures FirstOutside(Descending(S, n), seen) == Head(Descending(S - seen, n))
  {
    if n > 0 {
      FirstOutsideDescending(S, n - 1, seen);
      DescendingStep(S, n);
      DescendingStep(S - seen, n);
      var e := Descending(S - seen, n - 1);
      if n - 1 !in S {
        assert [] + Descending(S, n - 1) == Descending(S, n - 1);
        assert [] + e == e;
      } else {
        FirstOutsideCons(n - 1, Descending(S, n - 1), seen);
        if n - 1 in seen {
          assert [] + e == e;
        } else {
          assert ([n - 1] + e)[0] == n - 1;
        }
      }
    }
  }

  lemma HeadIn(d: seq<nat>)
    ensures d != [] ==> d[0] in d
  {
  }

  /**
   * If the members of `S` outside `seen` are the entries of the strictly
   * decreasing `down` from position `p` on, the largest of them is `down[p]`.
   */
  lemma HeadUnfinished(S: set<nat>, seen: set<nat>, n: nat, down: seq<nat>, p: nat)
    requires p <= |down|
    requires forall i, j :: 0 <= i < j < |down| ==> down[i] > down[j]
    requires forall i :: 0 <= i < |down| ==> down[i] < n && down[i] in S
    requires forall u :: u in S ==> (u !in seen <==> u in down && u !in down[..p])
    ensures Head(Descending(S - seen, n)) == if p < |down| then Some(down[p]) else None
  {
    var d := Descending(S - seen, n);
    DescendingSorted(S - seen, n);
    if p < |down| {
      var x := down[p];
      assert x in down && x !in down[..p];
      assert x in d;
      var h := d[0];
      assert h in d;
      var j :| 0 <= j < |down| && down[j] == h;
      var m :| 0 <= m < |d| && d[m] == x;
    } else {
      assert down[..p] == down;
      assert forall u :: u in S ==> u in seen;
      HeadIn(d);
    }
  }

  /** The inner `for` loop of the walk: the first candidate not yet seen, if any. */
  method NextChild(cands: seq<nat>, seen: set<nat>) returns (next: Option<nat>)
    ensures next == FirstOutside(cands, seen)
  {
    var i := 0;
    while i < |cands|
      invariant i <= |cands|
      invariant FirstOutside(cands, seen) == FirstOutside(cands[i..], seen)
    {
      if cands[i] !in seen {
        return Some(cands[i]);
      }
      assert cands[i..][1..] == cands[i + 1..];
      i := i + 1;
    }
    return None;
  }
}

module Printing {
  import opened Basics
  import opened Graph
  import opened Center
  import opened Listing

  /** The children of `v`, in increasing id order. */
  function ChildrenUp(V: nat, root: nat, parent: seq<nat>, v: nat): (cs: seq<nat>)
    requires |parent| == V
    ensures forall c :: c in cs <==> c in Children(V, root, parent, v)
  {
    Ascending(Children(V, root, parent, v), V)
  }

  /** The children of `v`, in decreasing id order: the order in which the walk descends into them. */
  function ChildrenDown(V: nat, root: nat, parent: seq<nat>, v: nat): (cs: seq<nat>)
    requires |parent| == V
    ensures forall c :: c in cs <==> c in Children(V, root, parent, v)
  {
    Descending(Children(V, root, parent, v), V)
  }

  /** No child of `v` comes twice in the descending order. */
  lemma ChildrenDownUnique(V: nat, root: nat, parent: seq<nat>, v: nat, p: nat)
    requires |parent| == V && p < |ChildrenDown(V, root, parent, v)|
    ensures ChildrenDown(V, root, parent, v)[p] !in ChildrenDown(V, root, parent, v)[..p]
  {
    DescendingSorted(Children(V, root, parent, v), V);
  }

  /**
   * The printed tree below `v` as `(indent, vertex)` lines: `v` at its depth,
   * then the subtrees of its children in increasing id order.
   */
  function PreOrder(V: nat, root: nat, parent: seq<nat>, depth: seq<nat>, v: nat): (p: seq<(nat, nat)>)
    requires ParentLinks(V, root, parent, depth) && v < V
    ensures p != [] && p[0] == (depth[v], v)
    ensures forall i :: 0 <= i < |p| ==> p[i].1 < V && p[i].0 == depth[p[i].1]
    decreases V - depth[v], 1
  {
    [(depth[v], v)] + PreForest(V, root, parent, depth, v, ChildrenUp(V, root, parent, v))
  }

  /** The pre-orders of the subtrees of the children `cs` of `v`, one after another. */
  function PreForest(V: nat, root: nat, parent: seq<nat>, depth: seq<nat>, v: nat, cs: seq<nat>): (p: seq<(nat, nat)>)
    requires ParentLinks(V, root, parent, depth) && v < V
    requires forall c :: c in cs ==> c in Children(V, root, parent, v)
    ensures forall i :: 0 <= i < |p| ==> p[i].1 < V && p[i].0 == depth[p[i].1]
    decreases V - depth[v], 0, |cs|
  {
    if cs == [] then []
    else
      var c := cs[|cs| - 1];
      assert c in cs;
      assert c in Children(V, root, parent, v);
      assert Linked(V, root, parent, depth, c);
      PreForest(V, root, parent, depth, v, cs[..|cs| - 1]) + PreOrder(V, root, parent, depth, c)
  }

  /**
   * The lines in the order the walk pops them: the subtrees of the children of
   * `v` in decreasing id order, then `v` at its depth.
   */
  function PostOrder(V: nat, root: nat, parent: seq<nat>, depth: seq<nat>, v: nat): (p: seq<(nat, nat)>)
    requires ParentLinks(V, root, parent, depth) && v < V
    ensures p != [] && p[|p| - 1] == (depth[v], v)
    ensures forall i :: 0 <= i < |p| ==> p[i].1 < V && p[i].0 == depth[p[i].1]
    decreases V - depth[v], 1
  {
    var f := PostForest(V, root, parent, depth, v, ChildrenDown(V, root, parent, v));
    assert forall i :: 0 <= i < |f| ==> (f + [(depth[v], v)])[i] == f[i];
    f + [(depth[v], v)]
  }

  function PostForest(V: nat, root: nat, parent: seq<nat>, depth: seq<nat>, v: nat, cs: seq<nat>): (p: seq<(nat, nat)>)
    requires ParentLinks(V, root, parent, depth) && v < V
    requires forall c :: c in cs ==> c in Children(V, root, parent, v)
    ensures forall i :: 0 <= i < |p| ==> p[i].1 < V && p[i].0 == depth[p[i].1]
    decreases V - depth[v], 0, |cs|
  {
    if cs == [] then []
    else
      var c := cs[|cs| - 1];
      assert c in cs;
      assert c in Children(V, root, parent, v);
      assert Linked(V, root, parent, depth, c);
      PostForest(V, root, parent, depth, v, cs[..|cs| - 1]) + PostOrder(V, root, parent, depth, c)
  }

  /** Listing one more child first lists its subtree first. */
  lemma {:induction false} PreForestCons(V: nat, root: nat, parent: seq<nat>, depth: seq<nat>, v: nat, c: nat, cs: seq<nat>)
    requires ParentLinks(V, root, parent, depth) && v < V
    requires c in Children(V, root, parent, v)
    requires forall c :: c in cs ==> c in Children(V, root, parent, v)
    ensures PreForest(V, root, parent, depth, v, [c] + cs)
         == PreOrder(V, root, parent, depth, c) + PreForest(V, root, parent, depth, v, cs)
    decreases |cs|
  {
    assert Linked(V, root, parent, depth, c);
    if cs == [] {
      assert [c] + cs == [c] && [c][..0] == [];
    } else {
      var init := cs[..|cs| - 1];
      assert ([c] + cs)[..|cs|] == [c] + init;
      PreForestCons(V, root, parent, depth, v, c, init);
    }
  }

  /** Popping order reversed is printing order. */
  lemma {:induction false} PostOrderReverse(V: nat, root: nat, parent: seq<nat>, depth: seq<nat>, v: nat)
    requires ParentLinks(V, root, parent, depth) && v < V
    ensures Reverse(PostOrder(V, root, parent, depth, v)) == PreOrder(V, root, parent, depth, v)
    decreases V - depth[v], 1
  {
    var down := ChildrenDown(V, root, parent, v);
    PostForestReverse(V, root, parent, depth, v, down);
    ReverseAppend(PostForest(V, root, parent, depth, v, down), [(depth[v], v)]);
    AscendingReversed(Children(V, root, parent, v), V);
  }

  lemma {:induction false} PostForestReverse(V: nat, root: nat, parent: seq<nat>, depth: seq<nat>, v: nat, cs: seq<nat>)
    requires ParentLinks(V, root, parent, depth) && v < V
    requires forall c :: c in cs ==> c in Children(V, root, parent, v)
    ensures Reverse(PostForest(V, root, parent, depth, v, cs)) == PreForest(V, root, parent, depth, v, Reverse(cs))
    decreases V - depth[v], 0, |cs|
  {
    if cs != [] {
      var init, c := cs[..|cs| - 1], cs[|cs| - 1];
      assert c in cs && c in Children(V, root, parent, v);
      assert Linked(V, root, parent, depth, c);
      assert init + [c] == cs;
      PostForestReverse(V, root, parent, depth, v, init);
      PostOrderReverse(V, root, parent, depth, c);
      ReverseAppend(PostForest(V, root, parent, depth, v, init), PostOrder(V, root, parent, depth, c));
      ReverseAppend(init, [c]);
      assert Reverse([c]) == [c];
      PreForestCons(V, root, parent, depth, v, c, Reverse(init));
    }
  }

  /** The vertices named by some line. */
  function Vertices(p: seq<(nat, nat)>): set<nat>
  {
    set i | 0 <= i < |p| :: p[i].1
  }

  lemma VerticesAppend(a: seq<(nat, nat)>, b: seq<(nat, nat)>)
    ensures Vertices(a + b) == Vertices(a) + Vertices(b)
  {
    forall u | u in Vertices(a + b) ensures u in Vertices(a) + Vertices(b) {
      var i :| 0 <= i < |a + b| && (a + b)[i].1 == u;
      if i >= |a| {
        assert b[i - |a|].1 == u;
      }
    }
    forall u | u in Vertices(a) ensures u in Vertices(a + b) {
      var i :| 0 <= i < |a| && a[i].1 == u;
      assert (a + b)[i].1 == u;
    }
    forall u | u in Vertices(b) ensures u in Vertices(a + b) {
      var i :| 0 <= i < |b| && b[i].1 == u;
      assert (a + b)[|a| + i].1 == u;
    }
  }

  /** No vertex is named twice. */
  predicate Distinct(p: seq<(nat, nat)>)
  {
    forall i, j :: 0 <= i < j < |p| ==> p[i].1 != p[j].1
  }

  lemma DistinctAppend(a: seq<(nat, nat)>, b: seq<(nat, nat)>)
    requires Distinct(a) && Distinct(b) && Vertices(a) !! Vertices(b)
    ensures Distinct(a + b)
  {
    forall i, j | 0 <= i < |a| <= j < |a| + |b| ensures (a + b)[i].1 != (a + b)[j].1 {
      assert a[i].1 in Vertices(a);
      assert b[j - |a|].1 in Vertices(b);
    }
  }

  /* ---------------- What the printed tree shows ---------------- */

  /** The pre-order below `v` names exactly the subtree of `v`. */
  lemma {:induction false} PreOrderCovers(V: nat, root: nat, parent: seq<nat>, depth: seq<nat>, v: nat)
    requires ParentLinks(V, root, parent, depth) && v < V
    ensures Vertices(PreOrder(V, root, parent, depth, v)) == Subtree(V, root, parent, depth, v)
    decreases V - depth[v], 1
  {
    var cs := ChildrenUp(V, root, parent, v);
    PreForestCovers(V, root, parent, depth, v, cs);
    VerticesAppend([(depth[v], v)], PreForest(V, root, parent, depth, v, cs));
    assert [(depth[v], v)][0].1 == v;
    assert Vertices([(depth[v], v)]) == {v};
    ExploredAll(V, root, parent, depth, v, cs);
  }

  /** The forest of the distinct children `cs` of `v` names `v`'s subtree explored through `cs`, less `v`. */
  lemma {:induction false} PreForestCovers(V: nat, root: nat, parent: seq<nat>, depth: seq<nat>, v: nat, cs: seq<nat>)
    requires ParentLinks(V, root, parent, depth) && v < V
    requires forall c :: c in cs ==> c in Children(V, root, parent, v)
    requires forall i, j :: 0 <= i < j < |cs| ==> cs[i] != cs[j]
    ensures Vertices(PreForest(V, root, parent, depth, v, cs)) + {v} == Explored(V, root, parent, depth, v, cs)
    ensures v !in Vertices(PreForest(V, root, parent, depth, v, cs))
    decreases V - depth[v], 0, |cs|
  {
    if cs == [] {
      ExploredStart(V, root, parent, depth, v);
    } else {
      var init, c := cs[..|cs| - 1], cs[|cs| - 1];
      assert c in cs && c in Children(V, root, parent, v);
      assert Linked(V, root, parent, depth, c);
      assert init + [c] == cs;
      PreForestCovers(V, root, parent, depth, v, init);
      PreOrderCovers(V, root, parent, depth, c);
      ExploredStep(V, root, parent, depth, v, init, c);
      VerticesAppend(PreForest(V, root, parent, depth, v, init), PreOrder(V, root, parent, depth, c));
    }
  }

  /** The lines with each vertex replaced by its feature name. */
  function Label(names: seq<string>, p: seq<(nat, nat)>): seq<(nat, string)>
    requires forall i :: 0 <= i < |p| ==> p[i].1 < |names|
  {
    seq(|p|, i requires 0 <= i < |p| => (p[i].0, names[p[i].1]))
  }

  /** `"  " * i`. */
  function Indent(i: nat): string
  {
    if i == 0 then "" else "  " + Indent(i - 1)
  }

  /** `"\n".join("{}{}".format("  " * i, n) for i, n in lines)`. */
  function Render(lines: seq<(nat, string)>): string
  {
    if lines == [] then ""
    else if |lines| == 1 then Indent(lines[0].0) + lines[0].1
    else Indent(lines[0].0) + lines[0].1 + "\n" + Render(lines[1..])
  }

  /** No vertex is printed twice below `v`. */
  lemma {:induction false} PreOrderDistinct(V: nat, root: nat, parent: seq<nat>, depth: seq<nat>, v: nat)
    requires ParentLinks(V, root, parent, depth) && v < V
    ensures Distinct(PreOrder(V, root, parent, depth, v))
    decreases V - depth[v], 1
  {
    var cs := ChildrenUp(V, root, parent, v);
    var f := PreForest(V, root, parent, depth, v, cs);
    PreForestDistinct(V, root, parent, depth, v, cs);
    PreForestCovers(V, root, parent, depth, v, cs);
    assert [(depth[v], v)][0].1 == v;
    assert Vertices([(depth[v], v)]) == {v};
    DistinctAppend([(depth[v], v)], f);
  }

  lemma {:induction false} PreForestDistinct(V: nat, root: nat, parent: seq<nat>, depth: seq<nat>, v: nat, cs: seq<nat>)
    requires ParentLinks(V, root, parent, depth) && v < V
    requires forall c :: c in cs ==> c in Children(V, root, parent, v)
    requires forall i, j :: 0 <= i < j < |cs| ==> cs[i] != cs[j]
    ensures Distinct(PreForest(V, root, parent, depth, v, cs))
    decreases V - depth[v], 0, |cs|
  {
    if cs != [] {
      var init, c := cs[..|cs| - 1], cs[|cs| - 1];
      assert c in cs && c in Children(V, root, parent, v);
      assert Linked(V, root, parent, depth, c);
      assert init + [c] == cs;
      PreForestDistinct(V, root, parent, depth, v, init);
      PreOrderDistinct(V, root, parent, depth, c);
      PreForestCovers(V, root, parent, depth, v, init);
      PreOrderCovers(V, root, parent, depth, c);
      ExploredStep(V, root, parent, depth, v, init, c);
      DistinctAppend(PreForest(V, root, parent, depth, v, init), PreOrder(V, root, parent, depth, c));
    }
  }

  /** Vertex `u` is named on one of the first `j` lines. */
  predicate Earlier(p: seq<(nat, nat)>, j: nat, u: nat)
  {
    exists i :: 0 <= i < j && i < |p| && p[i].1 == u
  }

  /**
   * Every line after the first names a non-root vertex whose parent was
   * printed on an earlier line.
   */
  lemma {:induction false} PreOrderParentsFirst(V: nat, root: nat, parent: seq<nat>, depth: seq<nat>, v: nat)
    requires ParentLinks(V, root, parent, depth) && v < V
    ensures forall j :: 0 < j < |PreOrder(V, root, parent, depth, v)| ==>
      PreOrder(V, root, parent, depth, v)[j].1 != root &&
      Earlier(PreOrder(V, root, parent, depth, v), j, parent[PreOrder(V, root, parent, depth, v)[j].1])
    decreases V - depth[v], 1
  {
    var p := PreOrder(V, root, parent, depth, v);
    var f := PreForest(V, root, parent, depth, v, ChildrenUp(V, root, parent, v));
    PreForestParentsFirst(V, root, parent, depth, v, ChildrenUp(V, root, parent, v));
    forall j | 0 < j < |p| ensures p[j].1 != root && Earlier(p, j, parent[p[j].1]) {
      assert p[j] == f[j - 1];
      if parent[f[j - 1].1] == v {
        assert p[0].1 == parent[p[j].1];
      } else {
        assert Earlier(f, j - 1, parent[f[j - 1].1]);
        var i :| 0 <= i < j - 1 && i < |f| && f[i].1 == parent[f[j - 1].1];
        assert p[i + 1].1 == parent[p[j].1];
      }
    }
  }

  lemma {:induction false} PreForestParentsFirst(V: nat, root: nat, parent: seq<nat>, depth: seq<nat>, v: nat, cs: seq<nat>)
    requires ParentLinks(V, root, parent, depth) && v < V
    requires forall c :: c in cs ==> c in Children(V, root, parent, v)
    ensures forall j :: 0 <= j < |PreForest(V, root, parent, depth, v, cs)| ==>
      PreForest(V, root, parent, depth, v, cs)[j].1 != root &&
      (parent[PreForest(V, root, parent, depth, v, cs)[j].1] == v ||
       Earlier(PreForest(V, root, parent, depth, v, cs), j, parent[PreForest(V, root, parent, depth, v, cs)[j].1]))
    decreases V - depth[v], 0, |cs|
  {
    if cs != [] {
      var init, c := cs[..|cs| - 1], cs[|cs| - 1];
      assert c in cs && c in Children(V, root, parent, v);
      assert Linked(V, root, parent, depth, c);
      var f, q := PreForest(V, root, parent, depth, v, init), PreOrder(V, root, parent, depth, c);
      var p := PreForest(V, root, parent, depth, v, cs);
      assert p == f + q;
      PreForestParentsFirst(V, root, parent, depth, v, init);
      PreOrderParentsFirst(V, root, parent, depth, c);
      forall j | 0 <= j < |p|
        ensures p[j].1 != root && (parent[p[j].1] == v || Earlier(p, j, parent[p[j].1]))
      {
        if j < |f| {
          assert p[j] == f[j];
          if parent[f[j].1] != v {
            assert Earlier(f, j, parent[f[j].1]);
            var i :| 0 <= i < j && i < |f| && f[i].1 == parent[f[j].1];
            assert p[i] == f[i];
          }
        } else if j == |f| {
          assert p[j] == q[0];
        } else {
          var k := j - |f|;
          assert p[j] == q[k];
          assert Earlier(q, k, parent[q[k].1]);
          var i :| 0 <= i < k && i < |q| && q[i].1 == parent[q[k].1];
          assert p[|f| + i] == q[i];
        }
      }
    }
  }

  /* ---------------- The walk ---------------- */

  /** A stack frame: vertex `v` at depth `i`, its first `p` children in decreasing id order finished. */
  predicate Frame(V: nat, root: nat, parent: seq<nat>, depth: seq<nat>, v: nat, i: nat, p: nat)
    requires ParentLinks(V, root, parent, depth)
  {
    v < V && depth[v] == i && p <= |ChildrenDown(V, root, parent, v)|
  }

  /** Below the top, the frame of `s` is working on `c`, its child at position `p` in decreasing id order. */
  predicate Working(V: nat, root: nat, parent: seq<nat>, s: nat, p: nat, c: nat)
    requires |parent| == V
  {
    p < |ChildrenDown(V, root, parent, s)| && ChildrenDown(V, root, parent, s)[p] == c
  }

  /**
   * The walk's stack, frame by frame: `stack[i]` sits at depth `i`, the first
   * `pos[i]` of its children in decreasing id order are finished, and below
   * the top the next one, `stack[i + 1]`, is in progress.
   */
  predicate Path(V: nat, root: nat, parent: seq<nat>, depth: seq<nat>, stack: seq<nat>, pos: seq<nat>)
    requires ParentLinks(V, root, parent, depth)
    decreases |stack|
  {
    && |pos| == |stack|
    && (stack != [] ==>
          var k := |stack| - 1;
          && Path(V, root, parent, depth, stack[..k], pos[..k])
          && Frame(V, root, parent, depth, stack[k], k, pos[k])
          && (k > 0 ==> Working(V, root, parent, stack[k - 1], pos[k - 1], stack[k])))
  }

  lemma {:induction false} PathPrefix(V: nat, root: nat, parent: seq<nat>, depth: seq<nat>, stack: seq<nat>, pos: seq<nat>, m: nat)
    requires ParentLinks(V, root, parent, depth) && Path(V, root, parent, depth, stack, pos) && m <= |stack|
    ensures Path(V, root, parent, depth, stack[..m], pos[..m])
    decreases |stack|
  {
    if m < |stack| {
      var k := |stack| - 1;
      PathPrefix(V, root, parent, depth, stack[..k], pos[..k], m);
      assert stack[..k][..m] == stack[..m] && pos[..k][..m] == pos[..m];
    } else {
      assert stack[..m] == stack && pos[..m] == pos;
    }
  }

  /** Each stack vertex is in range and sits at its own height. */
  lemma PathAt(V: nat, root: nat, parent: seq<nat>, depth: seq<nat>, stack: seq<nat>, pos: seq<nat>, i: nat)
    requires ParentLinks(V, root, parent, depth) && Path(V, root, parent, depth, stack, pos) && i < |stack|
    ensures Frame(V, root, parent, depth, stack[i], i, pos[i])
    ensures stack[i] < V && depth[stack[i]] == i && pos[i] <= |ChildrenDown(V, root, parent, stack[i])|
  {
    PathPrefix(V, root, parent, depth, stack, pos, i + 1);
    assert stack[..i + 1][i] == stack[i] && pos[..i + 1][i] == pos[i];
  }

  /** Each stack vertex but the top is working on the child above it. */
  lemma PathStep(V: nat, root: nat, parent: seq<nat>, depth: seq<nat>, stack: seq<nat>, pos: seq<nat>, i: nat)
    requires ParentLinks(V, root, parent, depth) && Path(V, root, parent, depth, stack, pos) && i + 1 < |stack|
    ensures Working(V, root, parent, stack[i], pos[i], stack[i + 1])
    ensures stack[i] < V && stack[i + 1] in Children(V, root, parent, stack[i])
  {
    PathPrefix(V, root, parent, depth, stack, pos, i + 2);
    assert stack[..i + 2][..i + 1] == stack[..i + 1] && pos[..i + 2][..i + 1] == pos[..i + 1];
    assert stack[..i + 2][i] == stack[i] && stack[..i + 2][i + 1] == stack[i + 1] && pos[..i + 2][i] == pos[i];
    PathAt(V, root, parent, depth, stack, pos, i);
    var down := ChildrenDown(V, root, parent, stack[i]);
    assert down[pos[i]] in down;
  }

  /** Pushing a frame that the old top is working on. */
  lemma PathPush(V: nat, root: nat, parent: seq<nat>, depth: seq<nat>, stack: seq<nat>, pos: seq<nat>, x: nat, p: nat)
    requires ParentLinks(V, root, parent, depth) && Path(V, root, parent, depth, stack, pos)
    requires Frame(V, root, parent, depth, x, |stack|, p)
    requires stack != [] ==> Working(V, root, parent, stack[|stack| - 1], pos[|stack| - 1], x)
    ensures Path(V, root, parent, depth, stack + [x], pos + [p])
  {
    assert (stack + [x])[..|stack|] == stack && (pos + [p])[..|stack|] == pos;
  }

  /** The vertices the walk has seen: each stack vertex and the subtrees of its finished children. */
  ghost function Visited(V: nat, root: nat, parent: seq<nat>, depth: seq<nat>, stack: seq<nat>, pos: seq<nat>): set<nat>
    requires ParentLinks(V, root, parent, depth) && Path(V, root, parent, depth, stack, pos)
    decreases |stack|
  {
    if stack == [] then {}
    else
      var k := |stack| - 1;
      Visited(V, root, parent, depth, stack[..k], pos[..k])
        + Explored(V, root, parent, depth, stack[k], ChildrenDown(V, root, parent, stack[k])[..pos[k]])
  }

  /** The lines the walk has popped: for each stack vertex, the post-orders of its finished children. */
  function Pending(V: nat, root: nat, parent: seq<nat>, depth: seq<nat>, stack: seq<nat>, pos: seq<nat>): (p: seq<(nat, nat)>)
    requires ParentLinks(V, root, parent, depth) && Path(V, root, parent, depth, stack, pos)
    ensures forall i :: 0 <= i < |p| ==> p[i].1 < V
    decreases |stack|
  {
    if stack == [] then []
    else
      var k := |stack| - 1;
      var done := ChildrenDown(V, root, parent, stack[k])[..pos[k]];
      assert forall c :: c in done ==> c in ChildrenDown(V, root, parent, stack[k]);
      Pending(V, root, parent, depth, stack[..k], pos[..k]) + PostForest(V, root, parent, depth, stack[k], done)
  }

  /** A vertex strictly below the top, on a branch the top has not finished, is unseen. */
  lemma {:induction false} NotVisited(V: nat, root: nat, parent: seq<nat>, depth: seq<nat>, stack: seq<nat>, pos: seq<nat>, u: nat)
    requires ParentLinks(V, root, parent, depth) && Path(V, root, parent, depth, stack, pos) && stack != []
    requires u < V && Below(V, root, parent, depth, u, stack[|stack| - 1]) && u != stack[|stack| - 1]
    requires Branch(V, root, parent, depth, u, stack[|stack| - 1])
             !in ChildrenDown(V, root, parent, stack[|stack| - 1])[..pos[|stack| - 1]]
    ensures u !in Visited(V, root, parent, depth, stack, pos)
    decreases |stack|
  {
    var k := |stack| - 1;
    if k > 0 {
      var top, s := stack[k], stack[k - 1];
      PathStep(V, root, parent, depth, stack, pos, k - 1);
      BelowChild(V, root, parent, depth, u, top);
      ChildrenDownUnique(V, root, parent, s, pos[k - 1]);
      assert stack[..k][k - 1] == s && pos[..k][k - 1] == pos[k - 1];
      NotVisited(V, root, parent, depth, stack[..k], pos[..k], u);
    }
  }

  /** A child of the top is unseen exactly when it is not yet finished. */
  lemma SeenChild(V: nat, root: nat, parent: seq<nat>, depth: seq<nat>, stack: seq<nat>, pos: seq<nat>, u: nat)
    requires ParentLinks(V, root, parent, depth) && Path(V, root, parent, depth, stack, pos) && stack != []
    requires u in Children(V, root, parent, stack[|stack| - 1])
    ensures var down := ChildrenDown(V, root, parent, stack[|stack| - 1]);
      u !in Visited(V, root, parent, depth, stack, pos) <==> u !in down[..pos[|stack| - 1]]
  {
    var k := |stack| - 1;
    var top := stack[k];
    var done := ChildrenDown(V, root, parent, top)[..pos[k]];
    BelowParent(V, root, parent, depth, u);
    assert Linked(V, root, parent, depth, u);
    assert Branch(V, root, parent, depth, u, top) == u;
    if u !in done {
      NotVisited(V, root, parent, depth, stack, pos, u);
    } else {
      assert u in Explored(V, root, parent, depth, top, done);
    }
  }

  /** The parent of the top lies on the stack, so it has been seen. */
  lemma SeenParent(V: nat, root: nat, parent: seq<nat>, depth: seq<nat>, stack: seq<nat>, pos: seq<nat>)
    requires ParentLinks(V, root, parent, depth) && Path(V, root, parent, depth, stack, pos) && stack != []
    requires stack[|stack| - 1] != root
    ensures parent[stack[|stack| - 1]] in Visited(V, root, parent, depth, stack, pos)
  {
    var k := |stack| - 1;
    var top := stack[k];
    PathAt(V, root, parent, depth, stack, pos, k);
    if k == 0 {
      DepthZeroIsRoot(V, root, parent, depth, top);
    }
    var s := stack[k - 1];
    PathStep(V, root, parent, depth, stack, pos, k - 1);
    PathAt(V, root, parent, depth, stack, pos, k - 1);
    assert Below(V, root, parent, depth, s, s);
    assert s in Explored(V, root, parent, depth, s, ChildrenDown(V, root, parent, s)[..pos[k - 1]]);
    assert stack[..k][k - 1] == s && pos[..k][k - 1] == pos[k - 1];
    assert s in Visited(V, root, parent, depth, stack[..k], pos[..k]);
  }

  /**
   * The first unseen neighbour of the top, scanning in decreasing id order,
   * is its next unfinished child; there is none once every child is finished.
   */
  lemma ChooseNext(V: nat, root: nat, parent: seq<nat>, depth: seq<nat>, stack: seq<nat>, pos: seq<nat>, fam: set<nat>)
    requires ParentLinks(V, root, parent, depth) && Path(V, root, parent, depth, stack, pos) && stack != []
    requires fam == Family(V, root, parent, stack[|stack| - 1])
    ensures var down := ChildrenDown(V, root, parent, stack[|stack| - 1]);
      FirstOutside(Descending(fam, V), Visited(V, root, parent, depth, stack, pos))
      == if pos[|stack| - 1] < |down| then Some(down[pos[|stack| - 1]]) else None
  {
    var k := |stack| - 1;
    var seen := Visited(V, root, parent, depth, stack, pos);
    var down := ChildrenDown(V, root, parent, stack[k]);
    forall u | u in fam ensures u !in seen <==> u in down && u !in down[..pos[k]] {
      if u in Children(V, root, parent, stack[k]) {
        SeenChild(V, root, parent, depth, stack, pos, u);
      } else {
        SeenParent(V, root, parent, depth, stack, pos);
      }
    }
    FirstOutsideDescending(fam, V, seen);
    DescendingSorted(Children(V, root, parent, stack[k]), V);
    HeadUnfinished(fam, seen, V, down, pos[k]);
  }

  /** Pushing the next unfinished child `x` of the top. */
  lemma Descend(V: nat, root: nat, parent: seq<nat>, depth: seq<nat>, stack: seq<nat>, pos: seq<nat>)
    requires ParentLinks(V, root, parent, depth) && Path(V, root, parent, depth, stack, pos) && stack != []
    requires pos[|stack| - 1] < |ChildrenDown(V, root, parent, stack[|stack| - 1])|
    ensures var x := ChildrenDown(V, root, parent, stack[|stack| - 1])[pos[|stack| - 1]];
      && x < V
      && Path(V, root, parent, depth, stack + [x], pos + [0])
      && Visited(V, root, parent, depth, stack + [x], pos + [0]) == Visited(V, root, parent, depth, stack, pos) + {x}
      && Pending(V, root, parent, depth, stack + [x], pos + [0]) == Pending(V, root, parent, depth, stack, pos)
  {
    var k := |stack| - 1;
    var down := ChildrenDown(V, root, parent, stack[k]);
    var x := down[pos[k]];
    PathAt(V, root, parent, depth, stack, pos, k);
    assert x in down && x in Children(V, root, parent, stack[k]);
    assert Linked(V, root, parent, depth, x);
    PathPush(V, root, parent, depth, stack, pos, x, 0);
    var stack', pos' := stack + [x], pos + [0];
    assert stack'[..k + 1] == stack && pos'[..k + 1] == pos;
    ExploredStart(V, root, parent, depth, x);
    assert ChildrenDown(V, root, parent, x)[..0] == [];
  }

  /** The stack seen one frame shorter, and with the frame below the top one child further on. */
  lemma PopFrames(stack: seq<nat>, pos: seq<nat>)
    requires |stack| == |pos| > 1
    ensures var k := |stack| - 1;
      var pos' := pos[..k - 1] + [pos[k - 1] + 1];
      && |pos'| == k && stack[..k] == stack[..k - 1] + [stack[k - 1]]
      && stack[..k][..k - 1] == stack[..k - 1] && stack[..k][k - 1] == stack[k - 1]
      && pos[..k][..k - 1] == pos[..k - 1] && pos'[..k - 1] == pos[..k - 1] && pos'[k - 1] == pos[k - 1] + 1
  {
  }

  /** After popping, the frame below the finished top has one more finished child. */
  lemma AscendPath(V: nat, root: nat, parent: seq<nat>, depth: seq<nat>, stack: seq<nat>, pos: seq<nat>)
    requires ParentLinks(V, root, parent, depth) && Path(V, root, parent, depth, stack, pos) && |stack| > 1
    ensures var k := |stack| - 1; Path(V, root, parent, depth, stack[..k], pos[..k - 1] + [pos[k - 1] + 1])
  {
    var k := |stack| - 1;
    var s := stack[k - 1];
    PopFrames(stack, pos);
    PathPrefix(V, root, parent, depth, stack, pos, k - 1);
    PathAt(V, root, parent, depth, stack, pos, k - 1);
    PathStep(V, root, parent, depth, stack, pos, k - 1);
    if k - 1 > 0 {
      PathStep(V, root, parent, depth, stack, pos, k - 2);
      assert stack[..k - 1][k - 2] == stack[k - 2] && pos[..k - 1][k - 2] == pos[k - 2];
    }
    PathPush(V, root, parent, depth, stack[..k - 1], pos[..k - 1], s, pos[k - 1] + 1);
  }

  lemma AscendVisited(V: nat, root: nat, parent: seq<nat>, depth: seq<nat>, stack: seq<nat>, pos: seq<nat>)
    requires ParentLinks(V, root, parent, depth) && Path(V, root, parent, depth, stack, pos) && |stack| > 1
    requires pos[|stack| - 1] == |ChildrenDown(V, root, parent, stack[|stack| - 1])|
    requires var k := |stack| - 1; Path(V, root, parent, depth, stack[..k], pos[..k - 1] + [pos[k - 1] + 1])
    ensures var k := |stack| - 1;
      Visited(V, root, parent, depth, stack[..k], pos[..k - 1] + [pos[k - 1] + 1]) == Visited(V, root, parent, depth, stack, pos)
  {
    var k := |stack| - 1;
    var top, s := stack[k], stack[k - 1];
    var pos' := pos[..k - 1] + [pos[k - 1] + 1];
    var dn := ChildrenDown(V, root, parent, s);
    var p := pos[k - 1];
    var below := ChildrenDown(V, root, parent, top);
    PopFrames(stack, pos);
    PathStep(V, root, parent, depth, stack, pos, k - 1);
    PathAt(V, root, parent, depth, stack, pos, k);
    PathPrefix(V, root, parent, depth, stack, pos, k);
    var rest := Visited(V, root, parent, depth, stack[..k - 1], pos[..k - 1]);
    var done := Explored(V, root, parent, depth, s, dn[..p]);
    var sub := Subtree(V, root, parent, depth, top);
    assert Visited(V, root, parent, depth, stack[..k], pos') == rest + Explored(V, root, parent, depth, s, dn[..p + 1]);
    assert Visited(V, root, parent, depth, stack[..k], pos[..k]) == rest + done;
    assert Visited(V, root, parent, depth, stack, pos) == rest + done + sub by {
      assert below[..pos[k]] == below;
      ExploredAll(V, root, parent, depth, top, below);
    }
    assert Explored(V, root, parent, depth, s, dn[..p + 1]) == done + sub by {
      assert dn[..p + 1] == dn[..p] + [top];
      ChildrenDownUnique(V, root, parent, s, p);
      ExploredStep(V, root, parent, depth, s, dn[..p], top);
    }
  }

  lemma PostOrderUnfold(V: nat, root: nat, parent: seq<nat>, depth: seq<nat>, v: nat)
    requires ParentLinks(V, root, parent, depth) && v < V
    ensures PostOrder(V, root, parent, depth, v) == PostForest(V, root, parent, depth, v, ChildrenDown(V, root, parent, v)) + [(depth[v], v)]
  {
  }

  /** Finishing child `cs[p]` appends its post-order. */
  lemma PostForestSnoc(V: nat, root: nat, parent: seq<nat>, depth: seq<nat>, v: nat, cs: seq<nat>, p: nat)
    requires ParentLinks(V, root, parent, depth) && v < V && p < |cs|
    requires forall c :: c in cs ==> c in Children(V, root, parent, v)
    ensures cs[p] < V
    ensures PostForest(V, root, parent, depth, v, cs[..p + 1]) == PostForest(V, root, parent, depth, v, cs[..p]) + PostOrder(V, root, parent, depth, cs[p])
  {
    assert cs[p] in cs;
    assert forall c :: c in cs[..p + 1] ==> c in cs;
    assert forall c :: c in cs[..p] ==> c in cs;
    assert cs[..p + 1][..p] == cs[..p];
  }

  /** Every entry of `cs` is a child of `v`. */
  predicate ChildList(V: nat, root: nat, parent: seq<nat>, v: nat, cs: seq<nat>)
    requires |parent| == V
  {
    forall c :: c in cs ==> c in Children(V, root, parent, v)
  }

  /** After the pop, the frame below has the top's post-order appended to its finished children's. */
  lemma PendingPopped(V: nat, root: nat, parent: seq<nat>, depth: seq<nat>, stack: seq<nat>, pos: seq<nat>)
    requires ParentLinks(V, root, parent, depth) && Path(V, root, parent, depth, stack, pos) && |stack| > 1
    requires var k := |stack| - 1; Path(V, root, parent, depth, stack[..k], pos[..k - 1] + [pos[k - 1] + 1])
    ensures var k := |stack| - 1;
      var dn := ChildrenDown(V, root, parent, stack[k - 1]);
      && stack[k - 1] < V && stack[k] < V && pos[k - 1] < |dn|
      && ChildList(V, root, parent, stack[k - 1], dn[..pos[k - 1]])
      && Path(V, root, parent, depth, stack[..k - 1], pos[..k - 1])
      && Pending(V, root, parent, depth, stack[..k], pos[..k - 1] + [pos[k - 1] + 1])
         == Pending(V, root, parent, depth, stack[..k - 1], pos[..k - 1]) + PostForest(V, root, parent, depth, stack[k - 1], dn[..pos[k - 1]])
            + PostOrder(V, root, parent, depth, stack[k])
  {
    var k := |stack| - 1;
    var s := stack[k - 1];
    var dn := ChildrenDown(V, root, parent, s);
    var pos' := pos[..k - 1] + [pos[k - 1] + 1];
    PopFrames(stack, pos);
    PathStep(V, root, parent, depth, stack, pos, k - 1);
    PathAt(V, root, parent, depth, stack, pos, k);
    PendingUnfold(V, root, parent, depth, stack[..k], pos');
    PostForestSnoc(V, root, parent, depth, s, dn, pos[k - 1]);
  }

  /** Before the pop, the finished top closes its post-order with its own line. */
  lemma PendingFinished(V: nat, root: nat, parent: seq<nat>, depth: seq<nat>, stack: seq<nat>, pos: seq<nat>)
    requires ParentLinks(V, root, parent, depth) && Path(V, root, parent, depth, stack, pos) && |stack| > 1
    requires pos[|stack| - 1] == |ChildrenDown(V, root, parent, stack[|stack| - 1])|
    ensures var k := |stack| - 1;
      var dn := ChildrenDown(V, root, parent, stack[k - 1]);
      && stack[k - 1] < V && stack[k] < V && pos[k - 1] < |dn|
      && ChildList(V, root, parent, stack[k - 1], dn[..pos[k - 1]])
      && Path(V, root, parent, depth, stack[..k - 1], pos[..k - 1])
      && Pending(V, root, parent, depth, stack, pos) + [(k, stack[k])]
         == Pending(V, root, parent, depth, stack[..k - 1], pos[..k - 1]) + PostForest(V, root, parent, depth, stack[k - 1], dn[..pos[k - 1]])
            + PostOrder(V, root, parent, depth, stack[k])
  {
    var k := |stack| - 1;
    var top := stack[k];
    var below := ChildrenDown(V, root, parent, top);
    PopFrames(stack, pos);
    PathStep(V, root, parent, depth, stack, pos, k - 1);
    PathAt(V, root, parent, depth, stack, pos, k);
    PendingUnfold(V, root, parent, depth, stack, pos);
    PendingUnfold(V, root, parent, depth, stack[..k], pos[..k]);
    PostOrderUnfold(V, root, parent, depth, top);
    assert below[..pos[k]] == below;
  }

  lemma AscendPending(V: nat, root: nat, parent: seq<nat>, depth: seq<nat>, stack: seq<nat>, pos: seq<nat>)
    requires ParentLinks(V, root, parent, depth) && Path(V, root, parent, depth, stack, pos) && |stack| > 1
    requires pos[|stack| - 1] == |ChildrenDown(V, root, parent, stack[|stack| - 1])|
    requires var k := |stack| - 1; Path(V, root, parent, depth, stack[..k], pos[..k - 1] + [pos[k - 1] + 1])
    ensures var k := |stack| - 1;
      Pending(V, root, parent, depth, stack[..k], pos[..k - 1] + [pos[k - 1] + 1]) == Pending(V, root, parent, depth, stack, pos) + [(k, stack[k])]
  {
    PendingPopped(V, root, parent, depth, stack, pos);
    PendingFinished(V, root, parent, depth, stack, pos);
  }

  lemma PendingUnfold(V: nat, root: nat, parent: seq<nat>, depth: seq<nat>, stack: seq<nat>, pos: seq<nat>)
    requires ParentLinks(V, root, parent, depth) && Path(V, root, parent, depth, stack, pos) && stack != []
    ensures var k := |stack| - 1;
      && Path(V, root, parent, depth, stack[..k], pos[..k])
      && (forall c :: c in ChildrenDown(V, root, parent, stack[k])[..pos[k]] ==> c in Children(V, root, parent, stack[k]))
      && Pending(V, root, parent, depth, stack, pos)
         == Pending(V, root, parent, depth, stack[..k], pos[..k]) + PostForest(V, root, parent, depth, stack[k], ChildrenDown(V, root, parent, stack[k])[..pos[k]])
  {
    var k := |stack| - 1;
    assert forall c :: c in ChildrenDown(V, root, parent, stack[k])[..pos[k]] ==> c in ChildrenDown(V, root, parent, stack[k]);
  }

  /**
   * Popping a finished top that is not the root: the vertex below it counts
   * one more finished child, and the pending lines gain the top's post-order,
   * whose last line is the top at indent `len(stack)` after the pop.
   */
  lemma Ascend(V: nat, root: nat, parent: seq<nat>, depth: seq<nat>, stack: seq<nat>, pos: seq<nat>)
    requires ParentLinks(V, root, parent, depth) && Path(V, root, parent, depth, stack, pos) && |stack| > 1
    requires pos[|stack| - 1] == |ChildrenDown(V, root, parent, stack[|stack| - 1])|
    ensures var k := |stack| - 1;
      var pos' := pos[..k - 1] + [pos[k - 1] + 1];
      && Path(V, root, parent, depth, stack[..k], pos')
      && Visited(V, root, parent, depth, stack[..k], pos') == Visited(V, root, parent, depth, stack, pos)
      && Pending(V, root, parent, depth, stack[..k], pos') == Pending(V, root, parent, depth, stack, pos) + [(k, stack[k])]
  {
    AscendPath(V, root, parent, depth, stack, pos);
    AscendVisited(V, root, parent, depth, stack, pos);
    AscendPending(V, root, parent, depth, stack, pos);
  }

  /** Popping the finished root completes the post-order. */
  lemma AscendLast(V: nat, root: nat, parent: seq<nat>, depth: seq<nat>, stack: seq<nat>, pos: seq<nat>)
    requires ParentLinks(V, root, parent, depth) && Path(V, root, parent, depth, stack, pos) && |stack| == 1
    requires pos[0] == |ChildrenDown(V, root, parent, stack[0])|
    ensures stack[0] == root
    ensures Pending(V, root, parent, depth, stack, pos) + [(0, stack[0])] == PostOrder(V, root, parent, depth, root)
  {
    PathAt(V, root, parent, depth, stack, pos, 0);
    DepthZeroIsRoot(V, root, parent, depth, stack[0]);
    assert stack[..0] == [] && pos[..0] == [];
    assert ChildrenDown(V, root, parent, root)[..pos[0]] == ChildrenDown(V, root, parent, root);
  }

  lemma LabelAppend(names: seq<string>, a: seq<(nat, nat)>, b: seq<(nat, nat)>)
    requires forall i :: 0 <= i < |a| ==> a[i].1 < |names|
    requires forall i :: 0 <= i < |b| ==> b[i].1 < |names|
    ensures Label(names, a + b) == Label(names, a) + Label(names, b)
  {
  }

  lemma LabelReverse(names: seq<string>, p: seq<(nat, nat)>)
    requires forall i :: 0 <= i < |p| ==> p[i].1 < |names|
    ensures Reverse(Label(names, p)) == Label(names, Reverse(p))
  {
    var a, b := Reverse(Label(names, p)), Label(names, Reverse(p));
    assert |a| == |p| == |b|;
    forall i | 0 <= i < |p|
      ensures a[i] == b[i]
    {
      LabelReverseAt(names, p, i);
    }
    assert a == b;
  }

  lemma LabelReverseAt(names: seq<string>, p: seq<(nat, nat)>, i: nat)
    requires forall i :: 0 <= i < |p| ==> p[i].1 < |names|
    requires i < |p|
    ensures Reverse(Label(names, p))[i] == Label(names, Reverse(p))[i]
  {
    var j := |p| - 1 - i;
    assert Reverse(Label(names, p))[i] == Label(names, p)[j];
    assert Reverse(p)[i] == p[j];
  }

  /**
   * What the walk keeps: the stack is a path of frames, `seen` is what its
   * frames have visited, and the popped lines are the finished post-orders
   * (the whole post-order of the tree once the stack is empty).
   */
  ghost predicate WalkState(V: nat, root: nat, parent: seq<nat>, depth: seq<nat>, names: seq<string>, stack: seq<nat>, pos: seq<nat>, seen: set<nat>,
                            post: seq<(nat, nat)>, lines: seq<(nat, string)>)
  {
    && ParentLinks(V, root, parent, depth) && |names| == V && |stack| == |pos|
    && (stack != [] ==> && Path(V, root, parent, depth, stack, pos)
                        && seen == Visited(V, root, parent, depth, stack, pos)
                        && post == Pending(V, root, parent, depth, stack, pos))
    && (stack == [] ==> post == PostOrder(V, root, parent, depth, root))
    && (forall u :: u in seen ==> u < V)
    && (forall i :: 0 <= i < |post| ==> post[i].1 < V)
    && lines == Label(names, post)
  }

  lemma WalkStart(V: nat, root: nat, parent: seq<nat>, depth: seq<nat>, names: seq<string>)
    requires ParentLinks(V, root, parent, depth) && |names| == V
    ensures WalkState(V, root, parent, depth, names, [root], [0], {root}, [], [])
  {
    PathPush(V, root, parent, depth, [], [], root, 0);
    ExploredStart(V, root, parent, depth, root);
    assert ChildrenDown(V, root, parent, root)[..0] == [];
    assert [root][..0] == [] && [0][..0] == [];
  }

  /** The top of a non-empty walk is a vertex. */
  lemma WalkTop(V: nat, root: nat, parent: seq<nat>, depth: seq<nat>, names: seq<string>, stack: seq<nat>, pos: seq<nat>, seen: set<nat>,
                post: seq<(nat, nat)>, lines: seq<(nat, string)>)
    requires WalkState(V, root, parent, depth, names, stack, pos, seen, post, lines) && stack != []
    ensures stack[|stack| - 1] < V
  {
    PathAt(V, root, parent, depth, stack, pos, |stack| - 1);
  }

  /**
   * Pushing `x`, the first unseen vertex among the top's neighbours in
   * decreasing order, keeps the walk's state; `x` was unseen.
   */
  lemma WalkPush(V: nat, root: nat, parent: seq<nat>, depth: seq<nat>, names: seq<string>, stack: seq<nat>, pos: seq<nat>, seen: set<nat>,
                 post: seq<(nat, nat)>, lines: seq<(nat, string)>, fam: set<nat>, x: nat)
    requires WalkState(V, root, parent, depth, names, stack, pos, seen, post, lines) && stack != []
    requires fam == Family(V, root, parent, stack[|stack| - 1])
    requires FirstOutside(Descending(fam, V), seen) == Some(x)
    ensures x !in seen && |seen| < V
    ensures WalkState(V, root, parent, depth, names, stack + [x], pos + [0], seen + {x}, post, lines)
  {
    var k := |stack| - 1;
    var down := ChildrenDown(V, root, parent, stack[k]);
    PathAt(V, root, parent, depth, stack, pos, k);
    ChooseNext(V, root, parent, depth, stack, pos, fam);
    assert pos[k] < |down| && x == down[pos[k]];
    Descend(V, root, parent, depth, stack, pos);
    assert x in Children(V, root, parent, stack[k]);
    SeenChild(V, root, parent, depth, stack, pos, x);
    ChildrenDownUnique(V, root, parent, stack[k], pos[k]);
    assert x !in seen;
    SubsetRangeCard(seen + {x}, V);
    assert |seen + {x}| == |seen| + 1;
    assert forall u :: u in seen + {x} ==> u < V;
  }

  /**
   * Popping the top when none of its neighbours is unseen keeps the walk's
   * state and emits the top's line.
   */
  lemma WalkPop(V: nat, root: nat, parent: seq<nat>, depth: seq<nat>, names: seq<string>, stack: seq<nat>, pos: seq<nat>, seen: set<nat>,
                post: seq<(nat, nat)>, lines: seq<(nat, string)>, fam: set<nat>)
    requires WalkState(V, root, parent, depth, names, stack, pos, seen, post, lines) && stack != []
    requires fam == Family(V, root, parent, stack[|stack| - 1])
    requires FirstOutside(Descending(fam, V), seen) == None
    ensures var k := |stack| - 1;
      && stack[k] < V
      && WalkState(V, root, parent, depth, names, stack[..k], if k > 0 then pos[..k - 1] + [pos[k - 1] + 1] else [], seen,
                   post + [(k, stack[k])], lines + [(k, names[stack[k]])])
  {
    var k := |stack| - 1;
    var top := stack[k];
    PathAt(V, root, parent, depth, stack, pos, k);
    ChooseNext(V, root, parent, depth, stack, pos, fam);
    assert pos[k] == |ChildrenDown(V, root, parent, top)|;
    if k > 0 {
      Ascend(V, root, parent, depth, stack, pos);
    } else {
      AscendLast(V, root, parent, depth, stack, pos);
    }
    LabelAppend(names, post, [(k, top)]);
  }

  /**
   * The `while stack` loop of `print_tree`: from `start`, push the largest
   * unseen neighbour of the top, or pop the top, emitting it with the height
   * of the remaining stack as its indent. The lines come out in post-order
   * with children in decreasing id order.
   */
  method Walk(V: nat, neighbors: seq<set<nat>>, names: seq<string>, start: nat,
              ghost parent: seq<nat>, ghost depth: seq<nat>) returns (lines: seq<(nat, string)>)
    requires ParentLinks(V, start, parent, depth) && |names| == V && |neighbors| == V
    requires forall v :: 0 <= v < V ==> neighbors[v] == Family(V, start, parent, v)
    ensures lines == Label(names, PostOrder(V, start, parent, depth, start))
  {
    var stack := [start];
    var seen := {start};
    ghost var pos := [0];
    ghost var post: seq<(nat, nat)> := [];
    lines := [];
    WalkStart(V, start, parent, depth, names);
    while stack != []
      invariant WalkState(V, start, parent, depth, names, stack, pos, seen, post, lines)
      decreases V - |seen|, |stack|
    {
      var k := |stack| - 1;
      var top := stack[k];
      WalkTop(V, start, parent, depth, names, stack, pos, seen, post, lines);
      var next := NextChild(Descending(neighbors[top], V), seen);
      if next.Some? {
        WalkPush(V, start, parent, depth, names, stack, pos, seen, post, lines, neighbors[top], next.value);
        seen := seen + {next.value};
        stack := stack + [next.value];
        pos := pos + [0];
      } else {
        WalkPop(V, start, parent, depth, names, stack, pos, seen, post, lines, neighbors[top]);
        var line: (nat, string) := (k, names[top]);
        ghost var done: (nat, nat) := (k, top);
        stack := stack[..k];
        lines := lines + [line];
        pos := if k > 0 then pos[..k - 1] + [pos[k - 1] + 1] else [];
        post := post + [done];
      }
    }
  }

  /** The whole tree from the root: every vertex is printed, exactly once, the root first at indent 0. */
  lemma PreOrderWhole(V: nat, root: nat, parent: seq<nat>, depth: seq<nat>)
    requires ParentLinks(V, root, parent, depth)
    ensures PreOrder(V, root, parent, depth, root)[0] == (0, root)
    ensures forall v :: 0 <= v < V ==> v in Vertices(PreOrder(V, root, parent, depth, root))
    ensures Distinct(PreOrder(V, root, parent, depth, root))
  {
    PreOrderCovers(V, root, parent, depth, root);
    PreOrderDistinct(V, root, parent, depth, root);
    forall v | 0 <= v < V
      ensures v in Subtree(V, root, parent, depth, root)
    {
      BelowRoot(V, root, parent, depth, v);
    }
  }

  /** `feature_names.index(name)`: the first position holding `name`. */
  function IndexOf(names: seq<string>, name: string): (i: nat)
    requires name in names
    ensures i < |names| && names[i] == name
    ensures forall j :: 0 <= j < i ==> names[j] != name
  {
    if names[0] == name then 0 else 1 + IndexOf(names[1..], name)
  }

  /**
   * `text` pictures the tree of `edges` from vertex `s`: the pre-order from
   * `s`, children in increasing id order, each name indented by its depth.
   * On a tree the rooting at `s` is unique apart from `parent[s]`, which the
   * pre-order never reads (the root is nobody's child), so at most one `text`
   * satisfies this.
   */
  ghost predicate Shows(edges: seq<Edge>, names: seq<string>, s: nat, text: string)
  {
    && |names| == |edges| + 1 && s < |names|
    && exists parent: seq<nat>, depth: seq<nat> ::
         && RootedTree(|names|, edges, s, parent, depth)
         && text == Render(Label(names, PreOrder(|names|, s, parent, depth, s)))
  }

  /**
   * `print_tree`: the picture of the tree from the vertex named `root`, or,
   * without one, from the vertex carrying the name of the tree's centre.
   */
  method PrintTree(edges: seq<Edge>, names: seq<string>, root: Option<string>) returns (text: string)
    requires |names| == |edges| + 1
    requires ValidEdges(|names|, edges) && Tree(|names|, edges)
    requires root.Some? ==> root.value in names
    ensures root.Some? ==> Shows(edges, names, IndexOf(names, root.value), text)
    ensures root.None? ==> && CenterOfTree(edges).Some? && CenterOfTree(edges).value < |names|
                           && Shows(edges, names, IndexOf(names, names[CenterOfTree(edges).value]), text)
  {
    var V := |names|;
    var name: string;
    if root.Some? {
      name := root.value;
    } else {
      var center: nat;
      ghost var dequeued: seq<nat>;
      center, dequeued := FindCenterOfTree(edges);
      name := names[center];
    }
    var start := IndexOf(names, name);
    assert RootableAt(V, edges, start);
    ghost var parent: seq<nat>, depth: seq<nat> :| RootedTree(V, edges, start, parent, depth);
    var table := NewNeighborTable(V, edges);
    var neighbors := table[..];
    var lines := Walk(V, neighbors, names, start, parent, depth);
    PostOrderReverse(V, start, parent, depth, start);
    LabelReverse(names, PostOrder(V, start, parent, depth, start));
    text := Render(Reverse(lines));
  }
}
