/**
 * `find_center_of_tree` on the default path `0 - 1 - ... - (V-1)`: the leaves
 * at both ends are stripped alternately, and the vertex left last is the
 * middle one, `V // 2`.
 */
module PathCenter {
  import opened Basics
  import opened Graph
  import opened Center

  /** The inner loop leaves the table and queue alone when no neighbour is at or above `u`. */
  lemma {:induction false} DetachOutside(nb: seq<set<nat>>, v: nat, ns: set<nat>, u: nat, queue: seq<nat>)
    requires forall x :: x in ns ==> x < u
    ensures Detach(nb, v, ns, u, queue) == (nb, queue)
    decreases |nb| - u
  {
    if u < |nb| {
      assert u !in ns;
      DetachOutside(nb, v, ns, u + 1, queue);
    }
  }

  /** Detaching `v` from its single neighbour `w`: `w` loses `v`, and is enqueued if one neighbour is left. */
  lemma {:induction false} DetachSingle(nb: seq<set<nat>>, v: nat, w: nat, u: nat, queue: seq<nat>)
    requires u <= w < |nb|
    ensures Detach(nb, v, {w}, u, queue) ==
      (nb[w := nb[w] - {v}], if |nb[w] - {v}| == 1 then queue + [w] else queue)
    decreases w - u
  {
    if u < w {
      DetachSingle(nb, v, w, u + 1, queue);
    } else {
      var nb' := nb[w := nb[w] - {v}];
      DetachOutside(nb', v, {w}, w + 1, if |nb'[w]| == 1 then queue + [w] else queue);
    }
  }

  /**
   * What is left of the path while leaves are stripped: the segment
   * `lo - ... - hi`, whose ends see only their inner neighbour and whose
   * inner vertices see both of theirs.
   */
  ghost predicate Segment(nb: seq<set<nat>>, lo: nat, hi: nat)
  {
    && lo <= hi < |nb|
    && nb[lo] == (if lo < hi then {lo + 1} else {})
    && nb[hi] == (if lo < hi then {hi - 1} else {})
    && forall x :: lo < x < hi ==> nb[x] == {x - 1, x + 1}
  }

  /** The queue while the segment `lo .. hi` is left: its two ends, lower first. */
  function Ends(lo: nat, hi: nat): seq<nat>
  {
    if lo < hi then [lo, hi] else [lo]
  }

  /** A one-vertex segment: its vertex is popped and is the last one. */
  lemma StripOne(nb: seq<set<nat>>, lo: nat, last: Option<nat>, fuel: nat)
    requires Segment(nb, lo, lo) && fuel > 0
    ensures Strip(nb, [lo], last, fuel) == Some(lo)
  {
    DetachOutside(nb, lo, {}, 0, []);
    assert [lo][1..] == [];
    assert Strip(nb, [lo], last, fuel) == Strip(nb, [], Some(lo), fuel - 1);
  }

  /** A two-vertex segment: the lower end goes first, leaving the upper one isolated and last. */
  lemma StripTwo(nb: seq<set<nat>>, lo: nat, hi: nat, last: Option<nat>, fuel: nat)
    requires Segment(nb, lo, hi) && lo + 1 == hi && fuel > 1
    ensures Strip(nb, [lo, hi], last, fuel) == Some(hi)
  {
    DetachSingle(nb, lo, hi, 0, [hi]);
    assert nb[hi] - {lo} == {};
    var nb1 := nb[hi := {}];
    assert [lo, hi][1..] == [hi];
    assert Strip(nb, [lo, hi], last, fuel) == Strip(nb1, [hi], Some(lo), fuel - 1);
    StripOne(nb1, hi, Some(lo), fuel - 1);
  }

  /** Popping the lower end of a segment of three or more: its inner neighbour becomes a leaf and is enqueued. */
  lemma PopLow(nb: seq<set<nat>>, lo: nat, hi: nat, last: Option<nat>, fuel: nat)
    requires Segment(nb, lo, hi) && lo + 2 <= hi && fuel > 0
    ensures Strip(nb, [lo, hi], last, fuel) == Strip(nb[lo + 1 := {lo + 2}], [hi, lo + 1], Some(lo), fuel - 1)
  {
    DetachSingle(nb, lo, lo + 1, 0, [hi]);
    assert nb[lo + 1] - {lo} == {lo + 2} && |{lo + 2}| == 1;
    assert [lo, hi][1..] == [hi];
  }

  /** Popping the upper end next: its inner neighbour `w` loses it, and is enqueued with one neighbour left. */
  lemma PopHigh(nb: seq<set<nat>>, lo: nat, hi: nat, w: nat, rest: set<nat>, fuel: nat)
    requires lo + 2 <= hi < |nb| && w == hi - 1 && nb[hi] == {w} && rest == nb[w] - {hi} && fuel > 0
    ensures Strip(nb, [hi, lo + 1], Some(lo), fuel) ==
      Strip(nb[w := rest], if |rest| == 1 then [lo + 1, w] else [lo + 1], Some(hi), fuel - 1)
  {
    DetachSingle(nb, hi, w, 0, [lo + 1]);
    assert [hi, lo + 1][1..] == [lo + 1];
  }

  /** A three-vertex segment: both ends go, and the middle vertex is last. */
  lemma StripThree(nb: seq<set<nat>>, lo: nat, hi: nat, last: Option<nat>, fuel: nat)
    requires Segment(nb, lo, hi) && lo + 2 == hi && fuel > 2
    ensures Strip(nb, [lo, hi], last, fuel) == Some(lo + 1)
  {
    var mid := lo + 1;
    var nb1 := nb[mid := {hi}];
    PopLow(nb, lo, hi, last, fuel);
    assert nb1[mid] - {hi} == {};
    PopHigh(nb1, lo, hi, mid, {}, fuel - 1);
    StripOne(nb1[mid := {}], mid, Some(hi), fuel - 2);
  }

  /** A longer segment: after both ends go, the segment one shorter at each end is left. */
  lemma StripLonger(nb: seq<set<nat>>, lo: nat, hi: nat, last: Option<nat>, fuel: nat)
    requires Segment(nb, lo, hi) && lo + 3 <= hi && fuel > 2
    ensures Strip(nb, [lo, hi], last, fuel) == Strip(nb[lo + 1 := {lo + 2}][hi - 1 := {hi - 2}], [lo + 1, hi - 1], Some(hi), fuel - 2)
    ensures Segment(nb[lo + 1 := {lo + 2}][hi - 1 := {hi - 2}], lo + 1, hi - 1)
  {
    var nb1 := nb[lo + 1 := {lo + 2}];
    PopLow(nb, lo, hi, last, fuel);
    assert nb1[hi - 1] - {hi} == {hi - 2} && |{hi - 2}| == 1;
    PopHigh(nb1, lo, hi, hi - 1, {hi - 2}, fuel - 1);
  }

  /** Stripping a segment from its two ends leaves its middle vertex last. */
  lemma {:induction false} StripSegment(nb: seq<set<nat>>, lo: nat, hi: nat, last: Option<nat>, fuel: nat)
    requires Segment(nb, lo, hi) && fuel > hi - lo
    ensures Strip(nb, Ends(lo, hi), last, fuel) == Some((lo + hi + 1) / 2)
    decreases hi - lo
  {
    if lo == hi {
      StripOne(nb, lo, last, fuel);
    } else if lo + 1 == hi {
      StripTwo(nb, lo, hi, last, fuel);
    } else if lo + 2 == hi {
      StripThree(nb, lo, hi, last, fuel);
    } else {
      StripLonger(nb, lo, hi, last, fuel);
      StripSegment(nb[lo + 1 := {lo + 2}][hi - 1 := {hi - 2}], lo + 1, hi - 1, Some(hi), fuel - 2);
    }
  }

  /** The neighbour table of the default path is the whole segment `0 .. V-1`. */
  lemma DefaultSegment(V: nat)
    requires V >= 1
    ensures Segment(NeighborTable(V, DefaultEdges(V)), 0, V - 1)
  {
    var nb := NeighborTable(V, DefaultEdges(V));
    DefaultEdgesNeighbors(V, 0);
    DefaultEdgesNeighbors(V, V - 1);
    forall x | 0 < x < V - 1
      ensures nb[x] == {x - 1, x + 1}
    {
      DefaultEdgesNeighbors(V, x);
    }
  }

  /** Below the far end, only vertex `0` has at most one neighbour. */
  lemma {:induction false} SegmentLeaves(nb: seq<set<nat>>, hi: nat, n: nat)
    requires Segment(nb, 0, hi) && 1 <= n <= hi
    ensures Leaves(nb, n) == [0]
  {
    if n > 1 {
      SegmentLeaves(nb, hi, n - 1);
      assert nb[n - 1] == {n - 2, n} && |{n - 2, n}| == 2;
    } else {
      assert |nb[0]| == 1;
    }
  }

  /** The initial queue of the default path holds its two ends. */
  lemma PathEnds(V: nat, nb: seq<set<nat>>)
    requires V >= 1 && Segment(nb, 0, V - 1)
    ensures Leaves(nb, V) == Ends(0, V - 1)
  {
    if V == 1 {
      assert |nb[0]| == 0;
    } else {
      SegmentLeaves(nb, V - 1, V - 1);
      assert |nb[V - 1]| == 1;
    }
  }

  /**
   * On the default path of `V` vertices the centre is vertex `V // 2`: the
   * middle vertex for odd `V`, the upper of the two middle vertices for even `V`.
   */
  lemma CenterOfPath(V: nat)
    requires V >= 1
    ensures CenterOfTree(DefaultEdges(V)) == Some(V / 2)
  {
    var nb := NeighborTable(V, DefaultEdges(V));
    DefaultSegment(V);
    PathEnds(V, nb);
    StripSegment(nb, 0, V - 1, None, V);
  }
}
