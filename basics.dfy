/** Small shared vocabulary: an optional value, and sums and histograms over sequences. */
module Basics {

  /** Python's `None` or a present value. */
  datatype Option<T> = None | Some(value: T)

  /** The sum of a sequence of reals (`tensor.sum(-1)` on one row). */
  function Sum(s: seq<real>): real
  {
    if s == [] then 0.0 else s[0] + Sum(s[1..])
  }

  /** Number of occurrences of `c` in `zs`. */
  function Count(zs: seq<nat>, c: nat): nat
  {
    if zs == [] then 0 else (if zs[0] == c then 1 else 0) + Count(zs[1..], c)
  }

  /** The histogram `scatter_add_` builds: cell `c` holds the number of entries of `zs` equal to `c`. */
  function Hist(zs: seq<nat>, n: nat): (h: seq<real>)
    ensures |h| == n
    ensures forall c :: 0 <= c < n ==> h[c] == Count(zs, c) as real
  {
    seq(n, (c: int) requires 0 <= c => Count(zs, c) as real)
  }

  /** Pointwise sum of two rows of the same length. */
  function Add(s: seq<real>, t: seq<real>): (r: seq<real>)
    requires |s| == |t|
    ensures |r| == |s|
    ensures forall i :: 0 <= i < |s| ==> r[i] == s[i] + t[i]
  {
    seq(|s|, i requires 0 <= i < |s| => s[i] + t[i])
  }

  /** Every entry multiplied by `d` (`tensor *= d`). */
  function Scale(s: seq<real>, d: real): (r: seq<real>)
    ensures |r| == |s|
    ensures forall i :: 0 <= i < |s| ==> r[i] == s[i] * d
  {
    seq(|s|, i requires 0 <= i < |s| => s[i] * d)
  }

  /** A row of non-negative entries. */
  predicate NonNegative(s: seq<real>)
  {
    forall i :: 0 <= i < |s| ==> s[i] >= 0.0
  }

  lemma {:induction false} SumAdd(s: seq<real>, t: seq<real>)
    requires |s| == |t|
    ensures Sum(Add(s, t)) == Sum(s) + Sum(t)
  {
    if s != [] {
      assert Add(s, t)[1..] == Add(s[1..], t[1..]);
      SumAdd(s[1..], t[1..]);
    }
  }

  lemma {:induction false} SumScale(s: seq<real>, d: real)
    ensures Sum(Scale(s, d)) == Sum(s) * d
  {
    if s != [] {
      var t := Scale(s, d);
      assert forall i :: 0 <= i < |s| - 1 ==> t[1..][i] == Scale(s[1..], d)[i];
      assert t[1..] == Scale(s[1..], d);
      SumScale(s[1..], d);
      assert Sum(t) == t[0] + Sum(t[1..]);
      Distribute(s[0], Sum(s[1..]), d);
    }
  }

  lemma Distribute(a: real, b: real, d: real)
    ensures a * d + b * d == (a + b) * d
  {
  }

  lemma {:induction false} SumNonNegative(s: seq<real>)
    requires NonNegative(s)
    ensures Sum(s) >= 0.0
  {
    if s != [] {
      SumNonNegative(s[1..]);
    }
  }

  /** Every occurrence lands in one of the `n` cells, so the histogram holds `|zs|` units in all. */
  lemma {:induction false} HistTotal(zs: seq<nat>, n: nat)
    requires forall i :: 0 <= i < |zs| ==> zs[i] < n
    ensures Sum(Hist(zs, n)) == |zs| as real
  {
    if zs != [] {
      HistTotal(zs[1..], n);
      var one := Unit(n, zs[0]);
      assert Hist(zs, n) == Add(Hist(zs[1..], n), one);
      SumAdd(Hist(zs[1..], n), one);
      SumUnit(n, zs[0]);
    } else {
      assert Hist(zs, n) == seq(n, i => 0.0);
      SumConst(n, 0.0);
    }
  }

  /** The row of length `n` holding a single 1, in cell `c`. */
  function Unit(n: nat, c: nat): (r: seq<real>)
    ensures |r| == n
    ensures forall i :: 0 <= i < n ==> r[i] == if i == c then 1.0 else 0.0
  {
    seq(n, i => if i == c then 1.0 else 0.0)
  }

  /** A row holding a single 1 sums to 1. */
  lemma {:induction false} SumUnit(n: nat, c: nat)
    requires c < n
    ensures Sum(Unit(n, c)) == 1.0
  {
    var s := Unit(n, c);
    if c == 0 {
      assert s[1..] == seq(n - 1, i => 0.0);
      SumConst(n - 1, 0.0);
    } else {
      assert s[1..] == Unit(n - 1, c - 1);
      SumUnit(n - 1, c - 1);
    }
  }

  /** Appending one entry adds one to its own cell and nothing to the others. */
  lemma {:induction false} CountSnoc(zs: seq<nat>, x: nat, c: nat)
    ensures Count(zs + [x], c) == Count(zs, c) + (if x == c then 1 else 0)
  {
    if zs != [] {
      assert (zs + [x])[1..] == zs[1..] + [x];
      CountSnoc(zs[1..], x, c);
    }
  }

  /** A row of `n` equal entries `c` sums to `n * c`. */
  lemma {:induction false} SumConst(n: nat, c: real)
    ensures Sum(seq(n, i => c)) == n as real * c
  {
    if n > 0 {
      var r := seq(n, i => c);
      assert r[1..] == seq(n - 1, i => c);
      assert Sum(r) == c + Sum(r[1..]);
      SumConst(n - 1, c);
      Distribute(1.0, (n - 1) as real, c);
      assert 1.0 + (n - 1) as real == n as real;
    }
  }
}
