/** Finite sums of real-valued functions over integer ranges, and the rearrangement
    laws that the probability and allocation arguments rest on. */
module Sums {

  /** The sum of f(lo), f(lo+1), ..., f(hi-1). */
  function Sum(f: int -> real, lo: int, hi: int): real
    decreases hi - lo
  {
    if hi <= lo then 0.0 else Sum(f, lo, hi - 1) + f(hi - 1)
  }

  /** The i-th entry of v, reading 0 outside its bounds. */
  function At(v: seq<real>, i: int): real {
    if 0 <= i < |v| then v[i] else 0.0
  }

  /** The sum of all entries of v. */
  function Total(v: seq<real>): real {
    Sum(i => At(v, i), 0, |v|)
  }

  function Pow(x: real, n: nat): real {
    if n == 0 then 1.0 else x * Pow(x, n - 1)
  }

  lemma {:induction false} SumExt(f: int -> real, g: int -> real, lo: int, hi: int)
    requires forall i :: lo <= i < hi ==> f(i) == g(i)
    ensures Sum(f, lo, hi) == Sum(g, lo, hi)
    decreases hi - lo
  {
    if lo < hi {
      SumExt(f, g, lo, hi - 1);
    }
  }

  lemma {:induction false} SumMono(f: int -> real, g: int -> real, lo: int, hi: int)
    requires forall i :: lo <= i < hi ==> f(i) <= g(i)
    ensures Sum(f, lo, hi) <= Sum(g, lo, hi)
    decreases hi - lo
  {
    if lo < hi {
      SumMono(f, g, lo, hi - 1);
    }
  }

  lemma {:induction false} SumZero(f: int -> real, lo: int, hi: int)
    requires forall i :: lo <= i < hi ==> f(i) == 0.0
    ensures Sum(f, lo, hi) == 0.0
    decreases hi - lo
  {
    if lo < hi {
      SumZero(f, lo, hi - 1);
    }
  }

  lemma {:induction false} SumScale(c: real, f: int -> real, g: int -> real, lo: int, hi: int)
    requires forall i :: lo <= i < hi ==> g(i) == c * f(i)
    ensures Sum(g, lo, hi) == c * Sum(f, lo, hi)
    decreases hi - lo
  {
    if lo < hi {
      SumScale(c, f, g, lo, hi - 1);
    }
  }

  lemma {:induction false} SumScaleLe(c: real, f: int -> real, g: int -> real, lo: int, hi: int)
    requires forall i :: lo <= i < hi ==> c * f(i) <= g(i)
    ensures c * Sum(f, lo, hi) <= Sum(g, lo, hi)
    decreases hi - lo
  {
    if lo < hi {
      SumScaleLe(c, f, g, lo, hi - 1);
    }
  }

  lemma {:induction false} SumAffine(a: real, f: int -> real, b: real, g: int -> real, h: int -> real, lo: int, hi: int)
    requires forall i :: lo <= i < hi ==> h(i) == a * f(i) + b * g(i)
    ensures Sum(h, lo, hi) == a * Sum(f, lo, hi) + b * Sum(g, lo, hi)
  {
    var f', g' := (i: int) => a * f(i), (i: int) => b * g(i);
    SumScale(a, f, f', lo, hi);
    SumScale(b, g, g', lo, hi);
    SumAdd(f', g', h, lo, hi);
  }

  lemma {:induction false} SumAdd(f: int -> real, g: int -> real, h: int -> real, lo: int, hi: int)
    requires forall i :: lo <= i < hi ==> h(i) == f(i) + g(i)
    ensures Sum(h, lo, hi) == Sum(f, lo, hi) + Sum(g, lo, hi)
    decreases hi - lo
  {
    if lo < hi {
      SumAdd(f, g, h, lo, hi - 1);
    }
  }

  lemma {:induction false} SumSplit(f: int -> real, lo: int, mid: int, hi: int)
    requires lo <= mid <= hi
    ensures Sum(f, lo, hi) == Sum(f, lo, mid) + Sum(f, mid, hi)
    decreases hi - mid
  {
    if mid < hi {
      SumSplit(f, lo, mid, hi - 1);
    }
  }

  lemma {:induction false} SumShift(f: int -> real, g: int -> real, k: int, lo: int, hi: int)
    requires forall i :: lo <= i < hi ==> g(i) == f(i - k)
    ensures Sum(g, lo, hi) == Sum(f, lo - k, hi - k)
    decreases hi - lo
  {
    if lo < hi {
      SumShift(f, g, k, lo, hi - 1);
    }
  }

  /** Shifting a sum is harmless when everything shifted across the ends is zero. */
  lemma {:induction false} SumShiftWithin(f: int -> real, g: int -> real, k: int, n: int)
    requires 0 <= k <= n
    requires forall i :: 0 <= i < n ==> g(i) == f(i - k)
    requires forall i :: -k <= i < n && (i < 0 || i + k >= n) ==> f(i) == 0.0
    ensures Sum(g, 0, n) == Sum(f, 0, n)
  {
    SumShift(f, g, k, 0, n);
    SumSplit(f, -k, 0, n - k);
    SumSplit(f, 0, n - k, n);
    SumZero(f, -k, 0);
    SumZero(f, n - k, n);
  }

  // Double sums.

  function Row(f: (int, int) -> real, i: int): int -> real {
    j => f(i, j)
  }

  function Column(f: (int, int) -> real, j: int): int -> real {
    i => f(i, j)
  }

  function RowSums(f: (int, int) -> real, lo: int, hi: int): int -> real {
    i => Sum(Row(f, i), lo, hi)
  }

  function ColumnSums(f: (int, int) -> real, lo: int, hi: int): int -> real {
    j => Sum(Column(f, j), lo, hi)
  }

  lemma {:induction false} ScaledRow(f: (int, int) -> real, i: int, c: real, g: int -> real, n: int)
    requires forall j :: 0 <= j < n ==> f(i, j) == c * g(j)
    ensures RowSums(f, 0, n)(i) == c * Sum(g, 0, n)
  {
    SumScale(c, g, Row(f, i), 0, n);
  }

  /** Finite sums may be taken in either order. */
  lemma {:induction false} SumSwap(f: (int, int) -> real, lo: int, hi: int, lo': int, hi': int)
    ensures Sum(RowSums(f, lo', hi'), lo, hi) == Sum(ColumnSums(f, lo, hi), lo', hi')
    decreases hi - lo
  {
    if lo < hi {
      SumSwap(f, lo, hi - 1, lo', hi');
      SumAdd(ColumnSums(f, lo, hi - 1), Row(f, hi - 1), ColumnSums(f, lo, hi), lo', hi');
    } else {
      SumZero(ColumnSums(f, lo, hi), lo', hi');
    }
  }

  /** Two grids with equal column sums have equal totals of their (scaled) row sums. */
  lemma {:induction false} EqualColumns(f: (int, int) -> real, g: (int, int) -> real, x: int -> real, y: int -> real,
                     c: real, n: nat, m: nat)
    requires c > 0.0
    requires forall i :: 0 <= i < n ==> RowSums(f, 0, m)(i) == c * x(i)
    requires forall i :: 0 <= i < n ==> RowSums(g, 0, m)(i) == c * y(i)
    requires forall j :: 0 <= j < m ==> ColumnSums(f, 0, n)(j) == ColumnSums(g, 0, n)(j)
    ensures Sum(x, 0, n) == Sum(y, 0, n)
  {
    SumScale(c, x, RowSums(f, 0, m), 0, n);
    SumScale(c, y, RowSums(g, 0, m), 0, n);
    SumSwap(f, 0, n, 0, m);
    SumSwap(g, 0, n, 0, m);
    SumExt(ColumnSums(f, 0, n), ColumnSums(g, 0, n), 0, m);
  }

  /** A sum in which only one index matters. */
  lemma {:induction false} SumPoint(f: int -> real, at: int, lo: int, hi: int)
    requires lo <= at < hi
    requires forall i :: lo <= i < hi && i != at ==> f(i) == 0.0
    ensures Sum(f, lo, hi) == f(at)
  {
    SumSplit(f, lo, at, hi);
    SumSplit(f, at, at + 1, hi);
    SumZero(f, lo, at);
    SumZero(f, at + 1, hi);
    assert Sum(f, at, at + 1) == Sum(f, at, at) + f(at);
  }

  lemma {:induction false} TotalAppend(v: seq<real>, x: real)
    ensures Total(v + [x]) == Total(v) + x
  {
    var w := v + [x];
    SumExt(i => At(w, i), i => At(v, i), 0, |v|);
  }

  lemma {:induction false} TotalConcat(v: seq<real>, w: seq<real>)
    ensures Total(v + w) == Total(v) + Total(w)
    decreases |w|
  {
    if w == [] {
      assert v + w == v;
    } else {
      var last := |w| - 1;
      assert w == w[..last] + [w[last]];
      assert v + w == (v + w[..last]) + [w[last]];
      TotalConcat(v, w[..last]);
      TotalAppend(v + w[..last], w[last]);
      TotalAppend(w[..last], w[last]);
    }
  }

  lemma {:induction false} TotalCons(v: seq<real>)
    requires v != []
    ensures Total(v) == v[0] + Total(v[1..])
  {
    assert v == [v[0]] + v[1..];
    TotalConcat([v[0]], v[1..]);
    TotalAppend([], v[0]);
    assert [] + [v[0]] == [v[0]];
  }
}
