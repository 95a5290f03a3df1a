/** Division with remainder, for products that the solver should not search through. */
module Integers {

  lemma OneMoreTime(n: int, q: int)
    ensures n * (1 + q) == n + n * q
  {
  }

  lemma EuclidUnique(v: int, n: int, r: int, q: int)
    requires n > 0 && 0 <= r < n && v == r + n * q
    ensures v % n == r && v / n == q && v % n == v - n * (v / n)
  {
    var r', q' := v % n, v / n;
    assert v == n * q' + r';
    SameMultiple(n, q, q', r, r');
  }

  lemma SameMultiple(n: int, q: int, q': int, r: int, r': int)
    requires 0 <= r < n && 0 <= r' < n && r + n * q == r' + n * q'
    ensures q == q' && r == r'
  {
    if q < q' {
      MultiplesApart(n, q, q', q' - q - 1);
    } else if q' < q {
      MultiplesApart(n, q', q, q - q' - 1);
    }
  }

  lemma MultiplesApart(n: int, q: int, q': int, more: int)
    requires n > 0 && more >= 0 && q' == q + 1 + more
    ensures n * q + n <= n * q'
  {
    assert n * more >= 0;
    assert n * (q + 1 + more) == n * q + n + n * more;
  }
}
