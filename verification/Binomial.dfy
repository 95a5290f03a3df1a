/** Binomial coefficients: the specification of the KEP's `choose`, Vandermonde's
    identity, and their meaning as counts of subsets. */
module Binomial {

  /** The number of subsets of size m of a set of size n, by Pascal's rule. */
  function Choose(n: nat, m: nat): nat {
    if m == 0 then 1
    else if n == 0 then 0
    else Choose(n - 1, m - 1) + Choose(n - 1, m)
  }

  lemma {:induction false} ChooseBeyond(n: nat, m: nat)
    requires m > n
    ensures Choose(n, m) == 0
  {
    if n > 0 {
      ChooseBeyond(n - 1, m - 1);
      ChooseBeyond(n - 1, m);
    }
  }

  lemma {:induction false} ChooseFull(n: nat)
    ensures Choose(n, n) == 1
  {
    if n > 0 {
      ChooseFull(n - 1);
      ChooseBeyond(n - 1, n);
    }
  }

  lemma {:induction false} ChoosePositive(n: nat, m: nat)
    requires m <= n
    ensures Choose(n, m) >= 1
  {
    if m == n {
      ChooseFull(n);
    } else if m > 0 {
      ChoosePositive(n - 1, m - 1);
    }
  }

  lemma {:induction false} ChooseMonotone(n: nat, n': nat, m: nat)
    requires n <= n'
    ensures Choose(n, m) <= Choose(n', m)
    decreases n'
  {
    if m > 0 && n < n' {
      ChooseMonotone(n, n' - 1, m);
    }
  }

  /** The identity behind each iteration of the `choose` loop. */
  lemma {:induction false} ChooseStep(n: nat, m: nat)
    ensures Choose(n, m + 1) * (m + 1) == Choose(n, m) * (n - m)
  {
    if n == 0 {
      if m > 0 { ChooseBeyond(0, m); }
    } else if m == 0 {
      ChooseStep(n - 1, 0);
    } else {
      ChooseStep(n - 1, m);
      ChooseStep(n - 1, m - 1);
      StepAlgebra(Choose(n - 1, m - 1), Choose(n - 1, m), Choose(n - 1, m + 1), n, m);
    }
  }

  lemma StepAlgebra(a: int, b: int, c: int, n: int, m: int)
    requires c * (m + 1) == b * (n - 1 - m)
    requires b * m == a * (n - m)
    ensures (b + c) * (m + 1) == (a + b) * (n - m)
  {
    calc {
      (b + c) * (m + 1);
      b * (m + 1) + b * (n - 1 - m);
      b * m + b * (n - m);
      (a + b) * (n - m);
    }
  }

  /** Absorption: m * C(n, m) = n * C(n-1, m-1). */
  lemma ChooseAbsorb(n: nat, m: nat)
    requires n > 0 && m > 0
    ensures m * Choose(n, m) == n * Choose(n - 1, m - 1)
  {
    ChooseStep(n - 1, m - 1);
    var a, b := Choose(n - 1, m - 1), Choose(n - 1, m);
    AbsorbAlgebra(a, b, n, m);
  }

  lemma AbsorbAlgebra(a: int, b: int, n: int, m: int)
    requires b * m == a * (n - m)
    ensures m * (a + b) == n * a
  {
    calc {
      m * (a + b);
      a * m + b * m;
      a * m + a * (n - m);
      n * a;
    }
  }

  /** The k-th partial sum of Vandermonde's convolution. */
  function Convolution(a: nat, b: nat, h: nat, k: nat): nat
    requires k <= h
    decreases k
  {
    Choose(a, k) * Choose(b, h - k) + if k == 0 then 0 else Convolution(a, b, h, k - 1)
  }

  lemma {:induction false} ConvolutionStep(a: nat, b: nat, h: nat, k: nat)
    requires k <= h
    ensures Convolution(a + 1, b, h, k)
         == Convolution(a, b, h, k) + if k == 0 then 0 else Convolution(a, b, h - 1, k - 1)
    decreases k
  {
    if k > 0 {
      ConvolutionStep(a, b, h, k - 1);
      Distribute(Choose(a, k - 1), Choose(a, k), Choose(b, h - k));
      assert h - 1 - (k - 1) == h - k;
    }
  }

  lemma Distribute(x: int, y: int, z: int)
    ensures (x + y) * z == x * z + y * z
  {
  }

  lemma {:induction false} ConvolutionOfZero(b: nat, h: nat, k: nat)
    requires k <= h
    ensures Convolution(0, b, h, k) == Choose(b, h)
    decreases k
  {
    if k > 0 {
      ConvolutionOfZero(b, h, k - 1);
    }
  }

  /** Vandermonde's identity. */
  lemma {:induction false} Vandermonde(a: nat, b: nat, h: nat)
    ensures Convolution(a, b, h, h) == Choose(a + b, h)
  {
    if a == 0 {
      ConvolutionOfZero(b, h, h);
    } else {
      Vandermonde(a - 1, b, h);
      ConvolutionStep(a - 1, b, h, h);
      if h > 0 {
        Vandermonde(a - 1, b, h - 1);
      }
    }
  }

  /** The k-th partial sum of the convolution with each term weighted by its index. */
  function IndexedConvolution(a: nat, b: nat, h: nat, k: nat): nat
    requires k <= h
    decreases k
  {
    k * (Choose(a, k) * Choose(b, h - k)) + if k == 0 then 0 else IndexedConvolution(a, b, h, k - 1)
  }

  lemma {:induction false} IndexedConvolutionIs(a: nat, b: nat, h: nat, k: nat)
    requires a > 0 && 0 < k <= h
    ensures IndexedConvolution(a, b, h, k) == a * Convolution(a - 1, b, h - 1, k - 1)
    decreases k
  {
    var x, y := Choose(a - 1, k - 1), Choose(b, h - k);
    assert h - 1 - (k - 1) == h - k;
    ChooseAbsorb(a, k);
    AbsorbTerm(k, Choose(a, k), a, x, y);
    if k > 1 {
      IndexedConvolutionIs(a, b, h, k - 1);
      DistributeLeft(a, x * y, Convolution(a - 1, b, h - 1, k - 2));
    } else {
      assert IndexedConvolution(a, b, h, 0) == 0;
    }
  }

  lemma AbsorbTerm(k: int, c: int, a: int, x: int, y: int)
    requires k * c == a * x
    ensures k * (c * y) == a * (x * y)
  {
    assert k * (c * y) == (k * c) * y;
  }

  lemma DistributeLeft(z: int, x: int, y: int)
    ensures z * (x + y) == z * x + z * y
  {
  }

  lemma {:induction false} IndexedConvolutionOfZero(b: nat, h: nat, k: nat)
    requires k <= h
    ensures IndexedConvolution(0, b, h, k) == 0
    decreases k
  {
    if k > 0 {
      IndexedConvolutionOfZero(b, h, k - 1);
    }
  }

  /** The mean of the hypergeometric distribution, cleared of denominators. */
  lemma {:induction false} HypergeometricMean(a: nat, b: nat, h: nat)
    requires a + b > 0
    ensures (a + b) * IndexedConvolution(a, b, h, h) == (a * h) * Choose(a + b, h)
  {
    if a == 0 {
      IndexedConvolutionOfZero(b, h, h);
    } else if h > 0 {
      IndexedConvolutionIs(a, b, h, h);
      Vandermonde(a - 1, b, h - 1);
      ChooseAbsorb(a + b, h);
      MeanAlgebra(a, a + b, h, Choose(a + b - 1, h - 1), Choose(a + b, h));
    }
  }

  lemma MeanAlgebra(a: int, n: int, h: int, x: int, c: int)
    requires h * c == n * x
    ensures n * (a * x) == (a * h) * c
  {
    calc {
      n * (a * x);
      a * (n * x);
      a * (h * c);
      (a * h) * c;
    }
  }

  // ----- meaning: counting subsets -----

  /** All subsets of s that have exactly m elements. */
  ghost function Subsets<T(!new)>(s: set<T>, m: nat): set<set<T>> {
    set t | t <= s && |t| == m
  }

  ghost function Image<X(!new), Y>(f: X -> Y, s: set<X>): set<Y> {
    set a | a in s :: f(a)
  }

  /** The image of a finite set under an injective function has the same size. */
  lemma {:induction false} ImageSize<X(!new), Y>(f: X -> Y, s: set<X>)
    requires forall a, b :: a in s && b in s && f(a) == f(b) ==> a == b
    ensures |Image(f, s)| == |s|
    decreases s
  {
    if s == {} {
      assert Image(f, s) == {};
    } else {
      var x :| x in s;
      var rest := s - {x};
      ImageSize(f, rest);
      assert Image(f, s) == Image(f, rest) + {f(x)};
    }
  }

  /** n copies of k, added up: a product that stays linear while sets are being counted. */
  function Times(n: nat, k: nat): nat {
    if n == 0 then 0 else Times(n - 1, k) + k
  }

  lemma {:induction false} TimesIs(n: nat, k: nat)
    ensures Times(n, k) == n * k
  {
    if n > 0 {
      TimesIs(n - 1, k);
      Distribute(n - 1, 1, k);
    }
  }

  ghost function Pairs<X(!new), Y(!new)>(s: set<X>, fiber: X -> set<Y>): set<(X, Y)> {
    set a, b | a in s && b in fiber(a) :: (a, b)
  }

  /** A family of equally large fibers over s has |s| * k members. */
  lemma {:induction false} PairsSize<X(!new), Y(!new)>(s: set<X>, fiber: X -> set<Y>, k: nat)
    requires forall a :: a in s ==> |fiber(a)| == k
    ensures |Pairs(s, fiber)| == Times(|s|, k)
    decreases s
  {
    if s == {} {
      assert Pairs(s, fiber) == {};
    } else {
      var x :| x in s;
      var rest := s - {x};
      PairsSize(rest, fiber, k);
      var tag := (b: Y) => (x, b);
      var row := Image(tag, fiber(x));
      ImageSize(tag, fiber(x));
      assert Pairs(s, fiber) == Pairs(rest, fiber) + row;
      assert Pairs(rest, fiber) !! row;
      assert |s| == |rest| + 1;
    }
  }

  lemma PartSize<T>(a: set<T>, b: set<T>)
    requires a <= b
    ensures |b| == |a| + |b - a|
  {
    assert b == a + (b - a);
  }

  /** Choose(n, m) counts the m-element subsets of an n-element set. */
  lemma {:induction false} SubsetCount<T(!new)>(s: set<T>, m: nat)
    ensures |Subsets(s, m)| == Choose(|s|, m)
    decreases s
  {
    if m == 0 {
      assert Subsets(s, 0) == {{}};
    } else if s == {} {
      assert Subsets(s, m) == {};
    } else {
      var x :| x in s;
      var rest := s - {x};
      SubsetCount(rest, m);
      SubsetCount(rest, m - 1);
      SubsetsWith(s, x, m);
      PartSize(Subsets(rest, m), Subsets(s, m));
    }
  }

  ghost function Grown<T(!new)>(sets: set<set<T>>, x: T): set<set<T>> {
    set t | t in sets :: t + {x}
  }

  lemma GrownSize<T(!new)>(sets: set<set<T>>, x: T)
    requires forall t :: t in sets ==> x !in t
    ensures |Grown(sets, x)| == |sets|
  {
    var grow := (t: set<T>) => t + {x};
    forall a, b | a in sets && b in sets && grow(a) == grow(b)
      ensures a == b
    {
      assert a == grow(a) - {x} && b == grow(b) - {x};
    }
    ImageSize(grow, sets);
    assert Grown(sets, x) == Image(grow, sets);
  }

  /** Subsets that contain x are the subsets one smaller of the rest, grown by x. */
  lemma SubsetsWith<T(!new)>(s: set<T>, x: T, m: nat)
    requires x in s && m > 0
    ensures Subsets(s - {x}, m) <= Subsets(s, m)
    ensures |Subsets(s, m) - Subsets(s - {x}, m)| == |Subsets(s - {x}, m - 1)|
  {
    var rest := s - {x};
    forall t | t in Subsets(s, m) && t !in Subsets(rest, m)
      ensures t in Grown(Subsets(rest, m - 1), x)
    {
      assert t - {x} in Subsets(rest, m - 1) && t == t - {x} + {x};
    }
    forall t0 | t0 in Subsets(rest, m - 1)
      ensures t0 + {x} in Subsets(s, m) && t0 + {x} !in Subsets(rest, m)
    {
      assert x in t0 + {x};
    }
    assert Subsets(s, m) - Subsets(rest, m) == Grown(Subsets(rest, m - 1), x);
    GrownSize(Subsets(rest, m - 1), x);
  }
}
