/** Merge sort by a real-valued key: the O(N log N) sorting step that both the
    collision analysis and the borrowing computation start with. */
module Sorting {

  ghost predicate Sorted<T>(s: seq<T>, key: T -> real) {
    forall i, j :: 0 <= i < j < |s| ==> key(s[i]) <= key(s[j])
  }

  function Merge<T>(a: seq<T>, b: seq<T>, key: T -> real): seq<T> {
    if a == [] then b
    else if b == [] then a
    else if key(a[0]) <= key(b[0]) then [a[0]] + Merge(a[1..], b, key)
    else [b[0]] + Merge(a, b[1..], key)
  }

  function MergeSort<T>(s: seq<T>, key: T -> real): seq<T>
    decreases |s|
  {
    if |s| <= 1 then s
    else Merge(MergeSort(s[..|s| / 2], key), MergeSort(s[|s| / 2..], key), key)
  }

  ghost predicate AllAtLeast<T>(s: seq<T>, key: T -> real, low: real) {
    forall i :: 0 <= i < |s| ==> low <= key(s[i])
  }

  lemma ConsSorted<T>(x: T, s: seq<T>, key: T -> real)
    requires Sorted(s, key) && AllAtLeast(s, key, key(x))
    ensures Sorted([x] + s, key)
  {
  }

  lemma {:induction false} MergeAtLeast<T>(a: seq<T>, b: seq<T>, key: T -> real, low: real)
    requires AllAtLeast(a, key, low) && AllAtLeast(b, key, low)
    ensures AllAtLeast(Merge(a, b, key), key, low)
    decreases |a| + |b|
  {
    if a != [] && b != [] {
      if key(a[0]) <= key(b[0]) {
        MergeAtLeast(a[1..], b, key, low);
      } else {
        MergeAtLeast(a, b[1..], key, low);
      }
    }
  }

  lemma {:induction false} MergeSorted<T>(a: seq<T>, b: seq<T>, key: T -> real)
    requires Sorted(a, key) && Sorted(b, key)
    ensures Sorted(Merge(a, b, key), key)
    decreases |a| + |b|
  {
    if a != [] && b != [] {
      if key(a[0]) <= key(b[0]) {
        MergeSorted(a[1..], b, key);
        MergeAtLeast(a[1..], b, key, key(a[0]));
        ConsSorted(a[0], Merge(a[1..], b, key), key);
      } else {
        MergeSorted(a, b[1..], key);
        MergeAtLeast(a, b[1..], key, key(b[0]));
        ConsSorted(b[0], Merge(a, b[1..], key), key);
      }
    }
  }

  lemma ConsMultiset<T>(x: T, s: seq<T>)
    ensures multiset([x] + s) == multiset{x} + multiset(s)
  {
  }

  lemma {:induction false} MergeMultiset<T>(a: seq<T>, b: seq<T>, key: T -> real)
    ensures multiset(Merge(a, b, key)) == multiset(a) + multiset(b)
    decreases |a| + |b|
  {
    if a != [] && b != [] {
      if key(a[0]) <= key(b[0]) {
        MergeMultiset(a[1..], b, key);
        ConsMultiset(a[0], Merge(a[1..], b, key));
        ConsMultiset(a[0], a[1..]);
        assert a == [a[0]] + a[1..];
      } else {
        MergeMultiset(a, b[1..], key);
        ConsMultiset(b[0], Merge(a, b[1..], key));
        ConsMultiset(b[0], b[1..]);
        assert b == [b[0]] + b[1..];
      }
    }
  }

  /** Sorting yields an ascending permutation of its input. */
  lemma {:induction false} MergeSortCorrect<T>(s: seq<T>, key: T -> real)
    ensures Sorted(MergeSort(s, key), key)
    ensures multiset(MergeSort(s, key)) == multiset(s)
    decreases |s|
  {
    if |s| > 1 {
      var lo, hi := s[..|s| / 2], s[|s| / 2..];
      MergeSortCorrect(lo, key);
      MergeSortCorrect(hi, key);
      MergeSorted(MergeSort(lo, key), MergeSort(hi, key), key);
      MergeMultiset(MergeSort(lo, key), MergeSort(hi, key), key);
      assert s == lo + hi;
    }
  }

  /** The sum of a value attached to every element. */
  function Weigh<T>(s: seq<T>, f: T -> real): real {
    if s == [] then 0.0 else f(s[0]) + Weigh(s[1..], f)
  }

  lemma {:induction false} WeighConcat<T>(a: seq<T>, b: seq<T>, f: T -> real)
    ensures Weigh(a + b, f) == Weigh(a, f) + Weigh(b, f)
  {
    if a == [] {
      assert a + b == b;
    } else {
      assert (a + b)[1..] == a[1..] + b;
      WeighConcat(a[1..], b, f);
    }
  }

  lemma WithoutFirst<T>(a: seq<T>)
    requires a != []
    ensures multiset(a[1..]) == multiset(a) - multiset{a[0]}
  {
    assert a == [a[0]] + a[1..];
  }

  lemma WithoutIndex<T>(b: seq<T>, k: nat)
    requires k < |b|
    ensures multiset(b[..k] + b[k + 1..]) == multiset(b) - multiset{b[k]}
  {
    assert b == b[..k] + ([b[k]] + b[k + 1..]);
  }

  /** Such a sum does not depend on the order of the elements. */
  lemma {:induction false} WeighPermutation<T>(a: seq<T>, b: seq<T>, f: T -> real)
    requires multiset(a) == multiset(b)
    ensures Weigh(a, f) == Weigh(b, f)
    decreases |a|
  {
    if a == [] {
      assert |multiset(b)| == 0;
    } else {
      assert a[0] in multiset(a);
      assert a[0] in multiset(b);
      var k :| 0 <= k < |b| && b[k] == a[0];
      var b' := b[..k] + b[k + 1..];
      WithoutFirst(a);
      WithoutIndex(b, k);
      assert b == b[..k] + ([b[k]] + b[k + 1..]);
      WeighPermutation(a[1..], b', f);
      WeighConcat(b[..k], b[k + 1..], f);
      WeighConcat(b[..k], [b[k]] + b[k + 1..], f);
    }
  }

  lemma {:induction false} WeighExt<T>(s: seq<T>, f: T -> real, g: T -> real)
    requires forall i :: 0 <= i < |s| ==> f(s[i]) == g(s[i])
    ensures Weigh(s, f) == Weigh(s, g)
  {
    if s != [] {
      assert forall i :: 0 <= i < |s[1..]| ==> s[1..][i] == s[i + 1];
      WeighExt(s[1..], f, g);
    }
  }

  lemma {:induction false} WeighMono<T>(s: seq<T>, f: T -> real, g: T -> real)
    requires forall i :: 0 <= i < |s| ==> f(s[i]) <= g(s[i])
    ensures Weigh(s, f) <= Weigh(s, g)
  {
    if s != [] {
      assert forall i :: 0 <= i < |s[1..]| ==> s[1..][i] == s[i + 1];
      WeighMono(s[1..], f, g);
    }
  }

  /** Pointwise ordered values with equal sums are equal. */
  lemma {:induction false} WeighTight<T>(s: seq<T>, f: T -> real, g: T -> real)
    requires forall i :: 0 <= i < |s| ==> f(s[i]) <= g(s[i])
    requires Weigh(s, f) >= Weigh(s, g)
    ensures forall i :: 0 <= i < |s| ==> f(s[i]) == g(s[i])
  {
    if s != [] {
      var rest := s[1..];
      assert forall i :: 0 <= i < |rest| ==> rest[i] == s[i + 1];
      WeighMono(rest, f, g);
      WeighTight(rest, f, g);
      forall i | 0 <= i < |s|
        ensures f(s[i]) == g(s[i])
      {
        if i > 0 {
          assert s[i] == rest[i - 1];
        }
      }
    }
  }

  lemma {:induction false} WeighZero<T>(s: seq<T>, f: T -> real)
    requires forall i :: 0 <= i < |s| ==> f(s[i]) == 0.0
    ensures Weigh(s, f) == 0.0
  {
    if s != [] {
      assert forall i :: 0 <= i < |s[1..]| ==> s[1..][i] == s[i + 1];
      WeighZero(s[1..], f);
    }
  }

  lemma {:induction false} WeighAffine<T>(s: seq<T>, c: real, f: T -> real, g: T -> real, h: T -> real)
    requires forall i :: 0 <= i < |s| ==> h(s[i]) == c * f(s[i]) + g(s[i])
    ensures Weigh(s, h) == c * Weigh(s, f) + Weigh(s, g)
  {
    if s != [] {
      var rest := s[1..];
      assert forall i :: 0 <= i < |rest| ==> rest[i] == s[i + 1];
      WeighAffine(rest, c, f, g, h);
      AddScaled(c, f(s[0]), Weigh(rest, f));
    }
  }

  lemma AddScaled(c: real, x: real, y: real)
    ensures c * x + c * y == c * (x + y)
  {
  }

  lemma {:induction false} WeighAffineAs<T>(s: seq<T>, c: real, f: T -> real, g: T -> real, h: T -> real, sum: real)
    requires forall i :: 0 <= i < |s| ==> h(s[i]) == c * f(s[i]) + g(s[i])
    requires sum == Weigh(s, f)
    ensures Weigh(s, h) == c * sum + Weigh(s, g)
  {
    WeighAffine(s, c, f, g, h);
  }
}
