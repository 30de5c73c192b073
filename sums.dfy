/**
 * Sums of real numbers over sequences, the arithmetic behind a pandas
 * column `.sum()` once floating point is replaced by exact reals. The
 * summand is given as a function of the elements of the sequence.
 */
module Sums {

  function SumOf<T>(f: T -> real, s: seq<T>): real
  {
    if s == [] then 0.0 else f(s[0]) + SumOf(f, s[1..])
  }

  lemma {:induction false} SumOfConcat<T>(f: T -> real, a: seq<T>, b: seq<T>)
    ensures SumOf(f, a + b) == SumOf(f, a) + SumOf(f, b)
  {
    if a != [] {
      assert (a + b)[1..] == a[1..] + b;
      SumOfConcat(f, a[1..], b);
    } else {
      assert a + b == b;
    }
  }

  /** The sum of s is the summand at index j plus the sum of the rest. */
  lemma SumOfRemove<T>(f: T -> real, s: seq<T>, j: int)
    requires 0 <= j < |s|
    ensures SumOf(f, s) == f(s[j]) + SumOf(f, s[..j] + s[j + 1..])
  {
    var l, x, r := s[..j], s[j], s[j + 1..];
    assert s == (l + [x]) + r;
    SumOfConcat(f, l + [x], r);
    SumOfConcat(f, l, [x]);
    SumOfSingleton(f, x);
    SumOfConcat(f, l, r);
  }

  lemma SumOfSingleton<T>(f: T -> real, x: T)
    ensures SumOf(f, [x]) == f(x)
  {
    assert [x][1..] == [];
  }

  /** Reordering the summands does not change the sum. */
  lemma {:induction false} SumOfPermutation<T>(f: T -> real, a: seq<T>, b: seq<T>)
    requires multiset(a) == multiset(b)
    ensures SumOf(f, a) == SumOf(f, b)
    decreases |a|
  {
    if a == [] {
      assert |b| == |multiset(b)| == 0;
    } else {
      assert a[0] in multiset(b);
      var j :| 0 <= j < |b| && b[j] == a[0];
      var b' := b[..j] + b[j + 1..];
      TailsPermuted(a, b, j);
      SumOfPermutation(f, a[1..], b');
      SumOfRemove(f, b, j);
    }
  }

  /** Taking a's first element out of a and one equal element out of b keeps them permutations. */
  lemma TailsPermuted<T>(a: seq<T>, b: seq<T>, j: int)
    requires multiset(a) == multiset(b) && a != []
    requires 0 <= j < |b| && b[j] == a[0]
    ensures multiset(a[1..]) == multiset(b[..j] + b[j + 1..])
  {
    var x, l, r := a[0], b[..j], b[j + 1..];
    assert a == [x] + a[1..];
    assert multiset(a) == multiset{x} + multiset(a[1..]);
    assert b == l + [x] + r;
    assert multiset(b) == multiset(l) + multiset{x} + multiset(r);
    assert multiset(l + r) == multiset(l) + multiset(r);
    var A, L, R, X := multiset(a[1..]), multiset(l), multiset(r), multiset{x};
    assert X + A == L + X + R;
    forall e ensures A[e] == (L + R)[e] {
      assert (X + A)[e] == X[e] + A[e];
      assert (L + X + R)[e] == L[e] + X[e] + R[e];
    }
    assert A == L + R;
  }
}
