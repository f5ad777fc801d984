/** Sums and maxima of a figure over a sequence. */
module Sums {
  import opened Sorting

  ghost function SumOf<T>(xs: seq<T>, f: T -> int): int {
    if xs == [] then 0 else f(xs[0]) + SumOf(xs[1..], f)
  }

  lemma {:induction false} SumSnoc<T>(xs: seq<T>, x: T, f: T -> int)
    ensures SumOf(xs + [x], f) == SumOf(xs, f) + f(x)
  {
    if xs != [] {
      SumSnoc(xs[1..], x, f);
      assert (xs + [x])[1..] == xs[1..] + [x];
    }
  }

  lemma {:induction false} SumInsert<T>(x: T, ys: seq<T>, leq: (T, T) -> bool, f: T -> int)
    ensures SumOf(Insert(x, ys, leq), f) == f(x) + SumOf(ys, f)
  {
    if ys == [] {
    } else if leq(x, ys[0]) {
      assert ([x] + ys)[1..] == ys;
    } else {
      SumInsert(x, ys[1..], leq, f);
      assert Insert(x, ys, leq)[1..] == Insert(x, ys[1..], leq);
    }
  }

  lemma {:induction false} SumSort<T>(xs: seq<T>, leq: (T, T) -> bool, f: T -> int)
    ensures SumOf(StableSort(xs, leq), f) == SumOf(xs, f)
  {
    if xs != [] {
      SumSort(xs[1..], leq, f);
      SumInsert(xs[0], StableSort(xs[1..], leq), leq, f);
    }
  }

  lemma {:induction false} SumPlus<T>(xs: seq<T>, f: T -> int, g: T -> int, h: T -> int)
    requires forall i | 0 <= i < |xs| :: h(xs[i]) == f(xs[i]) + g(xs[i])
    ensures SumOf(xs, h) == SumOf(xs, f) + SumOf(xs, g)
  {
    if xs != [] { SumPlus(xs[1..], f, g, h); }
  }

  function Only<T(==)>(x: T, c: int): T -> int { y => if y == x then c else 0 }

  lemma {:induction false} SumOnly<T(!new)>(xs: seq<T>, x: T, c: int)
    requires Distinct(xs)
    ensures SumOf(xs, Only(x, c)) == if x in xs then c else 0
  {
    if xs != [] {
      SumOnly(xs[1..], x, c);
      assert xs == [xs[0]] + xs[1..];
    }
  }

  /** Sums that dominate term by term dominate, and agree exactly when all terms do. */
  lemma {:induction false} SumsCompare<T>(xs: seq<T>, f: T -> int, g: T -> int)
    requires forall i | 0 <= i < |xs| :: f(xs[i]) >= g(xs[i])
    ensures SumOf(xs, f) >= SumOf(xs, g)
    ensures SumOf(xs, f) == SumOf(xs, g) <==> forall i | 0 <= i < |xs| :: f(xs[i]) == g(xs[i])
  {
    if xs != [] {
      SumsCompare(xs[1..], f, g);
      assert forall i | 0 < i < |xs| :: xs[i] == xs[1..][i - 1];
    }
  }

  lemma {:induction false} SumsSame<T>(xs: seq<T>, f: T -> int, g: T -> int)
    requires forall i | 0 <= i < |xs| :: f(xs[i]) == g(xs[i])
    ensures SumOf(xs, f) == SumOf(xs, g)
  {
    if xs != [] {
      assert f(xs[0]) == g(xs[0]);
      SumsSame(xs[1..], f, g);
    }
  }

  /** `m` is the largest figure, or zero if none is larger. */
  ghost predicate IsMax<T>(xs: seq<T>, f: T -> int, m: int) {
    && m >= 0 && (forall i | 0 <= i < |xs| :: f(xs[i]) <= m)
    && (m == 0 || exists i :: 0 <= i < |xs| && f(xs[i]) == m)
  }
}
