/** Stable sorting as Python's `sorted`, `list.sort` and `heapq.nsmallest` perform it. */
module Sorting {

  /** Any two elements of `xs` are comparable. */
  ghost predicate TotalOn<T>(xs: seq<T>, leq: (T, T) -> bool) {
    forall a, b | a in xs && b in xs :: leq(a, b) || leq(b, a)
  }

  ghost predicate TransitiveOn<T>(xs: seq<T>, leq: (T, T) -> bool) {
    forall a, b, c | a in xs && b in xs && c in xs && leq(a, b) && leq(b, c) :: leq(a, c)
  }

  ghost predicate AntisymmetricOn<T>(xs: seq<T>, leq: (T, T) -> bool) {
    forall a, b | a in xs && b in xs && leq(a, b) && leq(b, a) :: a == b
  }

  ghost predicate SortedBy<T>(xs: seq<T>, leq: (T, T) -> bool) {
    forall i, j | 0 <= i < j < |xs| :: leq(xs[i], xs[j])
  }

  /** Places `x` before the first element that is not smaller, so an earlier tie stays earlier. */
  function Insert<T>(x: T, ys: seq<T>, leq: (T, T) -> bool): (r: seq<T>)
    ensures multiset(r) == multiset([x]) + multiset(ys)
    ensures |r| == |ys| + 1
  {
    if ys == [] then [x]
    else if leq(x, ys[0]) then [x] + ys
    else
      assert ys == [ys[0]] + ys[1..];
      [ys[0]] + Insert(x, ys[1..], leq)
  }

  function StableSort<T>(xs: seq<T>, leq: (T, T) -> bool): (r: seq<T>)
    ensures multiset(r) == multiset(xs)
    ensures |r| == |xs|
  {
    if xs == [] then []
    else
      assert xs == [xs[0]] + xs[1..];
      Insert(xs[0], StableSort(xs[1..], leq), leq)
  }

  lemma SameElements<T>(xs: seq<T>, ys: seq<T>)
    requires multiset(xs) == multiset(ys)
    ensures |xs| == |ys|
    ensures forall i | 0 <= i < |xs| :: xs[i] in ys
    ensures forall i | 0 <= i < |ys| :: ys[i] in xs
  {
    assert |xs| == |multiset(xs)| && |ys| == |multiset(ys)|;
    forall i | 0 <= i < |xs| ensures xs[i] in ys {
      assert xs[i] in multiset(xs) && xs[i] in multiset(ys);
    }
    forall i | 0 <= i < |ys| ensures ys[i] in xs {
      assert ys[i] in multiset(ys) && ys[i] in multiset(xs);
    }
  }

  lemma {:induction false} InsertSorted<T>(x: T, ys: seq<T>, leq: (T, T) -> bool)
    requires SortedBy(ys, leq)
    requires TotalOn([x] + ys, leq) && TransitiveOn([x] + ys, leq)
    ensures SortedBy(Insert(x, ys, leq), leq)
  {
    if ys != [] {
      var all := [x] + ys;
      assert x == all[0];
      assert forall y | y in ys :: y in all;
      assert ys[0] in ys;
      if leq(x, ys[0]) {
        forall j | 0 <= j < |ys| ensures leq(x, ys[j]) {
          assert ys[j] in ys;
        }
      } else {
        assert forall y | y in [x] + ys[1..] :: y in all;
        InsertSorted(x, ys[1..], leq);
        var rest := Insert(x, ys[1..], leq);
        SameElements(rest, [x] + ys[1..]);
        forall j | 0 <= j < |rest| ensures leq(ys[0], rest[j]) {
          assert rest[j] in rest;
          if rest[j] != x {
            assert rest[j] in [x] + ys[1..];
            assert rest[j] in ys[1..];
            var k :| 0 <= k < |ys[1..]| && ys[1..][k] == rest[j];
            assert leq(ys[0], ys[k + 1]);
          }
        }
      }
    }
  }

  /** `sorted` returns its input in order. */
  lemma {:induction false} StableSortSorted<T>(xs: seq<T>, leq: (T, T) -> bool)
    requires TotalOn(xs, leq) && TransitiveOn(xs, leq)
    ensures SortedBy(StableSort(xs, leq), leq)
  {
    if xs != [] {
      assert forall y | y in xs[1..] :: y in xs;
      StableSortSorted(xs[1..], leq);
      var rest := StableSort(xs[1..], leq);
      SameElements(rest, xs[1..]);
      forall y | y in [xs[0]] + rest ensures y in xs {
        if y != xs[0] { assert y in rest; assert y in xs[1..]; assert y in xs; }
      }
      InsertSorted(xs[0], rest, leq);
    }
  }

  /** Two sorted arrangements of the same elements are one sequence when ties are impossible. */
  lemma {:induction false} SortedUnique<T>(xs: seq<T>, ys: seq<T>, leq: (T, T) -> bool)
    requires multiset(xs) == multiset(ys)
    requires SortedBy(xs, leq) && SortedBy(ys, leq) && AntisymmetricOn(xs, leq)
    ensures xs == ys
  {
    SameElements(xs, ys);
    if xs != [] {
      HeadsAgree(xs, ys, leq);
      TailsAgree(xs, ys);
      var xt, yt := xs[1..], ys[1..];
      assert SortedBy(xt, leq) && SortedBy(yt, leq);
      assert AntisymmetricOn(xt, leq) by {
        forall y | y in xt ensures y in xs {}
      }
      SortedUnique(xt, yt, leq);
      assert xs == [xs[0]] + xt && ys == [ys[0]] + yt;
    }
  }

  lemma TailsAgree<T>(xs: seq<T>, ys: seq<T>)
    requires multiset(xs) == multiset(ys) && |xs| > 0 && |ys| > 0 && xs[0] == ys[0]
    ensures multiset(xs[1..]) == multiset(ys[1..])
  {
    assert xs == [xs[0]] + xs[1..] && ys == [ys[0]] + ys[1..];
    assert multiset(xs[1..]) == multiset(xs) - multiset([xs[0]]);
  }

  lemma HeadsAgree<T>(xs: seq<T>, ys: seq<T>, leq: (T, T) -> bool)
    requires multiset(xs) == multiset(ys) && |xs| == |ys| > 0
    requires SortedBy(xs, leq) && SortedBy(ys, leq) && AntisymmetricOn(xs, leq)
    ensures xs[0] == ys[0]
  {
    SameElements(xs, ys);
    assert xs[0] in xs && ys[0] in ys;
    var i :| 0 <= i < |xs| && xs[i] == ys[0];
    var j :| 0 <= j < |ys| && ys[j] == xs[0];
    if i != 0 && j != 0 {
      assert leq(xs[0], xs[i]) && leq(ys[0], ys[j]);
    }
  }

  /** Sorting forgets the order its input arrived in, provided the order has no ties. */
  lemma SortForgetsOrder<T>(xs: seq<T>, ys: seq<T>, leq: (T, T) -> bool)
    requires multiset(xs) == multiset(ys)
    requires TotalOn(xs, leq) && TransitiveOn(xs, leq) && AntisymmetricOn(xs, leq)
    ensures StableSort(xs, leq) == StableSort(ys, leq)
  {
    SameElements(xs, ys);
    StableSortSorted(xs, leq);
    StableSortSorted(ys, leq);
    SameElements(xs, StableSort(xs, leq));
    assert AntisymmetricOn(StableSort(xs, leq), leq);
    SortedUnique(StableSort(xs, leq), StableSort(ys, leq), leq);
  }

  function Filter<T>(xs: seq<T>, keep: T -> bool): seq<T> {
    if xs == [] then []
    else (if keep(xs[0]) then [xs[0]] else []) + Filter(xs[1..], keep)
  }

  lemma {:induction false} FilterSound<T>(xs: seq<T>, keep: T -> bool, i: nat)
    requires i < |Filter(xs, keep)|
    ensures Filter(xs, keep)[i] in xs && keep(Filter(xs, keep)[i])
  {
    if keep(xs[0]) {
      if i > 0 { FilterSound(xs[1..], keep, i - 1); }
    } else {
      assert Filter(xs, keep) == Filter(xs[1..], keep);
      FilterSound(xs[1..], keep, i);
    }
  }

  lemma {:induction false} FilterComplete<T>(xs: seq<T>, keep: T -> bool, i: nat)
    requires i < |xs| && keep(xs[i])
    ensures xs[i] in Filter(xs, keep)
  {
    if i > 0 { FilterComplete(xs[1..], keep, i - 1); }
  }

  lemma Filtered<T>(xs: seq<T>, keep: T -> bool)
    ensures forall i | 0 <= i < |Filter(xs, keep)| :: Filter(xs, keep)[i] in xs && keep(Filter(xs, keep)[i])
    ensures forall i | 0 <= i < |xs| && keep(xs[i]) :: xs[i] in Filter(xs, keep)
  {
  }

  lemma {:induction false} FilterNone<T>(xs: seq<T>, keep: T -> bool)
    requires forall i | 0 <= i < |xs| :: !keep(xs[i])
    ensures Filter(xs, keep) == []
  {
    if xs != [] {
      assert !keep(xs[0]) && forall i | 0 <= i < |xs[1..]| :: !keep(xs[1..][i]);
      FilterNone(xs[1..], keep);
    }
  }

  lemma FilterCons<T>(x: T, ys: seq<T>, keep: T -> bool)
    ensures Filter([x] + ys, keep) == (if keep(x) then [x] else []) + Filter(ys, keep)
  {
  }

  lemma {:induction false} FilterSame<T>(xs: seq<T>, f: T -> bool, g: T -> bool)
    requires forall i | 0 <= i < |xs| :: f(xs[i]) <==> g(xs[i])
    ensures Filter(xs, f) == Filter(xs, g)
  {
    if xs != [] {
      assert f(xs[0]) <==> g(xs[0]);
      FilterSame(xs[1..], f, g);
    }
  }

  lemma {:induction false} InsertStable<T>(x: T, ys: seq<T>, leq: (T, T) -> bool, keep: T -> bool)
    requires forall i | 0 <= i < |ys| && keep(x) && keep(ys[i]) :: leq(x, ys[i])
    ensures Filter(Insert(x, ys, leq), keep) == (if keep(x) then [x] else []) + Filter(ys, keep)
  {
    if ys == [] {
    } else if leq(x, ys[0]) {
      FilterCons(x, ys, keep);
    } else {
      var y, tail := ys[0], ys[1..];
      InsertStable(x, tail, leq, keep);
      assert Insert(x, ys, leq) == [y] + Insert(x, tail, leq);
      assert ys == [y] + tail;
      assert !(keep(x) && keep(y));
      hide *;
      FilterCons(y, Insert(x, tail, leq), keep);
      FilterCons(y, tail, keep);
    }
  }

  /** Elements of one tie class keep their input order. */
  lemma {:induction false} SortIsStable<T>(xs: seq<T>, leq: (T, T) -> bool, keep: T -> bool)
    requires forall x, y | x in xs && y in xs && keep(x) && keep(y) :: leq(x, y)
    ensures Filter(StableSort(xs, leq), keep) == Filter(xs, keep)
  {
    if xs != [] {
      var x, tail := xs[0], xs[1..];
      var rest := StableSort(tail, leq);
      assert StableSort(xs, leq) == Insert(x, rest, leq);
      assert xs == [x] + tail;
      hide *;
      SortIsStable(tail, leq, keep);
      SameElements(rest, tail);
      InsertStable(x, rest, leq, keep);
      FilterCons(x, tail, keep);
    }
  }

  lemma {:induction false} FilterSnoc<T>(xs: seq<T>, x: T, keep: T -> bool)
    ensures Filter(xs + [x], keep) == Filter(xs, keep) + (if keep(x) then [x] else [])
  {
    if xs == [] {
      assert [] + [x] == [x];
    } else {
      FilterSnoc(xs[1..], x, keep);
      assert (xs + [x])[1..] == xs[1..] + [x];
      assert Filter(xs + [x], keep) == (if keep(xs[0]) then [xs[0]] else []) + Filter(xs[1..] + [x], keep);
    }
  }

  ghost predicate Distinct<T>(xs: seq<T>) {
    forall i, j | 0 <= i < j < |xs| :: xs[i] != xs[j]
  }

  lemma {:induction false} FilterDistinct<T>(xs: seq<T>, keep: T -> bool)
    requires Distinct(xs)
    ensures Distinct(Filter(xs, keep))
  {
    if xs != [] {
      assert xs[0] !in xs[1..];
      Filtered(xs[1..], keep);
      FilterDistinct(xs[1..], keep);
    }
  }

  ghost function Elements<T>(xs: seq<T>): set<T> {
    set x | x in xs
  }

  lemma ElementsCons<T>(x: T, xs: seq<T>)
    ensures Elements([x] + xs) == {x} + Elements(xs)
    ensures Distinct([x] + xs) <==> x !in xs && Distinct(xs)
  {
    var all := [x] + xs;
    if x in xs {
      var k :| 0 <= k < |xs| && xs[k] == x;
      assert all[0] == all[k + 1];
    }
    if Distinct(all) {
      forall i, j | 0 <= i < j < |xs| ensures xs[i] != xs[j] {
        assert all[i + 1] != all[j + 1];
      }
    }
  }

  lemma {:induction false} DistinctSize<T>(xs: seq<T>)
    ensures |Elements(xs)| <= |xs|
    ensures Distinct(xs) <==> |Elements(xs)| == |xs|
  {
    if xs != [] {
      var x, rest := xs[0], xs[1..];
      assert xs == [x] + rest;
      DistinctSize(rest);
      ElementsCons(x, rest);
      if x in rest { assert {x} + Elements(rest) == Elements(rest); }
    }
  }

  lemma SortDistinct<T>(xs: seq<T>, leq: (T, T) -> bool)
    requires Distinct(xs)
    ensures Distinct(StableSort(xs, leq))
  {
    var ys := StableSort(xs, leq);
    SameElements(xs, ys);
    DistinctSize(xs);
    assert |Elements(xs)| == |xs| == |ys|;
    assert Elements(xs) == Elements(ys) by {
      forall x | x in xs ensures x in ys {}
      forall x | x in ys ensures x in xs {}
    }
    DistinctSize(ys);
    assert |Elements(ys)| == |ys|;
  }

  // Python's order on strings.

  predicate StringLeq(a: string, b: string) {
    a == [] || (b != [] && (a[0] < b[0] || (a[0] == b[0] && StringLeq(a[1..], b[1..]))))
  }

  lemma {:induction false} StringLeqTotal(a: string, b: string)
    ensures StringLeq(a, b) || StringLeq(b, a)
  {
    if a != [] && b != [] { StringLeqTotal(a[1..], b[1..]); }
  }

  lemma {:induction false} StringLeqTransitive(a: string, b: string, c: string)
    requires StringLeq(a, b) && StringLeq(b, c)
    ensures StringLeq(a, c)
  {
    if a != [] && a[0] == b[0] == c[0] { StringLeqTransitive(a[1..], b[1..], c[1..]); }
  }

  lemma {:induction false} StringLeqAntisymmetric(a: string, b: string)
    requires StringLeq(a, b) && StringLeq(b, a)
    ensures a == b
  {
    if a != [] {
      StringLeqAntisymmetric(a[1..], b[1..]);
      assert a == [a[0]] + a[1..] && b == [b[0]] + b[1..];
    }
  }

  /** `a` is a proper beginning of `b`, or smaller at the first place where they differ. */
  ghost predicate Before(a: string, b: string) {
    a < b || exists k :: 0 <= k < |a| && k < |b| && a[..k] == b[..k] && a[k] < b[k]
  }

  lemma {:induction false} StringLeqExactly(a: string, b: string)
    ensures StringLeq(a, b) <==> a == b || Before(a, b)
  {
    if a != [] && b != [] && a[0] == b[0] {
      StringLeqExactly(a[1..], b[1..]);
      BeforeTails(a, b);
      assert a == [a[0]] + a[1..] && b == [b[0]] + b[1..];
    } else if a != [] && b != [] && a[0] < b[0] {
      assert a[..0] == b[..0];
    } else if a != [] && b != [] {
      if k :| 0 <= k < |a| && k < |b| && a[..k] == b[..k] && a[k] < b[k] {
        assert k > 0 && a[..k][0] == b[..k][0];
      }
    }
  }

  lemma BeforeTails(a: string, b: string)
    requires a != [] && b != [] && a[0] == b[0]
    ensures Before(a, b) <==> Before(a[1..], b[1..])
  {
    if k :| 0 <= k < |a| && k < |b| && a[..k] == b[..k] && a[k] < b[k] {
      assert a[1..][..k - 1] == a[..k][1..] == b[..k][1..] == b[1..][..k - 1];
    }
    if k :| 0 <= k < |a[1..]| && k < |b[1..]| && a[1..][..k] == b[1..][..k] && a[1..][k] < b[1..][k] {
      assert a[..k + 1] == [a[0]] + a[1..][..k] && b[..k + 1] == [b[0]] + b[1..][..k];
      assert a[k + 1] < b[k + 1];
    }
  }
}
