/** Integer microsecond spans, the ticks they cover, and the merging sweep that counts them. */
module Ticks {
  import Sorting

  datatype Span = Span(start: int, end: int) {
    function Length(): int { end - start }
    predicate Holds(t: int) { start <= t < end }
    predicate Contains(inner: Span) { start <= inner.start && inner.end <= end }
  }

  /** Complete events carry a duration that is not negative. */
  ghost predicate Forward(ss: seq<Span>) {
    forall i | 0 <= i < |ss| :: ss[i].start <= ss[i].end
  }

  ghost function Range(s: Span): set<int> {
    set t | s.start <= t < s.end && s.Holds(t)
  }

  /** The ticks covered by at least one of the half-open spans. */
  ghost function TickSet(ss: seq<Span>): set<int> {
    set i, t | 0 <= i < |ss| && t in Range(ss[i]) :: t
  }

  lemma RangeSize(s: Span)
    requires s.start <= s.end
    ensures |Range(s)| == s.Length()
    decreases s.end - s.start
  {
    if s.start < s.end {
      var shorter := Span(s.start, s.end - 1);
      RangeSize(shorter);
      forall t ensures t in Range(s) <==> t in Range(shorter) + {s.end - 1} {
        assert s.Holds(t) <==> shorter.Holds(t) || t == s.end - 1;
      }
      assert Range(s) == Range(shorter) + {s.end - 1};
    } else {
      assert Range(s) == {};
    }
  }

  lemma SubsetSize<T>(a: set<T>, b: set<T>)
    requires a <= b
    ensures |a| <= |b|
    ensures |b - a| == |b| - |a|
  {
  }

  /** The order tuples `(start, end)` sort in. */
  predicate TupleLeq(a: Span, b: Span) {
    a.start < b.start || (a.start == b.start && a.end <= b.end)
  }

  lemma TickSetForgetsOrder(xs: seq<Span>, ys: seq<Span>)
    requires multiset(xs) == multiset(ys)
    ensures TickSet(xs) == TickSet(ys)
    ensures Forward(xs) == Forward(ys)
  {
    Sorting.SameElements(xs, ys);
  }

  lemma TickSetSnoc(ss: seq<Span>, s: Span)
    ensures TickSet(ss + [s]) == TickSet(ss) + Range(s)
  {
    var all := ss + [s];
    forall t ensures t in TickSet(all) <==> t in TickSet(ss) + Range(s) {
      if t in TickSet(ss) {
        var i :| 0 <= i < |ss| && t in Range(ss[i]);
        assert t in Range(all[i]);
      }
      if t in Range(s) { assert t in Range(all[|ss|]); }
    }
  }

  /**
   * The sweep has counted `ticks`, whose last maximal run ends the open `block`; `total` leaves that
   * block out.
   */
  ghost predicate Swept(ticks: set<int>, total: int, block: Span) {
    && block.start <= block.end
    && |ticks| == total + block.Length()
    && Range(block) <= ticks
    && forall t | t in ticks :: t < block.end
  }

  /** A span past the open block closes it and opens the next. */
  lemma CloseBlock(ticks: set<int>, total: int, block: Span, next: Span)
    requires Swept(ticks, total, block) && block.end < next.start <= next.end
    ensures Swept(ticks + Range(next), total + block.Length(), next)
  {
    RangeSize(next);
    assert ticks !! Range(next);
  }

  /** A span that touches the open block adds only the ticks past the end of the block. */
  lemma GrowBlock(ticks: set<int>, total: int, block: Span, next: Span)
    requires Swept(ticks, total, block)
    requires block.start <= next.start <= block.end && next.start <= next.end
    ensures Swept(ticks + Range(next), total, Span(block.start, if block.end < next.end then next.end else block.end))
  {
    GrowTicks(ticks, block, next);
  }

  lemma GrowTicks(ticks: set<int>, block: Span, next: Span)
    requires Range(block) <= ticks && forall t | t in ticks :: t < block.end
    requires block.start <= next.start <= block.end && next.start <= next.end
    ensures var end := if block.end < next.end then next.end else block.end;
            && |ticks + Range(next)| == |ticks| + end - block.end
            && Range(Span(block.start, end)) <= ticks + Range(next)
            && forall t | t in ticks + Range(next) :: t < end
  {
    if next.end <= block.end {
      forall t | t in Range(next) ensures t in ticks {
        assert block.Holds(t);
      }
      assert ticks + Range(next) == ticks;
    } else {
      var extra := Span(block.end, next.end);
      RangeSize(extra);
      forall t ensures t in ticks + Range(next) <==> t in ticks + Range(extra) {
        assert next.Holds(t) <==> (next.start <= t < next.end);
        assert t in Range(next) ==> t in Range(block) || t in Range(extra);
      }
      assert ticks + Range(next) == ticks + Range(extra);
      forall t | t in Range(Span(block.start, next.end)) ensures t in ticks + Range(extra) {
        assert block.Holds(t) || extra.Holds(t);
      }
    }
  }

  /** `merged_interval_duration` counts the covered ticks, whatever the order of the intervals. */
  method MergedIntervalDuration(intervals: seq<Span>) returns (total: int)
    requires Forward(intervals)
    ensures total == |TickSet(intervals)|
  {
    if intervals == [] {
      assert TickSet(intervals) == {};
      return 0;
    }
    var sorted := Sorting.StableSort(intervals, TupleLeq);
    Sorting.StableSortSorted(intervals, TupleLeq);
    TickSetForgetsOrder(intervals, sorted);
    total := SweepSorted(sorted);
  }

  method SweepSorted(sorted: seq<Span>) returns (total: int)
    requires sorted != [] && Forward(sorted) && Sorting.SortedBy(sorted, TupleLeq)
    ensures total == |TickSet(sorted)|
  {
    total := 0;
    var merged := sorted[0];
    FirstSpan(sorted);
    hide TickSet, Range, Swept;
    for k := 1 to |sorted|
      invariant merged.start <= sorted[k - 1].start
      invariant Swept(TickSet(sorted[..k]), total, merged)
    {
      assert TupleLeq(sorted[k - 1], sorted[k]);
      NextSpan(sorted, k);
      total, merged := Absorb(TickSet(sorted[..k]), total, merged, sorted[k]);
    }
    assert sorted[..|sorted|] == sorted;
    total := total + (merged.end - merged.start);
  }

  lemma FirstSpan(sorted: seq<Span>)
    requires sorted != [] && Forward(sorted)
    ensures Swept(TickSet(sorted[..1]), 0, sorted[0])
  {
    RangeSize(sorted[0]);
    TickSetSnoc([], sorted[0]);
    assert sorted[..1] == [] + [sorted[0]];
  }

  lemma NextSpan(sorted: seq<Span>, k: nat)
    requires k < |sorted|
    ensures TickSet(sorted[..k + 1]) == TickSet(sorted[..k]) + Range(sorted[k])
  {
    assert sorted[..k + 1] == sorted[..k] + [sorted[k]];
    TickSetSnoc(sorted[..k], sorted[k]);
  }

  /** The loop body: a later span closes the open block or extends it. */
  method Absorb(ghost ticks: set<int>, before: int, block: Span, s: Span) returns (total: int, merged: Span)
    requires Swept(ticks, before, block) && block.start <= s.start <= s.end
    ensures Swept(ticks + Range(s), total, merged) && merged.start <= s.start
  {
    if s.start > block.end {
      CloseBlock(ticks, before, block, s);
      total, merged := before + (block.end - block.start), s;
    } else {
      GrowBlock(ticks, before, block, s);
      total, merged := before, Span(block.start, if block.end < s.end then s.end else block.end);
    }
  }

  // Families of sets: the sum of the sizes against the size of the union.

  ghost function Union(f: nat -> set<int>, n: nat): set<int> {
    if n == 0 then {} else Union(f, n - 1) + f(n - 1)
  }

  ghost function Total(f: nat -> set<int>, n: nat): nat {
    if n == 0 then 0 else Total(f, n - 1) + |f(n - 1)|
  }

  ghost predicate Disjoint(f: nat -> set<int>, n: nat) {
    forall i, j, t | 0 <= i < j < n && t in f(i) :: t !in f(j)
  }

  lemma {:induction false} UnionMember(f: nat -> set<int>, n: nat, t: int)
    ensures t in Union(f, n) <==> exists i | 0 <= i < n :: t in f(i)
  {
    if n > 0 { UnionMember(f, n - 1, t); }
  }

  lemma UnionSize<T>(a: set<T>, b: set<T>)
    ensures |a + b| <= |a| + |b|
    ensures |a + b| == |a| + |b| <==> a !! b
  {
    assert a + b == a + (b - a);
    SubsetSize(a * b, b);
    assert b - a == b - a * b;
    assert a * b == {} <==> |a * b| == 0;
  }

  lemma DisjointStep(f: nat -> set<int>, n: nat)
    requires 0 < n
    ensures Disjoint(f, n) <==> Disjoint(f, n - 1) && Union(f, n - 1) !! f(n - 1)
  {
    forall i, t | 0 <= i < n - 1 && t in f(i) && t in f(n - 1) ensures t in Union(f, n - 1) {
      UnionMember(f, n - 1, t);
    }
    var earlier := Union(f, n - 1);
    forall t | t in earlier ensures t in f(n - 1) ==> !Disjoint(f, n) {
      UnionMember(f, n - 1, t);
    }
  }

  /** The sizes sum to the size of the union exactly when the sets are pairwise disjoint. */
  lemma {:induction false} SumAgainstUnion(f: nat -> set<int>, n: nat)
    ensures Total(f, n) >= |Union(f, n)|
    ensures Total(f, n) == |Union(f, n)| <==> Disjoint(f, n)
  {
    if n > 0 {
      SumAgainstUnion(f, n - 1);
      UnionSize(Union(f, n - 1), f(n - 1));
      DisjointStep(f, n);
    }
  }
}
