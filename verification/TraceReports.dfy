/** Aggregating worker results, ranking rows, and comparing two traces. */
module TraceReports {
  import opened Sorting
  import opened Sums
  import opened TraceStats
  import opened ComparisonTables

  // Merging in completion order.

  datatype Aggregate = Aggregate(baseline: Table, current: Table, comparison: Pairs)

  /** What `merge_trace_result` leaves of one slice. */
  function MergeResult(a: Aggregate, r: Aggregate): Aggregate {
    Aggregate(MergeTables(a.baseline, r.baseline), MergeTables(a.current, r.current),
              MergeMaps(a.comparison, r.comparison, MergePair))
  }

  function Fold<A>(op: (A, A) -> A, start: A, xs: seq<A>): A {
    if xs == [] then start else Fold(op, op(start, xs[0]), xs[1..])
  }

  const EMPTY := Aggregate(map[], map[], map[])

  // What the aggregate holds, in terms of the results.

  /** An identity's figure in one table of a result, or nothing. */
  ghost function Part(pick: Aggregate -> Table, id: Id, f: Stats -> int): Aggregate -> int {
    (r: Aggregate) => if id in pick(r) then f(pick(r)[id]) else 0
  }

  /** `m` is the largest figure of the identity in the results. */
  ghost predicate Largest(m: int, results: seq<Aggregate>, pick: Aggregate -> Table, id: Id, f: Stats -> int) {
    && (forall r | r in results && id in pick(r) :: f(pick(r)[id]) <= m)
    && (exists r :: r in results && id in pick(r) && f(pick(r)[id]) == m)
  }

  /** `s` is the union of the identity's sets in the results. */
  ghost predicate United(s: set<string>, results: seq<Aggregate>, pick: Aggregate -> Table, id: Id,
                         f: Stats -> set<string>)
  {
    forall x :: x in s <==> exists r :: r in results && id in pick(r) && x in f(pick(r)[id])
  }

  ghost predicate TotalsAt(s: Stats, results: seq<Aggregate>, pick: Aggregate -> Table, id: Id) {
    && s.count == SumOf(results, Part(pick, id, Count()))
    && s.totalInclusive == SumOf(results, Part(pick, id, TotalInclusive()))
    && s.totalExclusive == SumOf(results, Part(pick, id, TotalExclusive()))
  }

  ghost predicate MaximaAt(s: Stats, results: seq<Aggregate>, pick: Aggregate -> Table, id: Id) {
    && Largest(s.maxInclusive, results, pick, id, MaxInclusive())
    && Largest(s.maxExclusive, results, pick, id, MaxExclusive())
  }

  ghost predicate SetsAt(s: Stats, results: seq<Aggregate>, pick: Aggregate -> Table, id: Id) {
    United(s.traces, results, pick, id, TracesIn()) && United(s.roots, results, pick, id, RootsIn())
  }

  ghost predicate GatheredAt(s: Stats, results: seq<Aggregate>, pick: Aggregate -> Table, id: Id) {
    TotalsAt(s, results, pick, id) && MaximaAt(s, results, pick, id) && SetsAt(s, results, pick, id)
  }

  function Count(): Stats -> int { (s: Stats) => s.count }
  function TotalInclusive(): Stats -> int { (s: Stats) => s.totalInclusive }
  function TotalExclusive(): Stats -> int { (s: Stats) => s.totalExclusive }
  function MaxInclusive(): Stats -> int { (s: Stats) => s.maxInclusive }
  function MaxExclusive(): Stats -> int { (s: Stats) => s.maxExclusive }
  function TracesIn(): Stats -> set<string> { (s: Stats) => s.traces }
  function RootsIn(): Stats -> set<string> { (s: Stats) => s.roots }

  ghost predicate Occurs(results: seq<Aggregate>, pick: Aggregate -> Table, id: Id) {
    exists r :: r in results && id in pick(r)
  }

  /** A table holds exactly the identities of the results, each with what they hold for it together. */
  ghost predicate Gathers(t: Table, results: seq<Aggregate>, pick: Aggregate -> Table) {
    && (forall id :: id in t <==> Occurs(results, pick, id))
    && (forall id | id in t :: GatheredAt(t[id], results, pick, id))
  }

  function OnSide(p: Pairs, name: SideName): Table {
    map id | id in p :: OfSide(p[id], name)
  }

  function BaselineOf(): Aggregate -> Table { (r: Aggregate) => r.baseline }
  function CurrentOf(): Aggregate -> Table { (r: Aggregate) => r.current }
  function ComparedOf(name: SideName): Aggregate -> Table { (r: Aggregate) => OnSide(r.comparison, name) }

  ghost predicate Matched(p: Pairs, id: Id, x: string) {
    id in p && x in p[id].matched
  }

  /** The matched traces of an identity are those of all results. */
  ghost predicate MatchesGathered(p: Pairs, results: seq<Aggregate>) {
    forall id, x :: Matched(p, id, x) <==> exists r :: r in results && Matched(r.comparison, id, x)
  }

  /** All three dictionaries hold what the results hold together, a comparison on both sides. */
  ghost predicate GathersAll(a: Aggregate, results: seq<Aggregate>) {
    && Gathers(a.baseline, results, BaselineOf()) && Gathers(a.current, results, CurrentOf())
    && (forall name :: Gathers(OnSide(a.comparison, name), results, ComparedOf(name)))
    && MatchesGathered(a.comparison, results)
  }

  lemma {:induction false} NoParts(results: seq<Aggregate>, pick: Aggregate -> Table, id: Id, f: Stats -> int)
    requires !Occurs(results, pick, id)
    ensures SumOf(results, Part(pick, id, f)) == 0
  {
    if results != [] {
      assert results == [results[0]] + results[1..];
      NoParts(results[1..], pick, id, f);
    }
  }

  /** One more result adds its part to a sum. */
  lemma SumGrows(t: Table, results: seq<Aggregate>, pick: Aggregate -> Table, r: Aggregate, id: Id, f: Stats -> int)
    requires id in t <==> Occurs(results, pick, id)
    requires id in t ==> f(t[id]) == SumOf(results, Part(pick, id, f))
    ensures SumOf(results + [r], Part(pick, id, f)) ==
            (if id in t then f(t[id]) else 0) + if id in pick(r) then f(pick(r)[id]) else 0
  {
    SumSnoc(results, r, Part(pick, id, f));
    if id !in t { NoParts(results, pick, id, f); }
  }

  lemma LargestGrows(t: Table, results: seq<Aggregate>, pick: Aggregate -> Table, r: Aggregate, id: Id, f: Stats -> int,
                     m: int)
    requires id in t <==> Occurs(results, pick, id)
    requires id in t ==> Largest(f(t[id]), results, pick, id, f)
    requires id in t || id in pick(r)
    requires m == if id in t && id in pick(r) then Max(f(t[id]), f(pick(r)[id]))
                  else if id in t then f(t[id]) else f(pick(r)[id])
    ensures Largest(m, results + [r], pick, id, f)
  {
    var all := results + [r];
    assert r in all && forall q | q in results :: q in all;
    forall q | q in all && id in pick(q) ensures f(pick(q)[id]) <= m {
      if q in results { assert Occurs(results, pick, id); }
    }
    if id in t {
      var q :| q in results && id in pick(q) && f(pick(q)[id]) == f(t[id]);
      assert q in all;
    }
  }

  lemma UnionGrows(t: Table, results: seq<Aggregate>, pick: Aggregate -> Table, r: Aggregate, id: Id,
                   f: Stats -> set<string>, s: set<string>)
    requires id in t <==> Occurs(results, pick, id)
    requires id in t ==> United(f(t[id]), results, pick, id, f)
    requires s == (if id in t then f(t[id]) else {}) + if id in pick(r) then f(pick(r)[id]) else {}
    ensures United(s, results + [r], pick, id, f)
  {
    var all := results + [r];
    assert r in all && forall q | q in results :: q in all;
    forall x ensures x in s <==> exists q :: q in all && id in pick(q) && x in f(pick(q)[id]) {
      if q :| q in all && id in pick(q) && x in f(pick(q)[id]) {
        if q in results { assert Occurs(results, pick, id); }
      }
    }
  }

  lemma OccursNext(results: seq<Aggregate>, pick: Aggregate -> Table, r: Aggregate, id: Id)
    ensures Occurs(results + [r], pick, id) <==> Occurs(results, pick, id) || id in pick(r)
  {
    assert forall q :: q in results + [r] <==> q in results || q == r;
  }

  lemma MergedAt(t: Table, u: Table, id: Id)
    ensures id in MergeTables(t, u) <==> id in t || id in u
    ensures id in t && id in u ==> MergeTables(t, u)[id] == Merge(t[id], u[id])
    ensures id in t && id !in u ==> MergeTables(t, u)[id] == t[id]
    ensures id !in t && id in u ==> MergeTables(t, u)[id] == u[id]
  {
  }

  lemma TotalsNext(t: Table, results: seq<Aggregate>, pick: Aggregate -> Table, r: Aggregate, id: Id)
    requires id in t <==> Occurs(results, pick, id)
    requires id in t ==> TotalsAt(t[id], results, pick, id)
    requires id in MergeTables(t, pick(r))
    ensures TotalsAt(MergeTables(t, pick(r))[id], results + [r], pick, id)
  {
    MergedAt(t, pick(r), id);
    hide Occurs, Part, MergeTables, SumOf;
    SumGrows(t, results, pick, r, id, Count());
    SumGrows(t, results, pick, r, id, TotalInclusive());
    SumGrows(t, results, pick, r, id, TotalExclusive());
  }

  lemma MaximaNext(t: Table, results: seq<Aggregate>, pick: Aggregate -> Table, r: Aggregate, id: Id)
    requires id in t <==> Occurs(results, pick, id)
    requires id in t ==> MaximaAt(t[id], results, pick, id)
    requires id in MergeTables(t, pick(r))
    ensures MaximaAt(MergeTables(t, pick(r))[id], results + [r], pick, id)
  {
    var s := MergeTables(t, pick(r))[id];
    MergedAt(t, pick(r), id);
    hide Occurs, Largest, MergeTables;
    LargestGrows(t, results, pick, r, id, MaxInclusive(), s.maxInclusive);
    LargestGrows(t, results, pick, r, id, MaxExclusive(), s.maxExclusive);
  }

  lemma SetsNext(t: Table, results: seq<Aggregate>, pick: Aggregate -> Table, r: Aggregate, id: Id)
    requires id in t <==> Occurs(results, pick, id)
    requires id in t ==> SetsAt(t[id], results, pick, id)
    requires id in MergeTables(t, pick(r))
    ensures SetsAt(MergeTables(t, pick(r))[id], results + [r], pick, id)
  {
    var s := MergeTables(t, pick(r))[id];
    MergedAt(t, pick(r), id);
    hide Occurs, United, MergeTables;
    UnionGrows(t, results, pick, r, id, TracesIn(), s.traces);
    UnionGrows(t, results, pick, r, id, RootsIn(), s.roots);
  }

  lemma GatheredNext(t: Table, results: seq<Aggregate>, pick: Aggregate -> Table, r: Aggregate, id: Id)
    requires id in t <==> Occurs(results, pick, id)
    requires id in t ==> GatheredAt(t[id], results, pick, id)
    requires id in MergeTables(t, pick(r))
    ensures GatheredAt(MergeTables(t, pick(r))[id], results + [r], pick, id)
  {
    hide TotalsAt, MaximaAt, SetsAt, Occurs, MergeTables;
    TotalsNext(t, results, pick, r, id);
    MaximaNext(t, results, pick, r, id);
    SetsNext(t, results, pick, r, id);
  }

  lemma GathersNext(t: Table, results: seq<Aggregate>, pick: Aggregate -> Table, r: Aggregate)
    requires Gathers(t, results, pick)
    ensures Gathers(MergeTables(t, pick(r)), results + [r], pick)
  {
    var all, merged := results + [r], MergeTables(t, pick(r));
    forall id
      ensures id in merged <==> Occurs(all, pick, id)
      ensures id in merged ==> GatheredAt(merged[id], all, pick, id)
    {
      assert id in t ==> GatheredAt(t[id], results, pick, id);
      hide *;
      MergedAt(t, pick(r), id);
      OccursNext(results, pick, r, id);
      if id in merged { GatheredNext(t, results, pick, r, id); }
    }
  }

  lemma SidesMerge(p: Pairs, q: Pairs, name: SideName)
    ensures OnSide(MergeMaps(p, q, MergePair), name) == MergeTables(OnSide(p, name), OnSide(q, name))
  {
    hide Merge;
  }

  lemma MatchedBoth(p: Pairs, q: Pairs, id: Id, x: string)
    ensures Matched(MergeMaps(p, q, MergePair), id, x) <==> Matched(p, id, x) || Matched(q, id, x)
  {
    hide Merge;
  }

  lemma MatchesNext(p: Pairs, results: seq<Aggregate>, r: Aggregate)
    requires MatchesGathered(p, results)
    ensures MatchesGathered(MergeMaps(p, r.comparison, MergePair), results + [r])
  {
    var merged, all := MergeMaps(p, r.comparison, MergePair), results + [r];
    assert r in all && forall q | q in results :: q in all;
    forall id, x ensures Matched(merged, id, x) <==> exists q :: q in all && Matched(q.comparison, id, x) {
      MatchedBoth(p, r.comparison, id, x);
      hide *;
      if q :| q in all && Matched(q.comparison, id, x) { assert q in results || q == r; }
    }
  }

  lemma {:induction false} FoldSnoc<A>(op: (A, A) -> A, start: A, xs: seq<A>, x: A)
    ensures Fold(op, start, xs + [x]) == op(Fold(op, start, xs), x)
  {
    if xs != [] {
      FoldSnoc(op, op(start, xs[0]), xs[1..], x);
      assert (xs + [x])[1..] == xs[1..] + [x];
    }
  }

  /**
   * The aggregate holds an identity exactly when some result does. Its counts and totals are the sums over the
   * results, its maxima the largest of them, and its sets their unions, on every side of every dictionary.
   */
  lemma {:induction false} FoldGathers(results: seq<Aggregate>)
    ensures GathersAll(Fold(MergeResult, EMPTY, results), results)
  {
    if results != [] {
      var earlier, r := results[..|results| - 1], results[|results| - 1];
      var a := Fold(MergeResult, EMPTY, earlier);
      FoldGathers(earlier);
      FoldSnoc(MergeResult, EMPTY, earlier, r);
      assert earlier + [r] == results;
      hide Gathers, MatchesGathered, OnSide, Fold;
      GathersNext(a.baseline, earlier, BaselineOf(), r);
      GathersNext(a.current, earlier, CurrentOf(), r);
      forall name ensures Gathers(OnSide(MergeResult(a, r).comparison, name), results, ComparedOf(name)) {
        GathersNext(OnSide(a.comparison, name), earlier, ComparedOf(name), r);
        SidesMerge(a.comparison, r.comparison, name);
      }
      MatchesNext(a.comparison, earlier, r);
    }
  }

  // The mutable objects.

  /** One slice of a worker's result, and of the aggregate: three dictionaries of mutable objects. */
  datatype Slice = Slice(baseline: Objects, current: Objects, comparison: Comparisons) {
    ghost function Reach(): set<object> {
      Owned(baseline) + Owned(current) + Held(comparison)
    }

    /** No object is shared between identities, sides or dictionaries. */
    ghost predicate Valid() {
      && Separate(baseline) && Separate(current) && Unshared(comparison)
      && Owned(baseline) !! Owned(current)
      && (Owned(baseline) + Owned(current)) !! Held(comparison)
    }

    ghost function Value(): Aggregate
      reads Reach()
    {
      Aggregate(Values(baseline), Values(current), PairValues(comparison))
    }
  }

  /** `merge_side_stats`, which leaves dictionaries without the target's objects alone. */
  method MergeSideApart(target: Objects, source: Objects, ghost x: Objects, ghost y: Objects, ghost p: Comparisons,
                        ghost q: Comparisons)
    returns (r: Objects)
    requires Separate(target) && Separate(source) && Owned(target) !! Owned(source)
    requires Owned(target) !! Owned(x) && Owned(target) !! Owned(y) && Owned(target) !! Held(p)
            && Owned(target) !! Held(q)
    modifies Owned(target)
    ensures Separate(r) && Owned(r) <= Owned(target) + Owned(source)
    ensures Values(r) == MergeTables(old(Values(target)), old(Values(source)))
    ensures Values(x) == old(Values(x)) && Values(y) == old(Values(y))
    ensures PairValues(p) == old(PairValues(p)) && PairValues(q) == old(PairValues(q))
  {
    hide Values, PairValues, Separate, MergeTables;
    r := MergeSideStats(target, source);
  }

  /** `merge_comparison_maps`, which leaves dictionaries without the target's objects alone. */
  method MergeMapsApart(target: Comparisons, source: Comparisons, ghost x: Objects, ghost y: Objects)
    returns (r: Comparisons)
    requires Unshared(target) && Unshared(source) && Held(target) !! Held(source)
    requires Held(target) !! Owned(x) && Held(target) !! Owned(y)
    modifies Held(target)
    ensures Unshared(r) && Held(r) <= Held(target) + Held(source)
    ensures PairValues(r) == MergeMaps(old(PairValues(target)), old(PairValues(source)), MergePair)
    ensures Values(x) == old(Values(x)) && Values(y) == old(Values(y))
  {
    hide Values, PairValues, Unshared, MergeMaps;
    r := MergeComparisonMaps(target, source);
  }

  /** `merge_trace_result` on one slice: the aggregate's objects are updated in place, new ones adopted. */
  method MergeTraceResult(aggregate: Slice, result: Slice) returns (r: Slice)
    requires aggregate.Valid() && result.Valid() && aggregate.Reach() !! result.Reach()
    modifies aggregate.Reach()
    ensures r.Valid() && r.Reach() <= aggregate.Reach() + result.Reach()
    ensures r.Value() == MergeResult(old(aggregate.Value()), old(result.Value()))
  {
    ghost var a, s := aggregate, result;
    PartsApart(aggregate, result);
    hide *;
    var baseline := MergeSideApart(aggregate.baseline, result.baseline, a.current, s.current, a.comparison,
        s.comparison);
    var current := MergeSideApart(aggregate.current, result.current, baseline, baseline, a.comparison, s.comparison);
    var comparison := MergeMapsApart(aggregate.comparison, result.comparison, baseline, current);
    r := Slice(baseline, current, comparison);
    Rebuilt(a, s, r);
  }

  lemma Rebuilt(a: Slice, s: Slice, r: Slice)
    requires a.Valid() && s.Valid() && a.Reach() !! s.Reach()
    requires Separate(r.baseline) && Owned(r.baseline) <= Owned(a.baseline) + Owned(s.baseline)
    requires Separate(r.current) && Owned(r.current) <= Owned(a.current) + Owned(s.current)
    requires Unshared(r.comparison) && Held(r.comparison) <= Held(a.comparison) + Held(s.comparison)
    ensures r.Valid() && r.Reach() <= a.Reach() + s.Reach()
  {
    hide Owned, Held, Separate, Unshared;
  }

  /** The three dictionaries of two slices that share nothing share nothing pairwise. */
  lemma PartsApart(a: Slice, r: Slice)
    requires a.Valid() && r.Valid() && a.Reach() !! r.Reach()
    ensures Separate(a.baseline) && Separate(a.current) && Unshared(a.comparison)
    ensures Separate(r.baseline) && Separate(r.current) && Unshared(r.comparison)
    ensures (Owned(a.baseline) + Owned(r.baseline)) !! (Owned(a.current) + Owned(r.current))
    ensures Owned(a.baseline) !! Owned(r.baseline) && Owned(a.current) !! Owned(r.current)
    ensures (Owned(a.baseline) + Owned(r.baseline)) !! (Held(a.comparison) + Held(r.comparison))
    ensures (Owned(a.current) + Owned(r.current)) !! (Held(a.comparison) + Held(r.comparison))
    ensures Held(a.comparison) !! Held(r.comparison)
    ensures Owned(a.baseline) <= a.Reach() && Owned(a.current) <= a.Reach() && Held(a.comparison) <= a.Reach()
  {
    hide Owned, Held, Separate, Unshared;
  }

  ghost function ReachOf(results: seq<Slice>): set<object> {
    set i, o | 0 <= i < |results| && o in results[i].Reach() :: o
  }

  /** Workers send copies, so no two results share an object. */
  ghost predicate Independent(results: seq<Slice>) {
    && (forall i | 0 <= i < |results| :: results[i].Valid())
    && forall i, j | 0 <= i < j < |results| :: results[i].Reach() !! results[j].Reach()
  }

  ghost function ValuesOf(results: seq<Slice>): (r: seq<Aggregate>)
    reads ReachOf(results)
    ensures |r| == |results| && forall i | 0 <= i < |r| :: r[i] == results[i].Value()
  {
    seq(|results|, i requires 0 <= i < |results| reads ReachOf(results) =>
      assert results[i].Reach() <= ReachOf(results);
      results[i].Value())
  }

  /**
   * `summarize_trace_tasks`: the aggregate after merging results, object by object, as they arrive. It holds what
   * the results held together.
   */
  method SummarizeTraceTasks(results: seq<Slice>) returns (aggregate: Slice)
    requires Independent(results)
    modifies ReachOf(results)
    ensures aggregate.Valid() && aggregate.Reach() <= ReachOf(results)
    ensures aggregate.Value() == Fold(MergeResult, EMPTY, old(ValuesOf(results)))
    ensures GathersAll(aggregate.Value(), old(ValuesOf(results)))
  {
    ghost var vals := ValuesOf(results);
    hide *;
    aggregate := MergeInTurn(results);
    FoldGathers(vals);
  }

  method MergeInTurn(results: seq<Slice>) returns (aggregate: Slice)
    requires Independent(results)
    modifies ReachOf(results)
    ensures aggregate.Valid() && aggregate.Reach() <= ReachOf(results)
    ensures aggregate.Value() == Fold(MergeResult, EMPTY, old(ValuesOf(results)))
  {
    ghost var vals := ValuesOf(results);
    aggregate := Slice(map[], map[], map[]);
    assert results[0..] == results && vals[0..] == vals;
    hide *;
    for i := 0 to |results|
      invariant aggregate.Valid() && aggregate.Reach() <= ReachOf(results[..i]) <= ReachOf(results)
      invariant ValuesOf(results[i..]) == vals[i..]
      invariant Fold(MergeResult, aggregate.Value(), vals[i..]) == Fold(MergeResult, EMPTY, vals)
    {
      ReachApart(results, i);
      ReachAllocated(results[i + 1..]);
      FirstValue(results, i);
      assert vals[i..][1..] == vals[i + 1..];
      aggregate := MergeNext(aggregate, results[i], results[i + 1..]);
    }
    assert results[..|results|] == results;
    FoldNone(aggregate.Value(), vals[|results|..]);
  }

  lemma FoldNone(a: Aggregate, xs: seq<Aggregate>)
    requires xs == []
    ensures Fold(MergeResult, a, xs) == a
  {
  }

  /** One arriving result; those still to come are not touched. */
  method MergeNext(before: Slice, result: Slice, ghost later: seq<Slice>) returns (aggregate: Slice)
    requires before.Valid() && result.Valid()
    requires before.Reach() !! result.Reach() && before.Reach() !! ReachOf(later)
    requires forall o | o in ReachOf(later) :: allocated(o)
    modifies before.Reach()
    ensures aggregate.Valid() && aggregate.Reach() <= before.Reach() + result.Reach()
    ensures aggregate.Value() == MergeResult(old(before.Value()), old(result.Value()))
    ensures ValuesOf(later) == old(ValuesOf(later))
  {
    hide *;
    aggregate := MergeTraceResult(before, result);
  }

  lemma ReachAllocated(results: seq<Slice>)
    ensures forall o | o in ReachOf(results) :: allocated(o)
  {
  }

  lemma FirstValue(results: seq<Slice>, i: nat)
    requires i < |results|
    ensures |ValuesOf(results[i..])| > 0 && ValuesOf(results[i..])[0] == results[i].Value()
    ensures ValuesOf(results[i + 1..]) == ValuesOf(results[i..])[1..]
  {
    hide Slice.Value, Slice.Reach;
  }

  lemma ReachApart(results: seq<Slice>, i: nat)
    requires Independent(results) && i < |results|
    ensures results[i].Valid()
    ensures ReachOf(results[..i]) !! results[i].Reach() && ReachOf(results[..i]) !! ReachOf(results[i + 1..])
    ensures ReachOf(results[..i]) + results[i].Reach() <= ReachOf(results[..i + 1]) <= ReachOf(results)
  {
    hide Slice.Reach, Slice.Valid;
    forall o | o in ReachOf(results[..i]) ensures o in ReachOf(results[..i + 1]) {
      var k :| 0 <= k < i && o in results[..i][k].Reach();
      assert results[..i + 1][k] == results[k];
    }
    forall o | o in results[i].Reach() ensures o in ReachOf(results[..i + 1]) {
      assert results[..i + 1][i] == results[i];
    }
    forall o | o in ReachOf(results[..i + 1]) ensures o in ReachOf(results) {
      var k :| 0 <= k <= i && o in results[..i + 1][k].Reach();
    }
  }

  lemma MergeResultLaws()
    ensures Commutes(MergeResult) && Associates(MergeResult)
  {
    MergeCommutes();
    MergeMapsLaws<Stats>(Merge);
    PairLaws();
    MergeMapsLaws<Pair>(MergePair);
  }

  lemma PairLaws()
    ensures Commutes(MergePair) && Associates(MergePair)
  {
    MergeCommutes();
    forall a, b ensures MergePair(a, b) == MergePair(b, a) {
      assert a.matched + b.matched == b.matched + a.matched;
    }
    forall a, b, c ensures MergePair(MergePair(a, b), c) == MergePair(a, MergePair(b, c)) {
      assert a.matched + b.matched + c.matched == a.matched + (b.matched + c.matched);
    }
  }

  lemma {:induction false} FoldPullOut<A(!new)>(op: (A, A) -> A, start: A, xs: seq<A>, k: nat)
    requires Commutes(op) && Associates(op) && k < |xs|
    ensures Fold(op, start, xs) == Fold(op, op(start, xs[k]), xs[..k] + xs[k + 1..])
  {
    if k == 0 {
      assert xs[..0] + xs[1..] == xs[1..];
    } else {
      var rest := xs[..k] + xs[k + 1..];
      FoldPullOut(op, op(start, xs[0]), xs[1..], k - 1);
      assert rest[0] == xs[0] && rest[1..] == xs[1..][..k - 1] + xs[1..][k..];
      assert op(op(start, xs[0]), xs[k]) == op(start, op(xs[0], xs[k])) == op(start, op(xs[k], xs[0]))
             == op(op(start, xs[k]), xs[0]);
    }
  }

  lemma {:induction false} FoldForgetsOrder<A(!new)>(op: (A, A) -> A, start: A, xs: seq<A>, ys: seq<A>)
    requires Commutes(op) && Associates(op) && multiset(xs) == multiset(ys)
    ensures Fold(op, start, xs) == Fold(op, start, ys)
    decreases |xs|
  {
    SameElements(xs, ys);
    hide Commutes, Associates;
    if xs != [] {
      assert xs[0] in ys;
      var k :| 0 <= k < |ys| && ys[k] == xs[0];
      FoldPullOut(op, start, ys, k);
      RemoveBoth(xs, ys, k);
      FoldForgetsOrder(op, op(start, xs[0]), xs[1..], ys[..k] + ys[k + 1..]);
    }
  }

  lemma RemoveBoth<A>(xs: seq<A>, ys: seq<A>, k: nat)
    requires multiset(xs) == multiset(ys) && |xs| > 0 && k < |ys| && ys[k] == xs[0]
    ensures multiset(xs[1..]) == multiset(ys[..k] + ys[k + 1..])
  {
    assert xs == [xs[0]] + xs[1..];
    assert ys == ys[..k] + [ys[k]] + ys[k + 1..];
    assert multiset(xs[1..]) == multiset(xs) - multiset{xs[0]};
    assert multiset(ys[..k] + ys[k + 1..]) == multiset(ys) - multiset{ys[k]};
  }

  // Ranking.

  datatype Timing = Inclusive | Exclusive

  datatype SortBy = Total | Avg | AvgRootTu | MaxOf

  function SelectedTotal(s: Stats, timing: Timing): int {
    if timing.Inclusive? then s.totalInclusive else s.totalExclusive
  }

  function AverageUs(total: int, count: int): real {
    if count == 0 then 0.0 else total as real / count as real
  }

  /** `selected_metric_us`. */
  function Metric(s: Stats, timing: Timing, sortBy: SortBy): real {
    match sortBy
    case Total => SelectedTotal(s, timing) as real
    case Avg => AverageUs(SelectedTotal(s, timing), s.count)
    case AvgRootTu => AverageUs(SelectedTotal(s, timing), |s.roots|)
    case MaxOf => (if timing.Inclusive? then s.maxInclusive else s.maxExclusive) as real
  }

  /** A dictionary entry with the figure it is ranked by. */
  datatype Ranked<V> = Ranked(id: Id, metric: real, value: V)

  /** Larger metric first, then event name, then event key. */
  predicate RankLeq<V>(a: Ranked<V>, b: Ranked<V>) {
    a.metric > b.metric
    || (a.metric == b.metric
        && ((a.id.0 != b.id.0 && StringLeq(a.id.0, b.id.0)) || (a.id.0 == b.id.0 && StringLeq(a.id.1, b.id.1))))
  }

  /** `heapq.nsmallest(n, ...)`. */
  function Smallest<V>(n: int, rows: seq<Ranked<V>>): seq<Ranked<V>> {
    var sorted := StableSort(rows, RankLeq);
    if n <= 0 then [] else if n < |sorted| then sorted[..n] else sorted
  }

  lemma SmallestIsFrom<V>(n: int, rows: seq<Ranked<V>>, r: Ranked<V>)
    requires r in Smallest(n, rows)
    ensures r in rows
  {
    var sorted := StableSort(rows, RankLeq);
    SameElements(rows, sorted);
    var i :| 0 <= i < |Smallest(n, rows)| && Smallest(n, rows)[i] == r;
    assert sorted[i] == r;
  }

  ghost predicate OneRowEach<V>(rows: seq<Ranked<V>>) {
    forall i, j | 0 <= i < j < |rows| :: rows[i].id != rows[j].id
  }

  lemma RankIsTotalOrder<V(!new)>(rows: seq<Ranked<V>>)
    requires OneRowEach(rows)
    ensures TotalOn(rows, RankLeq<V>) && TransitiveOn(rows, RankLeq<V>) && AntisymmetricOn(rows, RankLeq<V>)
  {
    forall a, b | a in rows && b in rows ensures RankLeq(a, b) || RankLeq(b, a) {
      StringLeqTotal(a.id.0, b.id.0);
      StringLeqTotal(a.id.1, b.id.1);
    }
    forall a, b, c | a in rows && b in rows && c in rows && RankLeq(a, b) && RankLeq(b, c) ensures RankLeq(a, c) {
      RankTransitive(a, b, c);
    }
    forall a, b | a in rows && b in rows && RankLeq(a, b) && RankLeq(b, a) ensures a == b {
      SameRankSameId(a, b);
      var i :| 0 <= i < |rows| && rows[i] == a;
      var j :| 0 <= j < |rows| && rows[j] == b;
      assert i == j;
    }
  }

  lemma RankTransitive<V>(a: Ranked<V>, b: Ranked<V>, c: Ranked<V>)
    requires RankLeq(a, b) && RankLeq(b, c)
    ensures RankLeq(a, c)
  {
    if a.metric == b.metric == c.metric {
      if a.id.0 == b.id.0 == c.id.0 {
        StringLeqTransitive(a.id.1, b.id.1, c.id.1);
      } else if a.id.0 != b.id.0 && b.id.0 != c.id.0 {
        StringLeqTransitive(a.id.0, b.id.0, c.id.0);
        if a.id.0 == c.id.0 { StringLeqAntisymmetric(a.id.0, b.id.0); }
      }
    }
  }

  lemma SameRankSameId<V>(a: Ranked<V>, b: Ranked<V>)
    requires RankLeq(a, b) && RankLeq(b, a)
    ensures a.id == b.id
  {
    if a.id.0 != b.id.0 {
      StringLeqAntisymmetric(a.id.0, b.id.0);
    } else {
      StringLeqAntisymmetric(a.id.1, b.id.1);
    }
  }

  /** The rows reported are rows, ordered by rank, and as many as asked for or there are. */
  lemma SmallestAreRanked<V(!new)>(n: int, rows: seq<Ranked<V>>)
    requires OneRowEach(rows)
    ensures |Smallest(n, rows)| == if n <= 0 then 0 else if n < |rows| then n else |rows|
    ensures SortedBy(Smallest(n, rows), RankLeq<V>)
    ensures forall k | 0 <= k < |Smallest(n, rows)| :: Smallest(n, rows)[k] in rows
  {
    RankIsTotalOrder(rows);
    StableSortSorted(rows, RankLeq);
    SameElements(rows, StableSort(rows, RankLeq));
  }

  /** No row left out ranks before one that is reported. */
  lemma SmallestAreFirst<V(!new)>(n: int, rows: seq<Ranked<V>>, k: nat, s: Ranked<V>)
    requires OneRowEach(rows) && k < |Smallest(n, rows)| && s in rows && s !in Smallest(n, rows)
    ensures RankLeq(Smallest(n, rows)[k], s)
  {
    var sorted, m := StableSort(rows, RankLeq), |Smallest(n, rows)|;
    RankIsTotalOrder(rows);
    StableSortSorted(rows, RankLeq);
    assert s in multiset(rows) && s in multiset(sorted);
    assert Smallest(n, rows) == sorted[..m];
    hide *;
    PrefixBefore(sorted, RankLeq, m, k, s);
  }

  lemma PrefixBefore<T>(xs: seq<T>, leq: (T, T) -> bool, m: nat, k: nat, s: T)
    requires SortedBy(xs, leq) && k < m <= |xs| && s in xs && s !in xs[..m]
    ensures leq(xs[k], s)
  {
    var l :| 0 <= l < |xs| && xs[l] == s;
    assert forall i | 0 <= i < m :: xs[i] in xs[..m];
  }

  /** Rows go down by metric; equal ones go up by name and then key, as text compares. */
  lemma RowsGoDown<V(!new)>(n: int, rows: seq<Ranked<V>>, i: nat, j: nat)
    requires OneRowEach(rows) && i < j < |Smallest(n, rows)|
    ensures var a, b := Smallest(n, rows)[i], Smallest(n, rows)[j];
            && a.metric >= b.metric
            && (a.metric == b.metric ==> Before(a.id.0, b.id.0) || (a.id.0 == b.id.0 && Before(a.id.1, b.id.1)))
  {
    var a, b := Smallest(n, rows)[i], Smallest(n, rows)[j];
    SmallestAreRanked(n, rows);
    SmallestOnce(n, rows);
    StringLeqExactly(a.id.0, b.id.0);
    StringLeqExactly(a.id.1, b.id.1);
    assert a.id != b.id;
    hide Smallest, StringLeq, Before;
  }

  lemma SmallestOnce<V(!new)>(n: int, rows: seq<Ranked<V>>)
    requires OneRowEach(rows)
    ensures OneRowEach(Smallest(n, rows))
  {
    var sorted := StableSort(rows, RankLeq);
    SameElements(rows, sorted);
    assert Distinct(rows);
    SortDistinct(rows, RankLeq);
    forall i, j | 0 <= i < j < |sorted| ensures sorted[i].id != sorted[j].id {
      assert sorted[i] in rows && sorted[j] in rows && sorted[i] != sorted[j];
      var k :| 0 <= k < |rows| && rows[k] == sorted[i];
      var l :| 0 <= l < |rows| && rows[l] == sorted[j];
    }
  }

  /** A row that is left out has no larger metric than any reported one, and the report is full. */
  lemma OmittedAreSmaller<V(!new)>(n: int, rows: seq<Ranked<V>>, k: nat, s: Ranked<V>)
    requires OneRowEach(rows) && k < |Smallest(n, rows)| && s in rows && s !in Smallest(n, rows)
    ensures s.metric <= Smallest(n, rows)[k].metric && |Smallest(n, rows)| == n
  {
    SmallestAreFirst(n, rows, k, s);
    SmallestAreRanked(n, rows);
    if n >= |rows| { SameElements(rows, StableSort(rows, RankLeq)); }
  }

  /** A dictionary's entries, in whatever order they were inserted, each ranked by `metric`. */
  ghost predicate Lists<V>(m: map<Id, V>, metric: (Id, V) -> real, rows: seq<Ranked<V>>) {
    && OneRowEach(rows)
    && (forall i | 0 <= i < |rows| ::
          && rows[i].id in m && rows[i].value == m[rows[i].id]
          && rows[i].metric == metric(rows[i].id, rows[i].value))
    && (forall id | id in m :: exists i :: 0 <= i < |rows| && rows[i].id == id)
  }

  lemma ListingsAgree<V(!new)>(m: map<Id, V>, metric: (Id, V) -> real, xs: seq<Ranked<V>>, ys: seq<Ranked<V>>)
    requires Lists(m, metric, xs) && Lists(m, metric, ys)
    ensures multiset(xs) == multiset(ys)
  {
    forall i | 0 <= i < |xs| ensures xs[i] in ys {
      var j :| 0 <= j < |ys| && ys[j].id == xs[i].id;
    }
    forall i | 0 <= i < |ys| ensures ys[i] in xs {
      var j :| 0 <= j < |xs| && xs[j].id == ys[i].id;
    }
    DistinctSameMultiset(xs, ys);
  }

  lemma {:induction false} DistinctCount<T>(xs: seq<T>, x: T)
    requires Distinct(xs)
    ensures multiset(xs)[x] == if x in xs then 1 else 0
  {
    if xs != [] {
      assert xs == [xs[0]] + xs[1..];
      assert xs[0] !in xs[1..];
      DistinctCount(xs[1..], x);
    }
  }

  lemma DistinctSameMultiset<T(!new)>(xs: seq<T>, ys: seq<T>)
    requires Distinct(xs) && Distinct(ys)
    requires (forall i | 0 <= i < |xs| :: xs[i] in ys) && (forall i | 0 <= i < |ys| :: ys[i] in xs)
    ensures multiset(xs) == multiset(ys)
  {
    forall x: T ensures multiset(xs)[x] == multiset(ys)[x] {
      DistinctCount(xs, x);
      DistinctCount(ys, x);
    }
  }

  lemma SameRowsSameRank<V(!new)>(xs: seq<Ranked<V>>, ys: seq<Ranked<V>>, n: int)
    requires OneRowEach(xs) && multiset(xs) == multiset(ys)
    ensures Smallest(n, xs) == Smallest(n, ys)
  {
    RankIsTotalOrder(xs);
    SortForgetsOrder(xs, ys, RankLeq);
  }

  /** Ranked rows do not depend on the order in which the dictionary was filled. */
  lemma RowsForgetOrder<V(!new)>(m: map<Id, V>, metric: (Id, V) -> real, n: int, xs: seq<Ranked<V>>, ys: seq<Ranked<V>>)
    requires Lists(m, metric, xs) && Lists(m, metric, ys)
    ensures Smallest(n, xs) == Smallest(n, ys)
  {
    ListingsAgree(m, metric, xs, ys);
    SameRowsSameRank(xs, ys, n);
  }

  /**
   * Completion-order independence: however the workers' results are ordered, the aggregates are equal
   * and every ranked report read off either side of them is the same.
   */
  lemma CompletionOrderIsInvisible(results: seq<Aggregate>, reordered: seq<Aggregate>, metric: (Id, Stats) -> real,
                                   n: int, xs: seq<Ranked<Stats>>, ys: seq<Ranked<Stats>>)
    requires multiset(results) == multiset(reordered)
    requires var a, b := Fold(MergeResult, EMPTY, results), Fold(MergeResult, EMPTY, reordered);
             || (Lists(a.current, metric, xs) && Lists(b.current, metric, ys))
             || (Lists(a.baseline, metric, xs) && Lists(b.baseline, metric, ys))
    ensures Fold(MergeResult, EMPTY, results) == Fold(MergeResult, EMPTY, reordered)
    ensures Smallest(n, xs) == Smallest(n, ys)
  {
    MergeResultLaws();
    FoldForgetsOrder(MergeResult, EMPTY, results, reordered);
    var a := Fold(MergeResult, EMPTY, results);
    if Lists(a.current, metric, xs) && Lists(a.current, metric, ys) {
      RowsForgetOrder(a.current, metric, n, xs, ys);
    } else {
      RowsForgetOrder(a.baseline, metric, n, xs, ys);
    }
  }
}
