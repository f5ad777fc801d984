/** The start/stop sweep that shares elapsed build time between the tasks running at each moment. */
module WeightedTime {
  import opened Sorting

  class Target {
    const start: real
    const end: real
    var weightedDuration: real

    constructor (start: real, end: real)
      ensures this.start == start && this.end == end && weightedDuration == 0.0
    {
      this.start, this.end, weightedDuration := start, end, 0.0;
    }

    function Duration(): real { end - start }
  }

  datatype Event = Event(time: real, stop: bool, target: Target)

  /** Earlier time first; at one time "start" sorts before "stop". */
  predicate EventLeq(a: Event, b: Event) {
    a.time < b.time || (a.time == b.time && (b.stop || !a.stop))
  }

  function StartOf(x: Target): Event { Event(x.start, false, x) }

  function StopOf(x: Target): Event { Event(x.end, true, x) }

  function Events(entries: seq<Target>): seq<Event> {
    if entries == [] then [] else [StartOf(entries[0]), StopOf(entries[0])] + Events(entries[1..])
  }

  function Timeline(entries: seq<Target>): seq<Event> {
    StableSort(Events(entries), EventLeq)
  }

  // What a weighted duration is meant to be.

  /** The tasks that run through the whole cell from `a` to `b`. */
  ghost function Cover(entries: seq<Target>, a: real, b: real): set<Target> {
    set x | x in entries && x.start <= a && b <= x.end
  }

  /** One task's part of a cell: the cell's length divided by the number of tasks running through it. */
  ghost function CellShare(entries: seq<Target>, a: real, b: real, x: Target): real {
    var cover := Cover(entries, a, b);
    if a < b && x in cover then (b - a) / |cover| as real else 0.0
  }

  ghost function CellBusy(entries: seq<Target>, a: real, b: real): real {
    if a < b && Cover(entries, a, b) != {} then b - a else 0.0
  }

  /** The share of task `x` over the cells between the first `n` points of the grid `g`. */
  ghost function FairShare(entries: seq<Target>, g: seq<real>, x: Target, n: nat): real
    requires n <= |g|
  {
    if n <= 1 then 0.0 else FairShare(entries, g, x, n - 1) + CellShare(entries, g[n - 2], g[n - 1], x)
  }

  /** The length of the union of the task intervals, on a grid that holds all their ends. */
  ghost function BusyTime(entries: seq<Target>, g: seq<real>, n: nat): real
    requires n <= |g|
  {
    if n <= 1 then 0.0 else BusyTime(entries, g, n - 1) + CellBusy(entries, g[n - 2], g[n - 1])
  }

  function Times(evs: seq<Event>): (g: seq<real>)
    ensures |g| == |evs| && forall i | 0 <= i < |g| :: g[i] == evs[i].time
  {
    seq(|evs|, i requires 0 <= i < |evs| => evs[i].time)
  }

  function Grid(entries: seq<Target>): seq<real> {
    Times(Timeline(entries))
  }

  ghost function Sum(xs: seq<Target>, f: Target -> real): real {
    if xs == [] then 0.0 else f(xs[0]) + Sum(xs[1..], f)
  }

  // Laws of the shares.

  ghost function CellShareOf(entries: seq<Target>, a: real, b: real): Target -> real {
    (x: Target) => CellShare(entries, a, b, x)
  }

  ghost function FairShareOf(entries: seq<Target>, g: seq<real>, n: nat): Target -> real
    requires n <= |g|
  {
    (x: Target) => FairShare(entries, g, x, n)
  }

  lemma {:induction false} SumAdd(xs: seq<Target>, f: Target -> real, g: Target -> real, h: Target -> real)
    requires forall i | 0 <= i < |xs| :: h(xs[i]) == f(xs[i]) + g(xs[i])
    ensures Sum(xs, h) == Sum(xs, f) + Sum(xs, g)
  {
    if xs != [] { SumAdd(xs[1..], f, g, h); }
  }

  lemma {:induction false} SumZero(xs: seq<Target>, f: Target -> real)
    requires forall i | 0 <= i < |xs| :: f(xs[i]) == 0.0
    ensures Sum(xs, f) == 0.0
  {
    if xs != [] { SumZero(xs[1..], f); }
  }

  ghost function Within(xs: seq<Target>, s: set<Target>): set<Target> {
    set x | x in xs && x in s
  }

  lemma WithinStep(xs: seq<Target>, s: set<Target>)
    requires Distinct(xs) && xs != []
    ensures |Within(xs, s)| == |Within(xs[1..], s)| + if xs[0] in s then 1 else 0
  {
    var tail := xs[1..];
    assert xs == [xs[0]] + tail;
    assert Within(xs, s) == Within(tail, s) + if xs[0] in s then {xs[0]} else {};
  }

  function Multiple(n: nat, c: real): real {
    if n == 0 then 0.0 else Multiple(n - 1, c) + c
  }

  lemma {:induction false} MultipleIsProduct(n: nat, c: real)
    ensures Multiple(n, c) == n as real * c
  {
    if n > 0 { MultipleIsProduct(n - 1, c); }
  }

  /** A constant on a set of list members, and nothing elsewhere, sums to the constant once per member. */
  lemma {:induction false} SumOnSet(xs: seq<Target>, f: Target -> real, s: set<Target>, c: real)
    requires Distinct(xs)
    requires forall i | 0 <= i < |xs| :: f(xs[i]) == if xs[i] in s then c else 0.0
    ensures Sum(xs, f) == Multiple(|Within(xs, s)|, c)
  {
    if xs == [] {
      assert Within(xs, s) == {};
    } else {
      SumOnSet(xs[1..], f, s, c);
      WithinStep(xs, s);
    }
  }

  lemma CellIsSharedOut(entries: seq<Target>, a: real, b: real)
    requires Distinct(entries)
    ensures Sum(entries, CellShareOf(entries, a, b)) == CellBusy(entries, a, b)
  {
    var f, cover := CellShareOf(entries, a, b), Cover(entries, a, b);
    if a < b && cover != {} {
      var n := |cover| as real;
      SumOnSet(entries, f, cover, (b - a) / n);
      assert cover == Within(entries, cover);
      MultipleIsProduct(|cover|, (b - a) / n);
      assert n * ((b - a) / n) == b - a;
    } else {
      SumZero(entries, f);
    }
  }

  /** Conservation: the shares of all tasks sum exactly to the time in which some task runs. */
  lemma {:induction false} SharesConserveTime(entries: seq<Target>, g: seq<real>, n: nat)
    requires Distinct(entries) && n <= |g|
    ensures Sum(entries, FairShareOf(entries, g, n)) == BusyTime(entries, g, n)
  {
    if n <= 1 {
      SumZero(entries, FairShareOf(entries, g, n));
    } else {
      SharesConserveTime(entries, g, n - 1);
      CellIsSharedOut(entries, g[n - 2], g[n - 1]);
      SumAdd(entries, FairShareOf(entries, g, n - 1), CellShareOf(entries, g[n - 2], g[n - 1]),
          FairShareOf(entries, g, n));
    }
  }

  ghost predicate Ascending(g: seq<real>) {
    forall i, j | 0 <= i < j < |g| :: g[i] <= g[j]
  }

  function Clip(t: real, lo: real, hi: real): real {
    if t < lo then lo else if t > hi then hi else t
  }

  lemma CellShareBound(entries: seq<Target>, a: real, b: real, x: Target)
    requires a <= b && x.start <= x.end
    ensures 0.0 <= CellShare(entries, a, b, x) <= Clip(b, x.start, x.end) - Clip(a, x.start, x.end)
  {
    var cover := Cover(entries, a, b);
    if a < b && x in cover {
      assert cover != {} && |cover| >= 1;
      PartOfWhole(b - a, |cover| as real);
    }
  }

  lemma PartOfWhole(d: real, n: real)
    requires d >= 0.0 && n >= 1.0
    ensures 0.0 <= d / n <= d
  {
    var q := d / n;
    assert q * n == d;
    assert q * (n - 1.0) >= 0.0;
  }

  /** A weighted duration is never negative and never longer than the duration itself. */
  lemma {:induction false} ShareBound(entries: seq<Target>, g: seq<real>, x: Target, n: nat)
    requires Ascending(g) && 0 < n <= |g| && x.start <= x.end
    ensures 0.0 <= FairShare(entries, g, x, n) <= Clip(g[n - 1], x.start, x.end) - Clip(g[0], x.start, x.end) <=
            x.Duration()
  {
    if n > 1 {
      ShareBound(entries, g, x, n - 1);
      CellShareBound(entries, g[n - 2], g[n - 1], x);
    }
  }

  lemma {:induction false} BusyBound(entries: seq<Target>, g: seq<real>, n: nat)
    requires Ascending(g) && 0 < n <= |g|
    ensures 0.0 <= BusyTime(entries, g, n) <= g[n - 1] - g[0]
  {
    if n > 1 { BusyBound(entries, g, n - 1); }
  }

  // The sorted event list.

  ghost predicate AllForward(entries: seq<Target>) {
    forall i | 0 <= i < |entries| :: entries[i].start <= entries[i].end
  }

  ghost predicate Genuine(e: Event, entries: seq<Target>) {
    e.target in entries && (e == StartOf(e.target) || e == StopOf(e.target))
  }

  ghost predicate Ordered(evs: seq<Event>) {
    && Distinct(evs)
    && (forall i, j | 0 <= i < j < |evs| :: EventLeq(evs[i], evs[j]))
  }

  /** `evs` holds each task's start and stop once, in sweep order. */
  ghost predicate IsTimeline(entries: seq<Target>, evs: seq<Event>) {
    && Ordered(evs)
    && (forall i | 0 <= i < |evs| :: Genuine(evs[i], entries))
    && (forall i | 0 <= i < |entries| :: StartOf(entries[i]) in evs && StopOf(entries[i]) in evs)
  }

  lemma {:induction false} EventAt(entries: seq<Target>, i: nat)
    requires i < |entries|
    ensures |Events(entries)| == 2 * |entries|
    ensures Events(entries)[2 * i] == StartOf(entries[i]) && Events(entries)[2 * i + 1] == StopOf(entries[i])
  {
    if i > 0 {
      EventAt(entries[1..], i - 1);
    } else if |entries| > 1 {
      EventAt(entries[1..], 0);
    }
  }

  lemma EventsAt(entries: seq<Target>)
    ensures |Events(entries)| == 2 * |entries|
    ensures forall i | 0 <= i < |entries| ::
              Events(entries)[2 * i] == StartOf(entries[i]) && Events(entries)[2 * i + 1] == StopOf(entries[i])
  {
  }

  lemma EventsAreDistinct(entries: seq<Target>)
    requires Distinct(entries)
    ensures Distinct(Events(entries))
    ensures forall k | 0 <= k < |Events(entries)| :: Genuine(Events(entries)[k], entries)
  {
  }

  lemma TimelineIsTimeline(entries: seq<Target>)
    requires Distinct(entries)
    ensures IsTimeline(entries, Timeline(entries))
    ensures |Timeline(entries)| == 2 * |entries|
  {
    var raw, evs := Events(entries), Timeline(entries);
    EventsAt(entries);
    SameElements(raw, evs);
    forall i | 0 <= i < |entries| ensures StartOf(entries[i]) in evs && StopOf(entries[i]) in evs {
      assert raw[2 * i] in evs && raw[2 * i + 1] in evs;
    }
    TimelineIsOrdered(entries);
  }

  lemma TimelineIsOrdered(entries: seq<Target>)
    requires Distinct(entries)
    ensures Ordered(Timeline(entries))
    ensures forall i | 0 <= i < |Timeline(entries)| :: Genuine(Timeline(entries)[i], entries)
  {
    var raw, evs := Events(entries), Timeline(entries);
    EventsAreDistinct(entries);
    SortDistinct(raw, EventLeq);
    StableSortSorted(raw, EventLeq);
    SameElements(raw, evs);
    forall i | 0 <= i < |evs| ensures Genuine(evs[i], entries) {
      assert evs[i] in raw;
      var k :| 0 <= k < |raw| && raw[k] == evs[i];
      assert Genuine(raw[k], entries);
    }
  }

  /** The tasks started and not yet stopped by the first `k` events. */
  ghost function Running(evs: seq<Event>, k: nat): set<Target>
    requires k <= |evs|
  {
    if k == 0 then {}
    else if evs[k - 1].stop then Running(evs, k - 1) - {evs[k - 1].target}
    else Running(evs, k - 1) + {evs[k - 1].target}
  }

  lemma EventsAreGenuine(entries: seq<Target>, evs: seq<Event>)
    requires IsTimeline(entries, evs)
    ensures Ordered(evs) && forall i | 0 <= i < |evs| :: Genuine(evs[i], entries)
  {
  }

  ghost predicate Sits(evs: seq<Event>, x: Target, p: nat, q: nat) {
    p < |evs| && q < |evs| && evs[p] == StartOf(x) && evs[q] == StopOf(x)
  }

  lemma OnlyEventsOf(entries: seq<Target>, evs: seq<Event>, x: Target, p: nat, q: nat, k: nat)
    requires IsTimeline(entries, evs) && Sits(evs, x, p, q) && k < |evs| && evs[k].target == x
    ensures k == if evs[k].stop then q else p
  {
  }

  /** A forward task runs after `k` events iff its start, but not its stop, is among them. */
  lemma {:induction false} RunningExactly(entries: seq<Target>, evs: seq<Event>, k: nat, x: Target, p: nat, q: nat)
    requires IsTimeline(entries, evs) && k <= |evs| && Sits(evs, x, p, q) && p < q
    ensures x in Running(evs, k) <==> p < k <= q
  {
    hide IsTimeline;
    if k > 0 {
      RunningExactly(entries, evs, k - 1, x, p, q);
      if evs[k - 1].target == x {
        OnlyEventsOf(entries, evs, x, p, q, k - 1);
      }
    }
  }

  lemma Positions(entries: seq<Target>, evs: seq<Event>, x: Target) returns (p: nat, q: nat)
    requires IsTimeline(entries, evs) && x in entries
    ensures Sits(evs, x, p, q)
  {
    var i :| 0 <= i < |entries| && entries[i] == x;
    assert StartOf(entries[i]) in evs && StopOf(entries[i]) in evs;
    p :| 0 <= p < |evs| && evs[p] == StartOf(x);
    q :| 0 <= q < |evs| && evs[q] == StopOf(x);
  }

  lemma TimesAscend(evs: seq<Event>, i: nat, j: nat)
    requires Ordered(evs) && i < |evs| && j < |evs|
    ensures i <= j ==> evs[i].time <= evs[j].time
  {
  }

  lemma RunsThroughCell(entries: seq<Target>, evs: seq<Event>, k: nat, x: Target)
    requires IsTimeline(entries, evs) && x in entries && x.start <= x.end
    requires 0 < k < |evs| && evs[k - 1].time < evs[k].time
    ensures x in Running(evs, k) <==> x.start <= evs[k - 1].time && evs[k].time <= x.end
  {
    EventsAreGenuine(entries, evs);
    hide IsTimeline, Running;
    var p, q := Positions(entries, evs, x);
    RunningExactly(entries, evs, k, x, p, q);
  }

  lemma {:induction false} RunningAreEntries(entries: seq<Target>, evs: seq<Event>, k: nat)
    requires IsTimeline(entries, evs) && k <= |evs|
    ensures forall x | x in Running(evs, k) :: x in entries
  {
    if k > 0 {
      RunningAreEntries(entries, evs, k - 1);
      assert Genuine(evs[k - 1], entries);
    }
  }

  /** Over a cell of positive length the sweep's running tasks are those that run through the cell. */
  lemma RunningIsCover(entries: seq<Target>, evs: seq<Event>, k: nat)
    requires IsTimeline(entries, evs) && AllForward(entries)
    requires 0 < k < |evs| && evs[k - 1].time < evs[k].time
    ensures Running(evs, k) == Cover(entries, evs[k - 1].time, evs[k].time)
  {
    forall i | 0 <= i < |entries|
      ensures entries[i] in Running(evs, k) <==> entries[i].start <= evs[k - 1].time && evs[k].time <= entries[i].end
    {
      RunsThroughCell(entries, evs, k, entries[i]);
    }
    RunningAreEntries(entries, evs, k);
  }

  // The sweep.

  /** What the running total gains just before event `k` is handled. */
  ghost function Gain(evs: seq<Event>, k: nat): real
    requires k < |evs|
  {
    if k == 0 || Running(evs, k) == {} then 0.0
    else (evs[k].time - evs[k - 1].time) / |Running(evs, k)| as real
  }

  ghost function Acc(evs: seq<Event>, k: nat): real
    requires k <= |evs|
  {
    if k == 0 then 0.0 else Acc(evs, k - 1) + Gain(evs, k - 1)
  }

  /** The part of the total gained while `x` was running. */
  ghost function Share(evs: seq<Event>, x: Target, k: nat): real
    requires k <= |evs|
  {
    if k == 0 then 0.0
    else Share(evs, x, k - 1) + Piece(evs, x, k - 1)
  }

  ghost function Piece(evs: seq<Event>, x: Target, k: nat): real
    requires k < |evs|
  {
    if x in Running(evs, k) then Gain(evs, k) else 0.0
  }

  lemma GainIsCellShare(entries: seq<Target>, evs: seq<Event>, x: Target, k: nat)
    requires IsTimeline(entries, evs) && AllForward(entries) && 0 < k < |evs|
    ensures Piece(evs, x, k) == CellShare(entries, evs[k - 1].time, evs[k].time, x)
  {
    EventsAreGenuine(entries, evs);
    var a, b := evs[k - 1].time, evs[k].time;
    hide *;
    TimesAscend(evs, k - 1, k);
    PieceIs(evs, x, k);
    CellShareIs(entries, a, b, x);
    if a < b {
      RunningIsCover(entries, evs, k);
    } else {
      NoPart(Running(evs, k), x);
    }
  }

  /** One task's part of a length that is divided among the tasks of `s`. */
  ghost function PartOf(length: real, s: set<Target>, x: Target): real {
    if x in s then length / |s| as real else 0.0
  }

  lemma PieceIs(evs: seq<Event>, x: Target, k: nat)
    requires 0 < k < |evs|
    ensures Piece(evs, x, k) == PartOf(evs[k].time - evs[k - 1].time, Running(evs, k), x)
  {
    hide Running;
  }

  lemma CellShareIs(entries: seq<Target>, a: real, b: real, x: Target)
    ensures CellShare(entries, a, b, x) == if a < b then PartOf(b - a, Cover(entries, a, b), x) else 0.0
  {
    hide Cover;
  }

  lemma NoPart(s: set<Target>, x: Target)
    ensures PartOf(0.0, s, x) == 0.0
  {
  }

  lemma {:induction false} PiecesAddUp(entries: seq<Target>, evs: seq<Event>, x: Target, k: nat)
    requires k <= |evs| && evs != [] && Piece(evs, x, 0) == 0.0
    requires forall j | 0 < j < |evs| :: Piece(evs, x, j) == CellShare(entries, evs[j - 1].time, evs[j].time, x)
    ensures Share(evs, x, k) == FairShare(entries, Times(evs), x, k)
  {
    if k > 0 { PiecesAddUp(entries, evs, x, k - 1); }
  }

  /** On forward tasks the sweep's share is the fair share. */
  lemma ShareIsFair(entries: seq<Target>, evs: seq<Event>, x: Target)
    requires IsTimeline(entries, evs) && AllForward(entries) && evs != []
    ensures Share(evs, x, |evs|) == FairShare(entries, Times(evs), x, |evs|)
  {
    forall j | 0 < j < |evs| ensures Piece(evs, x, j) == CellShare(entries, evs[j - 1].time, evs[j].time, x) {
      GainIsCellShare(entries, evs, x, j);
    }
    PiecesAddUp(entries, evs, x, |evs|);
  }

  /** Where task `x` stands after `k` events; `weight` is its stored weighted duration. */
  ghost predicate Tracked(evs: seq<Event>, x: Target, k: nat, running: map<Target, real>, weight: real)
    requires k <= |evs|
  {
    && (x in running <==> x in Running(evs, k))
    && (x in running ==> running[x] + Share(evs, x, k) == Acc(evs, k))
    && (StartOf(x) !in evs[..k] ==> x !in running && Share(evs, x, k) == 0.0)
    && (StopOf(x) in evs[..k] ==> StartOf(x) in evs[..k] && x !in running && weight == Share(evs, x, k))
    && (x in running ==> StopOf(x) !in evs[..k])
  }

  lemma TrackStep(entries: seq<Target>, evs: seq<Event>, x: Target, k: nat, running: map<Target, real>, weight: real)
    requires IsTimeline(entries, evs) && k < |evs| && Tracked(evs, x, k, running, weight)
    requires evs[k].stop ==> evs[k].target in running
    ensures var e, total := evs[k], Acc(evs, k + 1);
            Tracked(evs, x, k + 1,
                    if e.stop then running - {e.target} else running[e.target := total],
                    if e == StopOf(x) then total - running[x] else weight)
  {
  }

  /** The weighted durations stored by the first `k` events. */
  ghost function DoneOf(evs: seq<Event>, k: nat): Target -> real
    requires k <= |evs|
  {
    (x: Target) => if StopOf(x) in evs[..k] then Share(evs, x, k) else 0.0
  }

  lemma {:induction false} SumUpdate(xs: seq<Target>, f: Target -> real, g: Target -> real, y: Target, c: real)
    requires Distinct(xs) && y in xs
    requires forall i | 0 <= i < |xs| :: g(xs[i]) == f(xs[i]) + if xs[i] == y then c else 0.0
    ensures Sum(xs, g) == Sum(xs, f) + c
  {
    if xs[0] == y {
      assert forall i | 0 <= i < |xs[1..]| :: xs[1..][i] == xs[i + 1] != y;
      SumSame(xs[1..], f, g);
    } else {
      SumUpdate(xs[1..], f, g, y, c);
    }
  }

  lemma {:induction false} SumSame(xs: seq<Target>, f: Target -> real, g: Target -> real)
    requires forall i | 0 <= i < |xs| :: f(xs[i]) == g(xs[i])
    ensures Sum(xs, f) == Sum(xs, g)
  {
    if xs != [] { SumSame(xs[1..], f, g); }
  }

  ghost predicate AllTracked(entries: seq<Target>, evs: seq<Event>, k: nat, running: map<Target, real>)
    requires k <= |evs|
    reads entries
  {
    forall i | 0 <= i < |entries| :: Tracked(evs, entries[i], k, running, entries[i].weightedDuration)
  }

  lemma TotalStep(entries: seq<Target>, evs: seq<Event>, k: nat, running: map<Target, real>)
    requires IsTimeline(entries, evs) && Distinct(entries) && k < |evs|
    requires AllTracked(entries, evs, k, running)
    requires evs[k].stop ==> evs[k].target in running
    ensures Sum(entries, DoneOf(evs, k + 1)) ==
            Sum(entries, DoneOf(evs, k)) + if evs[k].stop then Acc(evs, k + 1) - running[evs[k].target] else 0.0
  {
    var e, f, g := evs[k], DoneOf(evs, k), DoneOf(evs, k + 1);
    assert Genuine(e, entries);
    var c := if e.stop then Acc(evs, k + 1) - running[e.target] else 0.0;
    forall i | 0 <= i < |entries| ensures g(entries[i]) == f(entries[i]) + if entries[i] == e.target then c else 0.0 {
      var x := entries[i];
      assert Tracked(evs, x, k, running, x.weightedDuration);
    }
    SumUpdate(entries, f, g, e.target, c);
  }

  /** A stop whose task is not running belongs to a task that ends before it starts. */
  lemma StuckOnlyBackwards(entries: seq<Target>, evs: seq<Event>, k: nat, x: Target)
    requires IsTimeline(entries, evs) && k < |evs| && evs[k] == StopOf(x) && x !in Running(evs, k)
    ensures x in entries && x.end < x.start
  {
    assert Genuine(evs[k], entries);
    var p, q := Positions(entries, evs, x);
    OnlyEventsOf(entries, evs, x, p, q, k);
    if p < q { RunningExactly(entries, evs, k, x, p, q); }
  }

  /** Every stop among the first `k` events came after its start. */
  ghost predicate StopsFollow(evs: seq<Event>, k: nat)
    requires k <= |evs|
  {
    forall j | 0 <= j < k && evs[j].stop :: StartOf(evs[j].target) in evs[..j]
  }

  lemma FollowingMeansForward(entries: seq<Target>, evs: seq<Event>)
    requires IsTimeline(entries, evs) && StopsFollow(evs, |evs|)
    ensures AllForward(entries)
  {
    EventsAreGenuine(entries, evs);
    hide IsTimeline;
    forall i | 0 <= i < |entries| ensures entries[i].start <= entries[i].end {
    }
  }

  /** Handles event `k`: a stop stores the weighted duration, a start records the running total. */
  method Handle(entries: seq<Target>, evs: seq<Event>, k: nat, running: map<Target, real>, lastWeighted: real)
    returns (next: map<Target, real>)
    requires Distinct(entries) && IsTimeline(entries, evs) && k < |evs|
    requires running.Keys == Running(evs, k) && AllTracked(entries, evs, k, running)
    requires lastWeighted == Acc(evs, k + 1)
    requires evs[k].stop ==> evs[k].target in running
    modifies entries
    ensures next.Keys == Running(evs, k + 1) && AllTracked(entries, evs, k + 1, next)
  {
    var e := evs[k];
    assert Genuine(e, entries);
    hide IsTimeline, Acc;
    forall i | 0 <= i < |entries| ensures
      Tracked(evs, entries[i], k + 1, if e.stop then running - {e.target} else running[e.target := lastWeighted],
              if e == StopOf(entries[i]) then lastWeighted - running[entries[i]] else entries[i].weightedDuration)
    {
      TrackStep(entries, evs, entries[i], k, running, entries[i].weightedDuration);
    }
    hide Tracked;
    if e.stop {
      e.target.weightedDuration := lastWeighted - running[e.target];
      next := running - {e.target};
    } else {
      next := running[e.target := lastWeighted];
    }
  }

  /** The last three: a stop looked up a missing task, the length to divide by is zero, or all went well. */
  datatype Outcome =
    | NoEntries
    | NotRunning(task: Target)
    | NoLength(weightedTotal: real)
    | Summary(weightedTotal: real, length: real)

  /** What holds between two events: the running set and totals are those of the first `k` events. */
  ghost predicate Swept(entries: seq<Target>, evs: seq<Event>, k: nat, running: map<Target, real>, lastTime: real,
                        lastWeighted: real, total: real)
    requires k <= |evs| && evs != []
    reads entries
  {
    && lastTime == (if k == 0 then evs[0].time else evs[k - 1].time)
    && lastWeighted == Acc(evs, k)
    && running.Keys == Running(evs, k) && StopsFollow(evs, k)
    && AllTracked(entries, evs, k, running)
    && total == Sum(entries, DoneOf(evs, k))
  }

  lemma SweepStarts(entries: seq<Target>, evs: seq<Event>)
    requires evs != []
    ensures Swept(entries, evs, 0, map[], evs[0].time, 0.0, 0.0)
  {
    SumZero(entries, DoneOf(evs, 0));
  }

  /** The body of the loop over the sorted events; a stop whose task is not running fails. */
  method SweepOne(entries: seq<Target>, evs: seq<Event>, k: nat, running0: map<Target, real>, lastTime: real,
                  lastWeighted0: real, total0: real)
    returns (ok: bool, running: map<Target, real>, lastWeighted: real, total: real)
    requires Distinct(entries) && IsTimeline(entries, evs) && k < |evs|
    requires Swept(entries, evs, k, running0, lastTime, lastWeighted0, total0)
    modifies entries
    ensures ok ==> Swept(entries, evs, k + 1, running, evs[k].time, lastWeighted, total)
    ensures !ok ==> evs[k].target in entries && evs[k].target.end < evs[k].target.start
  {
    EventsAreGenuine(entries, evs);
    hide IsTimeline, AllTracked, Acc, Running, StopsFollow, Sum, DoneOf;
    var e := evs[k];
    running, total := running0, total0;
    lastWeighted := Advance(evs, k, running, lastTime, lastWeighted0);
    ok := true;
    if e.stop && e.target !in running {
      assert Genuine(e, entries) && e == StopOf(e.target);
      StuckOnlyBackwards(entries, evs, k, e.target);
      ok := false;
      return;
    }
    TotalStep(entries, evs, k, running);
    StartedBefore(entries, evs, k, running);
    if e.stop {
      total := total + (lastWeighted - running[e.target]);
    }
    running := Handle(entries, evs, k, running, lastWeighted);
  }

  /** The loop over the sorted events; it ends at event `k` if that event fails. */
  method SweepAll(entries: seq<Target>, evs: seq<Event>)
    returns (k: nat, running: map<Target, real>, lastTime: real, lastWeighted: real, total: real)
    requires Distinct(entries) && IsTimeline(entries, evs) && evs != []
    modifies entries
    ensures k <= |evs|
    ensures k == |evs| ==> Swept(entries, evs, |evs|, running, lastTime, lastWeighted, total)
    ensures k < |evs| ==> evs[k].target in entries && evs[k].target.end < evs[k].target.start
  {
    hide *;
    running, k := map[], 0;
    lastTime, lastWeighted, total := evs[0].time, 0.0, 0.0;
    SweepStarts(entries, evs);
    var ok := true;
    while ok && k < |evs|
      invariant k <= |evs|
      invariant ok ==> Swept(entries, evs, k, running, lastTime, lastWeighted, total)
      invariant !ok ==> k < |evs| && evs[k].target in entries && evs[k].target.end < evs[k].target.start
      decreases ok, |evs| - k
    {
      ok, running, lastWeighted, total := SweepOne(entries, evs, k, running, lastTime, lastWeighted, total);
      if ok {
        lastTime := evs[k].time;
        k := k + 1;
      }
    }
  }

  method Sweep(entries: seq<Target>, evs: seq<Event>, length: real) returns (r: Outcome)
    requires Distinct(entries) && IsTimeline(entries, evs) && evs != []
    modifies entries
    ensures !r.NoEntries? && !r.NoLength?
    ensures r.Summary? ==> AllForward(entries)
    ensures r.NotRunning? ==> r.task in entries && r.task.end < r.task.start
    ensures r.Summary? ==> AllTracked(entries, evs, |evs|, map[])
    ensures r.Summary? ==> r.weightedTotal == Sum(entries, DoneOf(evs, |evs|)) && r.length == length
  {
    hide *;
    var k, running, lastTime, lastWeighted, total := SweepAll(entries, evs);
    if k < |evs| {
      r := NotRunning(evs[k].target);
    } else {
      SweepEnds(entries, evs, running, lastTime, lastWeighted, total);
      r := Summary(total, length);
    }
  }

  lemma SweepEnds(entries: seq<Target>, evs: seq<Event>, running: map<Target, real>, lastTime: real, lastWeighted: real,
                  total: real)
    requires IsTimeline(entries, evs) && evs != []
    requires Swept(entries, evs, |evs|, running, lastTime, lastWeighted, total)
    ensures AllForward(entries) && running == map[] && AllTracked(entries, evs, |evs|, map[])
    ensures total == Sum(entries, DoneOf(evs, |evs|))
  {
    hide IsTimeline, AllTracked, Acc, Running, StopsFollow, Sum, DoneOf;
    FollowingMeansForward(entries, evs);
    NoneLeft(entries, evs, running);
  }

  /** Adds the time since the last event, split between the running tasks. */
  method Advance(evs: seq<Event>, k: nat, running: map<Target, real>, lastTime: real, before: real)
    returns (lastWeighted: real)
    requires k < |evs| && running.Keys == Running(evs, k) && before == Acc(evs, k)
    requires lastTime == if k == 0 then evs[0].time else evs[k - 1].time
    ensures lastWeighted == Acc(evs, k + 1)
  {
    lastWeighted := before;
    assert |running| == |running.Keys|;
    if |running| > 0 {
      lastWeighted := lastWeighted + (evs[k].time - lastTime) / |running| as real;
    }
  }

  lemma StartedBefore(entries: seq<Target>, evs: seq<Event>, k: nat, running: map<Target, real>)
    requires IsTimeline(entries, evs) && k < |evs|
    requires AllTracked(entries, evs, k, running)
    requires StopsFollow(evs, k) && (evs[k].stop ==> evs[k].target in running)
    ensures StopsFollow(evs, k + 1)
  {
  }

  /** The running set ends empty. */
  lemma NoneLeft(entries: seq<Target>, evs: seq<Event>, running: map<Target, real>)
    requires IsTimeline(entries, evs) && AllTracked(entries, evs, |evs|, running)
    requires running.Keys == Running(evs, |evs|)
    ensures running == map[]
  {
    RunningAreEntries(entries, evs, |evs|);
    assert evs[..|evs|] == evs;
    forall i | 0 <= i < |entries| ensures entries[i] !in running {
      assert Tracked(evs, entries[i], |evs|, running, entries[i].weightedDuration);
    }
    assert running.Keys == {};
  }

  // The extent of the build.

  /** The scan for the earliest start over the first `n` tasks, with the initial value -1. */
  function Earliest(entries: seq<Target>, n: nat): real
    requires n <= |entries|
  {
    if n == 0 then -1.0
    else
      var e := Earliest(entries, n - 1);
      if e < 0.0 || entries[n - 1].start < e then entries[n - 1].start else e
  }

  /** The scan for the latest end over the first `n` tasks, with the initial value 0. */
  function Latest(entries: seq<Target>, n: nat): real
    requires n <= |entries|
  {
    if n == 0 then 0.0
    else
      var l := Latest(entries, n - 1);
      if entries[n - 1].end > l then entries[n - 1].end else l
  }

  method Extent(entries: seq<Target>) returns (earliest: real, latest: real)
    ensures earliest == Earliest(entries, |entries|) && latest == Latest(entries, |entries|)
  {
    earliest, latest := -1.0, 0.0;
    for k := 0 to |entries|
      invariant earliest == Earliest(entries, k) && latest == Latest(entries, k)
    {
      if earliest < 0.0 || entries[k].start < earliest { earliest := entries[k].start; }
      if entries[k].end > latest { latest := entries[k].end; }
    }
  }

  ghost predicate IsEarliest(entries: seq<Target>, n: nat, t: real)
    requires n <= |entries|
  {
    (exists i :: 0 <= i < n && entries[i].start == t) && forall i | 0 <= i < n :: t <= entries[i].start
  }

  ghost predicate IsLatest(entries: seq<Target>, n: nat, t: real)
    requires n <= |entries|
  {
    (exists i :: 0 <= i < n && entries[i].end == t) && forall i | 0 <= i < n :: entries[i].end <= t
  }

  /** The scan is exact if and only if no task starts before time zero or none starts before the last one. */
  lemma {:induction false} EarliestExactly(entries: seq<Target>, n: nat)
    requires 0 < n <= |entries|
    ensures IsEarliest(entries, n, Earliest(entries, n)) <==>
            || (forall i | 0 <= i < n :: 0.0 <= entries[i].start)
            || (forall i | 0 <= i < n :: entries[n - 1].start <= entries[i].start)
    ensures exists i :: 0 <= i < n && entries[i].start == Earliest(entries, n)
    ensures (exists i :: 0 <= i < n && entries[i].start < 0.0)
            ==> Earliest(entries, n) >= 0.0 || Earliest(entries, n) == entries[n - 1].start
  {
    if n > 1 { EarliestExactly(entries, n - 1); }
  }

  /** The scan is exact if and only if some task ends at time zero or later; it never lies before an end. */
  lemma {:induction false} LatestExactly(entries: seq<Target>, n: nat)
    requires n <= |entries|
    ensures IsLatest(entries, n, Latest(entries, n)) <==> exists i :: 0 <= i < n && entries[i].end >= 0.0
    ensures 0.0 <= Latest(entries, n) && forall i | 0 <= i < n :: entries[i].end <= Latest(entries, n)
    ensures Latest(entries, n) == 0.0 || exists i :: 0 <= i < n && entries[i].end == Latest(entries, n)
  {
    if n > 0 { LatestExactly(entries, n - 1); }
  }

  /** All tasks lie between `lo` and `hi`. */
  ghost predicate Covers(entries: seq<Target>, lo: real, hi: real) {
    forall i | 0 <= i < |entries| :: lo <= entries[i].start && entries[i].end <= hi
  }

  /** From time zero on, the scanned extent holds all tasks, and it is empty only if they sit at one instant. */
  lemma ExtentHolds(entries: seq<Target>)
    requires entries != [] && AllForward(entries) && forall i | 0 <= i < |entries| :: 0.0 <= entries[i].start
    ensures Covers(entries, Earliest(entries, |entries|), Latest(entries, |entries|))
    ensures Earliest(entries, |entries|) == Latest(entries, |entries|) <==>
            forall i | 0 <= i < |entries| :: entries[0].start == entries[i].start == entries[i].end
  {
    EarliestExactly(entries, |entries|);
    LatestExactly(entries, |entries|);
  }

  lemma Settled(entries: seq<Target>, i: nat)
    requires Distinct(entries) && AllForward(entries) && i < |entries|
    requires AllTracked(entries, Timeline(entries), |Timeline(entries)|, map[])
    ensures var evs, x := Timeline(entries), entries[i];
            && x.weightedDuration == FairShareOf(entries, Grid(entries), |evs|)(x) == DoneOf(evs, |evs|)(x)
            && 0.0 <= x.weightedDuration <= x.Duration()
  {
    var evs, x := Timeline(entries), entries[i];
    TimelineIsTimeline(entries);
    assert evs[..|evs|] == evs;
    assert Tracked(evs, x, |evs|, map[], x.weightedDuration);
    ShareIsFair(entries, evs, x);
    GridAscends(entries);
    ShareBound(entries, Grid(entries), x, |evs|);
  }

  lemma GridAscends(entries: seq<Target>)
    requires Distinct(entries)
    ensures Ascending(Grid(entries))
  {
    TimelineIsTimeline(entries);
    var evs := Timeline(entries);
    forall i, j | 0 <= i < j < |evs| ensures evs[i].time <= evs[j].time {
      TimesAscend(evs, i, j);
    }
  }

  lemma BusyWithin(entries: seq<Target>, earliest: real, latest: real)
    requires Distinct(entries) && entries != [] && AllForward(entries) && Covers(entries, earliest, latest)
    ensures BusyTime(entries, Grid(entries), |Grid(entries)|) <= latest - earliest
  {
    TimelineIsTimeline(entries);
    GridAscends(entries);
    var evs := Timeline(entries);
    BusyBound(entries, Grid(entries), |evs|);
    assert Genuine(evs[0], entries) && Genuine(evs[|evs| - 1], entries);
  }

  ghost function SumOfWeights(entries: seq<Target>): real
    reads entries
  {
    if entries == [] then 0.0 else entries[0].weightedDuration + SumOfWeights(entries[1..])
  }

  lemma {:induction false} WeightsAreShares(xs: seq<Target>, f: Target -> real)
    requires forall i | 0 <= i < |xs| :: xs[i].weightedDuration == f(xs[i])
    ensures SumOfWeights(xs) == Sum(xs, f)
  {
    if xs != [] { WeightsAreShares(xs[1..], f); }
  }

  lemma AllSettled(entries: seq<Target>)
    requires Distinct(entries) && AllForward(entries) && entries != []
    requires AllTracked(entries, Timeline(entries), |Timeline(entries)|, map[])
    ensures FairlyWeighed(entries)
    ensures var evs := Timeline(entries);
            Sum(entries, DoneOf(evs, |evs|)) == SumOfWeights(entries) ==
                BusyTime(entries, Grid(entries), |Grid(entries)|)
  {
    var evs := Timeline(entries);
    var fair, done := FairShareOf(entries, Grid(entries), |evs|), DoneOf(evs, |evs|);
    forall i | 0 <= i < |entries|
      ensures && entries[i].weightedDuration == fair(entries[i]) == done(entries[i])
              && 0.0 <= entries[i].weightedDuration <= entries[i].Duration()
    {
      Settled(entries, i);
    }
    WeightsAreShares(entries, fair);
    SumSame(entries, fair, done);
    SharesConserveTime(entries, Grid(entries), |evs|);
  }

  ghost predicate FairlyWeighed(entries: seq<Target>)
    reads entries
  {
    forall i | 0 <= i < |entries| ::
      && entries[i].weightedDuration == FairShare(entries, Grid(entries), entries[i], |Grid(entries)|)
      && 0.0 <= entries[i].weightedDuration <= entries[i].Duration()
  }

  method Weigh(entries: seq<Target>, length: real) returns (r: Outcome)
    requires Distinct(entries) && entries != []
    modifies entries
    ensures !r.NoEntries? && !r.NoLength?
    ensures r.Summary? <==> AllForward(entries)
    ensures r.NotRunning? ==> r.task in entries && r.task.end < r.task.start
    ensures r.Summary? ==> FairlyWeighed(entries) && r.length == length
    ensures r.Summary? ==> r.weightedTotal == SumOfWeights(entries) == BusyTime(entries, Grid(entries), |Grid(entries)|)
  {
    var evs := Timeline(entries);
    TimelineIsTimeline(entries);
    r := Sweep(entries, evs, length);
    if r.Summary? { AllSettled(entries); }
  }

  /**
   * `SummarizeEntries`: it gets to the end exactly on a nonempty list of tasks none of which ends before it
   * starts; every task is then given its fair share, at most its own duration, and the shares sum
   * exactly to the length of the union of the task intervals, at most the length of any extent that
   * covers them. The last report divides by the scanned length.
   */
  method SummarizeEntries(entries: seq<Target>) returns (r: Outcome)
    requires Distinct(entries)
    modifies entries
    ensures r.NoEntries? <==> entries == []
    ensures r.NotRunning? <==> entries != [] && !AllForward(entries)
    ensures r.NotRunning? ==> r.task in entries && r.task.end < r.task.start
    ensures r.NoLength? <==>
            entries != [] && AllForward(entries) && Earliest(entries, |entries|) == Latest(entries, |entries|)
    ensures r.Summary? ==> r.length == Latest(entries, |entries|) - Earliest(entries, |entries|)
    ensures r.Summary? || r.NoLength? ==>
              && FairlyWeighed(entries)
              && r.weightedTotal == SumOfWeights(entries) == BusyTime(entries, Grid(entries), |Grid(entries)|)
              && forall lo, hi | Covers(entries, lo, hi) :: r.weightedTotal <= hi - lo
  {
    if entries == [] { return NoEntries; }
    var earliest, latest := Extent(entries);
    r := Weigh(entries, latest - earliest);
    if r.Summary? {
      forall lo, hi | Covers(entries, lo, hi) ensures r.weightedTotal <= hi - lo {
        BusyWithin(entries, lo, hi);
      }
      if r.length == 0.0 { r := NoLength(r.weightedTotal); }
    }
  }
}
