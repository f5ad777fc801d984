/** Comparing the statistics of a baseline and a current trace. */
module TraceComparison {
  import opened Sorting
  import opened Ticks
  import opened TraceNesting
  import opened ExclusiveTime
  import opened TraceStats
  import opened ComparisonTables
  import opened TraceFigures
  import opened TraceReports
  import opened Wrappers

  /**
   * One side of a comparison: its linked events, the identity every event has, and the identity a report
   * that matches an event gives it, if any.
   */
  datatype Side = Side(events: seq<EventVal>, general: Meta -> Id, reported: Meta -> Option<Id>)

  /** `report_event_identity`. */
  function ReportId(side: Side, config: Config): Meta -> Option<Id> {
    m => if config.matches(m) then side.reported(m) else None
  }

  /** The identity under which a child may be subtracted: any in scope "all", else that of a matching event. */
  function ChildId(side: Side, config: Config): Meta -> Option<Id> {
    m => if config.scope.All? || config.matches(m) then Some(side.general(m)) else None
  }

  function Ids(events: seq<EventVal>, identity: Meta -> Option<Id>): set<Id> {
    set i | 0 <= i < |events| && identity(events[i].meta).Some? :: identity(events[i].meta).value
  }

  /** `comparable_report_filter`: the identity, if it is a common one. */
  function Common(identity: Meta -> Option<Id>, ids: set<Id>): Meta -> Option<Id> {
    m => if identity(m).Some? && identity(m).value in ids then identity(m) else None
  }

  /** `comparable_child_filter`: children with a common identity are subtracted. */
  function CommonChildren(identity: Meta -> Option<Id>, ids: set<Id>): Config {
    Config(SameFilter, m => identity(m).Some? && identity(m).value in ids)
  }

  function CommonIds(baseline: Side, current: Side, config: Config): set<Id> {
    Ids(baseline.events, ReportId(baseline, config)) * Ids(current.events, ReportId(current, config))
  }

  function CommonChildIds(baseline: Side, current: Side, config: Config): set<Id> {
    Ids(baseline.events, ChildId(baseline, config)) * Ids(current.events, ChildId(current, config))
  }

  /** What a comparison collects for one of its sides. */
  ghost function SideStats(side: Side, config: Config, ids: set<Id>, childIds: set<Id>, path: string): Table {
    Collect(map[], side.events, path, Common(ReportId(side, config), ids),
            Keep(CommonChildren(ChildId(side, config), childIds)))
  }

  /** What the report on one trace alone collects. */
  ghost function OneSided(side: Side, config: Config, trace: string): Table {
    Collect(map[], side.events, trace, ReportId(side, config), Keep(config))
  }

  /** What `comparison_pair_stats` leaves in its dictionary. */
  ghost function PairStats(baseline: Side, current: Side, config: Config, path: string): Pairs {
    var ids, childIds := CommonIds(baseline, current, config), CommonChildIds(baseline, current, config);
    if ids == {} then map[]
    else
      MergeSide(MergeSide(map[], Baseline, SideStats(baseline, config, ids, childIds, path)),
                Current, SideStats(current, config, ids, childIds, path))
  }

  // The same on the linked objects.

  datatype EventSide = EventSide(events: seq<TraceEvent>, general: Meta -> Id, reported: Meta -> Option<Id>) {
    function Value(): Side
      reads events
    {
      Side(Snaps(events), general, reported)
    }

    ghost predicate Runs()
      reads events
    {
      forall i | 0 <= i < |events| :: Forward(Spans(events[i].children))
    }
  }

  /** The body of the loop over the two sides. */
  method AddSideStats(m: Comparisons, name: SideName, side: EventSide, config: Config, ids: set<Id>, childIds: set<Id>,
                      path: string)
    returns (r: Comparisons, ghost made: set<object>)
    requires side.Runs() && Unshared(m)
    requires forall o | o in Held(m) :: allocated(o)
    modifies Held(m)
    ensures Unshared(r) && fresh(made) && Held(r) <= Held(m) + made
    ensures PairValues(r) ==
            MergeSide(old(PairValues(m)), name, SideStats(old(side.Value()), config, ids, childIds, path))
  {
    hide Unshared, Held, PairValues, MergeSide, Collect, Values, Separate;
    var v := side.Value();
    var none: Objects := map[];
    assert Separate(none) && Owned(none) == {} && Values(none) == map[] by { NoObjects(); }
    var stats := CollectTraceStats(none, side.events, path, Common(ReportId(v, config), ids),
                                   CommonChildren(ChildId(v, config), childIds));
    r, made := MergeComparisonSideStats(m, name, stats);
  }

  /** `comparison_pair_stats`: the dictionary it builds, of objects nobody else holds. */
  method ComparisonPairStats(baseline: EventSide, current: EventSide, config: Config, path: string)
    returns (m: Comparisons, ghost made: set<object>)
    requires baseline.Runs() && current.Runs()
    ensures Unshared(m) && fresh(made) && Held(m) <= made
    ensures PairValues(m) == PairStats(baseline.Value(), current.Value(), config, path)
  {
    var b, c := baseline.Value(), current.Value();
    var ids, childIds := CommonIds(b, c, config), CommonChildIds(b, c, config);
    m, made := map[], {};
    NoComparisons();
    hide *;
    PairStatsAre(b, c, config, path);
    if ids != {} {
      m, made := AddSideStats(m, Baseline, baseline, config, ids, childIds, path);
      ghost var more: set<object>;
      assert current.Value() == c && current.Runs();
      m, more := AddSideStats(m, Current, current, config, ids, childIds, path);
      made := made + more;
    }
  }

  lemma NoComparisons()
    ensures Unshared(map[]) && Held(map[]) == {} && PairValues(map[]) == map[]
  {
  }

  lemma PairStatsAre(baseline: Side, current: Side, config: Config, path: string)
    ensures var ids, childIds := CommonIds(baseline, current, config), CommonChildIds(baseline, current, config);
            PairStats(baseline, current, config, path) ==
            if ids == {} then map[]
            else MergeSide(MergeSide(map[], Baseline, SideStats(baseline, config, ids, childIds, path)),
                           Current, SideStats(current, config, ids, childIds, path))
  {
  }

  // Symmetry.

  function SwapPair(p: Pair): Pair {
    Pair(p.current, p.baseline, p.matched)
  }

  function SwapPairs(m: Pairs): Pairs {
    map id | id in m :: SwapPair(m[id])
  }

  lemma BothSides(b: Table, c: Table, id: Id)
    ensures var m := MergeSide(MergeSide(map[], Baseline, b), Current, c);
            && (id in m <==> id in b || id in c)
            && (id in m ==> m[id] == Pair(OntoZero(b, id), OntoZero(c, id), TracesOf(b, id) + TracesOf(c, id)))
  {
    hide Merge;
  }

  function OntoZero(t: Table, id: Id): Stats {
    if id in t then Merge(ZERO, t[id]) else ZERO
  }

  function TracesOf(t: Table, id: Id): set<string> {
    if id in t then t[id].traces else {}
  }

  lemma SidesSwap(b: Table, c: Table)
    ensures MergeSide(MergeSide(map[], Baseline, c), Current, b) ==
            SwapPairs(MergeSide(MergeSide(map[], Baseline, b), Current, c))
  {
    var there := MergeSide(MergeSide(map[], Baseline, b), Current, c);
    var back := MergeSide(MergeSide(map[], Baseline, c), Current, b);
    hide MergeSide, OntoZero, TracesOf;
    forall id ensures (id in there <==> id in back) && (id in there ==> back[id] == SwapPair(there[id])) {
      BothSides(b, c, id);
      BothSides(c, b, id);
      assert TracesOf(b, id) + TracesOf(c, id) == TracesOf(c, id) + TracesOf(b, id);
    }
  }

  /** Exchanging the two traces exchanges the two sides of every identity. */
  lemma PairStatsSwap(baseline: Side, current: Side, config: Config, path: string)
    ensures PairStats(current, baseline, config, path) == SwapPairs(PairStats(baseline, current, config, path))
  {
    var ids, childIds := CommonIds(baseline, current, config), CommonChildIds(baseline, current, config);
    assert ids == CommonIds(current, baseline, config) && childIds == CommonChildIds(current, baseline, config);
    hide SideStats, MergeSide, CommonIds, CommonChildIds;
    SidesSwap(SideStats(baseline, config, ids, childIds, path), SideStats(current, config, ids, childIds, path));
  }

  lemma SelfComparison(side: Side, config: Config, path: string, id: Id)
    requires id in PairStats(side, side, config, path)
    ensures PairStats(side, side, config, path)[id].baseline == PairStats(side, side, config, path)[id].current
  {
    hide SideStats, CommonIds, CommonChildIds, Merge;
  }

  // A comparison subtracts only common children, so it never reports less exclusive time.

  lemma {:induction false} KeptIncluded(kids: seq<Child>, narrow: Meta -> bool, wide: Meta -> bool)
    requires forall i | 0 <= i < |kids| && narrow(kids[i].meta) :: wide(kids[i].meta)
    ensures forall i | 0 <= i < |KeptSpans(kids, narrow)| :: KeptSpans(kids, narrow)[i] in KeptSpans(kids, wide)
  {
    if kids != [] { KeptIncluded(kids[1..], narrow, wide); }
  }

  lemma NarrowerScopeAddsTime(e: EventVal, narrow: Meta -> bool, wide: Meta -> bool)
    requires forall i | 0 <= i < |e.kids| && narrow(e.kids[i].meta) :: wide(e.kids[i].meta)
    ensures ExclusiveVal(e, narrow) >= ExclusiveVal(e, wide)
  {
    KeptIncluded(e.kids, narrow, wide);
    SubsetSize(TickSet(KeptSpans(e.kids, narrow)), TickSet(KeptSpans(e.kids, wide)));
  }

  /** The same events and inclusive times, and no less exclusive time. */
  ghost predicate NoLess(compared: Stats, alone: Stats) {
    && compared.count == alone.count
    && compared.totalInclusive == alone.totalInclusive && compared.maxInclusive == alone.maxInclusive
    && compared.totalExclusive >= alone.totalExclusive && compared.maxExclusive >= alone.maxExclusive
  }

  /** Both tables know `id` alike, and `compared` gives it no less exclusive time. */
  ghost predicate AtLeast(compared: Table, alone: Table, id: Id) {
    (id in compared <==> id in alone) && (id in alone ==> NoLess(compared[id], alone[id]))
  }

  lemma AddKeepsAtLeast(compared: Table, alone: Table, id: Id, at: Id, inclusive: int, more: int, less: int,
                        path: string, trace: string, root: string)
    requires AtLeast(compared, alone, id) && more >= less
    ensures AtLeast(Add(compared, at, One(inclusive, more, path, root)),
            Add(alone, at, One(inclusive, less, trace, root)), id)
    ensures at != id ==> AtLeast(compared, Add(alone, at, One(inclusive, less, trace, root)), id)
  {
  }

  /** Every event with a common identity is counted in both reports; only its exclusive time may differ. */
  lemma {:induction false} ComparisonKeepsTime(events: seq<EventVal>, path: string, trace: string,
                                               identity: Meta -> Option<Id>,
                                               ids: set<Id>, narrow: Meta -> bool, wide: Meta -> bool, id: Id)
    requires id in ids
    requires forall e | e in events :: forall i | 0 <= i < |e.kids| && narrow(e.kids[i].meta) :: wide(e.kids[i].meta)
    ensures AtLeast(Collect(map[], events, path, Common(identity, ids), narrow),
            Collect(map[], events, trace, identity, wide), id)
  {
    if events != [] {
      var before, e := events[..|events| - 1], events[|events| - 1];
      assert e in events && forall x | x in before :: x in events;
      ComparisonKeepsTime(before, path, trace, identity, ids, narrow, wide, id);
      NarrowerScopeAddsTime(e, narrow, wide);
      hide ExclusiveVal, AtLeast, Add, One;
      if identity(e.meta).Some? {
        AddKeepsAtLeast(Collect(map[], before, path, Common(identity, ids), narrow),
            Collect(map[], before, trace, identity, wide),
                        id, identity(e.meta).value, e.span.Length(), ExclusiveVal(e, narrow), ExclusiveVal(e, wide),
                        path, trace, e.meta.rootTu);
      }
    }
  }

  /** A comparison subtracts only children that the report on one trace would subtract too. */
  lemma ComparedAgainstAlone(side: Side, config: Config, ids: set<Id>, childIds: set<Id>, path: string, trace: string,
                             id: Id)
    requires id in ids
    ensures AtLeast(SideStats(side, config, ids, childIds, path), OneSided(side, config, trace), id)
  {
    var narrow, wide := Keep(CommonChildren(ChildId(side, config), childIds)), Keep(config);
    assert forall m | narrow(m) :: wide(m);
    ComparisonKeepsTime(side.events, path, trace, ReportId(side, config), ids, narrow, wide, id);
  }

  lemma ReportedMeansUnder(events: seq<EventVal>, identity: Meta -> Option<Id>, id: Id)
    ensures id in Ids(events, identity) <==> Under(events, identity, id) != []
  {
    Filtered(events, ReportedAs(identity, id));
    if Under(events, identity, id) != [] {
      var e := Under(events, identity, id)[0];
      assert e in events && ReportedAs(identity, id)(e);
    }
  }

  /** A report on one trace lists exactly the identities its events are reported under. */
  lemma ReportLists(side: Side, config: Config, trace: string, id: Id)
    ensures id in OneSided(side, config, trace) <==> id in Ids(side.events, ReportId(side, config))
  {
    CollectedExactly(side.events, trace, ReportId(side, config), Keep(config), id);
    ReportedMeansUnder(side.events, ReportId(side, config), id);
  }

  /** A side of a comparison lists exactly the identities of its report that are common. */
  lemma SideLists(side: Side, config: Config, ids: set<Id>, childIds: set<Id>, path: string, id: Id)
    ensures id in SideStats(side, config, ids, childIds, path) <==>
            id in ids && id in Ids(side.events, ReportId(side, config))
  {
    var identity := ReportId(side, config);
    CollectedExactly(side.events, path, Common(identity, ids), Keep(CommonChildren(ChildId(side, config), childIds)),
        id);
    ReportedMeansUnder(side.events, Common(identity, ids), id);
    CommonIdsOf(side.events, identity, ids, id);
  }

  lemma CommonIdsOf(events: seq<EventVal>, identity: Meta -> Option<Id>, ids: set<Id>, id: Id)
    ensures id in Ids(events, Common(identity, ids)) <==> id in ids && id in Ids(events, identity)
  {
    if id in ids && id in Ids(events, identity) {
      var i :| 0 <= i < |events| && identity(events[i].meta) == Some(id);
      assert Common(identity, ids)(events[i].meta) == Some(id);
    }
  }

  lemma SideFromZero(side: Side, config: Config, ids: set<Id>, childIds: set<Id>, path: string)
    ensures FromZero(SideStats(side, config, ids, childIds, path))
  {
    MergingIsCollecting(map[], side.events, path, Common(ReportId(side, config), ids),
                        Keep(CommonChildren(ChildId(side, config), childIds)));
  }

  lemma OntoZeroKeeps(t: Table, id: Id, alone: Stats)
    requires FromZero(t) && id in t && NoLess(t[id], alone)
    ensures NoLess(OntoZero(t, id), alone)
  {
  }

  /**
   * The comparison of two traces lists exactly the identities both reports list. On each side it counts the
   * same events and inclusive times as the report on that trace alone, and never less exclusive time.
   */
  lemma ComparisonAgainstReports(baseline: Side, current: Side, config: Config, path: string, trace: string,
                                 name: SideName, id: Id)
    ensures var pairs := PairStats(baseline, current, config, path);
            var alone := OneSided(if name.Baseline? then baseline else current, config, trace);
            && (id in pairs <==> id in OneSided(baseline, config, trace) && id in OneSided(current, config, trace))
            && (id in pairs ==> NoLess(OfSide(pairs[id], name), alone[id]))
  {
    var ids, childIds := CommonIds(baseline, current, config), CommonChildIds(baseline, current, config);
    var b, c := SideStats(baseline, config, ids, childIds, path), SideStats(current, config, ids, childIds, path);
    ReportLists(baseline, config, trace, id);
    ReportLists(current, config, trace, id);
    SideLists(baseline, config, ids, childIds, path, id);
    SideLists(current, config, ids, childIds, path, id);
    assert id in ids <==>
      && id in Ids(baseline.events, ReportId(baseline, config))
      && id in Ids(current.events, ReportId(current, config));
    PairStatsAre(baseline, current, config, path);
    BothSides(b, c, id);
    hide *;
    if id in ids {
      var side, t := if name.Baseline? then baseline else current, if name.Baseline? then b else c;
      ComparedAgainstAlone(side, config, ids, childIds, path, trace, id);
      SideFromZero(side, config, ids, childIds, path);
      OntoZeroKeeps(t, id, OneSided(side, config, trace)[id]);
      SideIs(OntoZero(b, id), OntoZero(c, id), TracesOf(b, id) + TracesOf(c, id), name);
    }
  }

  lemma SideIs(b: Stats, c: Stats, matched: set<string>, name: SideName)
    ensures OfSide(Pair(b, c, matched), name) == if name.Baseline? then b else c
  {
  }

  // Rows.

  datatype Direction = Worse | Better

  function Opposite(d: Direction): Direction { if d.Worse? then Better else Worse }

  datatype Row = Row(pair: Pair, baselineImpact: real, currentImpact: real, baselineMetric: real, currentMetric: real)

  function SwapRow(r: Row): Row {
    Row(SwapPair(r.pair), r.currentImpact, r.baselineImpact, r.currentMetric, r.baselineMetric)
  }

  /** How far the total moved in the wanted direction. */
  function Magnitude(p: Pair, timing: Timing, d: Direction): real {
    var delta := SelectedTotal(p.current, timing) as real - SelectedTotal(p.baseline, timing) as real;
    if d.Worse? then delta else -delta
  }

  function RowOf(id: Id, p: Pair, timing: Timing, sortBy: SortBy, d: Direction): Ranked<Row> {
    Ranked(id, Magnitude(p, timing, d),
           Row(p, SelectedTotal(p.baseline, timing) as real, SelectedTotal(p.current, timing) as real,
               Metric(p.baseline, timing, sortBy), Metric(p.current, timing, sortBy)))
  }

  /** The rows over the threshold, in dictionary order. */
  function Candidates(stats: seq<(Id, Pair)>, timing: Timing, sortBy: SortBy, threshold: real,
                      d: Direction): seq<Ranked<Row>> {
    if stats == [] then []
    else
      var (id, p) := stats[|stats| - 1];
      Candidates(stats[..|stats| - 1], timing, sortBy, threshold, d)
      + (if Magnitude(p, timing, d) > threshold then [RowOf(id, p, timing, sortBy, d)] else [])
  }

  /** `comparison_rows` over the dictionary's entries in insertion order. */
  method ComparisonRows(stats: seq<(Id, Pair)>, timing: Timing, sortBy: SortBy, threshold: real, topN: int,
                        d: Direction)
    returns (rows: seq<Ranked<Row>>)
    ensures rows == Smallest(topN, Candidates(stats, timing, sortBy, threshold, d))
  {
    rows := [];
    for i := 0 to |stats|
      invariant rows == Candidates(stats[..i], timing, sortBy, threshold, d)
    {
      assert stats[..i + 1][..i] == stats[..i];
      var (id, p) := stats[i];
      var delta := SelectedTotal(p.current, timing) as real - SelectedTotal(p.baseline, timing) as real;
      var magnitude := if d.Worse? then delta else -delta;
      if magnitude <= threshold { continue; }
      rows := rows + [RowOf(id, p, timing, sortBy, d)];
    }
    assert stats[..|stats|] == stats;
    rows := Smallest(topN, rows);
  }

  ghost predicate KeysOnce(stats: seq<(Id, Pair)>) {
    forall i, j | 0 <= i < j < |stats| :: stats[i].0 != stats[j].0
  }

  /** A row is reported exactly for the entries whose total moved past the threshold. */
  lemma {:induction false} CandidateOrigin(stats: seq<(Id, Pair)>, timing: Timing, sortBy: SortBy, threshold: real,
                                           d: Direction, k: nat)
    returns (i: nat)
    requires k < |Candidates(stats, timing, sortBy, threshold, d)|
    ensures i < |stats| && Magnitude(stats[i].1, timing, d) > threshold
    ensures Candidates(stats, timing, sortBy, threshold, d)[k] == RowOf(stats[i].0, stats[i].1, timing, sortBy, d)
  {
    var rest := Candidates(stats[..|stats| - 1], timing, sortBy, threshold, d);
    if k < |rest| {
      i := CandidateOrigin(stats[..|stats| - 1], timing, sortBy, threshold, d, k);
    } else {
      i := |stats| - 1;
    }
  }

  lemma {:induction false} CandidateComplete(stats: seq<(Id, Pair)>, timing: Timing, sortBy: SortBy, threshold: real,
                                             d: Direction, i: nat)
    requires i < |stats| && Magnitude(stats[i].1, timing, d) > threshold
    ensures RowOf(stats[i].0, stats[i].1, timing, sortBy, d) in Candidates(stats, timing, sortBy, threshold, d)
  {
    if i < |stats| - 1 {
      assert stats[..|stats| - 1][i] == stats[i];
      CandidateComplete(stats[..|stats| - 1], timing, sortBy, threshold, d, i);
    }
  }

  lemma EqualSidesHaveNoRows(stats: seq<(Id, Pair)>, timing: Timing, sortBy: SortBy, threshold: real, d: Direction)
    requires stats != [] && forall i | 0 <= i < |stats| :: stats[i].1.baseline == stats[i].1.current
    ensures Candidates(stats, timing, sortBy, threshold, d) == [] <==> threshold >= 0.0
  {
  }

  /**
   * The comparison of a trace with itself reports no row, in either direction, exactly when the threshold is
   * not negative, no rows are asked for, or no event is reported at all.
   */
  lemma SelfComparisonHasNoRows(side: Side, config: Config, path: string, stats: seq<(Id, Pair)>,
                                timing: Timing, sortBy: SortBy, threshold: real, topN: int, d: Direction)
    requires Enumerates(PairStats(side, side, config, path), stats)
    ensures Smallest(topN, Candidates(stats, timing, sortBy, threshold, d)) == [] <==>
            threshold >= 0.0 || topN <= 0 || Ids(side.events, ReportId(side, config)) == {}
  {
    var m := PairStats(side, side, config, path);
    var ids := Ids(side.events, ReportId(side, config));
    hide *;
    SelfEntriesEqual(side, config, path, stats);
    NothingListed(m, stats);
    forall id ensures id in m <==> id in ids {
      ComparisonAgainstReports(side, side, config, path, path, Baseline, id);
      ReportLists(side, config, path, id);
    }
    assert m.Keys == ids;
    EqualSidesReport(stats, timing, sortBy, threshold, topN, d);
  }

  lemma SelfEntriesEqual(side: Side, config: Config, path: string, stats: seq<(Id, Pair)>)
    requires Enumerates(PairStats(side, side, config, path), stats)
    ensures forall i | 0 <= i < |stats| :: stats[i].1.baseline == stats[i].1.current
  {
    var m := PairStats(side, side, config, path);
    forall i | 0 <= i < |stats| ensures stats[i].1.baseline == stats[i].1.current {
      assert stats[i].0 in m && m[stats[i].0] == stats[i].1;
      hide *;
      SelfComparison(side, config, path, stats[i].0);
    }
  }

  lemma NothingListed(m: Pairs, stats: seq<(Id, Pair)>)
    requires Enumerates(m, stats)
    ensures stats == [] <==> m.Keys == {}
  {
    if stats != [] { assert stats[0].0 in m; }
  }

  lemma EqualSidesReport(stats: seq<(Id, Pair)>, timing: Timing, sortBy: SortBy, threshold: real, topN: int,
                         d: Direction)
    requires forall i | 0 <= i < |stats| :: stats[i].1.baseline == stats[i].1.current
    ensures Smallest(topN, Candidates(stats, timing, sortBy, threshold, d)) == [] <==>
            threshold >= 0.0 || topN <= 0 || stats == []
  {
    if stats == [] {
    } else {
      EqualSidesHaveNoRows(stats, timing, sortBy, threshold, d);
    }
    hide *;
    SmallestIsEmpty(topN, Candidates(stats, timing, sortBy, threshold, d));
  }

  lemma SmallestIsEmpty<V>(n: int, rows: seq<Ranked<V>>)
    ensures Smallest(n, rows) == [] <==> n <= 0 || rows == []
  {
    assert |StableSort(rows, RankLeq)| == |rows|;
  }

  function SwapEntry(e: (Id, Pair)): (Id, Pair) { (e.0, SwapPair(e.1)) }

  function SwapRanked(r: Ranked<Row>): Ranked<Row> { Ranked(r.id, r.metric, SwapRow(r.value)) }

  function MapSeq<A, B>(f: A -> B, xs: seq<A>): (r: seq<B>)
    ensures |r| == |xs| && forall i | 0 <= i < |r| :: r[i] == f(xs[i])
  {
    seq(|xs|, i requires 0 <= i < |xs| => f(xs[i]))
  }

  lemma {:induction false} CandidatesSwap(stats: seq<(Id, Pair)>, timing: Timing, sortBy: SortBy, threshold: real,
                                          d: Direction)
    ensures Candidates(MapSeq(SwapEntry, stats), timing, sortBy, threshold, Opposite(d)) ==
            MapSeq(SwapRanked, Candidates(stats, timing, sortBy, threshold, d))
  {
    if stats != [] {
      var n := |stats| - 1;
      CandidatesSwap(stats[..n], timing, sortBy, threshold, d);
      assert MapSeq(SwapEntry, stats)[..n] == MapSeq(SwapEntry, stats[..n]);
      var (id, p) := stats[n];
      assert Magnitude(SwapPair(p), timing, Opposite(d)) == Magnitude(p, timing, d);
    }
  }

  lemma {:induction false} InsertSwap(x: Ranked<Row>, ys: seq<Ranked<Row>>)
    ensures Insert(SwapRanked(x), MapSeq(SwapRanked, ys), RankLeq) == MapSeq(SwapRanked, Insert(x, ys, RankLeq))
  {
    if ys == [] {
    } else {
      var y, tail := ys[0], ys[1..];
      MapCons(SwapRanked, y, tail);
      assert ys == [y] + tail;
      InsertSwap(x, tail);
      assert RankLeq(SwapRanked(x), SwapRanked(y)) == RankLeq(x, y);
      MapCons(SwapRanked, x, ys);
      MapCons(SwapRanked, y, Insert(x, tail, RankLeq));
      hide SwapRanked, RankLeq;
    }
  }

  lemma MapCons<A, B>(f: A -> B, x: A, xs: seq<A>)
    ensures MapSeq(f, [x] + xs) == [f(x)] + MapSeq(f, xs)
  {
  }

  lemma {:induction false} SortSwap(xs: seq<Ranked<Row>>)
    ensures StableSort(MapSeq(SwapRanked, xs), RankLeq) == MapSeq(SwapRanked, StableSort(xs, RankLeq))
  {
    if xs != [] {
      assert MapSeq(SwapRanked, xs)[1..] == MapSeq(SwapRanked, xs[1..]);
      SortSwap(xs[1..]);
      InsertSwap(xs[0], StableSort(xs[1..], RankLeq));
    }
  }

  lemma SwappedReport(stats: seq<(Id, Pair)>, timing: Timing, sortBy: SortBy, threshold: real, topN: int, d: Direction)
    ensures Smallest(topN, Candidates(MapSeq(SwapEntry, stats), timing, sortBy, threshold, Opposite(d))) ==
            MapSeq(SwapRanked, Smallest(topN, Candidates(stats, timing, sortBy, threshold, d)))
  {
    var rows := Candidates(stats, timing, sortBy, threshold, d);
    CandidatesSwap(stats, timing, sortBy, threshold, d);
    hide Candidates;
    SmallestSwap(topN, rows);
  }

  lemma SmallestSwap(n: int, rows: seq<Ranked<Row>>)
    ensures Smallest(n, MapSeq(SwapRanked, rows)) == MapSeq(SwapRanked, Smallest(n, rows))
  {
    SortSwap(rows);
    hide SwapRanked, StableSort;
  }

  /** An identity is in both directions exactly when its total moved by less than minus the threshold. */
  lemma InBothDirections(stats: seq<(Id, Pair)>, timing: Timing, sortBy: SortBy, threshold: real, i: nat)
    requires KeysOnce(stats) && i < |stats|
    ensures (exists r, s :: r in Candidates(stats, timing, sortBy, threshold, Worse) && r.id == stats[i].0
                         && s in Candidates(stats, timing, sortBy, threshold, Better) && s.id == stats[i].0)
            <==> threshold < Magnitude(stats[i].1, timing, Worse) < -threshold
  {
    var worse := Candidates(stats, timing, sortBy, threshold, Worse);
    var better := Candidates(stats, timing, sortBy, threshold, Better);
    if r, s :| r in worse && r.id == stats[i].0 && s in better && s.id == stats[i].0 {
      var k :| 0 <= k < |worse| && worse[k] == r;
      var l :| 0 <= l < |better| && better[l] == s;
      var a := CandidateOrigin(stats, timing, sortBy, threshold, Worse, k);
      var b := CandidateOrigin(stats, timing, sortBy, threshold, Better, l);
      assert a == i == b;
    }
    if threshold < Magnitude(stats[i].1, timing, Worse) < -threshold {
      CandidateComplete(stats, timing, sortBy, threshold, Worse, i);
      CandidateComplete(stats, timing, sortBy, threshold, Better, i);
    }
  }

  /** With a threshold that is not negative no identity appears in both reports. */
  lemma ReportsAreDisjoint(stats: seq<(Id, Pair)>, timing: Timing, sortBy: SortBy, threshold: real, topN: int,
                           r: Ranked<Row>, s: Ranked<Row>)
    requires KeysOnce(stats) && threshold >= 0.0
    requires r in Smallest(topN, Candidates(stats, timing, sortBy, threshold, Worse))
    requires s in Smallest(topN, Candidates(stats, timing, sortBy, threshold, Better))
    ensures r.id != s.id
  {
    var worse := Candidates(stats, timing, sortBy, threshold, Worse);
    var better := Candidates(stats, timing, sortBy, threshold, Better);
    hide Candidates, Magnitude;
    SmallestIsFrom(topN, worse, r);
    SmallestIsFrom(topN, better, s);
    hide Smallest;
    var k :| 0 <= k < |worse| && worse[k] == r;
    var i := CandidateOrigin(stats, timing, sortBy, threshold, Worse, k);
    InBothDirections(stats, timing, sortBy, threshold, i);
  }

  // The comparison report does not depend on the order workers finish in.

  ghost predicate Enumerates(m: Pairs, stats: seq<(Id, Pair)>) {
    && KeysOnce(stats)
    && (forall i | 0 <= i < |stats| :: stats[i].0 in m && m[stats[i].0] == stats[i].1)
    && (forall id | id in m :: exists i :: 0 <= i < |stats| && stats[i].0 == id)
  }

  lemma {:induction false} CandidatesOnce(stats: seq<(Id, Pair)>, timing: Timing, sortBy: SortBy, threshold: real,
                                          d: Direction)
    requires KeysOnce(stats)
    ensures OneRowEach(Candidates(stats, timing, sortBy, threshold, d))
  {
    if stats != [] {
      var n := |stats| - 1;
      var before := Candidates(stats[..n], timing, sortBy, threshold, d);
      CandidatesOnce(stats[..n], timing, sortBy, threshold, d);
      forall k | 0 <= k < |before| ensures before[k].id != stats[n].0 {
        var i := CandidateOrigin(stats[..n], timing, sortBy, threshold, d, k);
      }
    }
  }

  lemma CandidatesIncluded(m: Pairs, xs: seq<(Id, Pair)>, ys: seq<(Id, Pair)>, timing: Timing, sortBy: SortBy,
                           threshold: real, d: Direction)
    requires Enumerates(m, xs) && Enumerates(m, ys)
    ensures forall k | 0 <= k < |Candidates(xs, timing, sortBy, threshold, d)| ::
              Candidates(xs, timing, sortBy, threshold, d)[k] in Candidates(ys, timing, sortBy, threshold, d)
  {
    var rows := Candidates(xs, timing, sortBy, threshold, d);
    forall k | 0 <= k < |rows| ensures rows[k] in Candidates(ys, timing, sortBy, threshold, d) {
      var i := CandidateOrigin(xs, timing, sortBy, threshold, d, k);
      var j :| 0 <= j < |ys| && ys[j].0 == xs[i].0;
      assert ys[j] == xs[i];
      hide Magnitude, RowOf;
      CandidateComplete(ys, timing, sortBy, threshold, d, j);
    }
  }

  /** Equal dictionaries give the same comparison report, whatever order they were filled in. */
  lemma ComparisonForgetsOrder(m: Pairs, xs: seq<(Id, Pair)>, ys: seq<(Id, Pair)>,
                               timing: Timing, sortBy: SortBy, threshold: real, topN: int, d: Direction)
    requires Enumerates(m, xs) && Enumerates(m, ys)
    ensures Smallest(topN, Candidates(xs, timing, sortBy, threshold, d)) ==
            Smallest(topN, Candidates(ys, timing, sortBy, threshold, d))
  {
    var a, b := Candidates(xs, timing, sortBy, threshold, d), Candidates(ys, timing, sortBy, threshold, d);
    CandidatesOnce(xs, timing, sortBy, threshold, d);
    CandidatesOnce(ys, timing, sortBy, threshold, d);
    CandidatesIncluded(m, xs, ys, timing, sortBy, threshold, d);
    CandidatesIncluded(m, ys, xs, timing, sortBy, threshold, d);
    hide Candidates, Smallest, RankLeq;
    assert Distinct(a) && Distinct(b);
    DistinctSameMultiset(a, b);
    hide Distinct;
    SameRowsSameRank(a, b, topN);
  }

  /** Reordering the workers' results leaves the comparison report as it was. */
  lemma CompletionOrderIsInvisibleInComparisons(results: seq<Aggregate>, reordered: seq<Aggregate>, xs: seq<(Id, Pair)>,
                                                ys: seq<(Id, Pair)>, timing: Timing, sortBy: SortBy,
                                                threshold: real, topN: int, d: Direction)
    requires multiset(results) == multiset(reordered)
    requires Enumerates(Fold(MergeResult, EMPTY, results).comparison, xs)
    requires Enumerates(Fold(MergeResult, EMPTY, reordered).comparison, ys)
    ensures Smallest(topN, Candidates(xs, timing, sortBy, threshold, d)) ==
            Smallest(topN, Candidates(ys, timing, sortBy, threshold, d))
  {
    MergeResultLaws();
    FoldForgetsOrder(MergeResult, EMPTY, results, reordered);
    ComparisonForgetsOrder(Fold(MergeResult, EMPTY, results).comparison, xs, ys, timing, sortBy, threshold, topN, d);
  }

  lemma SwapEnumerates(m: Pairs, xs: seq<(Id, Pair)>)
    requires Enumerates(m, xs)
    ensures Enumerates(SwapPairs(m), MapSeq(SwapEntry, xs))
  {
    var ys := MapSeq(SwapEntry, xs);
    forall id | id in SwapPairs(m) ensures exists i :: 0 <= i < |ys| && ys[i].0 == id {
      var i :| 0 <= i < |xs| && xs[i].0 == id;
      assert ys[i].0 == id;
    }
  }

  /**
   * Exchanging baseline and current exchanges the "worse" and "better" reports row for row, in whatever order
   * the two dictionaries list their entries.
   */
  lemma ReportsSwap(baseline: Side, current: Side, config: Config, path: string, xs: seq<(Id, Pair)>,
                    ys: seq<(Id, Pair)>,
                    timing: Timing, sortBy: SortBy, threshold: real, topN: int, d: Direction)
    requires Enumerates(PairStats(baseline, current, config, path), xs)
    requires Enumerates(PairStats(current, baseline, config, path), ys)
    ensures Smallest(topN, Candidates(ys, timing, sortBy, threshold, Opposite(d))) ==
            MapSeq(SwapRanked, Smallest(topN, Candidates(xs, timing, sortBy, threshold, d)))
  {
    var m := PairStats(baseline, current, config, path);
    PairStatsSwap(baseline, current, config, path);
    hide *;
    SwapEnumerates(m, xs);
    SwappedReport(xs, timing, sortBy, threshold, topN, d);
    ComparisonForgetsOrder(SwapPairs(m), ys, MapSeq(SwapEntry, xs), timing, sortBy, threshold, topN, Opposite(d));
  }
}
