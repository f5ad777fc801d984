/** What the report on a trace and the comparison of two say, in terms of the traces' own events. */
module ComparisonFigures {
  import opened ComparisonTables
  import opened ExclusiveTime
  import opened Sorting
  import opened Sums
  import opened Ticks
  import opened TraceComparison
  import opened TraceConservation
  import opened TraceFigures
  import opened TraceNesting
  import opened TraceReports
  import opened TraceStats
  import opened Wrappers

  /** No event runs backwards and children lie inside their parents, as the linking leaves them. */
  ghost predicate Tidy(events: seq<EventVal>) {
    forall e | e in events :: e.span.start <= e.span.end && forall c | c in e.kids :: e.span.Contains(c.span)
  }

  /** The ticks of an event that none of the children that count covers. */
  ghost function Left(e: EventVal, counts: Meta -> bool): set<int> {
    set t | t in Range(e.span) && forall c | c in e.kids && counts(c.meta) :: !c.span.Holds(t)
  }

  ghost function TicksLeft(counts: Meta -> bool): EventVal -> int { (e: EventVal) => |Left(e, counts)| }

  function ReportedUnder(side: Side, config: Config, id: Id): EventVal -> bool {
    (e: EventVal) => config.matches(e.meta) && side.reported(e.meta) == Some(id)
  }

  /** The matching events that a report gives the identity. */
  function Listed(side: Side, config: Config, id: Id): seq<EventVal> {
    Filter(side.events, ReportedUnder(side, config, id))
  }

  ghost function Scoped(config: Config): Meta -> bool { (m: Meta) => InScope(config, m) }

  /** An event of the trace that is in scope has the identity. */
  ghost predicate Occurs(side: Side, config: Config, id: Id) {
    exists e :: e in side.events && InScope(config, e.meta) && side.general(e.meta) == id
  }

  /** What is in scope and has an identity that occurs in both traces. */
  ghost function Shared(own: Side, other: Side, config: Config): Meta -> bool {
    (m: Meta) => InScope(config, m) && Occurs(own, config, own.general(m)) && Occurs(other, config, own.general(m))
  }

  // One trace.

  lemma {:induction false} KeptSpansAre(kids: seq<Child>, keep: Meta -> bool, s: Span)
    ensures s in KeptSpans(kids, keep) <==> exists c :: c in kids && keep(c.meta) && c.span == s
  {
    if kids != [] {
      KeptSpansAre(kids[1..], keep, s);
      assert kids == [kids[0]] + kids[1..];
    }
  }

  lemma LeftSize(e: EventVal, keep: Meta -> bool)
    requires e.span.start <= e.span.end && forall c | c in e.kids :: e.span.Contains(c.span)
    ensures ExclusiveVal(e, keep) == |Left(e, keep)|
  {
    var kept := KeptSpans(e.kids, keep);
    forall i | 0 <= i < |kept| ensures e.span.Contains(kept[i]) { KeptSpansAre(e.kids, keep, kept[i]); }
    forall t | t in Range(e.span) ensures t in TickSet(kept) <==> t !in Left(e, keep) {
      if t in TickSet(kept) {
        var i :| 0 <= i < |kept| && t in Range(kept[i]);
        KeptSpansAre(e.kids, keep, kept[i]);
      }
      if c :| c in e.kids && keep(c.meta) && c.span.Holds(t) {
        KeptSpansAre(e.kids, keep, c.span);
        var i :| 0 <= i < |kept| && kept[i] == c.span;
        assert t in Range(kept[i]);
      }
    }
    assert Left(e, keep) == Range(e.span) - TickSet(kept);
    ExclusiveIsLeft(e.span, kept);
  }

  lemma SameFigures(s: Stats, mine: seq<EventVal>, trace: string, f: EventVal -> int, g: EventVal -> int)
    requires Summarizes(s, mine, trace, f) && forall i | 0 <= i < |mine| :: f(mine[i]) == g(mine[i])
    ensures Summarizes(s, mine, trace, g)
  {
    SumsSame(mine, f, g);
    hide Roots, SumOf;
  }

  /** The events a table is collected from, told apart as a report tells them apart. */
  lemma TableFigures(side: Side, config: Config, trace: string, identity: Meta -> Option<Id>, keep: Meta -> bool,
                     counts: Meta -> bool, id: Id)
    requires Tidy(side.events) && forall m :: keep(m) <==> counts(m)
    requires forall e | e in side.events :: identity(e.meta) == Some(id) <==> ReportedUnder(side, config, id)(e)
    ensures var t, mine := Collect(map[], side.events, trace, identity, keep), Listed(side, config, id);
            && (id in t <==> mine != [])
            && Summarizes(if id in t then t[id] else ZERO, mine, trace, TicksLeft(counts))
  {
    var t, mine := Collect(map[], side.events, trace, identity, keep), Listed(side, config, id);
    FilterSame(side.events, ReportedAs(identity, id), ReportedUnder(side, config, id));
    Filtered(side.events, ReportedUnder(side, config, id));
    CollectedExactly(side.events, trace, identity, keep, id);
    forall i | 0 <= i < |mine| ensures ExclusiveTimeOf(keep)(mine[i]) == TicksLeft(counts)(mine[i]) {
      assert mine[i] in side.events;
      LeftSize(mine[i], keep);
      assert Left(mine[i], keep) == Left(mine[i], counts);
    }
    hide Collect, Listed, Summarizes, TicksLeft;
    SameFigures(if id in t then t[id] else ZERO, mine, trace, ExclusiveTimeOf(keep), TicksLeft(counts));
  }

  /**
   * A report on one trace lists an identity exactly when it reports an event under it. The exclusive time of an
   * event is the number of its ticks that no child in scope covers.
   */
  lemma ReportedExactly(side: Side, config: Config, trace: string, id: Id)
    requires Tidy(side.events)
    ensures var t, mine := OneSided(side, config, trace), Listed(side, config, id);
            && (id in t <==> mine != [])
            && Summarizes(if id in t then t[id] else ZERO, mine, trace, TicksLeft(Scoped(config)))
  {
    hide Collect, Summarizes, Tidy, TicksLeft;
    TableFigures(side, config, trace, ReportId(side, config), Keep(config), Scoped(config), id);
  }

  // Two traces.

  lemma IdsAre(events: seq<EventVal>, identity: Meta -> Option<Id>, id: Id)
    ensures id in Ids(events, identity) <==> exists e :: e in events && identity(e.meta) == Some(id)
  {
    if e :| e in events && identity(e.meta) == Some(id) {
      var i :| 0 <= i < |events| && events[i] == e;
      assert identity(events[i].meta).Some?;
    }
  }

  lemma ListedMeansReported(side: Side, config: Config, id: Id)
    ensures Listed(side, config, id) != [] <==> id in Ids(side.events, ReportId(side, config))
  {
    IdsAre(side.events, ReportId(side, config), id);
    Filtered(side.events, ReportedUnder(side, config, id));
    if Listed(side, config, id) != [] {
      var e := Listed(side, config, id)[0];
      assert e in side.events && ReportedUnder(side, config, id)(e);
    }
  }

  lemma ChildIdsAre(side: Side, config: Config, id: Id)
    ensures id in Ids(side.events, ChildId(side, config)) <==> Occurs(side, config, id)
  {
    IdsAre(side.events, ChildId(side, config), id);
  }

  /** One side of a comparison, before the two are brought together. */
  lemma SideFigures(side: Side, config: Config, ids: set<Id>, childIds: set<Id>, path: string, counts: Meta -> bool,
                    id: Id)
    requires Tidy(side.events) && id in ids
    requires forall m :: counts(m) <==> InScope(config, m) && side.general(m) in childIds
    ensures var t, mine := SideStats(side, config, ids, childIds, path), Listed(side, config, id);
            && (id in t <==> mine != [])
            && Summarizes(if id in t then t[id] else ZERO, mine, path, TicksLeft(counts))
  {
    hide Collect, Summarizes, Tidy, TicksLeft;
    TableFigures(side, config, path, Common(ReportId(side, config), ids),
                 Keep(CommonChildren(ChildId(side, config), childIds)), counts, id);
  }

  lemma OntoZeroFigures(t: Table, id: Id, mine: seq<EventVal>, path: string, f: EventVal -> int)
    requires id in t && mine != [] && Summarizes(t[id], mine, path, f)
    ensures Summarizes(OntoZero(t, id), mine, path, f) && TracesOf(t, id) == {path}
  {
    hide Roots, SumOf;
  }

  ghost predicate Compared(pairs: Pairs, baseline: Side, current: Side, config: Config, path: string, id: Id) {
    var b, c := Listed(baseline, config, id), Listed(current, config, id);
    && (id in pairs <==> b != [] && c != [])
    && (id in pairs ==>
          && Summarizes(pairs[id].baseline, b, path, TicksLeft(Shared(baseline, current, config)))
          && Summarizes(pairs[id].current, c, path, TicksLeft(Shared(current, baseline, config)))
          && pairs[id].matched == {path})
  }

  /**
   * A comparison lists exactly the identities under which both traces report an event. On each side it holds the
   * figures of that trace's events, the exclusive time of an event being the number of its ticks that no child
   * covers whose identity occurs, in scope, in both traces.
   */
  lemma ComparedExactly(baseline: Side, current: Side, config: Config, path: string, id: Id)
    requires Tidy(baseline.events) && Tidy(current.events)
    ensures Compared(PairStats(baseline, current, config, path), baseline, current, config, path, id)
  {
    var ids, childIds := CommonIds(baseline, current, config), CommonChildIds(baseline, current, config);
    var b, c := SideStats(baseline, config, ids, childIds, path), SideStats(current, config, ids, childIds, path);
    var fb, fc := Shared(baseline, current, config), Shared(current, baseline, config);
    ListedMeansReported(baseline, config, id);
    ListedMeansReported(current, config, id);
    assert id in ids <==> Listed(baseline, config, id) != [] && Listed(current, config, id) != [];
    SharedMeans(baseline, current, config);
    PairStatsAre(baseline, current, config, path);
    SideLists(baseline, config, ids, childIds, path, id);
    SideLists(current, config, ids, childIds, path, id);
    BothSides(b, c, id);
    hide *;
    if id in ids {
      SideFigures(baseline, config, ids, childIds, path, fb, id);
      SideFigures(current, config, ids, childIds, path, fc, id);
      OntoZeroFigures(b, id, Listed(baseline, config, id), path, TicksLeft(fb));
      OntoZeroFigures(c, id, Listed(current, config, id), path, TicksLeft(fc));
    }
  }

  lemma SharedMeans(baseline: Side, current: Side, config: Config)
    ensures var childIds := CommonChildIds(baseline, current, config);
            && (forall m :: Shared(baseline, current, config)(m) <==>
                              InScope(config, m) && baseline.general(m) in childIds)
            && (forall m :: Shared(current, baseline, config)(m) <==>
                              InScope(config, m) && current.general(m) in childIds)
  {
    forall id ensures id in CommonChildIds(baseline, current, config) <==>
                      Occurs(baseline, config, id) && Occurs(current, config, id)
    {
      ChildIdsAre(baseline, config, id);
      ChildIdsAre(current, config, id);
    }
    hide Occurs, CommonChildIds;
  }

  // From two traces as read.

  ghost predicate AsRead(events: seq<TraceEvent>)
    reads events
  {
    Distinct(events) && Forward(Spans(events)) && forall i | 0 <= i < |events| :: events[i].children == []
  }

  lemma LinkedIsTidy(events: seq<TraceEvent>, initial: Links)
    requires Distinct(events) && Forward(Spans(events))
    requires forall i | 0 <= i < |events| :: events[i] in initial && initial[events[i]] == []
    requires forall i | 0 <= i < |events| :: ThreadLinked(events, (events[i].pid, events[i].tid), initial)
    ensures Tidy(Snaps(events)) && forall i | 0 <= i < |events| :: Forward(Spans(events[i].children))
  {
    forall i | 0 <= i < |events|
      ensures Forward(Spans(events[i].children)) && events[i].span.start <= events[i].span.end
      ensures forall c | c in events[i].children :: events[i].span.Contains(c.span)
    {
      assert Spans(events)[i] == events[i].span;
      hide ThreadOf, Linked;
      ChildrenLieInside(events, initial, i);
    }
    hide *;
    TidyChildren(events);
  }

  lemma TidyChildren(events: seq<TraceEvent>)
    requires forall i | 0 <= i < |events| :: events[i].span.start <= events[i].span.end
    requires forall i | 0 <= i < |events| :: forall c | c in events[i].children :: events[i].span.Contains(c.span)
    ensures Tidy(Snaps(events))
  {
    forall e | e in Snaps(events)
      ensures e.span.start <= e.span.end && forall c | c in e.kids :: e.span.Contains(c.span)
    {
      var i :| 0 <= i < |events| && Snaps(events)[i] == e;
      forall c | c in e.kids ensures e.span.Contains(c.span) {
        var k :| 0 <= k < |events[i].children| && e.kids[k] == c;
        assert events[i].children[k] in events[i].children;
      }
    }
  }

  lemma ChildrenLieInside(events: seq<TraceEvent>, initial: Links, i: nat)
    requires Distinct(events) && Forward(Spans(events)) && i < |events|
    requires forall k | 0 <= k < |events| :: events[k] in initial && initial[events[k]] == []
    requires ThreadLinked(events, (events[i].pid, events[i].tid), initial)
    ensures Forward(Spans(events[i].children))
    ensures forall c | c in events[i].children :: events[i].span.Contains(c.span)
  {
    var key := (events[i].pid, events[i].tid);
    var t := ThreadOf(events, key);
    ThreadOfIsReady(events, key);
    ThreadIsFresh(events, key, initial);
    assert events[i] in t;
    var j :| 0 <= j < |t| && t[j] == events[i];
    LinkedChildrenInside(t, initial, j);
  }

  /** Links one trace. */
  method LinkTrace(side: EventSide)
    requires AsRead(side.events)
    modifies side.events
    ensures side.Runs() && Tidy(side.Value().events)
  {
    ghost var initial := ChildrenOf(side.events);
    FreshChildren(side.events);
    LinkChildEvents(side.events);
    hide *;
    LinkedIsTidy(side.events, initial);
    SideIsLinked(side);
  }

  lemma SideIsLinked(side: EventSide)
    requires Tidy(Snaps(side.events)) && forall i | 0 <= i < |side.events| :: Forward(Spans(side.events[i].children))
    ensures side.Runs() && Tidy(side.Value().events)
  {
    hide Tidy, Forward;
  }

  lemma StillAsRead(events: seq<TraceEvent>)
    requires Distinct(events) && Forward(Spans(events)) && forall i | 0 <= i < |events| :: events[i].children == []
    ensures AsRead(events)
  {
  }

  /** Links one trace; events of another are left as they were read. */
  method LinkApart(side: EventSide, ghost other: seq<TraceEvent>)
    requires AsRead(side.events) && AsRead(other)
    requires forall e | e in other :: e !in side.events
    modifies side.events
    ensures side.Runs() && Tidy(side.Value().events) && AsRead(other)
  {
    assert Distinct(other) && Forward(Spans(other));
    assert forall i | 0 <= i < |other| :: other[i].children == [] && other[i] !in side.events;
    hide *;
    LinkTrace(side);
    StillAsRead(other);
  }

  method LinkTraces(baseline: EventSide, current: EventSide)
    requires AsRead(baseline.events) && AsRead(current.events)
    requires forall e | e in current.events :: e !in baseline.events
    modifies baseline.events, current.events
    ensures baseline.Runs() && Tidy(baseline.Value().events) && current.Runs() && Tidy(current.Value().events)
  {
    hide *;
    LinkApart(baseline, current.events);
    assert forall i | 0 <= i < |baseline.events| :: baseline.events[i] !in current.events;
    LinkTrace(current);
  }

  /**
   * Two traces are linked and compared: the dictionary then holds, for every identity both report, the figures of
   * the traces' own events.
   */
  method CompareTraces(baseline: EventSide, current: EventSide, config: Config, path: string)
    returns (m: Comparisons, ghost made: set<object>)
    requires AsRead(baseline.events) && AsRead(current.events)
    requires forall e | e in current.events :: e !in baseline.events
    modifies baseline.events, current.events
    ensures Unshared(m) && fresh(made) && Held(m) <= made
    ensures forall id :: Compared(PairValues(m), baseline.Value(), current.Value(), config, path, id)
  {
    LinkTraces(baseline, current);
    hide *;
    m, made := ComparisonPairStats(baseline, current, config, path);
    forall id ensures Compared(PairValues(m), baseline.Value(), current.Value(), config, path, id) {
      ComparedExactly(baseline.Value(), current.Value(), config, path, id);
    }
  }

  // Rows.

  /** The time an event is charged with. */
  ghost function TimeOf(timing: Timing, counts: Meta -> bool): EventVal -> int {
    if timing.Inclusive? then InclusiveTime() else TicksLeft(counts)
  }

  /** `m` is the figure of the events that is asked for: a sum, an average over events or root units, or a maximum. */
  ghost predicate IsFigure(m: real, sortBy: SortBy, mine: seq<EventVal>, f: EventVal -> int) {
    match sortBy
    case Total => m == SumOf(mine, f) as real
    case Avg => m * |mine| as real == SumOf(mine, f) as real
    case AvgRootTu => m * |Roots(mine)| as real == SumOf(mine, f) as real
    case MaxOf => exists most: int :: m == most as real && IsMax(mine, f, most)
  }

  /** The figure rows are ranked by is that of the events themselves. */
  lemma MetricExactly(s: Stats, mine: seq<EventVal>, trace: string, counts: Meta -> bool, timing: Timing,
                      sortBy: SortBy)
    requires Summarizes(s, mine, trace, TicksLeft(counts)) && mine != []
    ensures IsFigure(Metric(s, timing, sortBy), sortBy, mine, TimeOf(timing, counts))
    ensures SelectedTotal(s, timing) == SumOf(mine, TimeOf(timing, counts))
  {
    assert mine[0].meta.rootTu in Roots(mine);
    assert |Roots(mine)| > 0;
    hide Roots, SumOf, IsMax, TicksLeft, InclusiveTime;
  }

  /** How far the summed times of an identity's events moved between the traces, in the wanted direction. */
  ghost function Moved(baseline: Side, current: Side, config: Config, timing: Timing, d: Direction, id: Id): int {
    var before := SumOf(Listed(baseline, config, id), TimeOf(timing, Shared(baseline, current, config)));
    var after := SumOf(Listed(current, config, id), TimeOf(timing, Shared(current, baseline, config)));
    if d.Worse? then after - before else before - after
  }

  /** One row in terms of the events of the two traces. */
  ghost predicate TellsOf(r: Ranked<Row>, pairs: Pairs, baseline: Side, current: Side, config: Config, timing: Timing,
                          sortBy: SortBy, d: Direction)
  {
    var b, c := Listed(baseline, config, r.id), Listed(current, config, r.id);
    var f, g := TimeOf(timing, Shared(baseline, current, config)), TimeOf(timing, Shared(current, baseline, config));
    && b != [] && c != [] && r.id in pairs && r.value.pair == pairs[r.id]
    && r.value.baselineImpact == SumOf(b, f) as real && r.value.currentImpact == SumOf(c, g) as real
    && r.metric == Moved(baseline, current, config, timing, d, r.id) as real
    && IsFigure(r.value.baselineMetric, sortBy, b, f) && IsFigure(r.value.currentMetric, sortBy, c, g)
  }

  lemma RowTells(baseline: Side, current: Side, config: Config, path: string, timing: Timing, sortBy: SortBy,
                 d: Direction, id: Id)
    requires Tidy(baseline.events) && Tidy(current.events) && id in PairStats(baseline, current, config, path)
    ensures var pairs := PairStats(baseline, current, config, path);
            TellsOf(RowOf(id, pairs[id], timing, sortBy, d), pairs, baseline, current, config, timing, sortBy, d)
  {
    var p := PairStats(baseline, current, config, path)[id];
    hide PairStats, Listed, Summarizes, TimeOf, TicksLeft, SumOf, IsFigure, Tidy, Metric, SelectedTotal;
    ComparedExactly(baseline, current, config, path, id);
    MetricExactly(p.baseline, Listed(baseline, config, id), path, Shared(baseline, current, config), timing, sortBy);
    MetricExactly(p.current, Listed(current, config, id), path, Shared(current, baseline, config), timing, sortBy);
  }

  /** Every row of a comparison tells of the events of its identity, which moved past the threshold. */
  lemma RowsTellOfEvents(baseline: Side, current: Side, config: Config, path: string, xs: seq<(Id, Pair)>,
                         timing: Timing, sortBy: SortBy, threshold: real, topN: int, d: Direction, r: Ranked<Row>)
    requires Tidy(baseline.events) && Tidy(current.events)
    requires Enumerates(PairStats(baseline, current, config, path), xs)
    requires r in Smallest(topN, Candidates(xs, timing, sortBy, threshold, d))
    ensures TellsOf(r, PairStats(baseline, current, config, path), baseline, current, config, timing, sortBy, d)
    ensures r.metric > threshold
  {
    var rows := Candidates(xs, timing, sortBy, threshold, d);
    SmallestIsFrom(topN, rows, r);
    var k :| 0 <= k < |rows| && rows[k] == r;
    var i := CandidateOrigin(xs, timing, sortBy, threshold, d, k);
    assert xs[i].0 in PairStats(baseline, current, config, path);
    RowIsOf(xs[i].0, xs[i].1, timing, sortBy, d);
    hide *;
    RowTells(baseline, current, config, path, timing, sortBy, d, xs[i].0);
  }

  lemma RowIsOf(id: Id, p: Pair, timing: Timing, sortBy: SortBy, d: Direction)
    ensures RowOf(id, p, timing, sortBy, d).id == id
    ensures RowOf(id, p, timing, sortBy, d).metric == Magnitude(p, timing, d)
  {
  }

  /** An identity that moved past the threshold but has no row moved no further than any that has one. */
  lemma OmittedMovedLess(baseline: Side, current: Side, config: Config, path: string, xs: seq<(Id, Pair)>,
                         timing: Timing, sortBy: SortBy, threshold: real, topN: int, d: Direction, id: Id,
                         r: Ranked<Row>)
    requires Tidy(baseline.events) && Tidy(current.events)
    requires Enumerates(PairStats(baseline, current, config, path), xs)
    requires Listed(baseline, config, id) != [] && Listed(current, config, id) != []
    requires Moved(baseline, current, config, timing, d, id) as real > threshold
    requires r in Smallest(topN, Candidates(xs, timing, sortBy, threshold, d))
    requires forall q | q in Smallest(topN, Candidates(xs, timing, sortBy, threshold, d)) :: q.id != id
    ensures Moved(baseline, current, config, timing, d, id) as real <= r.metric
    ensures |Smallest(topN, Candidates(xs, timing, sortBy, threshold, d))| == topN
  {
    var pairs, rows := PairStats(baseline, current, config, path), Candidates(xs, timing, sortBy, threshold, d);
    ComparedExactly(baseline, current, config, path, id);
    var i :| 0 <= i < |xs| && xs[i].0 == id;
    RowTells(baseline, current, config, path, timing, sortBy, d, id);
    var s := RowOf(id, pairs[id], timing, sortBy, d);
    RowIsOf(id, pairs[id], timing, sortBy, d);
    assert TellsOf(s, pairs, baseline, current, config, timing, sortBy, d) && xs[i].1 == pairs[id];
    assert s.metric == Moved(baseline, current, config, timing, d, id) as real;
    assert KeysOnce(xs);
    hide *;
    CandidateComplete(xs, timing, sortBy, threshold, d, i);
    CandidatesOnce(xs, timing, sortBy, threshold, d);
    var k :| 0 <= k < |Smallest(topN, rows)| && Smallest(topN, rows)[k] == r;
    OmittedAreSmaller(topN, rows, k, s);
  }
}
