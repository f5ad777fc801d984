/** What the statistics of one trace say about its events. */
module TraceFigures {
  import opened Sorting
  import opened Sums
  import opened TraceNesting
  import opened TraceStats
  import opened Wrappers

  function ReportedAs(identity: Meta -> Option<Id>, id: Id): EventVal -> bool {
    (e: EventVal) => identity(e.meta) == Some(id)
  }

  /** The events reported under `id`. */
  function Under(events: seq<EventVal>, identity: Meta -> Option<Id>, id: Id): seq<EventVal> {
    Filter(events, ReportedAs(identity, id))
  }

  /** The inclusive time of an event. */
  function InclusiveTime(): EventVal -> int { (e: EventVal) => e.span.Length() }

  ghost function ExclusiveTimeOf(keep: Meta -> bool): EventVal -> int { (e: EventVal) => ExclusiveVal(e, keep) }

  ghost function Roots(events: seq<EventVal>): set<string> {
    set i | 0 <= i < |events| :: events[i].meta.rootTu
  }

  /** The number of the events, the sums and maxima of their times, their trace and their root units. */
  ghost predicate Summarizes(s: Stats, mine: seq<EventVal>, trace: string, exclusive: EventVal -> int) {
    && s.count == |mine| && s.roots == Roots(mine) && s.traces == (if mine == [] then {} else {trace})
    && s.totalInclusive == SumOf(mine, InclusiveTime()) && IsMax(mine, InclusiveTime(), s.maxInclusive)
    && s.totalExclusive == SumOf(mine, exclusive) && IsMax(mine, exclusive, s.maxExclusive)
  }

  lemma FigureAdded(mine: seq<EventVal>, e: EventVal, f: EventVal -> int, total: int, most: int)
    requires total == SumOf(mine, f) && IsMax(mine, f, most)
    ensures total + f(e) == SumOf(mine + [e], f) && IsMax(mine + [e], f, Max(most, f(e)))
  {
    var all := mine + [e];
    SumSnoc(mine, e, f);
    assert all[|mine|] == e;
    forall i | 0 <= i < |mine| ensures all[i] == mine[i] {}
  }

  lemma RootAdded(mine: seq<EventVal>, e: EventVal)
    ensures Roots(mine + [e]) == Roots(mine) + {e.meta.rootTu}
  {
    var all := mine + [e];
    assert all[|mine|] == e;
    forall i | 0 <= i < |mine| ensures mine[i].meta.rootTu in Roots(all) {
      assert all[i] == mine[i];
    }
  }

  lemma OneMore(s: Stats, mine: seq<EventVal>, e: EventVal, trace: string, keep: Meta -> bool)
    requires Summarizes(s, mine, trace, ExclusiveTimeOf(keep))
    ensures Summarizes(Merge(s, One(e.span.Length(), ExclusiveVal(e, keep), trace, e.meta.rootTu)), mine + [e], trace,
                       ExclusiveTimeOf(keep))
  {
    RootAdded(mine, e);
    FigureAdded(mine, e, InclusiveTime(), s.totalInclusive, s.maxInclusive);
    FigureAdded(mine, e, ExclusiveTimeOf(keep), s.totalExclusive, s.maxExclusive);
    assert InclusiveTime()(e) == e.span.Length() && ExclusiveTimeOf(keep)(e) == ExclusiveVal(e, keep);
    hide ExclusiveVal, InclusiveTime, ExclusiveTimeOf, Roots, SumOf, IsMax;
  }

  lemma AddedAt(t: Table, id: Id, one: Stats, k: Id)
    ensures (k in Add(t, id, one)) == (k == id || k in t)
    ensures k in Add(t, id, one) ==>
              Add(t, id, one)[k] == if k == id then Merge(if id in t then t[id] else ZERO, one) else t[k]
  {
  }

  lemma UnderAdded(before: seq<EventVal>, e: EventVal, identity: Meta -> Option<Id>, id: Id)
    ensures Under(before + [e], identity, id) ==
            if identity(e.meta) == Some(id) then Under(before, identity, id) + [e] else Under(before, identity, id)
  {
    FilterSnoc(before, e, ReportedAs(identity, id));
  }

  /**
   * An identity is in the table exactly when an event is reported under it, and its entry then holds the
   * figures of exactly those events.
   */
  lemma {:induction false} CollectedExactly(events: seq<EventVal>, trace: string, identity: Meta -> Option<Id>,
                                            keep: Meta -> bool, id: Id)
    ensures var t := Collect(map[], events, trace, identity, keep);
            && (id in t <==> Under(events, identity, id) != [])
            && Summarizes(if id in t then t[id] else ZERO, Under(events, identity, id), trace, ExclusiveTimeOf(keep))
  {
    if events != [] {
      var before, e := events[..|events| - 1], events[|events| - 1];
      assert events == before + [e];
      hide *;
      CollectedExactly(before, trace, identity, keep, id);
      UnderAdded(before, e, identity, id);
      var t, one := Collect(map[], before, trace, identity, keep),
          One(e.span.Length(), ExclusiveVal(e, keep), trace, e.meta.rootTu);
      CollectUnfolds(map[], events, trace, identity, keep);
      OneMore(if id in t then t[id] else ZERO, Under(before, identity, id), e, trace, keep);
      if identity(e.meta).Some? { AddedAt(t, identity(e.meta).value, one, id); }
    }
  }
}
