/** The report on a whole trace charges every covered tick at least once, and exactly once on nested threads. */
module TraceConservation {
  import opened ExclusiveTime
  import opened Sorting
  import opened Sums
  import opened Ticks
  import opened TraceNesting
  import opened TraceStats
  import opened Wrappers

  // The threads of a trace.

  type Thread = (int, int)

  function KeyOf(e: TraceEvent): Thread { (e.pid, e.tid) }

  /** The threads of the events, each once. */
  ghost function Threads(events: seq<TraceEvent>): seq<Thread> {
    if events == [] then []
    else
      var rest := Threads(events[1..]);
      if KeyOf(events[0]) in rest then rest else [KeyOf(events[0])] + rest
  }

  lemma {:induction false} ThreadsAre(events: seq<TraceEvent>)
    ensures Distinct(Threads(events))
    ensures forall k :: k in Threads(events) <==> exists i :: 0 <= i < |events| && KeyOf(events[i]) == k
  {
    if events != [] {
      var rest := Threads(events[1..]);
      ThreadsAre(events[1..]);
      if KeyOf(events[0]) !in rest { ElementsCons(KeyOf(events[0]), rest); }
      assert events == [events[0]] + events[1..];
    }
  }

  ghost function PerThread(events: seq<TraceEvent>, f: TraceEvent -> int): Thread -> int {
    k => SumOf(Group(events, k), f)
  }

  /** Summing thread by thread is summing over all events. */
  lemma {:induction false} SumByThread(events: seq<TraceEvent>, keys: seq<Thread>, f: TraceEvent -> int)
    requires Distinct(keys) && forall i | 0 <= i < |events| :: KeyOf(events[i]) in keys
    ensures SumOf(keys, PerThread(events, f)) == SumOf(events, f)
  {
    if events == [] {
      SumOfNothing(keys, f);
    } else {
      var e, rest := events[0], events[1..];
      SumByThread(rest, keys, f);
      forall i | 0 <= i < |keys|
        ensures PerThread(events, f)(keys[i]) == Only(KeyOf(e), f(e))(keys[i]) + PerThread(rest, f)(keys[i])
      {
        FirstGrouped(events, keys[i], f);
      }
      SumPlus(keys, Only(KeyOf(e), f(e)), PerThread(rest, f), PerThread(events, f));
      SumOnly(keys, KeyOf(e), f(e));
    }
  }

  lemma {:induction false} SumOfNothing(keys: seq<Thread>, f: TraceEvent -> int)
    ensures SumOf(keys, PerThread([], f)) == 0
  {
    if keys != [] { SumOfNothing(keys[1..], f); }
  }

  lemma FirstGrouped(events: seq<TraceEvent>, key: Thread, f: TraceEvent -> int)
    requires events != []
    ensures SumOf(Group(events, key), f) ==
            (if KeyOf(events[0]) == key then f(events[0]) else 0) + SumOf(Group(events[1..], key), f)
  {
    var e, mine := events[0], Group(events[1..], key);
    if KeyOf(e) == key {
      assert Group(events, key) == [e] + mine;
      assert ([e] + mine)[1..] == mine;
    } else {
      assert Group(events, key) == [] + mine == mine;
    }
  }

  // The exclusive times of a table.

  ghost function SomeId(t: Table): (id: Id)
    requires t != map[]
    ensures id in t
  {
    var id :| id in t;
    id
  }

  /** The total exclusive times over all identities. */
  ghost function ExclusiveOf(t: Table): int {
    if t == map[] then 0 else t[SomeId(t)].totalExclusive + ExclusiveOf(t - {SomeId(t)})
  }

  lemma {:induction false} ExclusiveWithout(t: Table, id: Id)
    requires id in t
    ensures ExclusiveOf(t) == t[id].totalExclusive + ExclusiveOf(t - {id})
    decreases |t|
  {
    var x := SomeId(t);
    if x != id {
      ExclusiveWithout(t - {x}, id);
      ExclusiveWithout(t - {id}, x);
      assert t - {x} - {id} == t - {id} - {x};
    }
  }

  lemma ExclusiveAdded(t: Table, id: Id, one: Stats)
    ensures ExclusiveOf(Add(t, id, one)) == ExclusiveOf(t) + one.totalExclusive
  {
    var r := Add(t, id, one);
    ExclusiveWithout(r, id);
    if id in t {
      ExclusiveWithout(t, id);
      assert r - {id} == t - {id};
    } else {
      assert r - {id} == t;
    }
  }

  ghost function SumOfVals(events: seq<EventVal>, keep: Meta -> bool): int {
    if events == [] then 0
    else SumOfVals(events[..|events| - 1], keep) + ExclusiveVal(events[|events| - 1], keep)
  }

  /** A report that lists every event sums up all their exclusive times. */
  lemma {:induction false} ReportedInFull(events: seq<EventVal>, trace: string, identity: Meta -> Option<Id>,
                                          keep: Meta -> bool)
    requires forall i | 0 <= i < |events| :: identity(events[i].meta).Some?
    ensures ExclusiveOf(Collect(map[], events, trace, identity, keep)) == SumOfVals(events, keep)
  {
    if events != [] {
      var n := |events| - 1;
      ReportedInFull(events[..n], trace, identity, keep);
      var e := events[n];
      hide Add, ExclusiveVal;
      CollectUnfolds(map[], events, trace, identity, keep);
      ExclusiveAdded(Collect(map[], events[..n], trace, identity, keep), identity(e.meta).value,
                     One(e.span.Length(), ExclusiveVal(e, keep), trace, e.meta.rootTu));
    }
  }

  // The linked objects.

  ghost function Charges(events: seq<TraceEvent>): map<TraceEvent, int>
    reads events
  {
    map e | e in events :: EventExclusive(e)
  }

  ghost function At(charges: map<TraceEvent, int>): TraceEvent -> int {
    (e: TraceEvent) => if e in charges then charges[e] else 0
  }

  lemma ExclusiveInScopeAll(e: TraceEvent, matches: Meta -> bool)
    ensures ExclusiveVal(Snap(e), Keep(Config(All, matches))) == EventExclusive(e)
  {
    KeptAreSpans(e.children, Config(All, matches));
  }

  lemma {:induction false} ValsAreCharges(events: seq<TraceEvent>, n: nat, matches: Meta -> bool)
    requires n <= |events|
    ensures SumOfVals(Snaps(events)[..n], Keep(Config(All, matches))) == SumOf(events[..n], At(Charges(events)))
  {
    if n > 0 {
      ValsAreCharges(events, n - 1, matches);
      var e := events[n - 1];
      ExclusiveInScopeAll(e, matches);
      assert At(Charges(events))(e) == EventExclusive(e);
      hide ExclusiveVal, EventExclusive, Keep, Charges, At;
      assert Snaps(events)[..n][..n - 1] == Snaps(events)[..n - 1] && Snaps(events)[n - 1] == Snap(e);
      assert events[..n] == events[..n - 1] + [e];
      SumSnoc(events[..n - 1], e, At(Charges(events)));
    }
  }

  lemma {:induction false} ThreadIsSum(t: seq<TraceEvent>, events: seq<TraceEvent>, n: nat)
    requires n <= |t| && forall i | 0 <= i < |t| :: t[i] in events
    ensures ThreadExclusive(t, n) == SumOf(t[..n], At(Charges(events)))
  {
    if n > 0 {
      ThreadIsSum(t, events, n - 1);
      assert At(Charges(events))(t[n - 1]) == EventExclusive(t[n - 1]);
      hide EventExclusive, Charges, At;
      assert t[..n] == t[..n - 1] + [t[n - 1]];
      SumSnoc(t[..n - 1], t[n - 1], At(Charges(events)));
    }
  }

  lemma ThreadTotal(events: seq<TraceEvent>, key: Thread)
    requires Distinct(events)
    ensures var t := ThreadOf(events, key);
            ThreadExclusive(t, |t|) == PerThread(events, At(Charges(events)))(key)
  {
    var t := ThreadOf(events, key);
    ThreadOfIsReady(events, key);
    ThreadIsSum(t, events, |t|);
    assert t[..|t|] == t;
    SumSort(Group(events, key), EventLeq, At(Charges(events)));
  }

  /** The ticks each thread covers. */
  ghost function TicksOf(events: seq<TraceEvent>): Thread -> int {
    k => |TickSet(Spans(Group(events, k)))|
  }

  ghost predicate AllNested(events: seq<TraceEvent>) {
    forall k | k in Threads(events) :: Nested(Spans(ThreadOf(events, k)))
  }

  lemma TotalByThread(events: seq<TraceEvent>, trace: string, identity: Meta -> Option<Id>, matches: Meta -> bool)
    requires forall i | 0 <= i < |events| :: identity(events[i].meta).Some?
    ensures ExclusiveOf(Collect(map[], Snaps(events), trace, identity, Keep(Config(All, matches)))) ==
            SumOf(Threads(events), PerThread(events, At(Charges(events))))
  {
    assert forall i | 0 <= i < |events| :: Snaps(events)[i].meta == events[i].meta;
    hide Collect, ExclusiveOf, SumOf, SumOfVals, Threads, PerThread, At, Charges, Keep;
    ReportedInFull(Snaps(events), trace, identity, Keep(Config(All, matches)));
    ValsAreCharges(events, |events|, matches);
    assert Snaps(events)[..|events|] == Snaps(events) && events[..|events|] == events;
    ThreadsAre(events);
    SumByThread(events, Threads(events), At(Charges(events)));
  }

  lemma OneThread(events: seq<TraceEvent>, key: Thread, initial: Links)
    requires Distinct(events) && Forward(Spans(events))
    requires forall i | 0 <= i < |events| :: events[i] in initial && initial[events[i]] == []
    requires ThreadLinked(events, key, initial)
    ensures var charged, ticks := PerThread(events, At(Charges(events)))(key), TicksOf(events)(key);
            charged >= ticks && (charged == ticks <==> Nested(Spans(ThreadOf(events, key))))
  {
    assert TicksOf(events)(key) == |TickSet(Spans(Group(events, key)))|;
    hide *;
    ThreadConservation(events, key, initial);
    ThreadTotal(events, key);
  }

  /**
   * A report in scope "all" that lists every event of a linked trace: its exclusive times, over all identities,
   * sum to at least the ticks the threads cover, and to exactly those if and only if every thread is nested.
   */
  lemma ReportConservesTime(events: seq<TraceEvent>, initial: Links, trace: string, identity: Meta -> Option<Id>,
                            matches: Meta -> bool)
    requires Distinct(events) && Forward(Spans(events))
    requires forall i | 0 <= i < |events| :: events[i] in initial && initial[events[i]] == []
    requires forall i | 0 <= i < |events| :: ThreadLinked(events, (events[i].pid, events[i].tid), initial)
    requires forall i | 0 <= i < |events| :: identity(events[i].meta).Some?
    ensures var total := ExclusiveOf(Collect(map[], Snaps(events), trace, identity, Keep(Config(All, matches))));
            && total >= SumOf(Threads(events), TicksOf(events))
            && (total == SumOf(Threads(events), TicksOf(events)) <==> AllNested(events))
  {
    var keys, f := Threads(events), At(Charges(events));
    TotalByThread(events, trace, identity, matches);
    ThreadsAre(events);
    hide PerThread, TicksOf, At, Charges, Threads, Collect, ExclusiveOf, SumOf;
    hide ThreadLinked, Forward, Nested, Keep, Distinct;
    forall i | 0 <= i < |keys|
      ensures PerThread(events, f)(keys[i]) >= TicksOf(events)(keys[i])
      ensures PerThread(events, f)(keys[i]) == TicksOf(events)(keys[i]) <==> Nested(Spans(ThreadOf(events, keys[i])))
    {
      assert keys[i] in keys;
      var j :| 0 <= j < |events| && KeyOf(events[j]) == keys[i];
      OneThread(events, keys[i], initial);
    }
    SumsCompare(keys, PerThread(events, f), TicksOf(events));
  }

  /** The ticks all threads cover, a tick counted once for each thread that covers it. */
  ghost function TicksCovered(events: seq<TraceEvent>): int {
    SumOf(Threads(events), TicksOf(events))
  }

  /** `side_stats_for_events` on linked events, in scope "all". */
  method ReportLinked(events: seq<TraceEvent>, trace: string, identity: Meta -> Option<Id>, matches: Meta -> bool,
                      ghost initial: Links)
    returns (stats: Objects)
    requires Distinct(events) && Forward(Spans(events))
    requires forall i | 0 <= i < |events| :: events[i] in initial && initial[events[i]] == []
    requires forall i | 0 <= i < |events| :: ThreadLinked(events, (events[i].pid, events[i].tid), initial)
    requires forall i | 0 <= i < |events| :: identity(events[i].meta).Some?
    ensures Separate(stats) && fresh(Owned(stats))
    ensures ExclusiveOf(Values(stats)) >= TicksCovered(events)
    ensures ExclusiveOf(Values(stats)) == TicksCovered(events) <==> AllNested(events)
  {
    hide *;
    ChildrenRunForward(events, initial);
    NoObjects();
    ReportConservesTime(events, initial, trace, identity, matches);
    CoveredIs(events);
    stats := CollectTraceStats(map[], events, trace, identity, Config(All, matches));
  }

  /** Reading a trace and reporting on it alone: linking, then `side_stats_for_events` in scope "all". */
  method ReportOnTrace(events: seq<TraceEvent>, trace: string, identity: Meta -> Option<Id>, matches: Meta -> bool)
    returns (stats: Objects)
    requires Distinct(events) && Forward(Spans(events))
    requires forall i | 0 <= i < |events| :: events[i].children == []
    requires forall i | 0 <= i < |events| :: identity(events[i].meta).Some?
    modifies events
    ensures Separate(stats) && fresh(Owned(stats))
    ensures ExclusiveOf(Values(stats)) >= TicksCovered(events)
    ensures ExclusiveOf(Values(stats)) == TicksCovered(events) <==> AllNested(events)
  {
    ghost var initial := ChildrenOf(events);
    FreshChildren(events);
    hide *;
    LinkChildEvents(events);
    stats := ReportLinked(events, trace, identity, matches, initial);
  }

  lemma FreshChildren(events: seq<TraceEvent>)
    requires forall i | 0 <= i < |events| :: events[i].children == []
    ensures forall i | 0 <= i < |events| :: events[i] in ChildrenOf(events) && ChildrenOf(events)[events[i]] == []
  {
  }

  lemma CoveredIs(events: seq<TraceEvent>)
    ensures TicksCovered(events) == SumOf(Threads(events), TicksOf(events))
  {
  }

  lemma ChildrenRunForward(events: seq<TraceEvent>, initial: Links)
    requires Distinct(events) && Forward(Spans(events))
    requires forall i | 0 <= i < |events| :: events[i] in initial && initial[events[i]] == []
    requires forall i | 0 <= i < |events| :: ThreadLinked(events, (events[i].pid, events[i].tid), initial)
    ensures forall i | 0 <= i < |events| :: Forward(Spans(events[i].children))
  {
    forall i | 0 <= i < |events| ensures Forward(Spans(events[i].children)) {
      var key := KeyOf(events[i]);
      var t := ThreadOf(events, key);
      ThreadOfIsReady(events, key);
      ThreadIsFresh(events, key, initial);
      assert events[i] in t;
      var j :| 0 <= j < |t| && t[j] == events[i];
      LinkedChildrenInside(t, initial, j);
    }
  }
}
