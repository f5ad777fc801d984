/** Per-identity statistics and their merging, in any completion order. */
module TraceStats {
  import opened Ticks
  import opened TraceNesting
  import opened ExclusiveTime
  import opened Wrappers

  /** Event name and event key. */
  type Id = (string, string)

  datatype Stats = Stats(count: int, totalInclusive: int, totalExclusive: int, maxInclusive: int, maxExclusive: int,
                         traces: set<string>, roots: set<string>)

  const ZERO := Stats(0, 0, 0, 0, 0, {}, {})

  function Max(a: int, b: int): int { if a < b then b else a }

  function Merge(a: Stats, b: Stats): Stats {
    Stats(a.count + b.count, a.totalInclusive + b.totalInclusive, a.totalExclusive + b.totalExclusive,
          Max(a.maxInclusive, b.maxInclusive), Max(a.maxExclusive, b.maxExclusive),
          a.traces + b.traces, a.roots + b.roots)
  }

  type Table = map<Id, Stats>

  /** Merging two dictionaries: common identities are combined, the others kept. */
  function MergeMaps<V>(a: map<Id, V>, b: map<Id, V>, op: (V, V) -> V): map<Id, V> {
    map id | id in a.Keys + b.Keys ::
      if id in a && id in b then op(a[id], b[id]) else if id in a then a[id] else b[id]
  }

  /** What `merge_side_stats` leaves in its target. */
  function MergeTables(a: Table, b: Table): Table {
    MergeMaps(a, b, Merge)
  }

  /** One event's statistics. */
  function One(inclusive: int, exclusive: int, trace: string, root: string): Stats {
    Stats(1, inclusive, exclusive, inclusive, exclusive, {trace}, {root})
  }

  /** What `add_event_stats` leaves in the table: an absent entry starts from zero. */
  function Add(t: Table, id: Id, one: Stats): Table {
    t[id := Merge(if id in t then t[id] else ZERO, one)]
  }

  // The mutable objects.

  class EventStats {
    var count: int
    var totalInclusive: int
    var totalExclusive: int
    var maxInclusive: int
    var maxExclusive: int
    var traces: set<string>
    var roots: set<string>

    constructor (v: Stats)
      ensures Value() == v
    {
      count, totalInclusive, totalExclusive := v.count, v.totalInclusive, v.totalExclusive;
      maxInclusive, maxExclusive, traces, roots := v.maxInclusive, v.maxExclusive, v.traces, v.roots;
    }

    function Value(): Stats
      reads this
    {
      Stats(count, totalInclusive, totalExclusive, maxInclusive, maxExclusive, traces, roots)
    }

    /** `merge_event_stats` with this object as the target. */
    method MergeFrom(source: EventStats)
      modifies this
      ensures Value() == Merge(old(Value()), old(source.Value()))
    {
      count := count + source.count;
      totalInclusive := totalInclusive + source.totalInclusive;
      totalExclusive := totalExclusive + source.totalExclusive;
      maxInclusive := Max(maxInclusive, source.maxInclusive);
      maxExclusive := Max(maxExclusive, source.maxExclusive);
      traces := traces + source.traces;
      roots := roots + source.roots;
    }
  }

  type Objects = map<Id, EventStats>

  /** No object is filed under two identities. */
  ghost predicate Separate(objects: Objects) {
    forall i, j | i in objects && j in objects && i != j :: objects[i] != objects[j]
  }

  ghost function Owned(objects: Objects): set<EventStats> {
    set id | id in objects :: objects[id]
  }

  ghost function Values(objects: Objects): Table
    reads Owned(objects)
  {
    map id | id in objects :: objects[id].Value()
  }

  lemma NoObjects()
    ensures Separate(map[]) && Owned(map[]) == {} && Values(map[]) == map[]
  {
  }

  /** `setdefault`: an absent identity gets an object with zero statistics. */
  method SetDefault(objects: Objects, id: Id) returns (r: Objects)
    requires Separate(objects)
    ensures Separate(r) && id in r && fresh(Owned(r) - Owned(objects))
    ensures Values(r) == if id in objects then Values(objects) else Values(objects)[id := ZERO]
  {
    r := objects;
    if id !in r {
      var zero := new EventStats(ZERO);
      r := r[id := zero];
    }
  }

  /** Merges one object into the object of its identity. */
  method UpdateEntry(objects: Objects, id: Id, one: EventStats)
    requires Separate(objects) && id in objects && one !in Owned(objects)
    modifies objects[id]
    ensures Values(objects) == old(Values(objects))[id := Merge(old(Values(objects))[id], old(one.Value()))]
  {
    hide Merge, EventStats.Value;
    ghost var before := Values(objects);
    objects[id].MergeFrom(one);
    forall k | k in objects && k != id ensures objects[k].Value() == before[k] {}
  }

  /** `add_event_stats`. */
  method AddEventStats(objects: Objects, id: Id, inclusive: int, exclusive: int, trace: string, root: string)
    returns (r: Objects)
    requires Separate(objects)
    modifies Owned(objects)
    ensures Separate(r) && fresh(Owned(r) - Owned(objects))
    ensures Values(r) == Add(old(Values(objects)), id, One(inclusive, exclusive, trace, root))
  {
    hide Merge, Separate;
    r := SetDefault(objects, id);
    var one := new EventStats(One(inclusive, exclusive, trace, root));
    UpdateEntry(r, id, one);
  }

  /** No object of one dictionary is in the other. */
  ghost predicate Apart(a: Objects, b: Objects) {
    forall i, j | i in a && j in b :: a[i] != b[j]
  }

  lemma ApartIsDisjoint(a: Objects, b: Objects)
    ensures Apart(a, b) <==> Owned(a) !! Owned(b)
  {
    if Owned(a) !! Owned(b) {
      forall i, j | i in a && j in b ensures a[i] != b[j] {
        assert a[i] in Owned(a) && b[j] in Owned(b);
      }
    }
  }

  // Merging one dictionary into another, whatever it holds.

  /** The dictionary's objects once all of `done` has been merged or adopted. */
  function Adopted<O>(target: map<Id, O>, source: map<Id, O>, done: set<Id>): map<Id, O> {
    map id | id in target.Keys + done && (id in target || id in source) ::
      if id in target then target[id] else source[id]
  }

  /** What the target's objects hold once all of `done` has been merged. */
  function Combined<V>(ours: map<Id, V>, theirs: map<Id, V>, done: set<Id>, op: (V, V) -> V): map<Id, V> {
    map id | id in ours :: if id in done && id in theirs then op(ours[id], theirs[id]) else ours[id]
  }

  lemma NothingDone<O, V>(target: map<Id, O>, source: map<Id, O>, ours: map<Id, V>, theirs: map<Id, V>, op: (V, V) -> V)
    ensures Adopted(target, source, {}) == target && Combined(ours, theirs, {}, op) == ours
  {
  }

  lemma AdoptedNext<O>(target: map<Id, O>, source: map<Id, O>, done: set<Id>, id: Id)
    requires id in source && id !in done
    ensures id in Adopted(target, source, done) <==> id in target
    ensures Adopted(target, source, done + {id}) ==
            if id in target then Adopted(target, source, done) else Adopted(target, source, done)[id := source[id]]
  {
  }

  lemma CombinedNext<V>(ours: map<Id, V>, theirs: map<Id, V>, done: set<Id>, id: Id, op: (V, V) -> V)
    requires id in theirs && id !in done
    ensures Combined(ours, theirs, done + {id}, op) ==
            var now := Combined(ours, theirs, done, op);
            if id in ours then now[id := op(now[id], theirs[id])] else now
  {
  }

  /** Adopting what is new and combining the rest is the entry-wise merge. */
  lemma AllDone<V>(ours: map<Id, V>, theirs: map<Id, V>, done: set<Id>, op: (V, V) -> V)
    requires done == theirs.Keys
    ensures Adopted(Combined(ours, theirs, done, op), theirs, done) == MergeMaps(ours, theirs, op)
  {
  }

  /** The body of the loop for an identity that both dictionaries know. */
  method UpdateFrom(target: Objects, source: Objects, id: Id)
    requires Separate(target) && Owned(target) !! Owned(source) && id in target && id in source
    modifies Owned(target)
    ensures Values(target) == old(Values(target))[id := Merge(old(Values(target))[id], old(Values(source))[id])]
    ensures Values(source) == old(Values(source))
  {
    assert target[id] in Owned(target) && source[id] in Owned(source);
    hide Merge, EventStats.Value, Separate;
    UpdateEntry(target, id, source[id]);
  }

  /** `merge_side_stats`: absent identities adopt the source's object, present ones merge in place. */
  method MergeSideStats(target: Objects, source: Objects) returns (r: Objects)
    requires Separate(target) && Separate(source) && Owned(target) !! Owned(source)
    modifies Owned(target)
    ensures Separate(r) && Owned(r) <= Owned(target) + Owned(source)
    ensures Values(r) == MergeTables(old(Values(target)), old(Values(source)))
  {
    ghost var ours, theirs := Values(target), Values(source);
    r := target;
    var todo := source.Keys;
    ghost var done: set<Id> := {};
    hide *;
    KeysOfValues(target);
    KeysOfValues(source);
    NothingDone(target, source, ours, theirs, Merge);
    while todo != {}
      invariant todo !! done && todo + done == source.Keys
      invariant r == Adopted(target, source, done)
      invariant Values(target) == Combined(ours, theirs, done, Merge) && Values(source) == theirs
      decreases |todo|
    {
      var id :| id in todo;
      AdoptedNext(target, source, done, id);
      CombinedNext(ours, theirs, done, id, Merge);
      if id !in r {
        r := r[id := source[id]];
      } else {
        UpdateFrom(target, source, id);
      }
      todo, done := todo - {id}, done + {id};
    }
    AllDone(ours, theirs, done, Merge);
    ValuesOfAdopted(target, source, done);
    AdoptedIsSeparate(target, source);
    TablesMerge(ours, theirs);
  }

  lemma KeysOfValues(m: Objects)
    ensures Values(m).Keys == m.Keys
  {
  }

  lemma ValuesOfAdopted(target: Objects, source: Objects, done: set<Id>)
    ensures Values(Adopted(target, source, done)) == Adopted(Values(target), Values(source), done)
  {
  }

  lemma TablesMerge(a: Table, b: Table)
    ensures MergeTables(a, b) == MergeMaps(a, b, Merge)
  {
  }

  lemma AdoptedIsSeparate(target: Objects, source: Objects)
    requires Separate(target) && Separate(source) && Owned(target) !! Owned(source)
    ensures var r := Adopted(target, source, source.Keys);
            Separate(r) && Owned(r) <= Owned(target) + Owned(source)
  {
    ApartIsDisjoint(target, source);
  }

  // Merging is commutative and associative.

  ghost predicate Commutes<V(!new)>(op: (V, V) -> V) {
    forall a, b :: op(a, b) == op(b, a)
  }

  ghost predicate Associates<V(!new)>(op: (V, V) -> V) {
    forall a, b, c :: op(op(a, b), c) == op(a, op(b, c))
  }

  lemma MergeCommutes()
    ensures Commutes(Merge) && Associates(Merge)
  {
  }

  /** Merging dictionaries inherits both laws from the operation on their entries. */
  lemma MergeMapsLaws<V(!new)>(op: (V, V) -> V)
    requires Commutes(op) && Associates(op)
    ensures forall a: map<Id, V>, b: map<Id, V> :: MergeMaps(a, b, op) == MergeMaps(b, a, op)
    ensures forall a: map<Id, V>, b: map<Id, V>, c: map<Id, V> ::
              MergeMaps(MergeMaps(a, b, op), c, op) == MergeMaps(a, MergeMaps(b, c, op), op)
  {
  }

  // Collecting one trace.

  datatype Child = Child(meta: Meta, span: Span)

  /** A linked event read off the heap. */
  datatype EventVal = EventVal(meta: Meta, span: Span, kids: seq<Child>)

  function Kids(children: seq<TraceEvent>): (r: seq<Child>)
    ensures |r| == |children| && forall i | 0 <= i < |r| :: r[i] == Child(children[i].meta, children[i].span)
  {
    seq(|children|, i requires 0 <= i < |children| => Child(children[i].meta, children[i].span))
  }

  function Snap(e: TraceEvent): EventVal
    reads e
  {
    EventVal(e.meta, e.span, Kids(e.children))
  }

  function Snaps(events: seq<TraceEvent>): (r: seq<EventVal>)
    reads events
    ensures |r| == |events| && forall i | 0 <= i < |r| :: r[i] == Snap(events[i])
  {
    seq(|events|, i requires 0 <= i < |events| reads events => Snap(events[i]))
  }

  function KeptSpans(kids: seq<Child>, keep: Meta -> bool): seq<Span> {
    if kids == [] then []
    else (if keep(kids[0].meta) then [kids[0].span] else []) + KeptSpans(kids[1..], keep)
  }

  /** The test a child must pass to be subtracted. */
  function Keep(config: Config): Meta -> bool {
    m => config.scope.All? || config.matches(m)
  }

  ghost function ExclusiveVal(e: EventVal, keep: Meta -> bool): int {
    ExclusiveUs(e.span, KeptSpans(e.kids, keep))
  }

  lemma {:induction false} KeptAreSpans(children: seq<TraceEvent>, config: Config)
    ensures Spans(ExclusiveChildren(children, config)) == KeptSpans(Kids(children), Keep(config))
  {
    if children != [] {
      KeptAreSpans(children[1..], config);
      assert Kids(children)[1..] == Kids(children[1..]);
      assert Keep(config)(children[0].meta) == (config.scope.All? || config.matches(children[0].meta));
      assert ExclusiveChildren(children, config) ==
             (if Keep(config)(children[0].meta) then [children[0]] else []) + ExclusiveChildren(children[1..], config);
    }
  }

  /** The table after the given events have been added in order. */
  ghost function Collect(t: Table, events: seq<EventVal>, trace: string, identity: Meta -> Option<Id>,
                         keep: Meta -> bool): Table {
    if events == [] then t
    else
      var before := Collect(t, events[..|events| - 1], trace, identity, keep);
      var e := events[|events| - 1];
      match identity(e.meta)
      case None => before
      case Some(id) => Add(before, id, One(e.span.Length(), ExclusiveVal(e, keep), trace, e.meta.rootTu))
  }

  /** The body of the loop for an event that has an identity. */
  method CollectEvent(objects: Objects, event: TraceEvent, trace: string, id: Id, config: Config)
    returns (r: Objects)
    requires Separate(objects)
    requires Forward(Spans(event.children))
    modifies Owned(objects)
    ensures Separate(r) && fresh(Owned(r) - Owned(objects))
    ensures var e := old(Snap(event));
            Values(r) == Add(old(Values(objects)), id,
                             One(e.span.Length(), ExclusiveVal(e, Keep(config)), trace, e.meta.rootTu))
  {
    hide ExclusiveUs, KeptSpans, Add, Merge, Separate, Keep;
    var us := EventExclusiveUs(event, config);
    KeptAreSpans(event.children, config);
    r := AddEventStats(objects, id, event.span.Length(), us, trace, event.meta.rootTu);
  }

  /** `collect_trace_stats`. */
  method CollectTraceStats(objects: Objects, events: seq<TraceEvent>, trace: string, identity: Meta -> Option<Id>,
                           config: Config)
    returns (r: Objects)
    requires Separate(objects)
    requires forall i | 0 <= i < |events| :: Forward(Spans(events[i].children))
    modifies Owned(objects)
    ensures Separate(r) && fresh(Owned(r) - Owned(objects))
    ensures Values(r) == Collect(old(Values(objects)), old(Snaps(events)), trace, identity, Keep(config))
  {
    hide ExclusiveUs, ExclusiveVal, KeptSpans, Add, Merge, Separate, Keep, Collect, Kids, Forward, Spans;
    r := objects;
    ghost var start, snaps := Values(objects), Snaps(events);
    CollectNothing(start, trace, identity, Keep(config));
    for i := 0 to |events|
      invariant Separate(r) && fresh(Owned(r) - Owned(objects))
      invariant Snaps(events) == snaps
      invariant Values(r) == Collect(start, snaps[..i], trace, identity, Keep(config))
    {
      var id := identity(events[i].meta);
      assert snaps[i] == Snap(events[i]);
      CollectNext(start, snaps, i, trace, identity, Keep(config));
      if id.Some? {
        r := CollectEvent(r, events[i], trace, id.value, config);
      }
    }
    assert snaps[..|events|] == snaps;
  }

  lemma CollectNothing(t: Table, trace: string, identity: Meta -> Option<Id>, keep: Meta -> bool)
    ensures Collect(t, [], trace, identity, keep) == t
  {
  }

  lemma CollectNext(t: Table, events: seq<EventVal>, i: nat, trace: string, identity: Meta -> Option<Id>,
                    keep: Meta -> bool)
    requires i < |events|
    ensures var before, e := Collect(t, events[..i], trace, identity, keep), events[i];
            Collect(t, events[..i + 1], trace, identity, keep) ==
            if identity(e.meta).Some?
            then Add(before, identity(e.meta).value, One(e.span.Length(), ExclusiveVal(e, keep), trace, e.meta.rootTu))
            else before
  {
    assert events[..i + 1][..i] == events[..i];
    CollectUnfolds(t, events[..i + 1], trace, identity, keep);
  }

  // Workers and one long collection.

  /** Maxima start from zero and only grow. */
  ghost predicate FromZero(t: Table) {
    forall id | id in t :: t[id].maxInclusive >= 0 && t[id].maxExclusive >= 0
  }

  lemma AddIsMerge(t: Table, u: Table, id: Id, one: Stats)
    requires FromZero(t)
    ensures Add(MergeTables(t, u), id, one) == MergeTables(t, Add(u, id, one))
  {
    var into, merged := Add(MergeTables(t, u), id, one), MergeTables(t, Add(u, id, one));
    assert into.Keys == merged.Keys;
    forall k | k in into ensures into[k] == merged[k] {}
  }

  lemma CollectUnfolds(t: Table, events: seq<EventVal>, trace: string, identity: Meta -> Option<Id>, keep: Meta -> bool)
    requires events != []
    ensures var earlier, e := events[..|events| - 1], events[|events| - 1];
            var before := Collect(t, earlier, trace, identity, keep);
            Collect(t, events, trace, identity, keep) ==
            if identity(e.meta).Some?
            then Add(before, identity(e.meta).value, One(e.span.Length(), ExclusiveVal(e, keep), trace, e.meta.rootTu))
            else before
  {
  }

  lemma AddFromZero(t: Table, id: Id, one: Stats)
    requires FromZero(t)
    ensures FromZero(Add(t, id, one))
  {
  }

  /**
   * Merging what a worker collected on its own leaves what collecting its events straight into the
   * target would have left.
   */
  lemma {:induction false} MergingIsCollecting(t: Table, events: seq<EventVal>, trace: string,
                                               identity: Meta -> Option<Id>, keep: Meta -> bool)
    requires FromZero(t)
    ensures MergeTables(t, Collect(map[], events, trace, identity, keep)) == Collect(t, events, trace, identity, keep)
    ensures FromZero(Collect(t, events, trace, identity, keep))
  {
    if events == [] {
      assert MergeTables(t, map[]) == t;
    } else {
      var earlier, e := events[..|events| - 1], events[|events| - 1];
      hide *;
      MergingIsCollecting(t, earlier, trace, identity, keep);
      CollectUnfolds(t, events, trace, identity, keep);
      CollectUnfolds(map[], events, trace, identity, keep);
      var id := identity(e.meta);
      if id.Some? {
        var one := One(e.span.Length(), ExclusiveVal(e, keep), trace, e.meta.rootTu);
        AddIsMerge(t, Collect(map[], earlier, trace, identity, keep), id.value, one);
        AddFromZero(Collect(t, earlier, trace, identity, keep), id.value, one);
      }
    }
  }
}
