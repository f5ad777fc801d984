/** Parent and child links of the events of one compiler trace. */
module TraceNesting {
  import opened Ticks
  import opened Sorting

  /** What an event says about itself besides its place in time. */
  datatype Meta = Meta(name: string, detail: string, rootTu: string, synthetic: bool)

  class TraceEvent {
    const meta: Meta
    const span: Span
    const pid: int
    const tid: int
    var children: seq<TraceEvent>

    constructor (meta: Meta, span: Span, pid: int, tid: int)
      ensures this.meta == meta && this.span == span && this.pid == pid && this.tid == tid && children == []
    {
      this.meta, this.span, this.pid, this.tid, children := meta, span, pid, tid, [];
    }
  }

  /** Earlier start first; at one start the longer span first. */
  predicate SpanLeq(a: Span, b: Span) {
    a.start < b.start || (a.start == b.start && a.end >= b.end)
  }

  ghost predicate InOrder(s: seq<Span>) {
    forall i, j | 0 <= i < j < |s| :: SpanLeq(s[i], s[j])
  }

  lemma InOrderAt(s: seq<Span>, i: int, j: int)
    requires InOrder(s) && 0 <= i < |s| && 0 <= j < |s|
    ensures i < j ==> SpanLeq(s[i], s[j])
  {
  }

  /** `inner` starts while `outer` still runs and ends no later. */
  predicate Open(outer: Span, inner: Span) {
    outer.Contains(inner) && inner.start < outer.end
  }

  /** The last of the first `n` spans that is open around span `i`, or -1. */
  function LatestOpen(s: seq<Span>, i: nat, n: nat): (r: int)
    requires n <= i < |s|
    ensures -1 <= r < n
    ensures r >= 0 ==> Open(s[r], s[i])
    ensures forall k | r < k < n :: !Open(s[k], s[i])
  {
    if n == 0 then -1
    else if Open(s[n - 1], s[i]) then n - 1
    else LatestOpen(s, i, n - 1)
  }

  /** The specification of the link: the latest open earlier span, unless it is the identical span. */
  function Parent(s: seq<Span>, i: nat): (r: int)
    requires i < |s|
    ensures -1 <= r < i
  {
    var k := LatestOpen(s, i, i);
    if k >= 0 && s[k] != s[i] then k else -1
  }

  /** The entries of `xs`, one per span, among the first `n` whose parent is `j`, in order. */
  function Select<T>(xs: seq<T>, s: seq<Span>, j: int, n: nat): (r: seq<T>)
    requires n <= |xs| == |s|
  {
    if n == 0 then []
    else Select(xs, s, j, n - 1) + (if Parent(s, n - 1) == j then [xs[n - 1]] else [])
  }

  lemma {:induction false} Selected<T>(xs: seq<T>, s: seq<Span>, j: int, n: nat, c: nat)
    requires c < n <= |xs| == |s| && Parent(s, c) == j
    ensures xs[c] in Select(xs, s, j, n)
  {
    if c < n - 1 { Selected(xs, s, j, n - 1, c); }
  }

  lemma {:induction false} Origin<T>(xs: seq<T>, s: seq<Span>, j: int, n: nat, a: nat) returns (c: nat)
    requires n <= |xs| == |s| && a < |Select(xs, s, j, n)|
    ensures c < n && Parent(s, c) == j && Select(xs, s, j, n)[a] == xs[c]
  {
    if a < |Select(xs, s, j, n - 1)| {
      c := Origin(xs, s, j, n - 1, a);
    } else {
      c := n - 1;
    }
  }

  // What the links mean.

  ghost predicate StrictlyContains(outer: Span, inner: Span) {
    outer.Contains(inner) && outer != inner
  }

  /**
   * A parent strictly contains its child, and any span strictly between the two ends exactly
   * where the child, then of length zero, sits.
   */
  lemma ParentIsTightest(s: seq<Span>, i: nat, k: nat)
    requires InOrder(s) && Forward(s) && i < |s| && k < |s| && Parent(s, i) >= 0
    ensures StrictlyContains(s[Parent(s, i)], s[i])
    ensures StrictlyContains(s[Parent(s, i)], s[k]) && StrictlyContains(s[k], s[i])
            ==> s[k].end == s[i].start == s[i].end
  {
  }

  /**
   * The sweep links a child past a span strictly between it and its parent exactly when the child has length
   * zero, some span ends where it sits, and the spans that run there all began no later than that one.
   */
  lemma SpanBetweenExactly(s: seq<Span>, i: nat)
    requires InOrder(s) && Forward(s) && i < |s|
    ensures SkipsASpan(s, i) <==> s[i].start == s[i].end && EndsUnderAll(s, s[i].start)
  {
    var t := s[i].start;
    if SkipsASpan(s, i) {
      var k :| 0 <= k < |s| && StrictlyContains(s[Parent(s, i)], s[k]) && StrictlyContains(s[k], s[i]);
      ParentIsTightest(s, i, k);
      EndingIsBelow(s, i, k);
    }
    if s[i].start == s[i].end && EndsUnderAll(s, t) {
      var k :| 0 <= k < |s| && EndsAt(s[k], t) && BegunBy(s, s[k].start, t);
      var p := RunningHasParent(s, i, t);
      assert StrictlyContains(s[p], s[k]) && StrictlyContains(s[k], s[i]);
    }
  }

  /** Some span lies strictly between a child and the parent it is linked to. */
  ghost predicate SkipsASpan(s: seq<Span>, i: nat)
    requires i < |s|
  {
    Parent(s, i) >= 0
    && exists k :: 0 <= k < |s| && StrictlyContains(s[Parent(s, i)], s[k]) && StrictlyContains(s[k], s[i])
  }

  /** Some span runs at `t`, and every one that does began no later than a span that ends there. */
  ghost predicate EndsUnderAll(s: seq<Span>, t: int) {
    && (exists j :: 0 <= j < |s| && s[j].Holds(t))
    && exists k :: 0 <= k < |s| && EndsAt(s[k], t) && BegunBy(s, s[k].start, t)
  }

  ghost predicate BegunBy(s: seq<Span>, start: int, t: int) {
    forall j | 0 <= j < |s| && s[j].Holds(t) :: s[j].start <= start
  }

  /** The parent of a zero-length span is the latest span that runs where it sits. */
  lemma RunningHasParent(s: seq<Span>, i: nat, t: int) returns (p: nat)
    requires InOrder(s) && Forward(s) && i < |s| && s[i] == Span(t, t)
    requires exists j :: 0 <= j < |s| && s[j].Holds(t)
    ensures p == Parent(s, i) && p < |s| && s[p].Holds(t)
    ensures BegunBy(s, s[p].start, t)
  {
    forall j | 0 <= j < |s| && s[j].Holds(t) ensures j < i && Open(s[j], s[i]) {
    }
    p := Parent(s, i);
    forall j | 0 <= j < |s| && s[j].Holds(t) ensures s[j].start <= s[p].start {
    }
  }

  lemma EndingIsBelow(s: seq<Span>, i: nat, k: nat)
    requires InOrder(s) && Forward(s) && i < |s| && k < |s| && Parent(s, i) >= 0
    requires s[i].start == s[i].end && EndsAt(s[k], s[i].start) && StrictlyContains(s[Parent(s, i)], s[k])
    ensures EndsUnderAll(s, s[i].start)
  {
    var p := RunningHasParent(s, i, s[i].start);
    assert s[p].start <= s[k].start;
  }

  ghost predicate EndsAt(s: Span, t: int) {
    s.start < t == s.end
  }

  /** An event is in one children list at most, and there once: its parent's. */
  lemma JoinsOneList<T>(xs: seq<T>, s: seq<Span>, j: int, c: nat)
    requires Distinct(xs) && c < |xs| == |s|
    ensures xs[c] in Select(xs, s, j, |xs|) <==> Parent(s, c) == j
    ensures Distinct(Select(xs, s, j, |xs|))
  {
    var list := Select(xs, s, j, |xs|);
    if Parent(s, c) == j { Selected(xs, s, j, |xs|, c); }
    if xs[c] in list {
      var a :| 0 <= a < |list| && list[a] == xs[c];
      var d := Origin(xs, s, j, |xs|, a);
    }
    SelectDistinct(xs, s, j, |xs|);
  }

  lemma {:induction false} SelectDistinct<T>(xs: seq<T>, s: seq<Span>, j: int, n: nat)
    requires Distinct(xs) && n <= |xs| == |s|
    ensures Distinct(Select(xs, s, j, n))
  {
    if n > 0 {
      SelectDistinct(xs, s, j, n - 1);
      var before := Select(xs, s, j, n - 1);
      forall a | 0 <= a < |before| ensures before[a] != xs[n - 1] {
        var c := Origin(xs, s, j, n - 1, a);
      }
    }
  }

  /**
   * Between a zero-length child and its parent another span can lie: the sweep drops it because
   * it ends exactly where the child starts.
   */
  lemma ZeroLengthChildCanSkipASpan()
    ensures var s := [Span(0, 10), Span(0, 5), Span(5, 5)];
            && InOrder(s) && Forward(s) && Parent(s, 2) == 0
            && StrictlyContains(s[0], s[1]) && StrictlyContains(s[1], s[2])
  {
    var s := [Span(0, 10), Span(0, 5), Span(5, 5)];
    assert !Open(s[1], s[2]) && Open(s[0], s[2]);
    assert LatestOpen(s, 2, 2) == LatestOpen(s, 2, 1);
  }

  /** A positive-length span has a parent exactly when a span strictly contains it and no twin precedes it. */
  lemma ParentlessExactly(s: seq<Span>, i: nat)
    requires InOrder(s) && i < |s| && s[i].start < s[i].end
    ensures Parent(s, i) >= 0 <==>
            && (exists k | 0 <= k < |s| :: StrictlyContains(s[k], s[i]))
            && (forall k | 0 <= k < i :: s[k] != s[i])
  {
  }

  // The stack sweep.

  /** The stack holds every span that is the latest open one for some span still to come. */
  ghost predicate Stacked(s: seq<Span>, ids: seq<nat>, n: nat) {
    && n <= |s|
    && (forall a | 0 <= a < |ids| :: ids[a] < n)
    && (forall a, b | 0 <= a < b < |ids| :: ids[a] < ids[b] && s[ids[b]].end <= s[ids[a]].end)
    && forall i | n <= i < |s| :: LatestOpen(s, i, n) == -1 || LatestOpen(s, i, n) in ids
  }

  /** As `Stacked`, but spans that the arriving span `n` is open around may be forgotten. */
  ghost predicate Popping(s: seq<Span>, ids: seq<nat>, n: nat) {
    && n < |s|
    && (forall a | 0 <= a < |ids| :: ids[a] < n)
    && (forall a, b | 0 <= a < b < |ids| :: ids[a] < ids[b] && s[ids[b]].end <= s[ids[a]].end)
    && forall i | n <= i < |s| :: LatestOpen(s, i, n) == -1 || LatestOpen(s, i, n) in ids || (i > n && Open(s[n], s[i]))
  }

  lemma Pop(s: seq<Span>, ids: seq<nat>, n: nat)
    requires InOrder(s) && Popping(s, ids, n) && |ids| > 0
    requires !Open(s[ids[|ids| - 1]], s[n])
    ensures Popping(s, ids[..|ids| - 1], n)
  {
  }

  lemma TopIsLatestOpen(s: seq<Span>, ids: seq<nat>, n: nat)
    requires Popping(s, ids, n)
    requires |ids| > 0 ==> Open(s[ids[|ids| - 1]], s[n])
    ensures LatestOpen(s, n, n) == if |ids| > 0 then ids[|ids| - 1] else -1
  {
    var k := LatestOpen(s, n, n);
    hide *;
    if |ids| > 0 { LastIsLargest(ids, k); }
  }

  lemma LastIsLargest(ids: seq<nat>, k: int)
    requires k in ids && forall a, b | 0 <= a < b < |ids| :: ids[a] < ids[b]
    ensures k <= ids[|ids| - 1]
  {
    var a :| 0 <= a < |ids| && ids[a] == k;
  }

  lemma Push(s: seq<Span>, ids: seq<nat>, n: nat)
    requires InOrder(s) && Popping(s, ids, n)
    requires |ids| > 0 ==> s[n].end <= s[ids[|ids| - 1]].end
    ensures Stacked(s, ids + [n], n + 1)
  {
  }

  function Spans(es: seq<TraceEvent>): (s: seq<Span>)
    ensures |s| == |es| && forall i | 0 <= i < |s| :: s[i] == es[i].span
  {
    seq(|es|, i requires 0 <= i < |es| => es[i].span)
  }

  ghost predicate Names(es: seq<TraceEvent>, stack: seq<TraceEvent>, ids: seq<nat>) {
    && |ids| == |stack|
    && (forall a | 0 <= a < |ids| :: ids[a] < |es|)
    && forall a | 0 <= a < |ids| :: stack[a] == es[ids[a]]
  }

  lemma PopTop(es: seq<TraceEvent>, n: nat, stack: seq<TraceEvent>, ids: seq<nat>)
    requires InOrder(Spans(es)) && Popping(Spans(es), ids, n) && Names(es, stack, ids) && |stack| > 0
    requires !Open(stack[|stack| - 1].span, es[n].span)
    ensures Popping(Spans(es), ids[..|ids| - 1], n) && Names(es, stack[..|stack| - 1], ids[..|ids| - 1])
    ensures |stack| > 1 ==> stack[|stack| - 1].span.end <= stack[|stack| - 2].span.end
  {
    Pop(Spans(es), ids, n);
  }

  /** The two loops that pop finished and overlapping events before event `n` is placed. */
  method PopFor(es: seq<TraceEvent>, n: nat, stack: seq<TraceEvent>, ghost ids: seq<nat>)
    returns (rest: seq<TraceEvent>, ghost restIds: seq<nat>)
    requires n < |es| && InOrder(Spans(es)) && Stacked(Spans(es), ids, n) && Names(es, stack, ids)
    ensures Popping(Spans(es), restIds, n) && Names(es, rest, restIds)
    ensures |rest| > 0 ==> Open(rest[|rest| - 1].span, es[n].span)
    ensures LatestOpen(Spans(es), n, n) == if |rest| > 0 then restIds[|rest| - 1] else -1
  {
    ghost var s := Spans(es);
    var event := es[n];
    rest, restIds := stack, ids;
    StackPops(es, n, stack, ids);
    hide Popping, Stacked, Names, LatestOpen, InOrder;
    while |rest| > 0 && rest[|rest| - 1].span.end <= event.span.start
      invariant Popping(s, restIds, n) && Names(es, rest, restIds)
    {
      PopTop(es, n, rest, restIds);
      rest, restIds := rest[..|rest| - 1], restIds[..|rest| - 1];
    }
    while |rest| > 0 && !(rest[|rest| - 1].span.start <= event.span.start
                          && event.span.end <= rest[|rest| - 1].span.end)
      invariant Popping(s, restIds, n) && Names(es, rest, restIds)
      invariant |rest| > 0 ==> event.span.start < rest[|rest| - 1].span.end
    {
      PopTop(es, n, rest, restIds);
      rest, restIds := rest[..|rest| - 1], restIds[..|rest| - 1];
    }
    TopIsNamed(es, rest, restIds);
    TopIsLatestOpen(s, restIds, n);
  }

  lemma StackPops(es: seq<TraceEvent>, n: nat, stack: seq<TraceEvent>, ids: seq<nat>)
    requires n < |es| && Stacked(Spans(es), ids, n)
    ensures Popping(Spans(es), ids, n)
  {
  }

  lemma TopIsNamed(es: seq<TraceEvent>, stack: seq<TraceEvent>, ids: seq<nat>)
    requires Names(es, stack, ids)
    ensures |ids| == |stack|
    ensures |stack| > 0 ==> ids[|ids| - 1] < |es| && Spans(es)[ids[|ids| - 1]] == stack[|stack| - 1].span
  {
  }

  type Links = map<TraceEvent, seq<TraceEvent>>

  ghost function ChildrenOf(es: seq<TraceEvent>): (r: Links)
    reads es
  {
    map e | e in es :: e.children
  }

  /** Every event's children are those it had initially and the specified ones among the first `n`. */
  ghost predicate Linked(es: seq<TraceEvent>, initial: Links, n: nat)
    requires n <= |es|
    reads es
  {
    forall j | 0 <= j < |es| ::
      es[j] in initial && es[j].children == initial[es[j]] + Select(es, Spans(es), j, n)
  }

  /** Appends event `n` to the children of the stack's top unless the two spans are identical. */
  method Attach(es: seq<TraceEvent>, n: nat, stack: seq<TraceEvent>, ghost initial: Links)
    requires n < |es| && Distinct(es)
    requires var p := Parent(Spans(es), n);
             if |stack| > 0 && stack[|stack| - 1].span != es[n].span
             then p >= 0 && stack[|stack| - 1] == es[p] else p == -1
    requires Linked(es, initial, n)
    modifies es
    ensures Linked(es, initial, n + 1)
  {
    ghost var before := ChildrenOf(es);
    if |stack| > 0 && stack[|stack| - 1].span != es[n].span {
      var top := stack[|stack| - 1];
      top.children := top.children + [es[n]];
    }
    forall j | 0 <= j < |es|
      ensures es[j] in initial && es[j].children == initial[es[j]] + Select(es, Spans(es), j, n + 1)
    {
      assert es[j].children == before[es[j]] + (if j == Parent(Spans(es), n) then [es[n]] else []);
    }
  }

  ghost predicate Holding(es: seq<TraceEvent>, stack: seq<TraceEvent>, ids: seq<nat>, n: nat) {
    Stacked(Spans(es), ids, n) && Names(es, stack, ids)
  }

  /** Pops for event `n`, then pushes it; `top` is what the event finds on the stack in between. */
  method Advance(es: seq<TraceEvent>, n: nat, stack: seq<TraceEvent>, ghost ids: seq<nat>)
    returns (below: seq<TraceEvent>, ghost newIds: seq<nat>)
    requires n < |es| && InOrder(Spans(es)) && Holding(es, stack, ids, n)
    ensures Holding(es, below + [es[n]], newIds, n + 1)
    ensures var p := Parent(Spans(es), n);
            if |below| > 0 && below[|below| - 1].span != es[n].span
            then p >= 0 && below[|below| - 1] == es[p] else p == -1
  {
    below, newIds := PopFor(es, n, stack, ids);
    Push(Spans(es), newIds, n);
    newIds := newIds + [n];
  }

  /** The loop over one thread's sorted events: every event gains exactly its specified children. */
  method LinkThread(es: seq<TraceEvent>, ghost initial: Links)
    requires Distinct(es) && InOrder(Spans(es))
    requires Linked(es, initial, 0)
    modifies es
    ensures Linked(es, initial, |es|)
  {
    var stack: seq<TraceEvent> := [];
    ghost var ids: seq<nat> := [];
    for n: nat := 0 to |es|
      invariant Holding(es, stack, ids, n)
      invariant Linked(es, initial, n)
    {
      stack, ids := Advance(es, n, stack, ids);
      Attach(es, n, stack, initial);
      stack := stack + [es[n]];
    }
  }

  // All threads.

  predicate EventLeq(a: TraceEvent, b: TraceEvent) {
    SpanLeq(a.span, b.span)
  }

  function InGroup(key: (int, int)): TraceEvent -> bool {
    (e: TraceEvent) => (e.pid, e.tid) == key
  }

  function Group(events: seq<TraceEvent>, key: (int, int)): seq<TraceEvent> {
    Filter(events, InGroup(key))
  }

  /** One thread's events in sweep order. */
  function ThreadOf(events: seq<TraceEvent>, key: (int, int)): seq<TraceEvent> {
    StableSort(Group(events, key), EventLeq)
  }

  lemma ThreadOfIsReady(events: seq<TraceEvent>, key: (int, int))
    requires Distinct(events)
    ensures var t := ThreadOf(events, key);
            && Distinct(t) && InOrder(Spans(t))
            && (forall a | 0 <= a < |t| :: t[a] in events && (t[a].pid, t[a].tid) == key)
            && (forall i | 0 <= i < |events| && (events[i].pid, events[i].tid) == key :: events[i] in t)
  {
    var mine, t := Group(events, key), ThreadOf(events, key);
    FilterDistinct(events, InGroup(key));
    Filtered(events, InGroup(key));
    SortDistinct(mine, EventLeq);
    StableSortSorted(mine, EventLeq);
    SameElements(mine, t);
    forall i | 0 <= i < |t| ensures t[i] in events && InGroup(key)(t[i]) {
      var k :| 0 <= k < |mine| && mine[k] == t[i];
    }
    forall i | 0 <= i < |events| && InGroup(key)(events[i]) ensures events[i] in t {
      var k :| 0 <= k < |mine| && mine[k] == events[i];
    }
  }

  /** One thread's events have gained their first `n` links. */
  ghost predicate ThreadLinked(events: seq<TraceEvent>, key: (int, int), initial: Links)
    reads ThreadOf(events, key)
  {
    Linked(ThreadOf(events, key), initial, |ThreadOf(events, key)|)
  }

  ghost predicate ThreadWaiting(events: seq<TraceEvent>, key: (int, int), initial: Links)
    reads ThreadOf(events, key)
  {
    Linked(ThreadOf(events, key), initial, 0)
  }

  ghost predicate GroupedBy(events: seq<TraceEvent>, keys: seq<(int, int)>, grouped: map<(int, int), seq<TraceEvent>>) {
    && (forall k :: k in keys <==> k in grouped)
    && (forall i | 0 <= i < |events| :: (events[i].pid, events[i].tid) in grouped)
    && (forall k | k in grouped :: grouped[k] == Group(events, k))
  }

  lemma GroupedSnoc(events: seq<TraceEvent>, keys: seq<(int, int)>, grouped: map<(int, int), seq<TraceEvent>>,
                    e: TraceEvent)
    requires GroupedBy(events, keys, grouped)
    ensures (e.pid, e.tid) in keys <==> (e.pid, e.tid) in grouped
    ensures var key := (e.pid, e.tid);
            GroupedBy(events + [e], if key in grouped then keys else keys + [key],
                      grouped[key := (if key in grouped then grouped[key] else []) + [e]])
  {
    var key := (e.pid, e.tid);
    if key !in grouped { FilterNone(events, InGroup(key)); }
    forall k ensures Group(events + [e], k) == Group(events, k) + (if k == key then [e] else []) {
      FilterSnoc(events, e, InGroup(k));
    }
  }

  lemma NoGroups()
    ensures GroupedBy([], [], map[])
  {
  }

  /** Splits the events by process and thread; `keys` is the dictionary's insertion order. */
  method GroupEvents(events: seq<TraceEvent>)
    returns (keys: seq<(int, int)>, grouped: map<(int, int), seq<TraceEvent>>)
    ensures Distinct(keys) && GroupedBy(events, keys, grouped)
  {
    keys, grouped := [], map[];
    hide GroupedBy;
    NoGroups();
    for n := 0 to |events|
      invariant Distinct(keys) && GroupedBy(events[..n], keys, grouped)
    {
      var key := (events[n].pid, events[n].tid);
      assert events[..n + 1] == events[..n] + [events[n]];
      GroupedSnoc(events[..n], keys, grouped, events[n]);
      ghost var next := grouped[key := (if key in grouped then grouped[key] else []) + [events[n]]];
      if key !in grouped {
        keys, grouped := keys + [key], grouped[key := []];
      }
      grouped := grouped[key := grouped[key] + [events[n]]];
      assert grouped == next;
    }
    assert events[..|events|] == events;
  }

  /** `link_child_events`: every event of every thread gains exactly its specified children. */
  method LinkChildEvents(events: seq<TraceEvent>)
    requires Distinct(events)
    modifies events
    ensures forall i | 0 <= i < |events| ::
              ThreadLinked(events, (events[i].pid, events[i].tid), old(ChildrenOf(events)))
  {
    ghost var initial := ChildrenOf(events);
    var keys, grouped := GroupEvents(events);
    LinkGroups(events, keys, grouped, initial);
    forall i | 0 <= i < |events| ensures ThreadLinked(events, (events[i].pid, events[i].tid), initial) {
      var k := (events[i].pid, events[i].tid);
      assert k in grouped;
      var a :| 0 <= a < |keys| && keys[a] == k;
    }
  }

  lemma ThreadsWaiting(events: seq<TraceEvent>, key: (int, int))
    requires Distinct(events)
    ensures ThreadWaiting(events, key, ChildrenOf(events))
  {
    ThreadOfIsReady(events, key);
  }

  method LinkGroups(events: seq<TraceEvent>, keys: seq<(int, int)>, grouped: map<(int, int), seq<TraceEvent>>,
                    ghost initial: Links)
    requires Distinct(events) && Distinct(keys) && GroupedBy(events, keys, grouped)
    requires initial == ChildrenOf(events)
    modifies events
    ensures forall a | 0 <= a < |keys| :: ThreadLinked(events, keys[a], initial)
  {
    forall a | 0 <= a < |keys| ensures ThreadWaiting(events, keys[a], initial) {
      ThreadsWaiting(events, keys[a]);
    }
    for m := 0 to |keys|
      invariant forall a | 0 <= a < m :: ThreadLinked(events, keys[a], initial)
      invariant forall a | m <= a < |keys| :: ThreadWaiting(events, keys[a], initial)
    {
      assert keys[m] in keys;
      LinkGroup(events, keys, m, grouped[keys[m]], initial);
    }
  }

  method LinkGroup(events: seq<TraceEvent>, keys: seq<(int, int)>, m: nat, group: seq<TraceEvent>, ghost initial: Links)
    requires Distinct(events) && Distinct(keys) && m < |keys| && group == Group(events, keys[m])
    requires forall a | 0 <= a < m :: ThreadLinked(events, keys[a], initial)
    requires forall a | m <= a < |keys| :: ThreadWaiting(events, keys[a], initial)
    modifies events
    ensures forall a | 0 <= a <= m :: ThreadLinked(events, keys[a], initial)
    ensures forall a | m < a < |keys| :: ThreadWaiting(events, keys[a], initial)
  {
    var sorted := StableSort(group, EventLeq);
    ThreadOfIsReady(events, keys[m]);
    forall a | 0 <= a < |keys| && a != m ensures Apart(ThreadOf(events, keys[a]), sorted) {
      ThreadsApart(events, keys[a], keys[m]);
    }
    LinkThread(sorted, initial);
  }

  ghost predicate Apart(s: seq<TraceEvent>, t: seq<TraceEvent>) {
    forall a | 0 <= a < |s| :: s[a] !in t
  }

  lemma ThreadsApart(events: seq<TraceEvent>, k: (int, int), l: (int, int))
    requires Distinct(events) && k != l
    ensures Apart(ThreadOf(events, k), ThreadOf(events, l))
  {
    ThreadOfIsReady(events, k);
    ThreadOfIsReady(events, l);
  }
}
