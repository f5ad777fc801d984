/** Exclusive time: how a thread's covered ticks are shared out among its nested events. */
module ExclusiveTime {
  import opened Sorting
  import opened Ticks
  import opened TraceNesting

  /** The ticks of event `i` that none of its children covers. */
  ghost function Own(s: seq<Span>, i: nat): set<int>
    requires i < |s|
  {
    Range(s[i]) - TickSet(Select(s, s, i, |s|))
  }

  lemma OwnExactly(s: seq<Span>, i: nat, t: int)
    requires i < |s|
    ensures t in Own(s, i) <==> s[i].Holds(t) && forall c | 0 <= c < |s| && Parent(s, c) == i :: !s[c].Holds(t)
  {
    var kids := Select(s, s, i, |s|);
    if t in TickSet(kids) {
      var a :| 0 <= a < |kids| && t in Range(kids[a]);
      var c := Origin(s, s, i, |s|, a);
      assert s[c].Holds(t);
    }
    forall c | 0 <= c < |s| && Parent(s, c) == i && s[c].Holds(t) ensures t in TickSet(kids) {
      Selected(s, s, i, |s|, c);
      var a :| 0 <= a < |kids| && kids[a] == s[c];
      assert t in Range(kids[a]);
    }
  }

  lemma ChildrenWithin(s: seq<Span>, i: nat)
    requires i < |s|
    ensures TickSet(Select(s, s, i, |s|)) <= Range(s[i])
    ensures Forward(s) ==> Forward(Select(s, s, i, |s|))
  {
    var kids := Select(s, s, i, |s|);
    forall a | 0 <= a < |kids| ensures s[i].Contains(kids[a]) && kids[a] in s {
      var c := Origin(s, s, i, |s|, a);
    }
  }

  /** Subtracting the merged children never goes below zero: the clamp is idle. */
  lemma ExclusiveIsOwn(s: seq<Span>, i: nat)
    requires Forward(s) && i < |s|
    ensures s[i].Length() - |TickSet(Select(s, s, i, |s|))| == |Own(s, i)|
  {
    ChildrenWithin(s, i);
    RangeSize(s[i]);
    SubsetSize(TickSet(Select(s, s, i, |s|)), Range(s[i]));
  }

  // Every covered tick is charged.

  /** The last event, in sweep order, among the first `n` that is running at `t`. */
  lemma {:induction false} LastHolding(s: seq<Span>, n: nat, i: nat, t: int) returns (last: nat)
    requires i < n <= |s| && s[i].Holds(t)
    ensures i <= last < n && s[last].Holds(t)
    ensures forall k | last < k < n :: !s[k].Holds(t)
  {
    if s[n - 1].Holds(t) {
      last := n - 1;
    } else {
      last := LastHolding(s, n - 1, i, t);
    }
  }

  lemma LastOwns(s: seq<Span>, last: nat, t: int)
    requires last < |s| && s[last].Holds(t)
    requires forall k | last < k < |s| :: !s[k].Holds(t)
    ensures t in Own(s, last)
  {
    OwnExactly(s, last, t);
  }

  ghost function Owns(s: seq<Span>): nat -> set<int> {
    (i: nat) => if i < |s| then Own(s, i) else {}
  }

  lemma CoveredIsOwned(s: seq<Span>, t: int)
    requires t in TickSet(s)
    ensures exists i | 0 <= i < |s| :: t in Owns(s)(i)
  {
    var i :| 0 <= i < |s| && t in Range(s[i]);
    var last := LastHolding(s, |s|, i, t);
    LastOwns(s, last, t);
    assert t in Owns(s)(last);
  }

  lemma UnionIsCovered(s: seq<Span>)
    ensures Union(Owns(s), |s|) == TickSet(s)
  {
    forall t | t in TickSet(s) ensures t in Union(Owns(s), |s|) {
      CoveredIsOwned(s, t);
      UnionMember(Owns(s), |s|, t);
    }
    forall t | t in Union(Owns(s), |s|) ensures t in TickSet(s) {
      UnionMember(Owns(s), |s|, t);
      var i :| 0 <= i < |s| && t in Owns(s)(i);
      assert t in Range(s[i]);
    }
  }

  /** The sum of the exclusive times of a thread's events. */
  ghost function TotalExclusive(s: seq<Span>): nat {
    Total(Owns(s), |s|)
  }

  /** No tick is charged to two events. */
  ghost predicate ChargedOnce(s: seq<Span>) {
    Disjoint(Owns(s), |s|)
  }

  // Which traces charge every tick once.

  ghost predicate Overlap(a: Span, b: Span) {
    a.start < b.end && b.start < a.end && a.start < a.end && b.start < b.end
  }

  /** Spans that share a tick are different and one holds the other. */
  ghost predicate Nested(s: seq<Span>) {
    forall i, j | 0 <= i < j < |s| && Overlap(s[i], s[j]) ::
      s[i] != s[j] && (s[i].Contains(s[j]) || s[j].Contains(s[i]))
  }

  /** In a nested trace an event with a later one running inside it has a child running there. */
  lemma {:induction false} ChildHolding(s: seq<Span>, i: nat, k: nat, t: int) returns (c: nat)
    requires InOrder(s) && Nested(s) && i < k < |s|
    requires s[i].Holds(t) && s[k].Holds(t)
    ensures c < |s| && Parent(s, c) == i && s[c].Holds(t)
    decreases k
  {
    assert Overlap(s[i], s[k]) && Open(s[i], s[k]);
    var p := LatestOpen(s, k, k);
    assert p >= i && s[p].Holds(t) && Overlap(s[p], s[k]);
    if p == i {
      c := k;
    } else {
      c := ChildHolding(s, i, p, t);
    }
  }

  lemma NestedChargesOnce(s: seq<Span>)
    requires InOrder(s) && Nested(s)
    ensures ChargedOnce(s)
  {
    forall i, j, t | 0 <= i < j < |s| && t in Owns(s)(i) && t in Owns(s)(j) ensures false {
      OwnExactly(s, i, t);
      var c := ChildHolding(s, i, j, t);
    }
  }

  /** The last event ending with `a` before a span that outlasts it owns their common last tick. */
  lemma CrossingChargesTwice(s: seq<Span>, a: nat, b: nat)
    requires InOrder(s) && a < b < |s|
    requires s[a].start < s[b].start < s[a].end < s[b].end
    ensures !ChargedOnce(s)
  {
    var t := s[a].end - 1;
    var a' := LastEnding(s, b, a);
    forall c | 0 <= c < |s| && Parent(s, c) == a' ensures !s[c].Holds(t) {
      if s[c].Holds(t) {
        assert s[c].end == s[a].end;
        if b < c { assert Open(s[b], s[c]); }
        assert false;
      }
    }
    OwnExactly(s, a', t);
    var last := LastHolding(s, |s|, b, t);
    LastOwns(s, last, t);
    assert t in Owns(s)(a') && t in Owns(s)(last);
  }

  lemma {:induction false} LastEnding(s: seq<Span>, n: nat, a: nat) returns (last: nat)
    requires a < n <= |s| && s[a].start < s[a].end
    ensures a <= last < n && s[last].end == s[a].end && s[last].Holds(s[a].end - 1)
    ensures forall k | last < k < n && s[k].end == s[a].end :: !s[k].Holds(s[a].end - 1)
  {
    if s[n - 1].end == s[a].end && s[n - 1].Holds(s[a].end - 1) {
      last := n - 1;
    } else {
      last := LastEnding(s, n - 1, a);
    }
  }

  /** Children of identical spans all go to the last twin, so the first twin owns all its ticks. */
  lemma TwinsChargeTwice(s: seq<Span>, a: nat, b: nat)
    requires InOrder(s) && a < b < |s| && s[a] == s[b] && s[a].start < s[a].end
    ensures !ChargedOnce(s)
  {
    var t := s[a].start;
    forall c | 0 <= c < |s| && Parent(s, c) == a ensures !s[c].Holds(t) {
      if s[c].Holds(t) {
        assert false;
      }
    }
    OwnExactly(s, a, t);
    var last := LastHolding(s, |s|, b, t);
    LastOwns(s, last, t);
    assert t in Owns(s)(a) && t in Owns(s)(last);
  }

  /**
   * Conservation of exclusive time. The exclusive times of one thread never sum to less than the
   * ticks the thread covers, and they sum to exactly those ticks if and only if its positive-length
   * spans are distinct and pairwise nested or disjoint.
   */
  lemma Conservation(s: seq<Span>)
    requires InOrder(s) && Forward(s)
    ensures TotalExclusive(s) >= |TickSet(s)|
    ensures TotalExclusive(s) == |TickSet(s)| <==> Nested(s)
  {
    UnionIsCovered(s);
    SumAgainstUnion(Owns(s), |s|);
    if Nested(s) {
      NestedChargesOnce(s);
    } else {
      var a, b :| 0 <= a < b < |s| && Overlap(s[a], s[b])
                  && !(s[a] != s[b] && (s[a].Contains(s[b]) || s[b].Contains(s[a])));
      if s[a] == s[b] {
        TwinsChargeTwice(s, a, b);
      } else {
        CrossingChargesTwice(s, a, b);
      }
    }
  }

  /** In a nested trace a tick is charged to exactly the event that every other event running then contains. */
  lemma InnermostIsCharged(s: seq<Span>, i: nat, t: int)
    requires InOrder(s) && Nested(s) && i < |s|
    ensures t in Own(s, i) <==> s[i].Holds(t) && forall k | 0 <= k < |s| && s[k].Holds(t) :: s[k].Contains(s[i])
  {
    OwnExactly(s, i, t);
    hide Own, Nested, InOrder, Parent;
    if s[i].Holds(t) {
      if k :| i < k < |s| && s[k].Holds(t) {
        var c := ChildHolding(s, i, k, t);
        LaterIsInside(s, i, k, t);
      } else {
        forall c | 0 <= c < |s| && Parent(s, c) == i ensures !s[c].Holds(t) { ChildIsLater(s, i, c); }
        forall k | 0 <= k < i && s[k].Holds(t) ensures s[k].Contains(s[i]) { EarlierContains(s, k, i, t); }
      }
    }
  }

  lemma LaterIsInside(s: seq<Span>, i: nat, k: nat, t: int)
    requires InOrder(s) && Nested(s) && i < k < |s| && s[i].Holds(t) && s[k].Holds(t)
    ensures !s[k].Contains(s[i])
  {
    assert Overlap(s[i], s[k]);
    InOrderAt(s, i, k);
  }

  lemma EarlierContains(s: seq<Span>, k: nat, i: nat, t: int)
    requires InOrder(s) && Nested(s) && k < i < |s| && s[i].Holds(t) && s[k].Holds(t)
    ensures s[k].Contains(s[i])
  {
    assert Overlap(s[k], s[i]);
    InOrderAt(s, k, i);
  }

  lemma ChildIsLater(s: seq<Span>, i: nat, c: nat)
    requires c < |s| && Parent(s, c) == i
    ensures i < c
  {
  }

  // The same figures read off the linked objects.

  datatype Scope = All | SameFilter

  datatype Config = Config(scope: Scope, matches: Meta -> bool)

  /** `exclusive_child_events`. */
  function ExclusiveChildren(children: seq<TraceEvent>, config: Config): seq<TraceEvent> {
    if config.scope.All? then children
    else Filter(children, (c: TraceEvent) => config.matches(c.meta))
  }

  /** Inclusive time less the ticks the given children cover, never negative. */
  ghost function ExclusiveUs(span: Span, kids: seq<Span>): int {
    var us := span.Length() - |TickSet(kids)|;
    if us < 0 then 0 else us
  }

  /** The child is subtracted: any in scope "all", a matching one in scope "same-filter". */
  ghost predicate InScope(config: Config, meta: Meta) {
    config.scope.SameFilter? ==> config.matches(meta)
  }

  /** The ticks of `span` that no child in scope covers. */
  ghost function Uncovered(span: Span, children: seq<TraceEvent>, config: Config): set<int> {
    set t | t in Range(span) && forall c | c in children && InScope(config, c.meta) :: !c.span.Holds(t)
  }

  method EventExclusiveUs(event: TraceEvent, config: Config) returns (us: int)
    requires Forward(Spans(event.children))
    ensures us == ExclusiveUs(event.span, Spans(ExclusiveChildren(event.children, config)))
    ensures event.span.start <= event.span.end && (forall c | c in event.children :: event.span.Contains(c.span)) ==>
              us == |Uncovered(event.span, event.children, config)|
  {
    var kids := ExclusiveChildren(event.children, config);
    if config.scope.SameFilter? {
      Filtered(event.children, (c: TraceEvent) => config.matches(c.meta));
    }
    forall i | 0 <= i < |kids| ensures Spans(kids)[i].start <= Spans(kids)[i].end {
      assert kids[i] in event.children;
      var j :| 0 <= j < |event.children| && event.children[j] == kids[i];
      assert Spans(event.children)[j] == Spans(kids)[i];
    }
    var merged := MergedIntervalDuration(Spans(kids));
    us := event.span.Length() - merged;
    if us < 0 { us := 0; }
    if event.span.start <= event.span.end && forall c | c in event.children :: event.span.Contains(c.span) {
      UncoveredSize(event.span, event.children, config);
    }
  }

  lemma UncoveredSize(span: Span, children: seq<TraceEvent>, config: Config)
    requires span.start <= span.end && forall c | c in children :: span.Contains(c.span)
    ensures ExclusiveUs(span, Spans(ExclusiveChildren(children, config))) == |Uncovered(span, children, config)|
  {
    var kept := ExclusiveChildren(children, config);
    KeptExactly(children, config);
    forall i | 0 <= i < |kept| ensures span.Contains(Spans(kept)[i]) {
      assert kept[i] in children;
    }
    forall t | t in Range(span) ensures t in TickSet(Spans(kept)) <==> t !in Uncovered(span, children, config) {
      if t in TickSet(Spans(kept)) {
        var i :| 0 <= i < |kept| && t in Range(Spans(kept)[i]);
        assert kept[i] in children && Spans(kept)[i] == kept[i].span;
      }
      if c :| c in children && InScope(config, c.meta) && c.span.Holds(t) {
        var i :| 0 <= i < |kept| && kept[i] == c;
        assert t in Range(Spans(kept)[i]);
      }
    }
    assert Uncovered(span, children, config) == Range(span) - TickSet(Spans(kept));
    ExclusiveIsLeft(span, Spans(kept));
  }

  /** Children inside their parent take away exactly the ticks they cover. */
  lemma ExclusiveIsLeft(span: Span, kids: seq<Span>)
    requires span.start <= span.end && forall i | 0 <= i < |kids| :: span.Contains(kids[i])
    ensures ExclusiveUs(span, kids) == |Range(span) - TickSet(kids)|
  {
    forall t | t in TickSet(kids) ensures t in Range(span) {
      var i :| 0 <= i < |kids| && t in Range(kids[i]);
    }
    SubsetSize(TickSet(kids), Range(span));
    RangeSize(span);
  }

  lemma KeptExactly(children: seq<TraceEvent>, config: Config)
    ensures var kept := ExclusiveChildren(children, config);
            && (forall i | 0 <= i < |kept| :: kept[i] in children && InScope(config, kept[i].meta))
            && forall i | 0 <= i < |children| && InScope(config, children[i].meta) :: children[i] in kept
  {
    if config.scope.SameFilter? {
      Filtered(children, (c: TraceEvent) => config.matches(c.meta));
    }
  }

  /** For spans inside their parent the narrower scope only adds time, and nothing is ever clamped. */
  lemma ScopesAreOrdered(span: Span, children: seq<TraceEvent>, matches: Meta -> bool)
    requires Forward(Spans(children)) && span.start <= span.end
    requires forall i | 0 <= i < |children| :: span.Contains(children[i].span)
    ensures var all := ExclusiveUs(span, Spans(ExclusiveChildren(children, Config(All, matches))));
            var same := ExclusiveUs(span, Spans(ExclusiveChildren(children, Config(SameFilter, matches))));
            && 0 <= span.Length() - |TickSet(Spans(children))| == all <= same <= span.Length()
  {
    var kept := ExclusiveChildren(children, Config(SameFilter, matches));
    Filtered(children, (c: TraceEvent) => matches(c.meta));
    forall i | 0 <= i < |Spans(kept)| ensures Spans(kept)[i] in Spans(children) {
      var j :| 0 <= j < |children| && children[j] == kept[i];
      assert Spans(children)[j] == Spans(kept)[i];
    }
    SubsetSize(TickSet(Spans(kept)), TickSet(Spans(children)));
    assert TickSet(Spans(children)) <= Range(span);
    SubsetSize(TickSet(Spans(children)), Range(span));
    RangeSize(span);
  }

  lemma {:induction false} SelectSpans(es: seq<TraceEvent>, s: seq<Span>, j: int, n: nat)
    requires n <= |es| == |s| && s == Spans(es)
    ensures Spans(Select(es, s, j, n)) == Select(s, s, j, n)
  {
    if n > 0 { SelectSpans(es, s, j, n - 1); }
  }

  ghost function EventExclusive(e: TraceEvent): int
    reads e
  {
    ExclusiveUs(e.span, Spans(e.children))
  }

  ghost function ThreadExclusive(t: seq<TraceEvent>, n: nat): int
    requires n <= |t|
    reads t
  {
    if n == 0 then 0 else ThreadExclusive(t, n - 1) + EventExclusive(t[n - 1])
  }

  lemma LinkedExclusive(t: seq<TraceEvent>, initial: Links, j: nat)
    requires j < |t| && Forward(Spans(t))
    requires Linked(t, initial, |t|) && initial[t[j]] == []
    ensures EventExclusive(t[j]) == |Owns(Spans(t))(j)|
  {
    var s := Spans(t);
    assert t[j].children == Select(t, s, j, |t|);
    SelectSpans(t, s, j, |t|);
    ExclusiveIsOwn(s, j);
  }

  lemma {:induction false} SumsAgree(t: seq<TraceEvent>, f: nat -> set<int>, n: nat)
    requires n <= |t|
    requires forall i: nat | i < n :: EventExclusive(t[i]) == |f(i)|
    ensures ThreadExclusive(t, n) == Total(f, n)
  {
    if n > 0 { SumsAgree(t, f, n - 1); }
  }

  lemma ThreadIsFresh(events: seq<TraceEvent>, key: (int, int), initial: Links)
    requires Distinct(events) && Forward(Spans(events))
    requires forall i | 0 <= i < |events| :: events[i] in initial && initial[events[i]] == []
    ensures var t := ThreadOf(events, key);
            && InOrder(Spans(t)) && Forward(Spans(t))
            && (forall i | 0 <= i < |t| :: t[i] in initial && initial[t[i]] == [])
            && TickSet(Spans(t)) == TickSet(Spans(Group(events, key)))
  {
    var t, mine := ThreadOf(events, key), Group(events, key);
    ThreadOfIsReady(events, key);
    hide InOrder, ThreadOf, Group, TickSet;
    forall i | 0 <= i < |t|
      ensures t[i] in initial && initial[t[i]] == [] && Spans(t)[i].start <= Spans(t)[i].end
    {
      var k :| 0 <= k < |events| && events[k] == t[i];
      assert Spans(events)[k] == t[i].span;
    }
    ThreadHoldsGroup(events, key);
    SpansOfSame(t, mine);
    SpansOfSame(mine, t);
  }

  lemma ThreadHoldsGroup(events: seq<TraceEvent>, key: (int, int))
    ensures var t, mine := ThreadOf(events, key), Group(events, key);
            (forall i | 0 <= i < |t| :: t[i] in mine) && forall i | 0 <= i < |mine| :: mine[i] in t
  {
    SameElements(ThreadOf(events, key), Group(events, key));
  }

  lemma SpansOfSame(xs: seq<TraceEvent>, ys: seq<TraceEvent>)
    requires forall i | 0 <= i < |xs| :: xs[i] in ys
    ensures TickSet(Spans(xs)) <= TickSet(Spans(ys))
  {
  }

  /**
   * Once `LinkChildEvents` has linked freshly read events, the exclusive times of each thread sum to
   * at least the ticks the thread covers, with equality exactly on nested threads.
   */
  lemma ThreadConservation(events: seq<TraceEvent>, key: (int, int), initial: Links)
    requires Distinct(events) && Forward(Spans(events))
    requires forall i | 0 <= i < |events| :: events[i] in initial && initial[events[i]] == []
    requires ThreadLinked(events, key, initial)
    ensures var t := ThreadOf(events, key);
            && ThreadExclusive(t, |t|) >= |TickSet(Spans(Group(events, key)))|
            && (ThreadExclusive(t, |t|) == |TickSet(Spans(Group(events, key)))| <==> Nested(Spans(t)))
  {
    var t := ThreadOf(events, key);
    ThreadIsFresh(events, key, initial);
    forall i: nat | i < |t| ensures EventExclusive(t[i]) == |Owns(Spans(t))(i)| {
      LinkedExclusive(t, initial, i);
    }
    SumsAgree(t, Owns(Spans(t)), |t|);
    Conservation(Spans(t));
  }

  /** Every child the linking gave an event lies inside it, and runs forward. */
  lemma LinkedChildrenInside(t: seq<TraceEvent>, initial: Links, j: nat)
    requires j < |t| && Forward(Spans(t)) && Linked(t, initial, |t|) && initial[t[j]] == []
    ensures Forward(Spans(t[j].children))
    ensures forall i | 0 <= i < |t[j].children| :: t[j].span.Contains(t[j].children[i].span)
  {
    var s := Spans(t);
    forall i | 0 <= i < |t[j].children|
      ensures t[j].span.Contains(t[j].children[i].span)
      ensures t[j].children[i].span.start <= t[j].children[i].span.end
    {
      var c := Origin(t, s, j, |t|, i);
      assert s[c] == t[j].children[i].span;
    }
  }

  /**
   * On every linked trace 0 <= exclusive("all") <= exclusive("same-filter") <= inclusive, and the clamp at
   * zero never acts, whatever the filter.
   */
  lemma LinkedScopesAreOrdered(events: seq<TraceEvent>, key: (int, int), initial: Links, j: nat, matches: Meta -> bool)
    requires Distinct(events) && Forward(Spans(events))
    requires forall i | 0 <= i < |events| :: events[i] in initial && initial[events[i]] == []
    requires ThreadLinked(events, key, initial) && j < |ThreadOf(events, key)|
    ensures var e := ThreadOf(events, key)[j];
            var all := ExclusiveUs(e.span, Spans(ExclusiveChildren(e.children, Config(All, matches))));
            var same := ExclusiveUs(e.span, Spans(ExclusiveChildren(e.children, Config(SameFilter, matches))));
            && 0 <= e.span.Length() - |TickSet(Spans(e.children))| == all <= same <= e.span.Length()
  {
    var t := ThreadOf(events, key);
    ThreadIsFresh(events, key, initial);
    LinkedChildrenInside(t, initial, j);
    assert t[j].span == Spans(t)[j];
    ScopesAreOrdered(t[j].span, t[j].children, matches);
  }
}
