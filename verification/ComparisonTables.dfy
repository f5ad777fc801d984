/** Dictionaries of two-sided statistics: one object for each side of an identity, updated in place. */
module ComparisonTables {
  import opened TraceStats

  /** The two sides of one identity, and the traces that matched. */
  datatype Pair = Pair(baseline: Stats, current: Stats, matched: set<string>)

  type Pairs = map<Id, Pair>

  const NOTHING := Pair(ZERO, ZERO, {})

  /** `merge_comparison_maps` on one identity. */
  function MergePair(a: Pair, b: Pair): Pair {
    Pair(Merge(a.baseline, b.baseline), Merge(a.current, b.current), a.matched + b.matched)
  }

  datatype SideName = Baseline | Current

  /** What the pair says of one side. */
  function OfSide(p: Pair, name: SideName): Stats {
    if name.Baseline? then p.baseline else p.current
  }

  /** `merge_comparison_side_stats` on one identity. */
  function MergeOnSide(p: Pair, side: SideName, s: Stats): Pair {
    match side
    case Baseline => p.(baseline := Merge(p.baseline, s), matched := p.matched + s.traces)
    case Current => p.(current := Merge(p.current, s), matched := p.matched + s.traces)
  }

  /** A new identity starts from zero on both sides. */
  function MergedAt(t: Pairs, side: SideName, id: Id, s: Stats): Pairs {
    t[id := MergeOnSide(if id in t then t[id] else NOTHING, side, s)]
  }

  /** What `merge_comparison_side_stats` leaves in the dictionary. */
  function MergeSide(t: Pairs, side: SideName, s: Table): Pairs {
    map id | id in t.Keys + s.Keys ::
      var p := if id in t then t[id] else NOTHING;
      if id in s then MergeOnSide(p, side, s[id]) else p
  }

  // The mutable objects.

  class ComparisonStats {
    const baseline: EventStats
    const current: EventStats
    var matched: set<string>

    constructor ()
      ensures fresh(baseline) && fresh(current) && baseline != current
      ensures PairValue() == NOTHING
    {
      baseline := new EventStats(ZERO);
      current := new EventStats(ZERO);
      matched := {};
    }

    function PairValue(): Pair
      reads this, baseline, current
    {
      Pair(baseline.Value(), current.Value(), matched)
    }

    /** The statements `merge_comparison_maps` performs for an identity both dictionaries know. */
    method MergeFrom(source: ComparisonStats)
      requires Parts(this) !! Parts(source) && baseline != current
      modifies this, baseline, current
      ensures PairValue() == MergePair(old(PairValue()), old(source.PairValue()))
    {
      baseline.MergeFrom(source.baseline);
      current.MergeFrom(source.current);
      matched := matched + source.matched;
    }

    /** Merges one side's statistics into the side of that name. */
    method MergeSideFrom(side: SideName, source: EventStats)
      requires source != baseline && source != current && baseline != current
      modifies this, baseline, current
      ensures PairValue() == MergeOnSide(old(PairValue()), side, old(source.Value()))
    {
      if side.Baseline? {
        baseline.MergeFrom(source);
      } else {
        current.MergeFrom(source);
      }
      matched := matched + source.traces;
    }
  }

  ghost function Parts(c: ComparisonStats): set<object> {
    {c, c.baseline, c.current}
  }

  type Comparisons = map<Id, ComparisonStats>

  ghost function Held(m: Comparisons): set<object> {
    set id, o | id in m && o in Parts(m[id]) :: o
  }

  /** No object is shared between two sides or two identities. */
  ghost predicate Unshared(m: Comparisons) {
    && (forall i | i in m :: m[i].baseline != m[i].current)
    && forall i, j | i in m && j in m && i != j :: Parts(m[i]) !! Parts(m[j])
  }

  ghost function PairValues(m: Comparisons): Pairs
    reads Held(m)
  {
    map id | id in m ::
      assert m[id] in Parts(m[id]) && m[id].baseline in Parts(m[id]) && m[id].current in Parts(m[id]);
      m[id].PairValue()
  }

  // One side into a dictionary.

  /** `setdefault`: an absent identity gets an object with zero statistics. */
  method SetDefault(m: Comparisons, id: Id) returns (r: Comparisons, ghost made: set<object>)
    requires Unshared(m)
    ensures Unshared(r) && id in r && fresh(made) && Held(r) <= Held(m) + made
    ensures PairValues(r) == if id in m then PairValues(m) else PairValues(m)[id := NOTHING]
  {
    r, made := m, {};
    if id !in r {
      var zero := new ComparisonStats();
      made := Parts(zero);
      assert Parts(zero) !! Held(m);
      hide Unshared, Held, Parts, ComparisonStats.PairValue;
      Inserted(m, id, zero);
      r := r[id := zero];
    }
  }

  lemma Inserted(m: Comparisons, id: Id, c: ComparisonStats)
    requires Unshared(m) && id !in m && c.baseline != c.current && Parts(c) !! Held(m)
    ensures Unshared(m[id := c]) && Held(m[id := c]) <= Held(m) + Parts(c)
    ensures PairValues(m[id := c]) == PairValues(m)[id := c.PairValue()]
  {
    InsertedUnshared(m, id, c);
    InsertedHeld(m, id, c);
    hide Unshared, Held, Parts;
  }

  lemma InsertedHeld(m: Comparisons, id: Id, c: ComparisonStats)
    ensures Held(m[id := c]) <= Held(m) + Parts(c)
  {
    hide Parts;
  }

  lemma InsertedUnshared(m: Comparisons, id: Id, c: ComparisonStats)
    requires Unshared(m) && id !in m && c.baseline != c.current && Parts(c) !! Held(m)
    ensures Unshared(m[id := c])
  {
    forall i | i in m ensures Parts(m[i]) !! Parts(c) {
      PartsHeld(m, i);
    }
    hide Parts, Held;
  }

  lemma OthersKept(m: Comparisons, id: Id)
    requires Unshared(m) && id in m
    ensures forall k | k in m && k != id :: {m[k], m[k].baseline, m[k].current} !! Parts(m[id])
  {
    forall k | k in m && k != id ensures {m[k], m[k].baseline, m[k].current} !! Parts(m[id]) {
      assert Parts(m[k]) !! Parts(m[id]);
    }
  }

  /** The rest of one turn: merges the statistics and notes their traces. */
  method UpdateSide(m: Comparisons, side: SideName, id: Id, source: EventStats)
    requires Unshared(m) && id in m && source !in Held(m)
    modifies Parts(m[id])
    ensures PairValues(m) == old(PairValues(m))[id := MergeOnSide(old(PairValues(m))[id], side, old(source.Value()))]
  {
    ghost var before := PairValues(m);
    assert Parts(m[id]) <= Held(m);
    OthersKept(m, id);
    hide MergeOnSide, Unshared, Held, EventStats.Value, ComparisonStats.PairValue;
    m[id].MergeSideFrom(side, source);
    forall k | k in m && k != id ensures m[k].PairValue() == before[k] {}
  }

  /** One turn of `merge_comparison_side_stats`. */
  method AddSide(m: Comparisons, side: SideName, id: Id, source: Objects)
    returns (r: Comparisons, ghost made: set<object>)
    requires Unshared(m) && id in source && Held(m) !! Owned(source)
    modifies Held(m)
    ensures Unshared(r) && fresh(made) && Held(r) <= Held(m) + made && Held(r) !! Owned(source)
    ensures Values(source) == old(Values(source))
    ensures PairValues(r) == MergedAt(old(PairValues(m)), side, id, old(source[id].Value()))
  {
    hide MergeOnSide, Unshared, EventStats.Value, ComparisonStats.PairValue;
    assert source[id] in Owned(source);
    r, made := SetDefault(m, id);
    PartsHeld(r, id);
    KeysHeld(m);
    hide Held, Parts;
    UpdateSide(r, side, id, source[id]);
  }

  lemma PartsHeld(m: Comparisons, id: Id)
    requires id in m
    ensures Parts(m[id]) <= Held(m)
  {
  }

  /** The entries of `s` for the identities in `done`. */
  function Only(s: Table, done: set<Id>): Table {
    map id | id in s && id in done :: s[id]
  }

  lemma OnlyAll(s: Table, done: set<Id>)
    requires s.Keys <= done
    ensures Only(s, done) == s
  {
  }

  lemma OneMoreOnSide(t: Pairs, side: SideName, s: Table, done: set<Id>, id: Id)
    requires id in s && id !in done
    ensures MergeSide(t, side, Only(s, done + {id})) == MergedAt(MergeSide(t, side, Only(s, done)), side, id, s[id])
  {
    hide MergeOnSide;
  }

  /** `merge_comparison_side_stats`: every entry of one side is merged into its identity's object. */
  method MergeComparisonSideStats(m: Comparisons, side: SideName, source: Objects)
    returns (r: Comparisons, ghost made: set<object>)
    requires Unshared(m) && Held(m) !! Owned(source)
    modifies Held(m)
    ensures Unshared(r) && fresh(made) && Held(r) <= Held(m) + made
    ensures PairValues(r) == MergeSide(old(PairValues(m)), side, old(Values(source)))
  {
    ghost var ours, theirs := PairValues(m), Values(source);
    r := m;
    var todo := source.Keys;
    ghost var done: set<Id> := {};
    made := {};
    NoneOnSide(ours, side, theirs);
    hide *;
    while todo != {}
      invariant todo !! done && todo + done == source.Keys
      invariant Unshared(r) && Held(r) !! Owned(source)
      invariant fresh(made) && Held(r) <= Held(m) + made
      invariant Values(source) == theirs
      invariant PairValues(r) == MergeSide(ours, side, Only(theirs, done))
      decreases |todo|
    {
      var id :| id in todo;
      ghost var more: set<object>;
      r, more := NextSide(r, side, id, source, ours, theirs, done);
      made := made + more;
      todo, done := todo - {id}, done + {id};
    }
    ObjectsHeld(source);
    OnlyAll(theirs, done);
  }

  /** One turn of the loop for an identity not in `done`. */
  method NextSide(m: Comparisons, side: SideName, id: Id, source: Objects, ghost ours: Pairs, ghost theirs: Table,
                  ghost done: set<Id>)
    returns (r: Comparisons, ghost made: set<object>)
    requires Unshared(m) && id in source && id !in done && Held(m) !! Owned(source)
    requires Values(source) == theirs && PairValues(m) == MergeSide(ours, side, Only(theirs, done))
    modifies Held(m)
    ensures Unshared(r) && fresh(made) && Held(r) <= Held(m) + made && Held(r) !! Owned(source)
    ensures Values(source) == theirs && PairValues(r) == MergeSide(ours, side, Only(theirs, done + {id}))
  {
    hide *;
    ObjectsHeld(source);
    OneMoreOnSide(ours, side, theirs, done, id);
    r, made := AddSide(m, side, id, source);
  }

  lemma NoneOnSide(t: Pairs, side: SideName, s: Table)
    ensures MergeSide(t, side, Only(s, {})) == t
  {
  }

  lemma KeysHeld(m: Comparisons)
    ensures PairValues(m).Keys == m.Keys
  {
  }

  lemma ObjectsHeld(m: Objects)
    ensures Values(m).Keys == m.Keys && forall id | id in m :: m[id] in Owned(m) && Values(m)[id] == m[id].Value()
  {
  }

  // One dictionary into another.

  /** Merges one object into the object of its identity. */
  method MergeAt(m: Comparisons, id: Id, from: ComparisonStats)
    requires Unshared(m) && id in m && Parts(m[id]) !! Parts(from)
    modifies Parts(m[id])
    ensures PairValues(m) == old(PairValues(m))[id := MergePair(old(PairValues(m))[id], old(from.PairValue()))]
  {
    ghost var before := PairValues(m);
    OthersKept(m, id);
    assert m[id].baseline != m[id].current;
    hide MergePair, Unshared, Held, EventStats.Value, ComparisonStats.PairValue;
    m[id].MergeFrom(from);
    forall k | k in m && k != id ensures m[k].PairValue() == before[k] {}
  }

  lemma ValueHeld(m: Comparisons, id: Id)
    requires id in m
    ensures id in PairValues(m) && PairValues(m)[id] == m[id].PairValue()
  {
  }

  /** The body of the loop for an identity that both dictionaries know. */
  method UpdatePair(target: Comparisons, source: Comparisons, id: Id)
    requires Unshared(target) && Held(target) !! Held(source) && id in target && id in source
    modifies Held(target)
    ensures PairValues(target) == old(PairValues(target))[id :=
              MergePair(old(PairValues(target))[id], old(PairValues(source))[id])]
    ensures PairValues(source) == old(PairValues(source))
  {
    assert forall o | o in Held(source) :: allocated(o);
    hide *;
    PartsHeld(target, id);
    PartsHeld(source, id);
    ValueHeld(source, id);
    MergeAt(target, id, source[id]);
  }

  /** `merge_comparison_maps`: absent identities adopt the source's object, present ones merge both sides in place. */
  method MergeComparisonMaps(target: Comparisons, source: Comparisons) returns (r: Comparisons)
    requires Unshared(target) && Unshared(source) && Held(target) !! Held(source)
    modifies Held(target)
    ensures Unshared(r) && Held(r) <= Held(target) + Held(source)
    ensures PairValues(r) == MergeMaps(old(PairValues(target)), old(PairValues(source)), MergePair)
  {
    ghost var ours, theirs := PairValues(target), PairValues(source);
    r := target;
    var todo := source.Keys;
    ghost var done: set<Id> := {};
    hide *;
    KeysHeld(target);
    KeysHeld(source);
    NothingDone(target, source, ours, theirs, MergePair);
    while todo != {}
      invariant todo !! done && todo + done == source.Keys
      invariant r == Adopted(target, source, done)
      invariant PairValues(target) == Combined(ours, theirs, done, MergePair) && PairValues(source) == theirs
      decreases |todo|
    {
      var id :| id in todo;
      AdoptedNext(target, source, done, id);
      CombinedNext(ours, theirs, done, id, MergePair);
      if id !in r {
        r := r[id := source[id]];
      } else {
        UpdatePair(target, source, id);
      }
      todo, done := todo - {id}, done + {id};
    }
    AllDone(ours, theirs, done, MergePair);
    PairsOfAdopted(target, source, done);
    AdoptedUnshared(target, source);
  }

  lemma PairsOfAdopted(target: Comparisons, source: Comparisons, done: set<Id>)
    ensures PairValues(Adopted(target, source, done)) == Adopted(PairValues(target), PairValues(source), done)
  {
  }

  lemma AdoptedUnshared(target: Comparisons, source: Comparisons)
    requires Unshared(target) && Unshared(source) && Held(target) !! Held(source)
    ensures var r := Adopted(target, source, source.Keys);
            Unshared(r) && Held(r) <= Held(target) + Held(source)
  {
    var r := Adopted(target, source, source.Keys);
    forall i, j | i in target && j in source ensures Parts(target[i]) !! Parts(source[j]) {
      PartsHeld(target, i);
      PartsHeld(source, j);
    }
    forall i | i in r ensures Parts(r[i]) <= Held(target) + Held(source) {
      if i in target { PartsHeld(target, i); } else { PartsHeld(source, i); }
    }
    hide Parts;
  }
}
