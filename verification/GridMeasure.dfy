/** Busy time and fair shares belong to the tasks, not to the grid they are added up on. */
module GridMeasure {
  import opened Sorting
  import opened WeightedTime

  /** Every task starts and ends on a point of the grid. */
  ghost predicate HoldsEnds(entries: seq<Target>, g: seq<real>) {
    forall x | x in entries :: x.start in g && x.end in g
  }

  ghost predicate NoEndInside(entries: seq<Target>, a: real, b: real) {
    forall x | x in entries :: !(a < x.start < b) && !(a < x.end < b)
  }

  ghost predicate Outside(entries: seq<Target>, a: real, b: real) {
    (forall x | x in entries :: b <= x.start && b <= x.end) || (forall x | x in entries :: x.start <= a && x.end <= a)
  }

  /** `f` adds up within cells no task starts or ends in, and is zero before and after all tasks. */
  ghost predicate Additive(entries: seq<Target>, f: (real, real) -> real) {
    && (forall a, t, b | a <= t <= b && NoEndInside(entries, a, b) :: f(a, t) + f(t, b) == f(a, b))
    && (forall a, b | a <= b && Outside(entries, a, b) :: f(a, b) == 0.0)
  }

  ghost function BusyOf(entries: seq<Target>): (real, real) -> real {
    (a: real, b: real) => CellBusy(entries, a, b)
  }

  ghost function ShareOf(entries: seq<Target>, x: Target): (real, real) -> real {
    (a: real, b: real) => CellShare(entries, a, b, x)
  }

  lemma CellsAreAdditive(entries: seq<Target>, x: Target)
    ensures Additive(entries, BusyOf(entries)) && Additive(entries, ShareOf(entries, x))
  {
    forall a, t, b | a <= t <= b && NoEndInside(entries, a, b)
      ensures CellBusy(entries, a, t) + CellBusy(entries, t, b) == CellBusy(entries, a, b)
      ensures CellShare(entries, a, t, x) + CellShare(entries, t, b, x) == CellShare(entries, a, b, x)
    {
      if a < t < b {
        assert Cover(entries, a, t) == Cover(entries, a, b) == Cover(entries, t, b);
        var n := |Cover(entries, a, b)|;
        if x in Cover(entries, a, b) { Divided(t - a, b - t, n as real); }
      }
    }
    forall a, b | a <= b && Outside(entries, a, b)
      ensures CellBusy(entries, a, b) == 0.0 == CellShare(entries, a, b, x)
    {
      if a < b { assert Cover(entries, a, b) == {}; }
    }
  }

  lemma Divided(p: real, q: real, n: real)
    requires n > 0.0
    ensures p / n + q / n == (p + q) / n
  {
    var a, b := p / n, q / n;
    assert a * n == p && b * n == q;
    assert (a + b) * n == p + q;
  }

  /** What `f` adds up to over the cells of the grid. */
  ghost function Over(f: (real, real) -> real, g: seq<real>): real {
    if |g| <= 1 then 0.0 else f(g[0], g[1]) + Over(f, g[1..])
  }

  lemma {:induction false} OverSnoc(f: (real, real) -> real, g: seq<real>, t: real)
    requires g != []
    ensures Over(f, g + [t]) == Over(f, g) + f(g[|g| - 1], t)
  {
    assert (g + [t])[1..] == g[1..] + [t];
    if |g| > 1 { OverSnoc(f, g[1..], t); }
  }

  lemma {:induction false} FiguresAreOver(entries: seq<Target>, g: seq<real>, x: Target, n: nat)
    requires n <= |g|
    ensures BusyTime(entries, g, n) == Over(BusyOf(entries), g[..n])
    ensures FairShare(entries, g, x, n) == Over(ShareOf(entries, x), g[..n])
  {
    if n > 1 {
      FiguresAreOver(entries, g, x, n - 1);
      assert g[..n] == g[..n - 1] + [g[n - 1]];
      OverSnoc(BusyOf(entries), g[..n - 1], g[n - 1]);
      OverSnoc(ShareOf(entries, x), g[..n - 1], g[n - 1]);
    }
  }

  function RealLeq(): (real, real) -> bool { (a: real, b: real) => a <= b }

  ghost predicate Increasing(g: seq<real>) { SortedBy(g, RealLeq()) }

  /** All task ends are on the grid or not after its first point. */
  ghost predicate HoldsLaterEnds(entries: seq<Target>, g: seq<real>) {
    g != [] && forall x | x in entries :: (x.start in g || x.start <= g[0]) && (x.end in g || x.end <= g[0])
  }

  lemma FirstCell(entries: seq<Target>, f: (real, real) -> real, g: seq<real>, t: real)
    requires Additive(entries, f) && Increasing(g) && HoldsLaterEnds(entries, g) && g[0] < t
    ensures |g| == 1 ==> f(g[0], t) == 0.0
    ensures |g| > 1 && t <= g[1] ==> f(g[0], t) + f(t, g[1]) == f(g[0], g[1])
    ensures |g| > 1 ==> HoldsLaterEnds(entries, g[1..]) && Increasing(g[1..])
  {
  }

  lemma OverCons(f: (real, real) -> real, a: real, g: seq<real>)
    requires g != []
    ensures Over(f, [a] + g) == f(a, g[0]) + Over(f, g)
  {
  }

  /** A further point changes nothing, wherever it falls after the first. */
  lemma {:induction false} InsertLater(entries: seq<Target>, f: (real, real) -> real, g: seq<real>, t: real)
    requires Additive(entries, f) && Increasing(g) && HoldsLaterEnds(entries, g) && g[0] < t
    ensures Over(f, Insert(t, g, RealLeq())) == Over(f, g)
  {
    var rest := g[1..];
    FirstCell(entries, f, g, t);
    hide *;
    if rest != [] && rest[0] < t {
      InsertLater(entries, f, rest, t);
    } else if rest != [] {
      OverCons(f, t, rest);
    }
    OverCons(f, g[0], Insert(t, rest, RealLeq()));
    if rest == [] { OverOne(f, g, t); } else { OverCons(f, g[0], rest); }
  }

  lemma OverOne(f: (real, real) -> real, g: seq<real>, t: real)
    requires |g| == 1
    ensures Over(f, g) == 0.0 == Over(f, [t])
  {
  }

  lemma InsertPoint(entries: seq<Target>, f: (real, real) -> real, g: seq<real>, t: real)
    requires Additive(entries, f) && Increasing(g) && HoldsEnds(entries, g) && g != []
    ensures Over(f, Insert(t, g, RealLeq())) == Over(f, g)
    ensures Increasing(Insert(t, g, RealLeq())) && HoldsEnds(entries, Insert(t, g, RealLeq()))
  {
    var finer := Insert(t, g, RealLeq());
    InsertSorted(t, g, RealLeq());
    forall y | y in g ensures y in finer {
      assert y in multiset(finer);
    }
    if t <= g[0] {
      assert forall y | y in g :: t <= g[0] <= y;
      assert Outside(entries, t, g[0]) && f(t, g[0]) == 0.0;
      OverCons(f, t, g);
    } else {
      InsertLater(entries, f, g, t);
    }
  }

  function Mingle(g: seq<real>, h: seq<real>): (r: seq<real>)
    ensures multiset(r) == multiset(g) + multiset(h)
  {
    if h == [] then g
    else
      assert h == [h[0]] + h[1..];
      Insert(h[0], Mingle(g, h[1..]), RealLeq())
  }

  lemma {:induction false} MingleKeeps(entries: seq<Target>, f: (real, real) -> real, g: seq<real>, h: seq<real>)
    requires Additive(entries, f) && Increasing(g) && HoldsEnds(entries, g) && g != []
    ensures Over(f, Mingle(g, h)) == Over(f, g)
    ensures Increasing(Mingle(g, h)) && HoldsEnds(entries, Mingle(g, h)) && Mingle(g, h) != []
  {
    if h != [] {
      MingleKeeps(entries, f, g, h[1..]);
      InsertPoint(entries, f, Mingle(g, h[1..]), h[0]);
    }
  }

  /** Any two grids that hold all task ends agree on the busy time and on every task's fair share. */
  lemma GridsAgree(entries: seq<Target>, g: seq<real>, h: seq<real>, x: Target)
    requires entries != [] && Increasing(g) && Increasing(h) && HoldsEnds(entries, g) && HoldsEnds(entries, h)
    ensures BusyTime(entries, g, |g|) == BusyTime(entries, h, |h|)
    ensures FairShare(entries, g, x, |g|) == FairShare(entries, h, x, |h|)
  {
    assert entries[0].start in g && entries[0].start in h;
    CellsAreAdditive(entries, x);
    OversAgree(entries, BusyOf(entries), g, h);
    OversAgree(entries, ShareOf(entries, x), g, h);
    hide *;
    FiguresAreOver(entries, g, x, |g|);
    FiguresAreOver(entries, h, x, |h|);
    assert g[..|g|] == g && h[..|h|] == h;
  }

  lemma OversAgree(entries: seq<Target>, f: (real, real) -> real, g: seq<real>, h: seq<real>)
    requires g != [] && h != [] && Increasing(g) && Increasing(h) && HoldsEnds(entries, g) && HoldsEnds(entries, h)
    requires Additive(entries, f)
    ensures Over(f, g) == Over(f, h)
  {
    MingleKeeps(entries, f, g, h);
    MingleKeeps(entries, f, h, g);
    hide HoldsEnds, Additive, Over;
    SortedUnique(Mingle(g, h), Mingle(h, g), RealLeq());
  }

  /** The grid of the sweep is one of them. */
  lemma SweepGridHoldsEnds(entries: seq<Target>)
    requires Distinct(entries)
    ensures HoldsEnds(entries, Grid(entries)) && Increasing(Grid(entries))
  {
    TimelineIsTimeline(entries);
    GridAscends(entries);
    var evs := Timeline(entries);
    forall x | x in entries ensures x.start in Grid(entries) && x.end in Grid(entries) {
      var p, q := Positions(entries, evs, x);
      assert Grid(entries)[p] == x.start && Grid(entries)[q] == x.end;
    }
  }
}
