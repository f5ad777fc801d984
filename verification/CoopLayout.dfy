/** Ownership layouts of a cooperative tile and the exchanges between them. */
module CoopLayout {
  import opened Division

  datatype Layout = Blocked | Striped | WarpStriped

  /** `warps` warps of `lanes` threads each, `items` values per thread. */
  datatype Shape = Shape(warps: nat, lanes: nat, items: nat) {
    predicate Valid() { warps > 0 && lanes > 0 && items > 0 }
    function Threads(): nat { warps * lanes }
    function WarpSize(): nat { lanes * items }
    function Count(): nat { Threads() * items }
  }

  /** The thread and slot that own `value`; `ownership` in the load explorer is the same function. */
  function Owner(sh: Shape, layout: Layout, value: nat): (nat, nat)
    requires sh.Valid()
  {
    match layout
    case Blocked => (value / sh.items, value % sh.items)
    case Striped => Positive(sh); (value % sh.Threads(), value / sh.Threads())
    case WarpStriped => Positive(sh); WarpStripedOwner(sh.WarpSize(), sh.lanes, value)
  }

  function WarpStripedOwner(warpSize: nat, lanes: nat, value: nat): (nat, nat)
    requires warpSize > 0 && lanes > 0
  {
    (Index(value / warpSize, lanes, value % lanes), (value % warpSize) / lanes)
  }

  function Index(row: nat, width: nat, column: nat): nat {
    row * width + column
  }

  function RegisterIndex(sh: Shape, layout: Layout, value: nat): nat
    requires sh.Valid()
  {
    var (thread, slot) := Owner(sh, layout, value);
    thread * sh.items + slot
  }

  /** The value a thread holds in a slot, read off the description of each layout. */
  function ValueAt(sh: Shape, layout: Layout, thread: nat, slot: nat): nat
    requires sh.Valid()
  {
    match layout
    case Blocked => thread * sh.items + slot
    case Striped => slot * sh.Threads() + thread
    case WarpStriped => WarpStripedValue(sh.WarpSize(), sh.lanes, thread, slot)
  }

  function WarpStripedValue(warpSize: nat, lanes: nat, thread: nat, slot: nat): nat
    requires lanes > 0
  {
    Index(thread / lanes, warpSize, Index(slot, lanes, thread % lanes))
  }

  // Division facts.

  lemma Positive(sh: Shape)
    requires sh.Valid()
    ensures sh.Threads() > 0 && sh.WarpSize() > 0
    ensures sh.Count() == sh.warps * sh.WarpSize()
  {
  }

  lemma MulLess(q: nat, n: nat, b: nat, r: nat)
    requires q < n && r < b
    ensures q * b + r < n * b
  {
    MulMono(q + 1, n, b);
  }

  lemma DivLess(a: nat, n: nat, b: nat)
    requires b > 0 && a < n * b
    ensures a / b < n
  {
  }

  lemma DivTwice(v: nat, a: nat, b: nat)
    requires a > 0 && b > 0
    ensures a * b > 0 && v / a / b == v / (a * b)
  {
    var thread, slot := v / a, v % a;
    var q, lane := thread / b, thread % b;
    Split(v, a);
    Split(thread, b);
    MulLess(lane, b, a, slot);
    Regroup(q, b, lane, a);
    DivMod(v, a * b, q, lane * a + slot);
  }

  lemma Split(v: nat, a: nat)
    requires a > 0
    ensures v == v / a * a + v % a && v % a < a
  {
  }

  lemma Regroup(q: nat, b: nat, lane: nat, a: nat)
    ensures (q * b + lane) * a == q * (a * b) + lane * a
  {
  }

  /** The parts of a value in a warp-striped tile: warp, slot and lane. */
  lemma WarpParts(sh: Shape, w: nat, slot: nat, lane: nat)
    requires sh.Valid() && slot < sh.items && lane < sh.lanes
    ensures var v := w * sh.WarpSize() + slot * sh.lanes + lane;
            && sh.WarpSize() > 0
            && v / sh.WarpSize() == w && v % sh.WarpSize() == slot * sh.lanes + lane
            && v % sh.lanes == lane && (v % sh.WarpSize()) / sh.lanes == slot
  {
    Positive(sh);
    var u := slot * sh.lanes + lane;
    MulLess(slot, sh.items, sh.lanes, lane);
    assert sh.items * sh.lanes == sh.WarpSize();
    DivMod(w * sh.WarpSize() + u, sh.WarpSize(), w, u);
    DivMod(u, sh.lanes, slot, lane);
    assert w * sh.WarpSize() == (w * sh.items) * sh.lanes;
    assert w * sh.WarpSize() + u == (w * sh.items + slot) * sh.lanes + lane;
    DivMod(w * sh.WarpSize() + u, sh.lanes, w * sh.items + slot, lane);
  }

  /** Every value is a warp, a slot and a lane. */
  lemma SplitValue(sh: Shape, v: nat) returns (w: nat, slot: nat, lane: nat)
    requires sh.Valid()
    ensures slot < sh.items && lane < sh.lanes && v == w * sh.WarpSize() + slot * sh.lanes + lane
  {
    Positive(sh);
    w := v / sh.WarpSize();
    var u := v % sh.WarpSize();
    slot, lane := u / sh.lanes, u % sh.lanes;
    DivLess(u, sh.items, sh.lanes);
  }

  // The layouts are bijections.

  /** The owner of a tile value is a thread and slot of the tile, and holds that value. */
  lemma OwnerHoldsValue(sh: Shape, layout: Layout, v: nat)
    requires sh.Valid() && v < sh.Count()
    ensures var (thread, slot) := Owner(sh, layout, v);
            thread < sh.Threads() && slot < sh.items && ValueAt(sh, layout, thread, slot) == v
  {
    match layout
    case Blocked => BlockedHolds(sh, v);
    case Striped => StripedHolds(sh, v);
    case WarpStriped => WarpStripedHolds(sh, v);
  }

  lemma BlockedHolds(sh: Shape, v: nat)
    requires sh.Valid() && v < sh.Count()
    ensures var (thread, slot) := Owner(sh, Blocked, v);
            thread < sh.Threads() && slot < sh.items && ValueAt(sh, Blocked, thread, slot) == v
  {
    DivLess(v, sh.Threads(), sh.items);
    Split(v, sh.items);
  }

  lemma StripedHolds(sh: Shape, v: nat)
    requires sh.Valid() && v < sh.Count()
    ensures var (thread, slot) := Owner(sh, Striped, v);
            thread < sh.Threads() && slot < sh.items && ValueAt(sh, Striped, thread, slot) == v
  {
    Positive(sh);
    assert sh.items * sh.Threads() == sh.Count();
    hide Shape.Threads, Shape.Count;
    DivLess(v, sh.items, sh.Threads());
    Split(v, sh.Threads());
  }

  lemma WarpStripedHolds(sh: Shape, v: nat)
    requires sh.Valid() && v < sh.Count()
    ensures var (thread, slot) := Owner(sh, WarpStriped, v);
            thread < sh.Threads() && slot < sh.items && ValueAt(sh, WarpStriped, thread, slot) == v
  {
    Positive(sh);
    var w, slot, lane := SplitValue(sh, v);
    WarpParts(sh, w, slot, lane);
    DivLess(v, sh.warps, sh.WarpSize());
    MulLess(w, sh.warps, sh.lanes, lane);
    DivMod(w * sh.lanes + lane, sh.lanes, w, lane);
    assert Owner(sh, WarpStriped, v) == (w * sh.lanes + lane, slot);
    hide Shape.WarpSize, Shape.Count, Owner;
  }

  /** Every thread and slot of the tile holds a tile value, and owns it. */
  lemma ValueHasOwner(sh: Shape, layout: Layout, thread: nat, slot: nat)
    requires sh.Valid() && thread < sh.Threads() && slot < sh.items
    ensures var v := ValueAt(sh, layout, thread, slot);
            v < sh.Count() && Owner(sh, layout, v) == (thread, slot)
  {
    match layout
    case Blocked =>
      MulLess(thread, sh.Threads(), sh.items, slot);
      DivMod(thread * sh.items + slot, sh.items, thread, slot);
    case Striped =>
      Positive(sh);
      MulLess(slot, sh.items, sh.Threads(), thread);
      assert sh.items * sh.Threads() == sh.Count();
      hide Shape.Threads, Shape.Count;
      DivMod(slot * sh.Threads() + thread, sh.Threads(), slot, thread);
    case WarpStriped =>
      WarpStripedHasOwner(sh, thread, slot);
  }

  lemma WarpStripedHasOwner(sh: Shape, thread: nat, slot: nat)
    requires sh.Valid() && thread < sh.Threads() && slot < sh.items
    ensures var v := ValueAt(sh, WarpStriped, thread, slot);
            v < sh.Count() && Owner(sh, WarpStriped, v) == (thread, slot)
  {
    var w, lane := ThreadParts(sh, thread);
    WarpStripedForms(sh, w, slot, lane);
    hide *;
  }

  /** A thread's warp and lane. */
  lemma ThreadParts(sh: Shape, thread: nat) returns (w: nat, lane: nat)
    requires sh.Valid() && thread < sh.Threads()
    ensures w < sh.warps && lane < sh.lanes && thread == Index(w, sh.lanes, lane)
  {
    w, lane := thread / sh.lanes, thread % sh.lanes;
    DivLess(thread, sh.warps, sh.lanes);
    Split(thread, sh.lanes);
  }

  /** The warp-striped value and its owner by warp, slot and lane. */
  lemma WarpStripedForms(sh: Shape, w: nat, slot: nat, lane: nat)
    requires sh.Valid() && w < sh.warps && slot < sh.items && lane < sh.lanes
    ensures var thread := Index(w, sh.lanes, lane);
            var v := ValueAt(sh, WarpStriped, thread, slot);
            v < sh.Count() && Owner(sh, WarpStriped, v) == (thread, slot)
  {
    var v := w * sh.WarpSize() + slot * sh.lanes + lane;
    DivMod(w * sh.lanes + lane, sh.lanes, w, lane);
    WarpParts(sh, w, slot, lane);
    TileBound(sh, w, slot, lane);
    hide Shape.WarpSize, Shape.Count;
    assert Index(w, sh.WarpSize(), Index(slot, sh.lanes, lane)) == v;
    assert ValueAt(sh, WarpStriped, Index(w, sh.lanes, lane), slot) == v;
  }

  lemma TileBound(sh: Shape, w: nat, slot: nat, lane: nat)
    requires sh.Valid() && w < sh.warps && slot < sh.items && lane < sh.lanes
    ensures w * sh.WarpSize() + slot * sh.lanes + lane < sh.Count()
  {
    Positive(sh);
    MulLess(slot, sh.items, sh.lanes, lane);
    assert sh.items * sh.lanes == sh.WarpSize();
    MulLess(w, sh.warps, sh.WarpSize(), slot * sh.lanes + lane);
  }

  /**
   * What the layouts are: a thread's items follow each other in the blocked one; in the striped one those of
   * neighbouring threads do, and in the warp-striped one those of neighbouring threads of a warp. The next run
   * of values begins where the last one ends.
   */
  ghost predicate Follows(sh: Shape, layout: Layout, thread: nat, slot: nat, next: nat, nextSlot: nat)
    requires sh.Valid()
  {
    var lastItem, lastThread := slot + 1 == sh.items, thread + 1 == sh.Threads();
    var lastLane := (thread + 1) % sh.lanes == 0;
    match layout
    case Blocked =>
      if lastItem then next == thread + 1 && nextSlot == 0 else next == thread && nextSlot == slot + 1
    case Striped =>
      if lastThread then next == 0 && nextSlot == slot + 1 else next == thread + 1 && nextSlot == slot
    case WarpStriped =>
      if !lastLane then next == thread + 1 && nextSlot == slot
      else if lastItem then next == thread + 1 && nextSlot == 0
      else next == thread / sh.lanes * sh.lanes && nextSlot == slot + 1
  }

  lemma ValuesFollow(sh: Shape, layout: Layout, thread: nat, slot: nat, next: nat, nextSlot: nat)
    requires sh.Valid() && thread < sh.Threads() && slot < sh.items && Follows(sh, layout, thread, slot, next, nextSlot)
    ensures ValueAt(sh, layout, 0, 0) == 0
    ensures ValueAt(sh, layout, next, nextSlot) == ValueAt(sh, layout, thread, slot) + 1
  {
    ZeroHeldFirst(sh, layout);
    match layout
    case Blocked => ItemsFollow(sh, thread, slot, next, nextSlot);
    case Striped => ThreadsFollow(sh, thread, slot, next, nextSlot);
    case WarpStriped => StripesFollow(sh, thread, slot, next, nextSlot);
  }

  lemma ItemsFollow(sh: Shape, thread: nat, slot: nat, next: nat, nextSlot: nat)
    requires sh.Valid() && Follows(sh, Blocked, thread, slot, next, nextSlot)
    ensures ValueAt(sh, Blocked, next, nextSlot) == ValueAt(sh, Blocked, thread, slot) + 1
  {
    NextRow(thread, sh.items);
    hide Shape.WarpSize, Shape.Threads, Shape.Count;
  }

  lemma ThreadsFollow(sh: Shape, thread: nat, slot: nat, next: nat, nextSlot: nat)
    requires sh.Valid() && Follows(sh, Striped, thread, slot, next, nextSlot)
    ensures ValueAt(sh, Striped, next, nextSlot) == ValueAt(sh, Striped, thread, slot) + 1
  {
    NextRow(slot, sh.Threads());
    hide Shape.WarpSize, Shape.Threads, Shape.Count;
  }

  lemma NextRow(row: nat, width: nat)
    ensures (row + 1) * width == row * width + width
  {
  }

  lemma ZeroHeldFirst(sh: Shape, layout: Layout)
    requires sh.Valid()
    ensures ValueAt(sh, layout, 0, 0) == 0
  {
  }

  lemma NextLane(thread: nat, lanes: nat)
    requires lanes > 0
    ensures var w, lane := thread / lanes, thread % lanes;
            && w * lanes / lanes == w && w * lanes % lanes == 0
            && if lane + 1 < lanes then (thread + 1) / lanes == w && (thread + 1) % lanes == lane + 1
               else (thread + 1) / lanes == w + 1 && (thread + 1) % lanes == 0
  {
    var w, lane := thread / lanes, thread % lanes;
    Split(thread, lanes);
    DivMod(w * lanes, lanes, w, 0);
    if lane + 1 < lanes {
      DivMod(thread + 1, lanes, w, lane + 1);
    } else {
      DivMod(thread + 1, lanes, w + 1, 0);
    }
  }

  lemma FollowsIs(sh: Shape, thread: nat, slot: nat, next: nat, nextSlot: nat)
    requires sh.Valid() && Follows(sh, WarpStriped, thread, slot, next, nextSlot)
    ensures if (thread + 1) % sh.lanes != 0 then next == thread + 1 && nextSlot == slot
            else if slot + 1 == sh.items then next == thread + 1 && nextSlot == 0
            else next == thread / sh.lanes * sh.lanes && nextSlot == slot + 1
  {
  }

  lemma StripesFollow(sh: Shape, thread: nat, slot: nat, next: nat, nextSlot: nat)
    requires sh.Valid() && slot < sh.items && Follows(sh, WarpStriped, thread, slot, next, nextSlot)
    ensures ValueAt(sh, WarpStriped, next, nextSlot) == ValueAt(sh, WarpStriped, thread, slot) + 1
  {
    var w, lane := thread / sh.lanes, thread % sh.lanes;
    NextLane(thread, sh.lanes);
    FollowsIs(sh, thread, slot, next, nextSlot);
    hide *;
    StripeValue(sh, thread, slot);
    StripeValue(sh, next, nextSlot);
    if lane + 1 == sh.lanes { EndOfStripe(sh, w, slot, lane); }
  }

  lemma StripeValue(sh: Shape, thread: nat, slot: nat)
    requires sh.Valid()
    ensures ValueAt(sh, WarpStriped, thread, slot) ==
            thread / sh.lanes * sh.WarpSize() + (slot * sh.lanes + thread % sh.lanes)
  {
  }

  lemma EndOfStripe(sh: Shape, w: nat, slot: nat, lane: nat)
    requires sh.Valid() && slot < sh.items && lane + 1 == sh.lanes
    ensures w * sh.WarpSize() + (slot * sh.lanes + lane) + 1 == w * sh.WarpSize() + (slot + 1) * sh.lanes
    ensures slot + 1 == sh.items ==> w * sh.WarpSize() + (slot + 1) * sh.lanes == (w + 1) * sh.WarpSize()
  {
  }

  function HeldAt(sh: Shape, layout: Layout, register: nat): nat
    requires sh.Valid()
  {
    ValueAt(sh, layout, register / sh.items, register % sh.items)
  }

  /** `register_index` numbers the registers of the tile: each value has one, and it holds that value. */
  lemma RegisterHoldsValue(sh: Shape, layout: Layout, v: nat)
    requires sh.Valid() && v < sh.Count()
    ensures RegisterIndex(sh, layout, v) < sh.Count() && HeldAt(sh, layout, RegisterIndex(sh, layout, v)) == v
  {
    hide Owner, ValueAt;
    OwnerHoldsValue(sh, layout, v);
    var (thread, slot) := Owner(sh, layout, v);
    MulLess(thread, sh.Threads(), sh.items, slot);
    DivMod(thread * sh.items + slot, sh.items, thread, slot);
  }

  lemma RegisterIsFilled(sh: Shape, layout: Layout, r: nat)
    requires sh.Valid() && r < sh.Count()
    ensures HeldAt(sh, layout, r) < sh.Count() && RegisterIndex(sh, layout, HeldAt(sh, layout, r)) == r
  {
    var thread, slot := r / sh.items, r % sh.items;
    DivLess(r, sh.Threads(), sh.items);
    Split(r, sh.items);
    hide Owner, ValueAt, Shape.Threads, Shape.Count;
    ValueHasOwner(sh, layout, thread, slot);
    hide HeldAt;
  }

  /** In the blocked and warp-striped layouts a value's thread belongs to the value's own warp. */
  lemma OwnerInWarp(sh: Shape, layout: Layout, v: nat)
    requires sh.Valid() && !layout.Striped?
    ensures sh.WarpSize() > 0 && Owner(sh, layout, v).0 / sh.lanes == v / sh.WarpSize()
  {
    Positive(sh);
    if layout.Blocked? {
      DivTwice(v, sh.items, sh.lanes);
      assert sh.items * sh.lanes == sh.WarpSize();
    } else {
      var w, slot, lane := SplitValue(sh, v);
      WarpParts(sh, w, slot, lane);
      DivMod(w * sh.lanes + lane, sh.lanes, w, lane);
    }
  }

  // The phases of a store.

  datatype Row = Input | Scratch | Writers | Memory

  datatype Exchange = NoExchange | WholeBlock | Timesliced

  datatype StoreOption = StoreOption(input: Layout, access: Layout, exchange: Exchange)

  /** Where each warp's values are in one phase. */
  type Phase = seq<Row>

  function Everywhere(sh: Shape, row: Row): Phase {
    seq(sh.warps, _ => row)
  }

  /** While warp `turn` exchanges, earlier warps have finished and later ones wait. */
  function Turn(sh: Shape, turn: nat): Phase {
    seq(sh.warps, w => if w < turn then Writers else if w == turn then Scratch else Input)
  }

  ghost predicate AllOn(phase: Phase, row: Row) {
    forall w | 0 <= w < |phase| :: phase[w] == row
  }

  /** No warp's values ever go back to a row they have left. */
  ghost predicate NeverBack(phases: seq<Phase>, warps: nat, rank: Row -> int) {
    forall i, j, w | 0 <= i < j < |phases| && 0 <= w < warps && w < |phases[i]| && w < |phases[j]| ::
      rank(phases[i][w]) <= rank(phases[j][w])
  }

  /** From phase `first` on, the warps are in scratch one after the other, all together, or not at all. */
  ghost predicate ScratchInTurn(phases: seq<Phase>, warps: nat, exchange: Exchange, first: nat) {
    forall i, w | 0 <= i < |phases| && 0 <= w < warps && w < |phases[i]| ::
      phases[i][w] == Scratch <==>
      match exchange
      case NoExchange => false
      case WholeBlock => i == first
      case Timesliced => i == first + w
  }

  ghost predicate PhasesFit(sh: Shape, option: StoreOption, phases: seq<Phase>) {
    && |phases| == 3 + (match option.exchange case NoExchange => 0 case WholeBlock => 1 case Timesliced => sh.warps)
    && forall i | 0 <= i < |phases| :: |phases[i]| == sh.warps
  }

  /** How far along a store a row is. */
  function StoreRank(): Row -> int {
    (row: Row) => match row case Input => 0 case Scratch => 1 case Writers => 2 case Memory => 3
  }

  /** From the input registers, in turn through scratch, to the writers and then to memory. */
  ghost predicate StoreMoves(sh: Shape, option: StoreOption, phases: seq<Phase>) {
    && PhasesFit(sh, option, phases)
    && NeverBack(phases, sh.warps, StoreRank()) && ScratchInTurn(phases, sh.warps, option.exchange, 1)
    && AllOn(phases[0], Input) && AllOn(phases[|phases| - 2], Writers) && AllOn(phases[|phases| - 1], Memory)
  }

  method BuildStore(sh: Shape, option: StoreOption) returns (phases: seq<Phase>)
    ensures |phases| == 3 + Exchanges(sh, option)
    ensures forall i | 0 <= i < |phases| :: phases[i] == PhaseAt(sh, option, i)
    ensures StoreMoves(sh, option, phases)
  {
    hide StoreMoves;
    phases := [Everywhere(sh, Input)];
    if option.exchange.Timesliced? {
      for turn: nat := 0 to sh.warps
        invariant |phases| == 1 + turn
        invariant forall i | 0 <= i < |phases| :: phases[i] == PhaseAt(sh, option, i)
      {
        phases := phases + [Turn(sh, turn)];
      }
    } else if option.exchange.WholeBlock? {
      phases := phases + [Everywhere(sh, Scratch)];
    }
    phases := phases + [Everywhere(sh, Writers), Everywhere(sh, Memory)];
    PhasesMove(sh, option, phases);
  }

  lemma StoreForward(sh: Shape, option: StoreOption, phases: seq<Phase>)
    requires |phases| == 3 + Exchanges(sh, option)
    requires forall i | 0 <= i < |phases| :: phases[i] == PhaseAt(sh, option, i)
    ensures NeverBack(phases, sh.warps, StoreRank())
  {
  }

  lemma StoreInTurn(sh: Shape, option: StoreOption, phases: seq<Phase>)
    requires |phases| == 3 + Exchanges(sh, option)
    requires forall i | 0 <= i < |phases| :: phases[i] == PhaseAt(sh, option, i)
    ensures ScratchInTurn(phases, sh.warps, option.exchange, 1)
  {
  }

  lemma PhasesMove(sh: Shape, option: StoreOption, phases: seq<Phase>)
    requires |phases| == 3 + Exchanges(sh, option)
    requires forall i | 0 <= i < |phases| :: phases[i] == PhaseAt(sh, option, i)
    ensures StoreMoves(sh, option, phases)
  {
    StoreForward(sh, option, phases);
    StoreInTurn(sh, option, phases);
    hide NeverBack, ScratchInTurn;
  }

  /** How many phases the exchange takes. */
  function Exchanges(sh: Shape, option: StoreOption): nat {
    match option.exchange
    case NoExchange => 0
    case WholeBlock => 1
    case Timesliced => sh.warps
  }

  ghost function PhaseAt(sh: Shape, option: StoreOption, i: nat): Phase {
    var exchanges := Exchanges(sh, option);
    if i == 0 then Everywhere(sh, Input)
    else if i <= exchanges then (if option.exchange.Timesliced? then Turn(sh, i - 1) else Everywhere(sh, Scratch))
    else if i == exchanges + 1 then Everywhere(sh, Writers)
    else Everywhere(sh, Memory)
  }

  function IndexIn(sh: Shape, option: StoreOption, row: Row, v: nat): nat
    requires sh.Valid()
  {
    Positive(sh);
    match row
    case Input => RegisterIndex(sh, option.input, v)
    case Writers => RegisterIndex(sh, option.access, v)
    case Scratch => if option.exchange.Timesliced? then v % sh.WarpSize() else v
    case Memory => v
  }

  /** `tokens_for`: the row and index at which a phase shows a value. */
  function Place(sh: Shape, option: StoreOption, phase: Phase, v: nat): (Row, nat)
    requires sh.Valid() && |phase| == sh.warps && v < sh.Count()
  {
    Positive(sh);
    DivLess(v, sh.warps, sh.WarpSize());
    var row := phase[v / sh.WarpSize()];
    (row, IndexIn(sh, option, row, v))
  }

  function Capacity(sh: Shape, option: StoreOption, row: Row): nat {
    if row.Scratch? && option.exchange.Timesliced? then sh.WarpSize() else sh.Count()
  }

  /** At most one warp at a time is in a scratch of one warp. */
  ghost predicate OneAtATime(sh: Shape, option: StoreOption, phase: Phase) {
    && |phase| == sh.warps
    && (option.exchange.Timesliced? ==>
          forall w, x | 0 <= w < x < |phase| :: phase[w] != Scratch || phase[x] != Scratch)
  }

  lemma PhasesTakeTurns(sh: Shape, option: StoreOption, i: nat)
    ensures OneAtATime(sh, option, PhaseAt(sh, option, i))
  {
  }

  lemma IndexFits(sh: Shape, option: StoreOption, row: Row, v: nat)
    requires sh.Valid() && v < sh.Count()
    ensures IndexIn(sh, option, row, v) < Capacity(sh, option, row)
  {
    Positive(sh);
    RegisterHoldsValue(sh, option.input, v);
    RegisterHoldsValue(sh, option.access, v);
    hide RegisterIndex, HeldAt;
  }

  /** Within one row an index names one value; in a one-warp scratch, one value of each warp. */
  lemma IndexIsInjective(sh: Shape, option: StoreOption, row: Row, v: nat, u: nat)
    requires sh.Valid() && v < sh.Count() && u < sh.Count()
    requires IndexIn(sh, option, row, v) == IndexIn(sh, option, row, u)
    ensures sh.WarpSize() > 0
    ensures (row.Scratch? && option.exchange.Timesliced? ==> v / sh.WarpSize() == u / sh.WarpSize()) ==> v == u
  {
    Positive(sh);
    match row
    case Input =>
      RegisterHoldsValue(sh, option.input, v);
      RegisterHoldsValue(sh, option.input, u);
      hide RegisterIndex, HeldAt;
    case Writers =>
      RegisterHoldsValue(sh, option.access, v);
      RegisterHoldsValue(sh, option.access, u);
      hide RegisterIndex, HeldAt;
    case Scratch => SameWarpSamePosition(sh, v, u);
    case Memory =>
  }

  lemma PlacesDiffer(sh: Shape, option: StoreOption, phase: Phase, v: nat, u: nat)
    requires sh.Valid() && v < sh.Count() && u < sh.Count() && |phase| == sh.warps && OneAtATime(sh, option, phase)
    ensures var here := Place(sh, option, phase, v);
            && here.1 < Capacity(sh, option, here.0)
            && (here == Place(sh, option, phase, u) ==> v == u)
  {
    hide *;
    PlaceIs(sh, option, phase, v);
    PlaceIs(sh, option, phase, u);
    var w := v / sh.WarpSize();
    IndexFits(sh, option, phase[w], v);
    if Place(sh, option, phase, v) == Place(sh, option, phase, u) {
      var x := u / sh.WarpSize();
      IndexIsInjective(sh, option, phase[w], v, u);
      TurnsAreExclusive(sh, option, phase, w, x);
    }
  }

  lemma PlaceIs(sh: Shape, option: StoreOption, phase: Phase, v: nat)
    requires sh.Valid() && v < sh.Count() && |phase| == sh.warps
    ensures sh.WarpSize() > 0 && v / sh.WarpSize() < |phase|
    ensures Place(sh, option, phase, v) == (phase[v / sh.WarpSize()], IndexIn(sh, option, phase[v / sh.WarpSize()], v))
  {
  }

  lemma TurnsAreExclusive(sh: Shape, option: StoreOption, phase: Phase, w: nat, x: nat)
    requires OneAtATime(sh, option, phase) && w < |phase| && x < |phase|
    ensures option.exchange.Timesliced? && phase[w] == Scratch == phase[x] ==> w == x
  {
  }

  /** No phase puts two values in one cell or a value outside its row, even with one warp of scratch. */
  lemma PhaseHasNoCollision(sh: Shape, option: StoreOption, i: nat, v: nat, u: nat)
    requires sh.Valid() && v < sh.Count() && u < sh.Count()
    ensures |PhaseAt(sh, option, i)| == sh.warps
    ensures var here := Place(sh, option, PhaseAt(sh, option, i), v);
            && here.1 < Capacity(sh, option, here.0)
            && (here == Place(sh, option, PhaseAt(sh, option, i), u) ==> v == u)
  {
    PhasesTakeTurns(sh, option, i);
    hide Place, PhaseAt;
    PlacesDiffer(sh, option, PhaseAt(sh, option, i), v, u);
  }

  // The phases of a load: the option's input layout is the one values are read in, its access layout the result.

  ghost function LoadPhaseAt(sh: Shape, option: StoreOption, i: nat): Phase {
    var exchanges := Exchanges(sh, option);
    if i == 0 then Everywhere(sh, Memory)
    else if i == 1 then Everywhere(sh, Input)
    else if i <= exchanges + 1 then
      (if option.exchange.Timesliced? then Turn(sh, i - 2) else Everywhere(sh, Scratch))
    else Everywhere(sh, Writers)
  }

  function LoadRank(): Row -> int {
    (row: Row) => match row case Memory => 0 case Input => 1 case Scratch => 2 case Writers => 3
  }

  /** From memory to the registers it is read into and, in turn through scratch, to the result. */
  ghost predicate LoadMoves(sh: Shape, option: StoreOption, phases: seq<Phase>) {
    && PhasesFit(sh, option, phases)
    && NeverBack(phases, sh.warps, LoadRank()) && ScratchInTurn(phases, sh.warps, option.exchange, 2)
    && AllOn(phases[0], Memory) && AllOn(phases[1], Input) && AllOn(phases[|phases| - 1], Writers)
  }

  /** `build_scene` of the load explorer. */
  method BuildScene(sh: Shape, option: StoreOption) returns (phases: seq<Phase>)
    ensures |phases| == 3 + Exchanges(sh, option)
    ensures forall i | 0 <= i < |phases| :: phases[i] == LoadPhaseAt(sh, option, i)
    ensures LoadMoves(sh, option, phases)
  {
    hide LoadMoves;
    phases := [Everywhere(sh, Memory), Everywhere(sh, Input)];
    if option.exchange.Timesliced? {
      for turn: nat := 0 to sh.warps
        invariant |phases| == 2 + turn
        invariant forall i | 0 <= i < |phases| :: phases[i] == LoadPhaseAt(sh, option, i)
      {
        phases := phases + [Turn(sh, turn)];
      }
    } else if option.exchange.WholeBlock? {
      phases := phases + [Everywhere(sh, Scratch)];
    }
    phases := phases + [Everywhere(sh, Writers)];
    LoadPhasesMove(sh, option, phases);
  }

  lemma LoadForward(sh: Shape, option: StoreOption, phases: seq<Phase>)
    requires |phases| == 3 + Exchanges(sh, option)
    requires forall i | 0 <= i < |phases| :: phases[i] == LoadPhaseAt(sh, option, i)
    ensures NeverBack(phases, sh.warps, LoadRank())
  {
  }

  lemma LoadInTurn(sh: Shape, option: StoreOption, phases: seq<Phase>)
    requires |phases| == 3 + Exchanges(sh, option)
    requires forall i | 0 <= i < |phases| :: phases[i] == LoadPhaseAt(sh, option, i)
    ensures ScratchInTurn(phases, sh.warps, option.exchange, 2)
  {
  }

  lemma LoadPhasesMove(sh: Shape, option: StoreOption, phases: seq<Phase>)
    requires |phases| == 3 + Exchanges(sh, option)
    requires forall i | 0 <= i < |phases| :: phases[i] == LoadPhaseAt(sh, option, i)
    ensures LoadMoves(sh, option, phases)
  {
    LoadForward(sh, option, phases);
    LoadInTurn(sh, option, phases);
    hide NeverBack, ScratchInTurn;
  }

  lemma LoadPhasesTakeTurns(sh: Shape, option: StoreOption, i: nat)
    ensures OneAtATime(sh, option, LoadPhaseAt(sh, option, i))
  {
  }

  /** No phase of a load puts two values in one cell or a value outside its row, even with one warp of scratch. */
  lemma LoadPhaseHasNoCollision(sh: Shape, option: StoreOption, i: nat, v: nat, u: nat)
    requires sh.Valid() && v < sh.Count() && u < sh.Count()
    ensures |LoadPhaseAt(sh, option, i)| == sh.warps
    ensures var here := Place(sh, option, LoadPhaseAt(sh, option, i), v);
            && here.1 < Capacity(sh, option, here.0)
            && (here == Place(sh, option, LoadPhaseAt(sh, option, i), u) ==> v == u)
  {
    LoadPhasesTakeTurns(sh, option, i);
    hide Place, LoadPhaseAt;
    PlacesDiffer(sh, option, LoadPhaseAt(sh, option, i), v, u);
  }

  lemma SameWarpSamePosition(sh: Shape, v: nat, u: nat)
    requires sh.WarpSize() > 0
    ensures v / sh.WarpSize() == u / sh.WarpSize() && v % sh.WarpSize() == u % sh.WarpSize() ==> v == u
  {
  }

  // The exchange itself.

  /** The values of the registers at their tile positions, as in memory or in a full-size scratch. */
  function InPositions<T>(sh: Shape, layout: Layout, regs: seq<T>): (cells: seq<T>)
    requires sh.Valid() && |regs| == sh.Count()
    ensures |cells| == sh.Count()
  {
    seq(sh.Count(), v requires 0 <= v < sh.Count() =>
      (RegisterHoldsValue(sh, layout, v); regs[RegisterIndex(sh, layout, v)]))
  }

  /** Each register takes the value at the position its layout assigns to it. */
  function FromPositions<T>(sh: Shape, layout: Layout, cells: seq<T>): (regs: seq<T>)
    requires sh.Valid() && |cells| == sh.Count()
    ensures |regs| == sh.Count()
  {
    seq(sh.Count(), r requires 0 <= r < sh.Count() => (RegisterIsFilled(sh, layout, r); cells[HeldAt(sh, layout, r)]))
  }

  /** All values pass through scratch at their tile positions. */
  function WholeExchange<T>(sh: Shape, from: Layout, to: Layout, regs: seq<T>): (r: seq<T>)
    requires sh.Valid() && |regs| == sh.Count()
    ensures |r| == sh.Count()
  {
    FromPositions(sh, to, InPositions(sh, from, regs))
  }

  lemma InWarp(sh: Shape, w: nat, p: nat)
    requires sh.Valid() && w < sh.warps && p < sh.WarpSize()
    ensures w * sh.WarpSize() + p < sh.Count()
    ensures (w * sh.WarpSize() + p) / sh.WarpSize() == w && (w * sh.WarpSize() + p) % sh.WarpSize() == p
  {
    Positive(sh);
    MulLess(w, sh.warps, sh.WarpSize(), p);
    DivMod(w * sh.WarpSize() + p, sh.WarpSize(), w, p);
  }

  /** Warp `w` writes its values over the one-warp scratch. */
  function FillScratch<T>(sh: Shape, from: Layout, regs: seq<T>, w: nat): (scratch: seq<T>)
    requires sh.Valid() && |regs| == sh.Count() && w < sh.warps
    ensures |scratch| == sh.WarpSize()
  {
    seq(sh.WarpSize(), p requires 0 <= p < sh.WarpSize() =>
      (InWarp(sh, w, p);
       RegisterHoldsValue(sh, from, w * sh.WarpSize() + p);
       regs[RegisterIndex(sh, from, w * sh.WarpSize() + p)]))
  }

  /** The threads of warp `w` read their new values back; other warps' registers are not touched. */
  function ReadScratch<T>(sh: Shape, to: Layout, regs: seq<T>, scratch: seq<T>, w: nat): (r: seq<T>)
    requires sh.Valid() && |regs| == sh.Count() && |scratch| == sh.WarpSize()
    ensures |r| == sh.Count()
  {
    Positive(sh);
    seq(sh.Count(), r requires 0 <= r < sh.Count() =>
      if r / sh.items / sh.lanes == w then scratch[HeldAt(sh, to, r) % sh.WarpSize()] else regs[r])
  }

  /** The registers after the first `n` warps took their turn with the shared scratch. */
  function Rounds<T>(sh: Shape, from: Layout, to: Layout, regs: seq<T>, n: nat): (r: seq<T>)
    requires sh.Valid() && |regs| == sh.Count() && n <= sh.warps
    ensures |r| == sh.Count()
  {
    if n == 0 then regs
    else
      var before := Rounds(sh, from, to, regs, n - 1);
      ReadScratch(sh, to, before, FillScratch(sh, from, before, n - 1), n - 1)
  }

  lemma RegisterWarp(sh: Shape, layout: Layout, v: nat)
    requires sh.Valid() && v < sh.Count() && !layout.Striped?
    ensures sh.WarpSize() > 0 && RegisterIndex(sh, layout, v) / sh.items / sh.lanes == v / sh.WarpSize()
  {
    hide Owner, ValueAt;
    OwnerHoldsValue(sh, layout, v);
    OwnerInWarp(sh, layout, v);
    var (thread, slot) := Owner(sh, layout, v);
    DivMod(thread * sh.items + slot, sh.items, thread, slot);
  }

  function WarpOf(sh: Shape, v: nat): nat
    requires sh.Valid()
  {
    Positive(sh);
    v / sh.WarpSize()
  }

  /** Where value `v` is after `n` turns. */
  function RegisterAfter(sh: Shape, from: Layout, to: Layout, n: nat, v: nat): nat
    requires sh.Valid()
  {
    RegisterIndex(sh, if WarpOf(sh, v) < n then to else from, v)
  }

  ghost predicate Carried<T>(sh: Shape, from: Layout, to: Layout, regs: seq<T>, now: seq<T>, n: nat, v: nat)
    requires sh.Valid()
  {
    && RegisterIndex(sh, from, v) < |regs|
    && RegisterAfter(sh, from, to, n, v) < |now|
    && now[RegisterAfter(sh, from, to, n, v)] == regs[RegisterIndex(sh, from, v)]
  }

  lemma NothingMoved<T>(sh: Shape, from: Layout, to: Layout, regs: seq<T>, v: nat)
    requires sh.Valid() && |regs| == sh.Count() && v < sh.Count()
    ensures Carried(sh, from, to, regs, regs, 0, v)
  {
    hide HeldAt;
    RegisterHoldsValue(sh, from, v);
    hide RegisterIndex;
  }

  lemma CarriedOn<T>(sh: Shape, from: Layout, to: Layout, regs: seq<T>, now: seq<T>, n: nat, v: nat)
    requires sh.Valid() && |regs| == |now| == sh.Count() && n < sh.warps && v < sh.Count()
    requires !from.Striped? && !to.Striped? && Carried(sh, from, to, regs, now, n, v)
    ensures Carried(sh, from, to, regs, ReadScratch(sh, to, now, FillScratch(sh, from, now, n), n), n + 1, v)
  {
    hide Owner, ValueAt, RegisterIndex, HeldAt, ReadScratch, FillScratch;
    Positive(sh);
    if WarpOf(sh, v) == n {
      Turned(sh, from, to, now, n, v);
    } else {
      ReadOther(sh, to, if WarpOf(sh, v) < n then to else from, now, FillScratch(sh, from, now, n), n, v);
    }
  }

  /** After `n` turns the first `n` warps hold their new layout and the others still their old one. */
  lemma {:induction false} RoundsSoFar<T>(sh: Shape, from: Layout, to: Layout, regs: seq<T>, n: nat, v: nat)
    requires sh.Valid() && |regs| == sh.Count() && n <= sh.warps && v < sh.Count()
    requires !from.Striped? && !to.Striped?
    ensures Carried(sh, from, to, regs, Rounds(sh, from, to, regs, n), n, v)
  {
    hide Carried, ReadScratch, FillScratch, Shape.Valid, Shape.Count;
    if n == 0 {
      NothingMoved(sh, from, to, regs, v);
    } else {
      RoundsSoFar(sh, from, to, regs, n - 1, v);
      CarriedOn(sh, from, to, regs, Rounds(sh, from, to, regs, n - 1), n - 1, v);
    }
  }

  lemma Turned<T>(sh: Shape, from: Layout, to: Layout, regs: seq<T>, w: nat, v: nat)
    requires sh.Valid() && |regs| == sh.Count() && w < sh.warps && v < sh.Count() && !to.Striped?
    requires sh.WarpSize() > 0 && v / sh.WarpSize() == w
    ensures RegisterIndex(sh, from, v) < sh.Count() && RegisterIndex(sh, to, v) < sh.Count()
    ensures ReadScratch(sh, to, regs, FillScratch(sh, from, regs, w), w)[RegisterIndex(sh, to, v)]
            == regs[RegisterIndex(sh, from, v)]
  {
    hide Owner, ValueAt, RegisterIndex, HeldAt, ReadScratch, FillScratch;
    FilledAt(sh, from, regs, w, v);
    ReadOwn(sh, to, regs, FillScratch(sh, from, regs, w), w, v);
  }

  lemma FilledAt<T>(sh: Shape, from: Layout, regs: seq<T>, w: nat, v: nat)
    requires sh.Valid() && |regs| == sh.Count() && w < sh.warps && v < sh.Count()
    requires sh.WarpSize() > 0 && v / sh.WarpSize() == w
    ensures RegisterIndex(sh, from, v) < sh.Count()
    ensures FillScratch(sh, from, regs, w)[v % sh.WarpSize()] == regs[RegisterIndex(sh, from, v)]
  {
    hide Owner, ValueAt, RegisterIndex, HeldAt;
    RegisterHoldsValue(sh, from, v);
    var p := v % sh.WarpSize();
    assert v == w * sh.WarpSize() + p;
  }

  lemma ReadOwn<T>(sh: Shape, to: Layout, regs: seq<T>, scratch: seq<T>, w: nat, v: nat)
    requires sh.Valid() && |regs| == sh.Count() && |scratch| == sh.WarpSize() && v < sh.Count() && !to.Striped?
    requires sh.WarpSize() > 0 && v / sh.WarpSize() == w
    ensures RegisterIndex(sh, to, v) < sh.Count()
    ensures ReadScratch(sh, to, regs, scratch, w)[RegisterIndex(sh, to, v)] == scratch[v % sh.WarpSize()]
  {
    hide Owner, ValueAt, RegisterIndex, HeldAt;
    RegisterHoldsValue(sh, to, v);
    RegisterWarp(sh, to, v);
  }

  lemma ReadOther<T>(sh: Shape, to: Layout, layout: Layout, regs: seq<T>, scratch: seq<T>, w: nat, v: nat)
    requires sh.Valid() && |regs| == sh.Count() && |scratch| == sh.WarpSize() && v < sh.Count() && !layout.Striped?
    requires sh.WarpSize() > 0 && v / sh.WarpSize() != w
    ensures RegisterIndex(sh, layout, v) < sh.Count()
    ensures ReadScratch(sh, to, regs, scratch, w)[RegisterIndex(sh, layout, v)] == regs[RegisterIndex(sh, layout, v)]
  {
    hide Owner, ValueAt, RegisterIndex, HeldAt;
    RegisterHoldsValue(sh, layout, v);
    RegisterWarp(sh, layout, v);
  }

  /**
   * Taking turns with one warp of scratch leaves the same writer registers as exchanging through a
   * full-size scratch, between any two layouts that keep values inside their warp.
   */
  lemma TimeslicedIsWhole<T>(sh: Shape, from: Layout, to: Layout, regs: seq<T>)
    requires sh.Valid() && |regs| == sh.Count() && !from.Striped? && !to.Striped?
    ensures Rounds(sh, from, to, regs, sh.warps) == WholeExchange(sh, from, to, regs)
  {
    Positive(sh);
    var a, b := Rounds(sh, from, to, regs, sh.warps), WholeExchange(sh, from, to, regs);
    forall r: nat | r < sh.Count() ensures a[r] == b[r] {
      RegisterIsFilled(sh, to, r);
      var v := HeldAt(sh, to, r);
      DivLess(v, sh.warps, sh.WarpSize());
      RoundsSoFar(sh, from, to, regs, sh.warps, v);
    }
  }

  /** Whatever the exchange, memory address `v` receives the payload's value `v`. */
  lemma MemoryInOrder<T>(sh: Shape, from: Layout, to: Layout, regs: seq<T>, v: nat)
    requires sh.Valid() && |regs| == sh.Count() && v < sh.Count()
    ensures RegisterIndex(sh, from, v) < sh.Count()
    ensures InPositions(sh, to, WholeExchange(sh, from, to, regs))[v] == regs[RegisterIndex(sh, from, v)]
    ensures !from.Striped? && !to.Striped? ==>
              InPositions(sh, to, Rounds(sh, from, to, regs, sh.warps))[v] == regs[RegisterIndex(sh, from, v)]
  {
    RegisterHoldsValue(sh, from, v);
    RegisterHoldsValue(sh, to, v);
    if !from.Striped? && !to.Striped? { TimeslicedIsWhole(sh, from, to, regs); }
  }

  /** Whatever the exchange, the result register of value `v` receives memory address `v`. */
  lemma LoadInOrder<T>(sh: Shape, from: Layout, to: Layout, memory: seq<T>, v: nat)
    requires sh.Valid() && |memory| == sh.Count() && v < sh.Count()
    ensures RegisterIndex(sh, to, v) < sh.Count()
    ensures WholeExchange(sh, from, to, FromPositions(sh, from, memory))[RegisterIndex(sh, to, v)] == memory[v]
    ensures !from.Striped? && !to.Striped? ==>
              Rounds(sh, from, to, FromPositions(sh, from, memory), sh.warps)[RegisterIndex(sh, to, v)] == memory[v]
  {
    RegisterHoldsValue(sh, from, v);
    RegisterHoldsValue(sh, to, v);
    if !from.Striped? && !to.Striped? { TimeslicedIsWhole(sh, from, to, FromPositions(sh, from, memory)); }
  }
}
