/** What the phases of a cooperative store or load show is where the values are. */
module CoopPhases {
  import opened CoopLayout

  // The row of a warp in a phase, from how the phases move.

  /** In the exchange phases the warps before the one in scratch have finished and those after it still wait. */
  lemma StoreRow(sh: Shape, option: StoreOption, phases: seq<Phase>, i: nat, w: nat)
    requires StoreMoves(sh, option, phases) && i < |phases| && w < sh.warps
    ensures w < |phases[i]|
    ensures phases[i][w] ==
            if i == 0 then Input
            else if i == |phases| - 1 then Memory
            else if i == |phases| - 2 then Writers
            else if option.exchange.WholeBlock? then Scratch
            else if w < i - 1 then Writers else if w == i - 1 then Scratch else Input
  {
    if 0 < i < |phases| - 2 && option.exchange.Timesliced? {
      var then' := w + 1;
      assert phases[then'][w] == Scratch;
      if then' < i {
        assert StoreRank()(phases[then'][w]) <= StoreRank()(phases[i][w]);
        assert StoreRank()(phases[i][w]) <= StoreRank()(phases[|phases| - 2][w]);
      } else if i < then' {
        assert StoreRank()(phases[i][w]) <= StoreRank()(phases[then'][w]);
      }
    }
  }

  lemma LoadRow(sh: Shape, option: StoreOption, phases: seq<Phase>, i: nat, w: nat)
    requires LoadMoves(sh, option, phases) && i < |phases| && w < sh.warps
    ensures w < |phases[i]|
    ensures phases[i][w] ==
            if i == 0 then Memory
            else if i == 1 then Input
            else if i == |phases| - 1 then Writers
            else if option.exchange.WholeBlock? then Scratch
            else if w < i - 2 then Writers else if w == i - 2 then Scratch else Input
  {
    if 1 < i < |phases| - 1 && option.exchange.Timesliced? {
      var then' := w + 2;
      assert phases[then'][w] == Scratch;
      if then' < i {
        assert LoadRank()(phases[then'][w]) <= LoadRank()(phases[i][w]);
      } else if i < then' {
        assert LoadRank()(phases[1][w]) <= LoadRank()(phases[i][w]);
        assert LoadRank()(phases[i][w]) <= LoadRank()(phases[then'][w]);
      }
    }
  }

  // What the cells of a row hold.

  /** The exchanges that are offered: none between equal layouts, taking turns inside warps only. */
  ghost predicate Offered(option: StoreOption) {
    && (option.exchange.NoExchange? ==> option.input == option.access)
    && (option.exchange.Timesliced? ==> !option.input.Striped? && !option.access.Striped?)
  }

  /** The registers after `turns` warps have had their turn, those of a full-size exchange once it is over. */
  ghost function Registers<T>(sh: Shape, option: StoreOption, regs: seq<T>, turns: nat, row: Row): (r: seq<T>)
    requires sh.Valid() && |regs| == sh.Count() && turns <= sh.warps
    ensures |r| == sh.Count()
  {
    match option.exchange
    case NoExchange => regs
    case WholeBlock => if row.Writers? then WholeExchange(sh, option.input, option.access, regs) else regs
    case Timesliced => Rounds(sh, option.input, option.access, regs, turns)
  }

  /** The cells of scratch while warp `turn` has it, or all warps have. */
  ghost function ScratchCells<T>(sh: Shape, option: StoreOption, regs: seq<T>, turn: nat): seq<T>
    requires sh.Valid() && |regs| == sh.Count() && turn < sh.warps
  {
    if option.exchange.Timesliced? then
      FillScratch(sh, option.input, Rounds(sh, option.input, option.access, regs, turn), turn)
    else InPositions(sh, option.input, regs)
  }

  /** The cell that the phase shows value `v` in holds `x`. */
  ghost predicate CellHolds<T>(sh: Shape, option: StoreOption, regs: seq<T>, memory: seq<T>, turns: nat, phase: Phase,
                               v: nat, x: T)
    requires sh.Valid() && |regs| == sh.Count() == |memory| && turns <= sh.warps
    requires |phase| == sh.warps && v < sh.Count()
  {
    var (row, index) := Place(sh, option, phase, v);
    match row
    case Memory => index < |memory| && memory[index] == x
    case Scratch => turns < sh.warps && index < |ScratchCells(sh, option, regs, turns)|
        && ScratchCells(sh, option, regs, turns)[index] == x
    case _ => index < sh.Count() && Registers(sh, option, regs, turns, row)[index] == x
  }

  /** The rows a warp can be in, before its values are in memory, after `turns` turns. */
  ghost predicate OnTheWay(option: StoreOption, w: nat, turns: nat, row: Row) {
    match option.exchange
    case NoExchange => row == Input || row == Writers
    case WholeBlock => row != Memory
    case Timesliced => row == (if w < turns then Writers else Input) || (row == Scratch && w == turns)
  }

  /** A value in its input, scratch or writer cell, as its warp's turn has come. */
  lemma CellOnTheWay<T>(sh: Shape, option: StoreOption, regs: seq<T>, memory: seq<T>, turns: nat, phase: Phase, v: nat)
    requires sh.Valid() && |regs| == sh.Count() == |memory| && turns <= sh.warps && |phase| == sh.warps
    requires v < sh.Count() && Offered(option) && WarpOf(sh, v) < sh.warps
    requires OnTheWay(option, WarpOf(sh, v), turns, phase[WarpOf(sh, v)])
    requires phase[WarpOf(sh, v)] == Scratch ==> turns < sh.warps
    ensures RegisterIndex(sh, option.input, v) < |regs|
    ensures CellHolds(sh, option, regs, memory, turns, phase, v, regs[RegisterIndex(sh, option.input, v)])
  {
    var w := WarpOf(sh, v);
    RegisterHoldsValue(sh, option.input, v);
    RegisterHoldsValue(sh, option.access, v);
    hide RegisterIndex, HeldAt, Rounds, FillScratch, ReadScratch;
    match option.exchange
    case NoExchange =>
    case WholeBlock =>
    case Timesliced =>
      RoundsSoFar(sh, option.input, option.access, regs, turns, v);
      if phase[w] == Scratch {
        FilledAt(sh, option.input, Rounds(sh, option.input, option.access, regs, turns), turns, v);
      }
  }

  lemma WarpInTile(sh: Shape, v: nat)
    requires sh.Valid() && v < sh.Count()
    ensures WarpOf(sh, v) < sh.warps
  {
    Positive(sh);
    DivLess(v, sh.warps, sh.WarpSize());
  }

  /** The number of turns taken before phase `i`, when the first exchange phase is `first`. */
  function TurnsBefore(sh: Shape, i: nat, first: nat): nat {
    if i < first then 0 else if i - first < sh.warps then i - first else sh.warps
  }

  /** What the writers hold at the end is stored. */
  ghost function Stored<T>(sh: Shape, option: StoreOption, regs: seq<T>): (memory: seq<T>)
    requires sh.Valid() && |regs| == sh.Count()
    ensures |memory| == sh.Count()
  {
    InPositions(sh, option.access, Registers(sh, option, regs, sh.warps, Writers))
  }

  /**
   * Every phase of a store shows every value in a cell that holds its payload: the registers after the turns
   * taken so far, the scratch as the warp whose turn it is has filled it, and at the end the memory.
   */
  lemma StoreShows<T>(sh: Shape, option: StoreOption, phases: seq<Phase>, regs: seq<T>, i: nat, v: nat)
    requires sh.Valid() && |regs| == sh.Count() && v < sh.Count() && Offered(option)
    requires StoreMoves(sh, option, phases) && i < |phases|
    ensures |phases[i]| == sh.warps && RegisterIndex(sh, option.input, v) < |regs|
    ensures CellHolds(sh, option, regs, Stored(sh, option, regs), TurnsBefore(sh, i, 1), phases[i], v,
                      regs[RegisterIndex(sh, option.input, v)])
  {
    var w := WarpOf(sh, v);
    WarpInTile(sh, v);
    StoreRow(sh, option, phases, i, w);
    assert |phases[i]| == sh.warps && |phases| >= 3;
    assert option.exchange.Timesliced? ==> |phases| == 3 + sh.warps;
    assert option.exchange.NoExchange? ==> |phases| == 3;
    assert option.exchange.WholeBlock? ==> |phases| == 4;
    if phases[i][w] == Memory {
      hide StoreMoves;
      PlacedInMemory(sh, option, phases[i], v);
      StoredInOrder(sh, option, regs, v);
    } else {
      hide StoreMoves, CellHolds;
      CellOnTheWay(sh, option, regs, Stored(sh, option, regs), TurnsBefore(sh, i, 1), phases[i], v);
    }
  }

  lemma PlacedInMemory(sh: Shape, option: StoreOption, phase: Phase, v: nat)
    requires sh.Valid() && |phase| == sh.warps && v < sh.Count() && WarpOf(sh, v) < sh.warps
    requires phase[WarpOf(sh, v)] == Memory
    ensures Place(sh, option, phase, v) == (Memory, v)
  {
  }

  lemma StoredInOrder<T>(sh: Shape, option: StoreOption, regs: seq<T>, v: nat)
    requires sh.Valid() && |regs| == sh.Count() && v < sh.Count() && Offered(option)
    ensures RegisterIndex(sh, option.input, v) < |regs|
    ensures Stored(sh, option, regs)[v] == regs[RegisterIndex(sh, option.input, v)]
  {
    hide HeldAt;
    RegisterHoldsValue(sh, option.input, v);
    MemoryInOrder(sh, option.input, option.access, regs, v);
    hide RegisterIndex, Rounds, WholeExchange;
  }

  /** Every phase of a load shows every value in a cell that holds what memory has at the value's address. */
  lemma LoadShows<T>(sh: Shape, option: StoreOption, phases: seq<Phase>, memory: seq<T>, i: nat, v: nat)
    requires sh.Valid() && |memory| == sh.Count() && v < sh.Count() && Offered(option)
    requires LoadMoves(sh, option, phases) && i < |phases|
    ensures |phases[i]| == sh.warps
    ensures CellHolds(sh, option, FromPositions(sh, option.input, memory), memory, TurnsBefore(sh, i, 2), phases[i], v,
                      memory[v])
  {
    var w, regs := WarpOf(sh, v), FromPositions(sh, option.input, memory);
    WarpInTile(sh, v);
    LoadRow(sh, option, phases, i, w);
    assert |phases[i]| == sh.warps && |phases| >= 3;
    assert option.exchange.Timesliced? ==> |phases| == 3 + sh.warps;
    assert option.exchange.NoExchange? ==> |phases| == 3;
    assert option.exchange.WholeBlock? ==> |phases| == 4;
    if phases[i][w] == Memory {
      hide LoadMoves;
      PlacedInMemory(sh, option, phases[i], v);
    } else {
      hide LoadMoves, CellHolds;
      CellOnTheWay(sh, option, regs, memory, TurnsBefore(sh, i, 2), phases[i], v);
      ReadInOrder(sh, option, memory, v);
    }
  }

  lemma ReadInOrder<T>(sh: Shape, option: StoreOption, memory: seq<T>, v: nat)
    requires sh.Valid() && |memory| == sh.Count() && v < sh.Count()
    ensures RegisterIndex(sh, option.input, v) < sh.Count()
    ensures FromPositions(sh, option.input, memory)[RegisterIndex(sh, option.input, v)] == memory[v]
  {
    RegisterHoldsValue(sh, option.input, v);
    hide RegisterIndex, HeldAt;
  }
}
