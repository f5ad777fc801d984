/** The normal form in which two SASS disassemblies are compared. */
module SassNormalForm {
  import opened Sorting

  /** A tokenised instruction as disassembled: text, constant-bank references and branch targets. */
  datatype RawPiece = RawText(text: string) | RawConst(bank: string, offset: nat) | Target(address: int)

  datatype RawInstruction = RawInstruction(address: int, pieces: seq<RawPiece>)

  datatype RawKernel = RawKernel(name: string, instructions: seq<RawInstruction>)

  /** After normalisation a branch shows its distance instead of its target. */
  datatype Piece = Text(text: string) | Const(bank: string, offset: nat) | Delta(distance: int)

  type Instruction = seq<Piece>

  type Body = seq<Instruction>

  datatype Kernel = Kernel(name: string, instructions: Body)

  // Branch targets.

  function LowerPiece(p: RawPiece, address: int): Piece {
    match p
    case RawText(t) => Text(t)
    case RawConst(b, o) => Const(b, o)
    case Target(a) => Delta(a - address)
  }

  function Lower(i: RawInstruction): (r: Instruction)
    ensures |r| == |i.pieces|
  {
    seq(|i.pieces|, j requires 0 <= j < |i.pieces| => LowerPiece(i.pieces[j], i.address))
  }

  function LowerAll(code: seq<RawInstruction>): (r: Body)
    ensures |r| == |code| && forall k | 0 <= k < |r| :: r[k] == Lower(code[k])
  {
    seq(|code|, k requires 0 <= k < |code| => Lower(code[k]))
  }

  // Trailing NOPs.

  predicate IsNop(i: Instruction) {
    |i| == 1 && i[0].Text? && i[0].text in ["NOP", "NOP;", "NOP ;"]
  }

  function Trimmed(body: Body): Body {
    if body != [] && IsNop(body[|body| - 1]) then Trimmed(body[..|body| - 1]) else body
  }

  /** The loop that finds the end of the code before the padding. */
  method Trim(body: Body) returns (r: Body)
    ensures r == Trimmed(body)
    ensures r <= body && (r == [] || !IsNop(r[|r| - 1])) && forall k | |r| <= k < |body| :: IsNop(body[k])
  {
    var end := |body|;
    assert body[..end] == body;
    while end > 0 && IsNop(body[end - 1])
      invariant 0 <= end <= |body| && Trimmed(body[..end]) == Trimmed(body)
      invariant forall k | end <= k < |body| :: IsNop(body[k])
    {
      assert body[..end][..end - 1] == body[..end - 1];
      end := end - 1;
    }
    r := body[..end];
  }

  /** More padding does not change the trimmed code. */
  lemma {:induction false} PaddingIsTrimmed(body: Body, padding: Body)
    requires forall k | 0 <= k < |padding| :: IsNop(padding[k])
    ensures Trimmed(body + padding) == Trimmed(body)
  {
    if padding == [] {
      assert body + padding == body;
    } else {
      var shorter := padding[..|padding| - 1];
      assert (body + padding)[..|body + padding| - 1] == body + shorter;
      PaddingIsTrimmed(body, shorter);
    }
  }

  // Constant banks.

  ghost predicate Uses(body: Body, bank: string, offset: nat) {
    exists i, j :: 0 <= i < |body| && 0 <= j < |body[i]| && body[i][j] == Const(bank, offset)
  }

  /** For every bank in use, the smallest offset it is used with. */
  ghost predicate IsBase(body: Body, base: map<string, nat>) {
    && (forall bank, offset | Uses(body, bank, offset) :: bank in base && base[bank] <= offset)
    && (forall bank | bank in base :: Uses(body, bank, base[bank]))
  }

  lemma UsesSnoc(body: Body, i: Instruction, bank: string, offset: nat)
    ensures Uses(body + [i], bank, offset) <==> Uses(body, bank, offset) || Const(bank, offset) in i
  {
    var all := body + [i];
    if Uses(body, bank, offset) {
      var k, j :| 0 <= k < |body| && 0 <= j < |body[k]| && body[k][j] == Const(bank, offset);
      assert all[k][j] == Const(bank, offset);
    }
    if Const(bank, offset) in i {
      var j :| 0 <= j < |i| && i[j] == Const(bank, offset);
      assert all[|body|][j] == Const(bank, offset);
    }
    if Uses(all, bank, offset) && !Uses(body, bank, offset) {
      var k, j :| 0 <= k < |all| && 0 <= j < |all[k]| && all[k][j] == Const(bank, offset);
      assert k == |body| && all[k] == i;
    }
  }

  /** As `IsBase`, when only the first `j` pieces of a further instruction have been seen. */
  ghost predicate IsBaseUpTo(body: Body, i: Instruction, j: nat, base: map<string, nat>)
    requires j <= |i|
  {
    IsBase(body + [i[..j]], base)
  }

  lemma SeePiece(body: Body, i: Instruction, j: nat, base: map<string, nat>)
    requires j < |i| && IsBaseUpTo(body, i, j, base)
    ensures IsBaseUpTo(body, i, j + 1,
                       if i[j].Const? then base[i[j].bank := Lowest(base, i[j].bank, i[j].offset)] else base)
  {
    assert i[..j + 1] == i[..j] + [i[j]];
    forall bank, offset
      ensures Uses(body + [i[..j + 1]], bank, offset) <==>
              Uses(body + [i[..j]], bank, offset) || i[j] == Const(bank, offset)
    {
      UsesSnoc(body, i[..j], bank, offset);
      UsesSnoc(body, i[..j + 1], bank, offset);
    }
    hide Uses;
  }

  function Lowest(base: map<string, nat>, bank: string, offset: nat): nat {
    if bank in base && base[bank] < offset then base[bank] else offset
  }

  lemma BaseSkipsEmpty(body: Body, base: map<string, nat>)
    ensures IsBase(body + [[]], base) <==> IsBase(body, base)
  {
    forall bank, offset ensures Uses(body + [[]], bank, offset) <==> Uses(body, bank, offset) {
      UsesSnoc(body, [], bank, offset);
    }
    hide Uses;
  }

  /** The nested loops over constant references. */
  method FindBase(body: Body) returns (base: map<string, nat>)
    ensures IsBase(body, base)
  {
    base := map[];
    for k := 0 to |body|
      invariant IsBase(body[..k], base)
    {
      BaseSkipsEmpty(body[..k], base);
      assert body[k][..0] == [];
      for j: nat := 0 to |body[k]|
        invariant IsBaseUpTo(body[..k], body[k], j, base)
      {
        SeePiece(body[..k], body[k], j, base);
        if body[k][j].Const? {
          var Const(bank, offset) := body[k][j];
          base := base[bank := Lowest(base, bank, offset)];
        }
      }
      assert body[k][..|body[k]|] == body[k];
      assert body[..k + 1] == body[..k] + [body[k]];
    }
    assert body[..|body|] == body;
  }

  function RebasePiece(p: Piece, base: map<string, nat>): Piece {
    if p.Const? && p.bank in base && base[p.bank] <= p.offset then Const(p.bank, p.offset - base[p.bank]) else p
  }

  function Rebase(body: Body, base: map<string, nat>): (r: Body)
    ensures |r| == |body| && forall i | 0 <= i < |r| :: |r[i]| == |body[i]|
    ensures forall i, j | 0 <= i < |r| && 0 <= j < |r[i]| :: r[i][j] == RebasePiece(body[i][j], base)
  {
    seq(|body|, i requires 0 <= i < |body| =>
      seq(|body[i]|, j requires 0 <= j < |body[i]| => RebasePiece(body[i][j], base)))
  }

  /** The two bodies differ at most in the offsets of their constants. */
  ghost predicate SameApartFromOffsets(a: Body, b: Body) {
    && |a| == |b|
    && (forall i | 0 <= i < |a| :: |a[i]| == |b[i]|)
    && forall i, j | 0 <= i < |a| && 0 <= j < |a[i]| ::
         if a[i][j].Const? then b[i][j].Const? && b[i][j].bank == a[i][j].bank else b[i][j] == a[i][j]
  }

  /** Every constant of bank `k` lies `shift[k]` further in `b` than in `a`. */
  ghost predicate ShiftedBy(a: Body, b: Body, shift: map<string, int>)
    requires SameApartFromOffsets(a, b)
  {
    forall i, j | 0 <= i < |a| && 0 <= j < |a[i]| && a[i][j].Const? ::
      a[i][j].bank in shift && b[i][j].offset == a[i][j].offset + shift[a[i][j].bank]
  }

  lemma UsedAt(body: Body, base: map<string, nat>, i: nat, j: nat)
    requires IsBase(body, base) && i < |body| && j < |body[i]| && body[i][j].Const?
    ensures body[i][j].bank in base && base[body[i][j].bank] <= body[i][j].offset
  {
    assert Uses(body, body[i][j].bank, body[i][j].offset);
  }

  lemma BaseUsedAt(body: Body, base: map<string, nat>, bank: string) returns (k: nat, l: nat)
    requires IsBase(body, base) && bank in base
    ensures k < |body| && l < |body[k]| && body[k][l] == Const(bank, base[bank])
  {
    assert Uses(body, bank, base[bank]);
    k, l :| k < |body| && l < |body[k]| && body[k][l] == Const(bank, base[bank]);
  }

  lemma ShiftedBase(a: Body, b: Body, baseA: map<string, nat>, baseB: map<string, nat>, shift: map<string, int>,
                    bank: string)
    requires SameApartFromOffsets(a, b) && ShiftedBy(a, b, shift) && IsBase(a, baseA) && IsBase(b, baseB)
            && bank in baseA
    ensures bank in shift && bank in baseB && baseB[bank] == baseA[bank] + shift[bank]
  {
    var i, j :| 0 <= i < |a| && 0 <= j < |a[i]| && a[i][j] == Const(bank, baseA[bank]);
    UsedAt(b, baseB, i, j);
    var k, l :| 0 <= k < |b| && 0 <= l < |b[k]| && b[k][l] == Const(bank, baseB[bank]);
    assert a[k][l].Const?;
    UsedAt(a, baseA, k, l);
  }

  /**
   * Rebasing is a canonical form: bodies that agree apart from constant offsets rebase to the same
   * code exactly when each bank is moved by one uniform shift.
   */
  lemma RebaseIsCanonical(a: Body, b: Body, baseA: map<string, nat>, baseB: map<string, nat>)
    requires SameApartFromOffsets(a, b) && IsBase(a, baseA) && IsBase(b, baseB)
    ensures Rebase(a, baseA) == Rebase(b, baseB) <==> exists shift :: ShiftedBy(a, b, shift)
  {
    if Rebase(a, baseA) == Rebase(b, baseB) {
      EqualRebasedIsShifted(a, b, baseA, baseB);
    }
    hide SameApartFromOffsets, IsBase, Rebase;
    if shift :| ShiftedBy(a, b, shift) {
      ShiftedIsEqualRebased(a, b, baseA, baseB, shift);
    }
  }

  lemma ShiftedIsEqualRebased(a: Body, b: Body, baseA: map<string, nat>, baseB: map<string, nat>,
                              shift: map<string, int>)
    requires SameApartFromOffsets(a, b) && ShiftedBy(a, b, shift) && IsBase(a, baseA) && IsBase(b, baseB)
    ensures Rebase(a, baseA) == Rebase(b, baseB)
  {
    var ra, rb := Rebase(a, baseA), Rebase(b, baseB);
    hide IsBase;
    forall i, j | 0 <= i < |a| && 0 <= j < |a[i]| ensures ra[i][j] == rb[i][j] {
      if a[i][j].Const? {
        UsedAt(a, baseA, i, j);
        UsedAt(b, baseB, i, j);
        ShiftedBase(a, b, baseA, baseB, shift, a[i][j].bank);
      }
    }
    forall i | 0 <= i < |a| ensures ra[i] == rb[i] {}
  }

  function Moves(baseA: map<string, nat>, baseB: map<string, nat>): map<string, int> {
    map k | k in baseA && k in baseB :: Move(baseA[k], baseB[k])
  }

  function Move(a: int, b: int): int { b - a }

  lemma EqualRebasedIsShifted(a: Body, b: Body, baseA: map<string, nat>, baseB: map<string, nat>)
    requires SameApartFromOffsets(a, b) && IsBase(a, baseA) && IsBase(b, baseB)
    requires Rebase(a, baseA) == Rebase(b, baseB)
    ensures exists shift :: ShiftedBy(a, b, shift)
  {
    var ra, rb := Rebase(a, baseA), Rebase(b, baseB);
    var shift := Moves(baseA, baseB);
    forall i, j | 0 <= i < |a| && 0 <= j < |a[i]| && a[i][j].Const?
      ensures a[i][j].bank in shift && b[i][j].offset == a[i][j].offset + shift[a[i][j].bank]
    {
      UsedAt(a, baseA, i, j);
      UsedAt(b, baseB, i, j);
      assert ra[i][j] == rb[i][j];
    }
    assert ShiftedBy(a, b, shift);
  }

  /** The base of a body is unique, so rebasing is a function of the body. */
  lemma BaseIsUnique(body: Body, x: map<string, nat>, y: map<string, nat>)
    requires IsBase(body, x) && IsBase(body, y)
    ensures x == y
  {
  }

  /** Rebasing twice changes nothing: every bank in use already starts at zero. */
  lemma RebaseIsIdempotent(body: Body, base: map<string, nat>, again: map<string, nat>)
    requires IsBase(body, base) && IsBase(Rebase(body, base), again)
    ensures Rebase(Rebase(body, base), again) == Rebase(body, base)
  {
    var r := Rebase(body, base);
    forall bank | bank in again ensures again[bank] == 0 {
      StartsAtZero(body, base, again, bank);
    }
    var s := Rebase(r, again);
    forall i | 0 <= i < |r| ensures s[i] == r[i] {
      forall j | 0 <= j < |r[i]| ensures s[i][j] == r[i][j] {}
    }
  }

  lemma StartsAtZero(body: Body, base: map<string, nat>, again: map<string, nat>, bank: string)
    requires IsBase(body, base) && IsBase(Rebase(body, base), again) && bank in again
    ensures again[bank] == 0
  {
    var r := Rebase(body, base);
    var i, j :| 0 <= i < |r| && 0 <= j < |r[i]| && r[i][j] == Const(bank, again[bank]);
    assert body[i][j].Const? && body[i][j].bank == bank;
    UsedAt(body, base, i, j);
    var k, l := BaseUsedAt(body, base, bank);
    assert r[k][l] == Const(bank, 0);
    hide IsBase, Rebase;
    UsedAt(r, again, k, l);
  }

  // A whole kernel.

  /** `normal` is what `_kernels` makes of the instructions. */
  ghost predicate IsNormal(code: seq<RawInstruction>, normal: Body) {
    exists base :: IsBase(Trimmed(LowerAll(code)), base) && normal == Rebase(Trimmed(LowerAll(code)), base)
  }

  datatype Result = NoInstructions | Normal(body: Body)

  /** One kernel of `_kernels`; a kernel without instructions is a fault in the dump. */
  method Normalize(code: seq<RawInstruction>) returns (r: Result)
    ensures r.NoInstructions? <==> code == []
    ensures r.Normal? ==> IsNormal(code, r.body)
    ensures r.Normal? ==> exists n :: EndsAt(code, n) && Shows(code, n, r.body)
  {
    if code == [] { return NoInstructions; }
    var body := Trim(LowerAll(code));
    var base := FindBase(body);
    r := Normal(Rebase(body, base));
    ghost var n := EndOf(code);
    NormalShows(code, n, r.body);
  }

  lemma {:induction false} EndOf(code: seq<RawInstruction>) returns (n: nat)
    ensures EndsAt(code, n)
  {
    n := |code|;
    if code != [] && Padding(code[n - 1]) { n := EndOf(code[..n - 1]); }
  }

  lemma NormalIsUnique(code: seq<RawInstruction>, x: Body, y: Body)
    requires IsNormal(code, x) && IsNormal(code, y)
    ensures x == y
  {
    var body := Trimmed(LowerAll(code));
    var a :| IsBase(body, a) && x == Rebase(body, a);
    var b :| IsBase(body, b) && y == Rebase(body, b);
    BaseIsUnique(body, a, b);
  }

  lemma {:induction false} TrimmedTogether(a: Body, b: Body)
    requires SameApartFromOffsets(a, b)
    ensures SameApartFromOffsets(Trimmed(a), Trimmed(b))
  {
    if a != [] {
      var n := |a| - 1;
      assert |a[n]| == |b[n]|;
      assert IsNop(a[n]) <==> IsNop(b[n]);
      TrimmedTogether(a[..n], b[..n]);
    }
  }

  /**
   * Two kernels whose instructions agree apart from constant offsets compare equal exactly when, in the
   * code before the padding, each bank is moved by one uniform shift.
   */
  lemma KernelsEqualExactly(a: seq<RawInstruction>, b: seq<RawInstruction>, x: Body, y: Body)
    requires IsNormal(a, x) && IsNormal(b, y) && SameApartFromOffsets(LowerAll(a), LowerAll(b))
    ensures SameApartFromOffsets(Trimmed(LowerAll(a)), Trimmed(LowerAll(b)))
    ensures x == y <==> exists shift :: ShiftedBy(Trimmed(LowerAll(a)), Trimmed(LowerAll(b)), shift)
  {
    hide *;
    TrimmedTogether(LowerAll(a), LowerAll(b));
    var baseA := BaseOf(a, x);
    var baseB := BaseOf(b, y);
    RebaseIsCanonical(Trimmed(LowerAll(a)), Trimmed(LowerAll(b)), baseA, baseB);
  }

  lemma BaseOf(code: seq<RawInstruction>, normal: Body) returns (base: map<string, nat>)
    requires IsNormal(code, normal)
    ensures IsBase(Trimmed(LowerAll(code)), base) && normal == Rebase(Trimmed(LowerAll(code)), base)
  {
    hide IsBase, Rebase, Trimmed;
    base :| IsBase(Trimmed(LowerAll(code)), base) && normal == Rebase(Trimmed(LowerAll(code)), base);
  }

  // The same on the instructions as disassembled.

  /** An instruction that is one NOP and nothing else. */
  ghost predicate Padding(i: RawInstruction) {
    exists text :: i.pieces == [RawText(text)] && (text == "NOP" || text == "NOP;" || text == "NOP ;")
  }

  /** The code before the padding is its first `n` instructions. */
  ghost predicate EndsAt(code: seq<RawInstruction>, n: nat) {
    && n <= |code| && (forall k | n <= k < |code| :: Padding(code[k]))
    && (n == 0 || !Padding(code[n - 1]))
  }

  /** Among the first `n` instructions one uses the constant. */
  ghost predicate RawUses(code: seq<RawInstruction>, n: nat, bank: string, offset: nat)
    requires n <= |code|
  {
    exists k, j :: 0 <= k < n && 0 <= j < |code[k].pieces| && code[k].pieces[j] == RawConst(bank, offset)
  }

  ghost predicate LeastOffset(code: seq<RawInstruction>, n: nat, bank: string, least: nat)
    requires n <= |code|
  {
    RawUses(code, n, bank, least) && forall offset | RawUses(code, n, bank, offset) :: least <= offset
  }

  /** A branch shows its distance, a constant how far it is from the bank's least offset in use. */
  ghost predicate ShowsPiece(code: seq<RawInstruction>, n: nat, address: int, raw: RawPiece, p: Piece)
    requires n <= |code|
  {
    match raw
    case RawText(text) => p == Text(text)
    case Target(target) => p == Delta(target - address)
    case RawConst(bank, offset) => exists least: nat ::
      LeastOffset(code, n, bank, least) && least <= offset && p == Const(bank, offset - least)
  }

  ghost predicate Shows(code: seq<RawInstruction>, n: nat, normal: Body)
    requires n <= |code|
  {
    && |normal| == n
    && (forall k | 0 <= k < n :: |normal[k]| == |code[k].pieces|)
    && forall k, j | 0 <= k < n && 0 <= j < |code[k].pieces| ::
         ShowsPiece(code, n, code[k].address, code[k].pieces[j], normal[k][j])
  }

  lemma PaddingIsNop(i: RawInstruction)
    ensures IsNop(Lower(i)) <==> Padding(i)
  {
    if |i.pieces| == 1 {
      assert i.pieces == [i.pieces[0]];
      assert Lower(i)[0] == LowerPiece(i.pieces[0], i.address);
    }
  }

  lemma {:induction false} TrimmedIs(code: seq<RawInstruction>, n: nat)
    requires EndsAt(code, n)
    ensures Trimmed(LowerAll(code)) == LowerAll(code)[..n]
  {
    if n < |code| {
      var shorter := code[..|code| - 1];
      PaddingIsNop(code[|code| - 1]);
      assert LowerAll(shorter) == LowerAll(code)[..|code| - 1];
      TrimmedIs(shorter, n);
    } else {
      if n > 0 { PaddingIsNop(code[n - 1]); }
      assert LowerAll(code)[..n] == LowerAll(code);
    }
  }

  lemma LoweredAt(code: seq<RawInstruction>, n: nat, k: nat, j: nat)
    requires n <= |code| && k < n && j < |code[k].pieces|
    ensures j < |LowerAll(code)[..n][k]|
    ensures LowerAll(code)[..n][k][j] ==
            match code[k].pieces[j]
            case RawText(text) => Text(text)
            case RawConst(bank, offset) => Const(bank, offset)
            case Target(target) => Delta(target - code[k].address)
  {
  }

  lemma RawUsesAre(code: seq<RawInstruction>, n: nat, bank: string, offset: nat)
    requires n <= |code|
    ensures RawUses(code, n, bank, offset) <==> Uses(LowerAll(code)[..n], bank, offset)
  {
    var body := LowerAll(code)[..n];
    if RawUses(code, n, bank, offset) {
      var k, j :| 0 <= k < n && 0 <= j < |code[k].pieces| && code[k].pieces[j] == RawConst(bank, offset);
      LoweredAt(code, n, k, j);
    }
    if Uses(body, bank, offset) {
      var k, j :| 0 <= k < |body| && 0 <= j < |body[k]| && body[k][j] == Const(bank, offset);
      LoweredAt(code, n, k, j);
    }
  }

  lemma LeastIsBase(code: seq<RawInstruction>, n: nat, base: map<string, nat>, bank: string)
    requires n <= |code| && IsBase(LowerAll(code)[..n], base) && bank in base
    ensures LeastOffset(code, n, bank, base[bank])
  {
    forall offset ensures RawUses(code, n, bank, offset) <==> Uses(LowerAll(code)[..n], bank, offset) {
      RawUsesAre(code, n, bank, offset);
    }
    hide RawUses, Uses;
  }

  lemma RebasedShows(code: seq<RawInstruction>, n: nat, base: map<string, nat>, normal: Body)
    requires n <= |code| && IsBase(LowerAll(code)[..n], base) && normal == Rebase(LowerAll(code)[..n], base)
    ensures Shows(code, n, normal)
  {
    var body := LowerAll(code)[..n];
    forall k | 0 <= k < n ensures |normal[k]| == |code[k].pieces| { LoweredLength(code, n, k); }
    hide IsBase, ShowsPiece, LowerAll, RebasePiece;
    forall k, j | 0 <= k < n && 0 <= j < |code[k].pieces|
      ensures ShowsPiece(code, n, code[k].address, code[k].pieces[j], normal[k][j])
    {
      LoweredLength(code, n, k);
      RebasedPieceShows(code, n, base, k, j);
    }
  }

  lemma RebasedPieceShows(code: seq<RawInstruction>, n: nat, base: map<string, nat>, k: nat, j: nat)
    requires n <= |code| && IsBase(LowerAll(code)[..n], base) && k < n && j < |code[k].pieces|
    requires j < |LowerAll(code)[..n][k]|
    ensures ShowsPiece(code, n, code[k].address, code[k].pieces[j], RebasePiece(LowerAll(code)[..n][k][j], base))
  {
    LoweredAt(code, n, k, j);
    hide IsBase, LowerAll, LeastOffset;
    if code[k].pieces[j].RawConst? {
      UsedAt(LowerAll(code)[..n], base, k, j);
      LeastIsBase(code, n, base, code[k].pieces[j].bank);
    }
  }

  /** The normal form in full: what it shows of each piece of the code before the padding. */
  lemma NormalShows(code: seq<RawInstruction>, n: nat, normal: Body)
    requires EndsAt(code, n) && IsNormal(code, normal)
    ensures Shows(code, n, normal)
  {
    TrimmedIs(code, n);
    var base := BaseOf(code, normal);
    assert n <= |code|;
    hide *;
    RebasedShows(code, n, base, normal);
  }

  lemma LoweredLength(code: seq<RawInstruction>, n: nat, k: nat)
    requires k < n <= |code|
    ensures |LowerAll(code)[..n][k]| == |code[k].pieces|
  {
  }

  /** The pieces differ at most by the shift of a constant's bank, and branches go equally far. */
  ghost predicate AlikePiece(p: RawPiece, q: RawPiece, from: int, there: int, shift: map<string, int>) {
    match (p, q)
    case (RawText(text), RawText(other)) => text == other
    case (RawConst(bank, offset), RawConst(other, moved)) =>
      bank == other && bank in shift && moved == offset + shift[bank]
    case (Target(target), Target(other)) => target - from == other - there
    case _ => false
  }

  ghost predicate Alike(a: seq<RawInstruction>, b: seq<RawInstruction>, n: nat, shift: map<string, int>)
    requires n <= |a| && n <= |b|
  {
    && (forall k | 0 <= k < n :: |a[k].pieces| == |b[k].pieces|)
    && forall k, j | 0 <= k < n && 0 <= j < |a[k].pieces| ::
         AlikePiece(a[k].pieces[j], b[k].pieces[j], a[k].address, b[k].address, shift)
  }

  lemma AlikeIsShifted(a: seq<RawInstruction>, b: seq<RawInstruction>, n: nat, shift: map<string, int>)
    requires n <= |a| && n <= |b|
    ensures var x, y := LowerAll(a)[..n], LowerAll(b)[..n];
            Alike(a, b, n, shift) <==> SameApartFromOffsets(x, y) && ShiftedBy(x, y, shift)
  {
    var x, y := LowerAll(a)[..n], LowerAll(b)[..n];
    hide LowerAll, Lower;
    forall k | 0 <= k < n ensures |x[k]| == |a[k].pieces| && |y[k]| == |b[k].pieces| {
      LoweredLength(a, n, k);
      LoweredLength(b, n, k);
    }
    forall k, j | 0 <= k < n && 0 <= j < |a[k].pieces| && |a[k].pieces| == |b[k].pieces|
      ensures AlikePiece(a[k].pieces[j], b[k].pieces[j], a[k].address, b[k].address, shift) <==>
              PieceShifted(x[k][j], y[k][j], shift)
    {
      LoweredAt(a, n, k, j);
      LoweredAt(b, n, k, j);
    }
    hide AlikePiece;
    ShiftedPieces(x, y, shift);
    hide SameApartFromOffsets, ShiftedBy, PieceShifted;
  }

  ghost predicate PieceShifted(p: Piece, q: Piece, shift: map<string, int>) {
    if p.Const? then q.Const? && q.bank == p.bank && p.bank in shift && q.offset == p.offset + shift[p.bank]
    else q == p
  }

  lemma ShiftedPieces(x: Body, y: Body, shift: map<string, int>)
    requires |x| == |y|
    ensures SameApartFromOffsets(x, y) && ShiftedBy(x, y, shift) <==>
            && (forall i | 0 <= i < |x| :: |x[i]| == |y[i]|)
            && forall i, j | 0 <= i < |x| && 0 <= j < |x[i]| :: PieceShifted(x[i][j], y[i][j], shift)
  {
  }

  /** Rebased bodies that are equal came from bodies that agree apart from offsets. */
  lemma EqualRebasedAgree(a: Body, b: Body, baseA: map<string, nat>, baseB: map<string, nat>)
    requires Rebase(a, baseA) == Rebase(b, baseB)
    ensures SameApartFromOffsets(a, b)
  {
    var ra, rb := Rebase(a, baseA), Rebase(b, baseB);
    forall i | 0 <= i < |a| ensures |a[i]| == |b[i]| { assert ra[i] == rb[i]; }
    forall i, j | 0 <= i < |a| && 0 <= j < |a[i]|
      ensures if a[i][j].Const? then b[i][j].Const? && b[i][j].bank == a[i][j].bank else b[i][j] == a[i][j]
    {
      assert ra[i][j] == rb[i][j];
    }
  }

  /**
   * Two kernels have one normal form if and only if, before the padding, they have the same number of
   * instructions, the same text, branches of the same distance, and constants of the same banks, each bank
   * moved by one uniform shift.
   */
  lemma NormalFormsEqualExactly(a: seq<RawInstruction>, b: seq<RawInstruction>, m: nat, n: nat, x: Body, y: Body)
    requires IsNormal(a, x) && IsNormal(b, y) && EndsAt(a, m) && EndsAt(b, n)
    ensures x == y <==> m == n && exists shift :: Alike(a, b, n, shift)
  {
    var baseA := BaseOf(a, x);
    var baseB := BaseOf(b, y);
    TrimmedIs(a, m);
    TrimmedIs(b, n);
    var p, q := LowerAll(a)[..m], LowerAll(b)[..n];
    assert |x| == m && |y| == n && |p| == m && |q| == n;
    hide *;
    if x == y { EqualRebasedAgree(p, q, baseA, baseB); }
    if SameApartFromOffsets(p, q) { RebaseIsCanonical(p, q, baseA, baseB); }
    if m == n {
      forall shift ensures Alike(a, b, n, shift) <==> SameApartFromOffsets(p, q) && ShiftedBy(p, q, shift) {
        LengthsFit(a, b, m, n);
        AlikeIsShifted(a, b, n, shift);
      }
    }
  }

  lemma LengthsFit(a: seq<RawInstruction>, b: seq<RawInstruction>, m: nat, n: nat)
    requires EndsAt(a, m) && EndsAt(b, n)
    ensures m <= |a| && n <= |b|
  {
  }

  function RelocatePiece(p: RawPiece, distance: int): RawPiece {
    if p.Target? then Target(p.address + distance) else p
  }

  /** The same code placed elsewhere: addresses and branch targets move together. */
  function Relocate(code: seq<RawInstruction>, distance: int): (r: seq<RawInstruction>)
    ensures |r| == |code|
  {
    seq(|code|, k requires 0 <= k < |code| =>
      RawInstruction(code[k].address + distance,
                     seq(|code[k].pieces|,
                         j requires 0 <= j < |code[k].pieces| => RelocatePiece(code[k].pieces[j], distance))))
  }

  lemma RelocationIsInvisible(code: seq<RawInstruction>, distance: int)
    ensures LowerAll(Relocate(code, distance)) == LowerAll(code)
  {
    var moved := Relocate(code, distance);
    forall k | 0 <= k < |code| ensures Lower(moved[k]) == Lower(code[k]) {
      forall j | 0 <= j < |code[k].pieces| ensures Lower(moved[k])[j] == Lower(code[k])[j] {}
    }
  }

  /** Relocating a kernel and adding trailing NOPs leaves its normal form as it was. */
  lemma MovedAndPadded(code: seq<RawInstruction>, distance: int, padding: seq<RawInstruction>, normal: Body)
    requires forall k | 0 <= k < |padding| :: IsNop(Lower(padding[k]))
    requires IsNormal(code, normal)
    ensures IsNormal(Relocate(code, distance) + padding, normal)
  {
    var whole := Relocate(code, distance) + padding;
    RelocationIsInvisible(code, distance);
    assert LowerAll(whole) == LowerAll(Relocate(code, distance)) + LowerAll(padding);
    PaddingIsTrimmed(LowerAll(code), LowerAll(padding));
  }

  // The listing.

  datatype Line = Arch(arch: string) | Header(name: string) | Code(i: Instruction) | Last

  function CodeLines(body: Body): seq<Line> {
    seq(|body|, k requires 0 <= k < |body| => Code(body[k]))
  }

  function KernelLines(ks: seq<Kernel>): seq<Line> {
    if ks == [] then [] else [Header(ks[0].name)] + CodeLines(ks[0].instructions) + KernelLines(ks[1..])
  }

  predicate NameLeq(a: Kernel, b: Kernel) { StringLeq(a.name, b.name) }

  /** `Listing.text`, as its lines. */
  function Listing(arch: string, ks: seq<Kernel>): seq<Line> {
    [Arch(arch)] + KernelLines(StableSort(ks, NameLeq)) + [Last]
  }

  ghost predicate NamesIdentify(ks: seq<Kernel>) {
    forall a, b | a in ks && b in ks && a.name == b.name :: a == b
  }

  /** When kernels of one name are equal, the order in which they were emitted does not show. */
  lemma EmissionOrderIsInvisible(arch: string, ks: seq<Kernel>, reordered: seq<Kernel>)
    requires multiset(ks) == multiset(reordered) && NamesIdentify(ks)
    ensures Listing(arch, ks) == Listing(arch, reordered)
  {
    NamesAreOrdered(ks);
    forall a, b | a in ks && b in ks && NameLeq(a, b) && NameLeq(b, a) ensures a == b {
      StringLeqAntisymmetric(a.name, b.name);
    }
    SortForgetsOrder(ks, reordered, NameLeq);
  }

  /** The kernels by name, those of one name as they were emitted. */
  ghost predicate NameOrder(ks: seq<Kernel>, sorted: seq<Kernel>) {
    && multiset(sorted) == multiset(ks)
    && (forall i, j | 0 <= i < j < |sorted| ::
          sorted[i].name == sorted[j].name || Before(sorted[i].name, sorted[j].name))
    && (forall name :: Filter(sorted, Named(name)) == Filter(ks, Named(name)))
  }

  /** The kernels follow each other whole, each behind its name. */
  lemma {:induction false} KernelsFollow(xs: seq<Kernel>, ys: seq<Kernel>)
    ensures KernelLines(xs + ys) == KernelLines(xs) + KernelLines(ys)
    ensures forall k: Kernel :: KernelLines([k]) == [Header(k.name)] + CodeLines(k.instructions)
  {
    forall k: Kernel ensures KernelLines([k]) == [Header(k.name)] + CodeLines(k.instructions) {
      assert [k][1..] == [] && KernelLines([]) == [];
    }
    if xs == [] {
      assert xs + ys == ys;
    } else {
      KernelsFollow(xs[1..], ys);
      assert (xs + ys)[1..] == xs[1..] + ys;
    }
  }

  lemma SortedByName(ks: seq<Kernel>)
    ensures NameOrder(ks, StableSort(ks, NameLeq))
  {
    var sorted := StableSort(ks, NameLeq);
    NamesAreOrdered(ks);
    StableSortSorted(ks, NameLeq);
    forall i, j | 0 <= i < j < |sorted|
      ensures sorted[i].name == sorted[j].name || Before(sorted[i].name, sorted[j].name)
    {
      assert NameLeq(sorted[i], sorted[j]);
      StringLeqExactly(sorted[i].name, sorted[j].name);
    }
    hide StringLeq, Before, Filter;
    forall name ensures Filter(sorted, Named(name)) == Filter(ks, Named(name)) { SortKeepsNamed(ks, name); }
  }

  /** A listing is its kernels, whole, in the order of their names. */
  lemma ListingShows(arch: string, ks: seq<Kernel>)
    ensures exists sorted :: NameOrder(ks, sorted) && Listing(arch, ks) == [Arch(arch)] + KernelLines(sorted) + [Last]
  {
    var sorted := StableSort(ks, NameLeq);
    assert Listing(arch, ks) == [Arch(arch)] + KernelLines(sorted) + [Last];
    hide KernelLines, Listing;
    SortedByName(ks);
  }

  lemma NamesAreOrdered(ks: seq<Kernel>)
    ensures TotalOn(ks, NameLeq) && TransitiveOn(ks, NameLeq)
  {
    forall a, b | a in ks && b in ks ensures NameLeq(a, b) || NameLeq(b, a) {
      StringLeqTotal(a.name, b.name);
    }
    forall a, b, c | a in ks && b in ks && c in ks && NameLeq(a, b) && NameLeq(b, c) ensures NameLeq(a, c) {
      StringLeqTransitive(a.name, b.name, c.name);
    }
  }

  function LeadingCode(lines: seq<Line>): nat {
    if lines != [] && lines[0].Code? then 1 + LeadingCode(lines[1..]) else 0
  }

  /** The instructions of a kernel end where the next header or the end of the listing begins. */
  lemma {:induction false} CodeEnds(a: Body, r: seq<Line>)
    requires r == [] || !r[0].Code?
    ensures LeadingCode(CodeLines(a) + r) == |a|
  {
    if a == [] {
      assert CodeLines(a) + r == r;
    } else {
      CodeEnds(a[1..], r);
      assert (CodeLines(a) + r)[1..] == CodeLines(a[1..]) + r;
    }
  }

  lemma CodeSplits(a: Body, b: Body, r: seq<Line>, s: seq<Line>)
    requires CodeLines(a) + r == CodeLines(b) + s
    requires (r == [] || !r[0].Code?) && (s == [] || !s[0].Code?)
    ensures a == b && r == s
  {
    CodeEnds(a, r);
    CodeEnds(b, s);
    var x, y := CodeLines(a) + r, CodeLines(b) + s;
    assert r == x[|a|..] && s == y[|b|..];
    forall k | 0 <= k < |a| ensures a[k] == b[k] {
      assert x[k] == y[k];
    }
  }

  /** Different lists of kernels print different lines. */
  lemma {:induction false} LinesDetermineKernels(xs: seq<Kernel>, ys: seq<Kernel>)
    requires KernelLines(xs) == KernelLines(ys)
    ensures xs == ys
  {
    if xs != [] && ys != [] {
      var x, y := KernelLines(xs), KernelLines(ys);
      assert x[0] == Header(xs[0].name) && y[0] == Header(ys[0].name);
      assert x[1..] == CodeLines(xs[0].instructions) + KernelLines(xs[1..]);
      assert y[1..] == CodeLines(ys[0].instructions) + KernelLines(ys[1..]);
      CodeSplits(xs[0].instructions, ys[0].instructions, KernelLines(xs[1..]), KernelLines(ys[1..]));
      LinesDetermineKernels(xs[1..], ys[1..]);
      assert xs == [xs[0]] + xs[1..] && ys == [ys[0]] + ys[1..];
    }
  }

  lemma ListingDeterminesSort(arch: string, xs: seq<Kernel>, ys: seq<Kernel>)
    ensures Listing(arch, xs) == Listing(arch, ys) <==> StableSort(xs, NameLeq) == StableSort(ys, NameLeq)
  {
    var a, b := KernelLines(StableSort(xs, NameLeq)), KernelLines(StableSort(ys, NameLeq));
    hide StableSort, KernelLines;
    if Listing(arch, xs) == Listing(arch, ys) {
      assert a == Listing(arch, xs)[1..|a| + 1] && b == Listing(arch, ys)[1..|b| + 1];
      LinesDetermineKernels(StableSort(xs, NameLeq), StableSort(ys, NameLeq));
    }
  }

  function Named(name: string): Kernel -> bool { (k: Kernel) => k.name == name }

  /** Exchanging two different kernels of one name shows: the sort keeps them as emitted. */
  lemma ExchangeShows(arch: string, ks: seq<Kernel>, i: nat, j: nat)
    requires i < j < |ks| && ks[i].name == ks[j].name && ks[i] != ks[j]
    ensures multiset(ks[i := ks[j]][j := ks[i]]) == multiset(ks)
    ensures Listing(arch, ks[i := ks[j]][j := ks[i]]) != Listing(arch, ks)
  {
    var other, name := ks[i := ks[j]][j := ks[i]], ks[i].name;
    hide *;
    assert other[..i] == ks[..i] && other[i] == ks[j];
    FirstNamedDiffers(ks, other, name, i);
    SortKeepsNamed(ks, name);
    SortKeepsNamed(other, name);
    ListingDeterminesSort(arch, other, ks);
  }

  lemma FirstNamedDiffers(xs: seq<Kernel>, ys: seq<Kernel>, name: string, i: nat)
    requires i < |xs| && i < |ys| && xs[..i] == ys[..i] && xs[i] != ys[i] && xs[i].name == name == ys[i].name
    ensures Filter(xs, Named(name)) != Filter(ys, Named(name))
  {
    var before := Filter(xs[..i], Named(name));
    FilterFrom(xs, Named(name), i);
    FilterFrom(ys, Named(name), i);
    hide Filter;
    assert Filter(xs, Named(name))[|before|] == xs[i] && Filter(ys, Named(name))[|before|] == ys[i];
  }

  lemma SortKeepsNamed(ks: seq<Kernel>, name: string)
    ensures Filter(StableSort(ks, NameLeq), Named(name)) == Filter(ks, Named(name))
  {
    StringLeqTotal(name, name);
    SortIsStable(ks, NameLeq, Named(name));
  }

  lemma {:induction false} FilterFrom(ks: seq<Kernel>, keep: Kernel -> bool, i: nat)
    requires i < |ks| && keep(ks[i])
    ensures Filter(ks, keep) == Filter(ks[..i], keep) + [ks[i]] + Filter(ks[i + 1..], keep)
  {
    if i > 0 {
      FilterFrom(ks[1..], keep, i - 1);
      assert ks[1..][..i - 1] == ks[..i][1..] && ks[1..][i..] == ks[i + 1..];
    }
  }

  lemma OrderShows(arch: string, ks: seq<Kernel>, i: nat, j: nat)
    requires i < j < |ks| && ks[i].name == ks[j].name && ks[i] != ks[j]
    ensures exists other :: multiset(other) == multiset(ks) && Listing(arch, other) != Listing(arch, ks)
  {
    ExchangeShows(arch, ks, i, j);
  }

  /** No order of emission shows in the listing exactly when kernels of one name are equal. */
  lemma EmissionOrderShowsExactly(arch: string, ks: seq<Kernel>)
    ensures (forall other | multiset(other) == multiset(ks) :: Listing(arch, other) == Listing(arch, ks))
            <==> NamesIdentify(ks)
  {
    hide Listing;
    if NamesIdentify(ks) {
      forall other | multiset(other) == multiset(ks) ensures Listing(arch, other) == Listing(arch, ks) {
        EmissionOrderIsInvisible(arch, ks, other);
      }
    } else {
      var a, b :| a in ks && b in ks && a.name == b.name && a != b;
      var i :| 0 <= i < |ks| && ks[i] == a;
      var j :| 0 <= j < |ks| && ks[j] == b;
      if i < j { OrderShows(arch, ks, i, j); } else { OrderShows(arch, ks, j, i); }
    }
  }

  /** Two kernels of one name show their order exactly when they differ. */
  lemma SameNameShowsOrder(arch: string, a: Kernel, b: Kernel)
    requires a.name == b.name
    ensures Listing(arch, [a, b]) == Listing(arch, [b, a]) <==> a == b
  {
    hide *;
    if a != b {
      ExchangeShows(arch, [a, b], 0, 1);
      assert [a, b][0 := b][1 := a] == [b, a];
    }
  }
}
