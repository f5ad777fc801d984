/** Fitting diff excerpts into the byte budget of a pull-request comment. */
module CommentBudget {
  import opened Numerals
  import opened Sorting
  import opened Utf8
  import opened Wrappers

  const MAX_COMMENT_BYTES := 60000
  const MAX_DIFF_BLOCKS := 10

  /** The length of a character in UTF-8. */
  function CharBytes(c: char): nat {
    if c as int < 0x80 then 1 else if c as int < 0x800 then 2 else if c as int < 0x1_0000 then 3 else 4
  }

  function Bytes(s: string): nat {
    if s == "" then 0 else CharBytes(s[0]) + Bytes(s[1..])
  }

  /** `"\n".join(lines)`. */
  function Join(lines: seq<string>): string {
    if lines == [] then "" else if |lines| == 1 then lines[0] else lines[0] + "\n" + Join(lines[1..])
  }

  /** The count is that of the encoded text. */
  lemma {:induction false} BytesAreEncoded(s: string)
    ensures Bytes(s) == |Encode(s)|
  {
    if s != "" { BytesAreEncoded(s[1..]); }
  }

  /** The lines of a text. */
  function Lines(text: string): (r: seq<string>)
    ensures r != []
  {
    if text == "" then [""]
    else
      var rest := Lines(text[1..]);
      if text[0] == '\n' then [""] + rest else [[text[0]] + rest[0]] + rest[1..]
  }

  lemma {:induction false} FirstLine(line: string, rest: string)
    requires '\n' !in line
    ensures Lines(line + "\n" + rest) == [line] + Lines(rest)
    ensures Lines(line) == [line]
  {
    if line == "" {
      assert ("" + "\n" + rest)[1..] == rest;
    } else {
      FirstLine(line[1..], rest);
      assert (line + "\n" + rest)[1..] == line[1..] + "\n" + rest;
      assert line == [line[0]] + line[1..];
    }
  }

  /** Joined lines are the lines of the text. */
  lemma {:induction false} JoinedLines(lines: seq<string>)
    requires lines != [] && forall line | line in lines :: '\n' !in line
    ensures Lines(Join(lines)) == lines
  {
    if |lines| == 1 {
      FirstLine(lines[0], "");
    } else {
      JoinedLines(lines[1..]);
      FirstLine(lines[0], Join(lines[1..]));
    }
  }

  lemma {:induction false} BytesOfSum(a: string, b: string)
    ensures Bytes(a + b) == Bytes(a) + Bytes(b)
  {
    if a == "" {
      assert a + b == b;
    } else {
      BytesOfSum(a[1..], b);
      assert (a + b)[1..] == a[1..] + b;
    }
  }

  /** Joining two nonempty lists costs one byte for the newline between them. */
  lemma {:induction false} JoinBytes(xs: seq<string>, ys: seq<string>)
    requires xs != [] && ys != []
    ensures Bytes(Join(xs + ys)) == Bytes(Join(xs)) + 1 + Bytes(Join(ys))
  {
    var all := xs + ys;
    BytesOfSum(xs[0] + "\n", Join(all[1..]));
    BytesOfSum(xs[0], "\n");
    assert Bytes("\n") == 1 by { assert "\n"[1..] == ""; }
    if |xs| == 1 {
      assert all[1..] == ys;
    } else {
      assert all[1..] == xs[1..] + ys;
      JoinBytes(xs[1..], ys);
      BytesOfSum(xs[0] + "\n", Join(xs[1..]));
    }
  }

  // What to show.

  /** An architecture of a changed target: whether it has a diff, its rank, and its rendered block. */
  datatype Arch = Arch(name: string, hasDiff: bool, rank: int, block: seq<string>)

  datatype Target = Target(name: string, archs: seq<Arch>)

  /** The first architecture with a diff whose rank no other one with a diff undercuts. */
  ghost predicate IsBest(archs: seq<Arch>, i: nat) {
    && i < |archs| && archs[i].hasDiff
    && (forall j | 0 <= j < |archs| && archs[j].hasDiff :: archs[i].rank <= archs[j].rank)
    && (forall j | 0 <= j < i && archs[j].hasDiff :: archs[i].rank < archs[j].rank)
  }

  method BestArch(archs: seq<Arch>) returns (best: Option<nat>)
    ensures best.Some? ==> IsBest(archs, best.value)
    ensures best.None? <==> forall j | 0 <= j < |archs| :: !archs[j].hasDiff
  {
    best := None;
    for i: nat := 0 to |archs|
      invariant best.Some? ==> best.value < i && IsBest(archs[..i], best.value)
      invariant best.None? ==> forall j | 0 <= j < i :: !archs[j].hasDiff
    {
      if archs[i].hasDiff && (best.None? || archs[i].rank < archs[best.value].rank) { best := Some(i); }
    }
    assert archs[..|archs|] == archs;
  }

  datatype Entry = Entry(target: string, arch: Arch)

  predicate RankLeq(a: Entry, b: Entry) { a.arch.rank <= b.arch.rank }

  /** One entry for each target with a diff, in target order, for the target's best architecture. */
  ghost predicate Chosen(targets: seq<Target>, n: nat, entries: seq<Entry>)
    requires n <= |targets|
  {
    if n == 0 then entries == []
    else
      var t := targets[n - 1];
      if exists i: nat :: IsBest(t.archs, i) then
        && entries != []
        && (exists i: nat :: IsBest(t.archs, i) && entries[|entries| - 1] == Entry(t.name, t.archs[i]))
        && Chosen(targets, n - 1, entries[..|entries| - 1])
      else Chosen(targets, n - 1, entries)
  }

  method Choose(targets: seq<Target>) returns (entries: seq<Entry>)
    ensures Chosen(targets, |targets|, entries)
  {
    entries := [];
    for n := 0 to |targets|
      invariant Chosen(targets, n, entries)
    {
      var t := targets[n];
      var best := BestArch(t.archs);
      if best.Some? {
        var more := entries + [Entry(t.name, t.archs[best.value])];
        assert more[..|more| - 1] == entries;
        entries := more;
      }
    }
  }

  // The section of diffs.

  const HEADING := ["", "## \U{203C}\U{FE0F}  Summary of Differences \U{203C}\U{FE0F} ", ""]

  function SummaryLine(shown: nat, total: nat): string {
    "Showing " + Digits(shown) + "/" + Digits(total) + " summaries."
  }

  function Header(shown: nat, total: nat): seq<string> {
    HEADING + [SummaryLine(shown, total)]
  }

  lemma {:induction false} DigitsGrow(a: nat, b: nat)
    requires a <= b
    ensures Bytes(Digits(a)) <= Bytes(Digits(b))
    decreases b
  {
    DigitBytes(a);
    DigitBytes(b);
    if a >= 10 { DigitsGrow(a / 10, b / 10); }
  }

  lemma DigitBytes(n: nat)
    ensures Bytes(Digits(n)) == 1 + if n < 10 then 0 else Bytes(Digits(n / 10))
  {
    var last := '0' + (n % 10) as char;
    BytesOfSum(if n < 10 then "" else Digits(n / 10), [last]);
    assert Digits(n) == (if n < 10 then "" else Digits(n / 10)) + [last];
    assert [last][1..] == "";
    assert Bytes([last]) == CharBytes(last) == 1;
  }

  /** Naming fewer shown blocks never lengthens the header. */
  lemma HeaderShrinks(shown: nat, more: nat, total: nat)
    requires shown <= more
    ensures Bytes(Join(Header(shown, total))) <= Bytes(Join(Header(more, total)))
  {
    DigitsGrow(shown, more);
    HeaderBytes(shown, total);
    HeaderBytes(more, total);
  }

  lemma HeaderBytes(shown: nat, total: nat)
    ensures Bytes(Join(Header(shown, total))) == Bytes(Join(HEADING)) + 1
              + Bytes("Showing ") + Bytes(Digits(shown)) + Bytes("/" + Digits(total) + " summaries.")
  {
    var a, b, c := "Showing ", Digits(shown), "/" + Digits(total) + " summaries.";
    assert SummaryLine(shown, total) == a + b + c;
    hide Bytes, Digits, SummaryLine;
    JoinBytes(HEADING, [SummaryLine(shown, total)]);
    hide Join;
    JoinOne(SummaryLine(shown, total));
    BytesOfSum(a + b, c);
    BytesOfSum(a, b);
  }

  lemma JoinOne(line: string)
    ensures Join([line]) == line
  {
  }

  function Flatten(entries: seq<Entry>): seq<string> {
    if entries == [] then [] else Flatten(entries[..|entries| - 1]) + entries[|entries| - 1].arch.block
  }

  /** Blocks follow each other whole and in order. */
  lemma {:induction false} FlattenIsConcatenation(xs: seq<Entry>, ys: seq<Entry>)
    ensures Flatten(xs + ys) == Flatten(xs) + Flatten(ys)
    ensures |xs| == 1 ==> Flatten(xs) == xs[0].arch.block
  {
    if |xs| == 1 { assert xs[..0] == []; }
    if ys == [] {
      assert xs + ys == xs;
    } else {
      var n := |ys| - 1;
      FlattenIsConcatenation(xs, ys[..n]);
      assert (xs + ys)[..|xs + ys| - 1] == xs + ys[..n];
    }
  }

  /** What the blocks take from the budget, each with the newline in front of it. */
  function Cost(entries: seq<Entry>): nat {
    if entries == [] then 0
    else Cost(entries[..|entries| - 1]) + Bytes(Join(entries[|entries| - 1].arch.block)) + 1
  }

  lemma {:induction false} SectionBytes(top: seq<string>, entries: seq<Entry>)
    requires top != [] && forall e | e in entries :: e.arch.block != []
    ensures Bytes(Join(top + Flatten(entries))) == Bytes(Join(top)) + Cost(entries)
  {
    hide Bytes, Join;
    if entries == [] {
      assert top + Flatten(entries) == top;
    } else {
      var rest, e := entries[..|entries| - 1], entries[|entries| - 1];
      assert e in entries && forall x | x in rest :: x in entries;
      SectionBytes(top, rest);
      JoinBytes(top + Flatten(rest), e.arch.block);
      assert Flatten(entries) == Flatten(rest) + e.arch.block;
      assert Cost(entries) == Cost(rest) + Bytes(Join(e.arch.block)) + 1;
      hide Flatten, Cost;
      assert top + (Flatten(rest) + e.arch.block) == top + Flatten(rest) + e.arch.block;
    }
  }

  /** The first `shown` of the ranked entries fit the budget, and the next one would not, or is past the limit. */
  ghost predicate FillsBudget(ranked: seq<Entry>, budget: int, shown: nat) {
    && shown <= |ranked| && shown <= MAX_DIFF_BLOCKS
    && (shown > 0 ==> Bytes(Join(Header(|ranked|, |ranked|))) + Cost(ranked[..shown]) <= budget)
    && (shown == |ranked| || shown == MAX_DIFF_BLOCKS
        || Bytes(Join(Header(|ranked|, |ranked|))) + Cost(ranked[..shown + 1]) > budget)
  }

  /** The section of diffs after `shown` blocks; without entries there is none. */
  function Section(entries: seq<Entry>, shown: nat): seq<string>
    requires shown <= |entries|
  {
    if entries == [] then [] else Header(shown, |entries|) + Flatten(StableSort(entries, RankLeq)[..shown])
  }

  /** `lines` shows the first `shown` entries, and the budget allows those and no more. */
  ghost predicate IsSection(entries: seq<Entry>, budget: int, shown: nat, lines: seq<string>) {
    && shown <= |entries| && lines == Section(entries, shown)
    && (entries != [] ==> FillsBudget(StableSort(entries, RankLeq), budget, shown))
  }

  /** `_render_diffs`: a prefix of the stable rank order, as long as the budget lasts. */
  method RenderDiffs(entries: seq<Entry>, budget: int) returns (lines: seq<string>)
    ensures exists shown: nat :: IsSection(entries, budget, shown, lines)
  {
    hide Bytes, Join, Header, StableSort, RankLeq;
    if entries == [] {
      lines := [];
      assert IsSection(entries, budget, 0, lines);
      return;
    }
    var ranked := StableSort(entries, RankLeq);
    var left := budget - Bytes(Join(Header(|ranked|, |ranked|)));
    var blocks: seq<string> := [];
    var limit: nat := if |ranked| < MAX_DIFF_BLOCKS then |ranked| else MAX_DIFF_BLOCKS;
    var count: nat := 0;
    while count < limit
      invariant count <= limit
      invariant blocks == Flatten(ranked[..count])
      invariant left == budget - Bytes(Join(Header(|ranked|, |ranked|))) - Cost(ranked[..count])
      invariant count > 0 ==> left >= 0
    {
      var block := ranked[count].arch.block;
      assert ranked[..count + 1][..count] == ranked[..count];
      left := left - (Bytes(Join(block)) + 1);
      if left < 0 { break; }
      blocks := blocks + block;
      count := count + 1;
    }
    lines := Header(count, |entries|) + blocks;
    assert IsSection(entries, budget, count, lines);
  }

  /** The comment shows the first `shown` of the chosen entries between the fixed lines and an empty line. */
  ghost predicate IsComment(fixed: seq<string>, targets: seq<Target>, entries: seq<Entry>, shown: nat,
                            lines: seq<string>) {
    && Chosen(targets, |targets|, entries) && shown <= |entries|
    && IsSection(entries, MAX_COMMENT_BYTES - Bytes(Join(fixed)), shown, Section(entries, shown))
    && lines == fixed + (Section(entries, shown) + [""])
  }

  /** The end of `render`: the fixed lines, the section and a closing empty line. */
  method Render(fixed: seq<string>, targets: seq<Target>) returns (lines: seq<string>)
    ensures exists entries, shown: nat :: IsComment(fixed, targets, entries, shown, lines)
  {
    hide Bytes, Join, Chosen, Section, FillsBudget, StableSort, IsComment, IsSection;
    var entries := Choose(targets);
    var budget := MAX_COMMENT_BYTES - Bytes(Join(fixed));
    var section := RenderDiffs(entries, budget);
    lines := fixed + (section + [""]);
    ghost var shown: nat :| IsSection(entries, budget, shown, section);
    IsCommentOf(fixed, targets, entries, shown, section);
  }

  lemma IsCommentOf(fixed: seq<string>, targets: seq<Target>, entries: seq<Entry>, shown: nat, section: seq<string>)
    requires Chosen(targets, |targets|, entries)
    requires IsSection(entries, MAX_COMMENT_BYTES - Bytes(Join(fixed)), shown, section)
    ensures IsComment(fixed, targets, entries, shown, fixed + (section + [""]))
  {
    hide Bytes, Join, Chosen, Section, FillsBudget, StableSort;
  }

  /** What the section of diffs adds to the fixed lines, with the newlines around it. */
  function SectionSize(entries: seq<Entry>, shown: nat): nat
    requires shown <= |entries|
  {
    if entries == [] then 1
    else Bytes(Join(Header(shown, |entries|))) + Cost(StableSort(entries, RankLeq)[..shown]) + 2
  }

  lemma SizeIs(fixed: seq<string>, targets: seq<Target>, entries: seq<Entry>, shown: nat, lines: seq<string>)
    requires fixed != [] && forall t | t in targets :: forall a | a in t.archs && a.hasDiff :: a.block != []
    requires IsComment(fixed, targets, entries, shown, lines)
    ensures shown <= |entries|
    ensures Bytes(Join(lines)) == Bytes(Join(fixed)) + SectionSize(entries, shown)
  {
    ChosenBlocks(targets, |targets|, entries);
    var ranked := StableSort(entries, RankLeq);
    RankedBlocks(entries);
    hide Bytes, Join, Header, Cost, Flatten, Chosen, FillsBudget, StableSort;
    if entries == [] {
      OnlyFixed(fixed);
    } else {
      CommentSize(fixed, ranked, shown);
    }
  }

  /** The entries in an order of rank that keeps ties as they were. */
  ghost predicate RankedOrder(entries: seq<Entry>, ranked: seq<Entry>) {
    && multiset(ranked) == multiset(entries)
    && (forall k, l | 0 <= k < l < |ranked| :: ranked[k].arch.rank <= ranked[l].arch.rank)
    && (forall rank :: Filter(ranked, OfRank(rank)) == Filter(entries, OfRank(rank)))
  }

  function OfRank(rank: int): Entry -> bool { (e: Entry) => e.arch.rank == rank }

  lemma LinesShown(fixed: seq<string>, targets: seq<Target>, entries: seq<Entry>, shown: nat, lines: seq<string>)
    requires IsComment(fixed, targets, entries, shown, lines) && entries != []
    ensures var ranked := StableSort(entries, RankLeq);
            && shown <= |entries| == |ranked| && shown <= MAX_DIFF_BLOCKS
            && lines == fixed + (Header(shown, |entries|) + Flatten(ranked[..shown]) + [""])
  {
    hide Bytes, Join, Chosen, Flatten, StableSort, Cost, Header;
  }

  lemma HeaderIs(shown: nat, total: nat)
    ensures Header(shown, total) ==
            ["", "## \U{203C}\U{FE0F}  Summary of Differences \U{203C}\U{FE0F} ", "",
             "Showing " + Digits(shown) + "/" + Digits(total) + " summaries."]
  {
  }

  /**
   * What a comment with entries says: how many blocks of how many it shows, and those blocks, which no dropped
   * entry outranks.
   */
  lemma CommentShows(fixed: seq<string>, targets: seq<Target>, entries: seq<Entry>, shown: nat, lines: seq<string>)
    requires IsComment(fixed, targets, entries, shown, lines) && entries != []
    ensures exists ranked ::
              && RankedOrder(entries, ranked) && shown <= |ranked| && shown <= 10
              && lines == fixed + ["", "## \U{203C}\U{FE0F}  Summary of Differences \U{203C}\U{FE0F} ", "",
                                   "Showing " + Digits(shown) + "/" + Digits(|entries|) + " summaries."]
                          + Flatten(ranked[..shown]) + [""]
  {
    var ranked := StableSort(entries, RankLeq);
    ShownInStableOrder(entries);
    LinesShown(fixed, targets, entries, shown, lines);
    HeaderIs(shown, |entries|);
    hide *;
    assert fixed + (Header(shown, |entries|) + Flatten(ranked[..shown]) + [""]) ==
           fixed + Header(shown, |entries|) + Flatten(ranked[..shown]) + [""];
  }

  /** The entries shown are ordered by rank, and ties keep the order the targets came in. */
  lemma ShownInStableOrder(entries: seq<Entry>)
    ensures RankedOrder(entries, StableSort(entries, RankLeq))
  {
    var ranked := StableSort(entries, RankLeq);
    StableSortSorted(entries, RankLeq);
    forall k, l | 0 <= k < l < |ranked| ensures ranked[k].arch.rank <= ranked[l].arch.rank {
      assert RankLeq(ranked[k], ranked[l]);
    }
    forall rank ensures Filter(ranked, OfRank(rank)) == Filter(entries, OfRank(rank)) {
      SortIsStable(entries, RankLeq, OfRank(rank));
    }
  }

  /**
   * As many blocks are shown as there are, up to ten, while the fixed lines, the longest header and the blocks
   * take at most 60,000 bytes.
   */
  lemma CommentFillsLimit(fixed: seq<string>, targets: seq<Target>, entries: seq<Entry>, shown: nat,
                          lines: seq<string>)
    requires forall t | t in targets :: forall a | a in t.archs && a.hasDiff :: a.block != []
    requires IsComment(fixed, targets, entries, shown, lines) && entries != []
    ensures var ranked, total := StableSort(entries, RankLeq), |entries|;
            && shown <= total == |ranked|
            && (shown > 0 ==>
                  Bytes(Join(fixed)) + Bytes(Join(Header(total, total) + Flatten(ranked[..shown]))) <= 60_000)
            && (shown < total && shown < 10 ==>
                  Bytes(Join(fixed)) + Bytes(Join(Header(total, total) + Flatten(ranked[..shown + 1]))) > 60_000)
  {
    var ranked, total := StableSort(entries, RankLeq), |entries|;
    CommentFills(fixed, targets, entries, shown, lines);
    assert |ranked| == total;
    hide *;
    ChosenBlocks(targets, |targets|, entries);
    RankedBlocks(entries);
    BlocksTake(ranked, total, shown);
    if shown < total { BlocksTake(ranked, total, shown + 1); }
    FilledMeans(ranked, MAX_COMMENT_BYTES - Bytes(Join(fixed)), shown);
  }

  lemma BlocksTake(ranked: seq<Entry>, total: nat, n: nat)
    requires n <= |ranked| && forall e | e in ranked :: e.arch.block != []
    ensures Bytes(Join(Header(total, total) + Flatten(ranked[..n]))) ==
            Bytes(Join(Header(total, total))) + Cost(ranked[..n])
  {
    hide Bytes, Join, Flatten, Cost;
    assert forall e | e in ranked[..n] :: e in ranked;
    SectionBytes(Header(total, total), ranked[..n]);
  }

  lemma FilledMeans(ranked: seq<Entry>, budget: int, shown: nat)
    requires FillsBudget(ranked, budget, shown)
    ensures shown <= |ranked|
    ensures shown > 0 ==> Bytes(Join(Header(|ranked|, |ranked|))) + Cost(ranked[..shown]) <= budget
    ensures shown < |ranked| && shown < 10 ==>
              Bytes(Join(Header(|ranked|, |ranked|))) + Cost(ranked[..shown + 1]) > budget
  {
    hide Bytes, Join, Header, Cost;
  }

  // The comment is determined by the fixed lines and the targets.

  lemma {:induction false} CostGrows(entries: seq<Entry>, a: nat, b: nat)
    requires a <= b <= |entries|
    ensures Cost(entries[..a]) <= Cost(entries[..b])
  {
    if a < b {
      CostGrows(entries, a, b - 1);
      assert entries[..b][..b - 1] == entries[..b - 1];
    }
  }

  /** Only one number of blocks fills the budget: a shorter prefix leaves room for its next block. */
  lemma ShownIsDetermined(ranked: seq<Entry>, budget: int, x: nat, y: nat)
    requires FillsBudget(ranked, budget, x) && FillsBudget(ranked, budget, y)
    ensures x == y
  {
    hide Bytes, Join, Header, Cost;
    if x < y { CostGrows(ranked, x + 1, y); }
    if y < x { CostGrows(ranked, y + 1, x); }
  }

  /** The largest number of blocks, up to `limit`, that fit the budget under the longest header. */
  ghost function Fitting(ranked: seq<Entry>, budget: int, limit: nat): (r: nat)
    requires limit <= |ranked|
    ensures r <= limit
  {
    if limit == 0 || Bytes(Join(Header(|ranked|, |ranked|))) + Cost(ranked[..limit]) <= budget then limit
    else Fitting(ranked, budget, limit - 1)
  }

  lemma {:induction false} FittingIsShown(ranked: seq<Entry>, budget: int, limit: nat, shown: nat)
    requires FillsBudget(ranked, budget, shown) && shown <= limit <= |ranked| && limit <= MAX_DIFF_BLOCKS
    ensures Fitting(ranked, budget, limit) == shown
  {
    hide Bytes, Join, Header, Cost;
    if shown < limit {
      CostGrows(ranked, shown + 1, limit);
      FittingIsShown(ranked, budget, limit - 1, shown);
    }
  }

  /** The first best architecture of every target with a diff, in target order. */
  ghost function BestEntries(targets: seq<Target>, n: nat): seq<Entry>
    requires n <= |targets|
  {
    if n == 0 then []
    else
      var t, rest := targets[n - 1], BestEntries(targets, n - 1);
      if i: nat :| IsBest(t.archs, i) then rest + [Entry(t.name, t.archs[i])] else rest
  }

  lemma {:induction false} ChosenAreBest(targets: seq<Target>, n: nat, entries: seq<Entry>)
    requires n <= |targets| && Chosen(targets, n, entries)
    ensures entries == BestEntries(targets, n)
  {
    if n > 0 {
      var t := targets[n - 1];
      if exists i: nat :: IsBest(t.archs, i) {
        ChosenAreBest(targets, n - 1, entries[..|entries| - 1]);
        assert entries == entries[..|entries| - 1] + [entries[|entries| - 1]];
      } else {
        ChosenAreBest(targets, n - 1, entries);
      }
    }
  }

  /** How many blocks a comment shows, from its fixed lines and targets. */
  ghost function BlocksShown(fixed: seq<string>, targets: seq<Target>): nat {
    var entries := BestEntries(targets, |targets|);
    Fitting(StableSort(entries, RankLeq), MAX_COMMENT_BYTES - Bytes(Join(fixed)),
            if |entries| < MAX_DIFF_BLOCKS then |entries| else MAX_DIFF_BLOCKS)
  }

  /** What the fixed lines and the targets make the size of the comment. */
  ghost function SizeOfComment(fixed: seq<string>, targets: seq<Target>): nat {
    Bytes(Join(fixed)) + SectionSize(BestEntries(targets, |targets|), BlocksShown(fixed, targets))
  }

  lemma ShownAreBlocksShown(fixed: seq<string>, targets: seq<Target>, entries: seq<Entry>, shown: nat,
                            lines: seq<string>)
    requires IsComment(fixed, targets, entries, shown, lines)
    ensures entries == BestEntries(targets, |targets|) && shown == BlocksShown(fixed, targets)
  {
    var budget := MAX_COMMENT_BYTES - Bytes(Join(fixed));
    hide *;
    CommentFills(fixed, targets, entries, shown, lines);
    ChosenAreBest(targets, |targets|, entries);
    BlocksShownIs(fixed, targets);
    var limit := if |entries| < MAX_DIFF_BLOCKS then |entries| else MAX_DIFF_BLOCKS;
    if entries == [] {
      NoneFitting(StableSort(entries, RankLeq), budget);
    } else {
      FittingIsShown(StableSort(entries, RankLeq), budget, limit, shown);
    }
  }

  lemma CommentFills(fixed: seq<string>, targets: seq<Target>, entries: seq<Entry>, shown: nat, lines: seq<string>)
    requires IsComment(fixed, targets, entries, shown, lines)
    ensures Chosen(targets, |targets|, entries) && shown <= |entries|
    ensures entries != [] ==>
              && shown <= MAX_DIFF_BLOCKS
              && FillsBudget(StableSort(entries, RankLeq), MAX_COMMENT_BYTES - Bytes(Join(fixed)), shown)
  {
    hide Bytes, Join, Header, Cost, Section, Chosen, StableSort;
  }

  lemma NoneFitting(ranked: seq<Entry>, budget: int)
    ensures Fitting(ranked, budget, 0) == 0
  {
  }

  lemma BlocksShownIs(fixed: seq<string>, targets: seq<Target>)
    ensures var entries := BestEntries(targets, |targets|);
            BlocksShown(fixed, targets) ==
            Fitting(StableSort(entries, RankLeq), MAX_COMMENT_BYTES - Bytes(Join(fixed)),
                    if |entries| < MAX_DIFF_BLOCKS then |entries| else MAX_DIFF_BLOCKS)
  {
    hide Bytes, Join, BestEntries, StableSort, Fitting;
  }

  lemma CommentIsDetermined(fixed: seq<string>, targets: seq<Target>, xs: seq<Entry>, ys: seq<Entry>,
                            x: nat, y: nat, xLines: seq<string>, yLines: seq<string>)
    requires IsComment(fixed, targets, xs, x, xLines) && IsComment(fixed, targets, ys, y, yLines)
    ensures xs == ys && x == y && xLines == yLines
  {
    ShownAreBlocksShown(fixed, targets, xs, x, xLines);
    ShownAreBlocksShown(fixed, targets, ys, y, yLines);
  }

  /** Every comment has the size its fixed lines and targets make it, and keeps the limit exactly when that does. */
  lemma CommentKeepsLimit(fixed: seq<string>, targets: seq<Target>, lines: seq<string>)
    requires fixed != [] && forall t | t in targets :: forall a | a in t.archs && a.hasDiff :: a.block != []
    requires exists entries, shown: nat :: IsComment(fixed, targets, entries, shown, lines)
    ensures Bytes(Join(lines)) <= 60_000 <==> SizeOfComment(fixed, targets) <= 60_000
    ensures Bytes(Join(lines)) == SizeOfComment(fixed, targets)
  {
    var entries, shown: nat :| IsComment(fixed, targets, entries, shown, lines);
    hide *;
    SizeIs(fixed, targets, entries, shown, lines);
    ShownAreBlocksShown(fixed, targets, entries, shown, lines);
    SizeOfCommentIs(fixed, targets);
  }

  lemma SizeOfCommentIs(fixed: seq<string>, targets: seq<Target>)
    ensures BlocksShown(fixed, targets) <= |BestEntries(targets, |targets|)|
    ensures SizeOfComment(fixed, targets) ==
            Bytes(Join(fixed)) + SectionSize(BestEntries(targets, |targets|), BlocksShown(fixed, targets))
  {
    hide Bytes, Join, BestEntries, StableSort, SectionSize, Fitting;
  }

  /**
   * A comment is at most two bytes over its limit exactly when the fixed lines and a header that names
   * no block fit the limit; without entries exactly when the fixed lines are at most one byte over.
   */
  lemma CommentFits(fixed: seq<string>, targets: seq<Target>, entries: seq<Entry>, shown: nat, lines: seq<string>)
    requires fixed != [] && forall t | t in targets :: forall a | a in t.archs && a.hasDiff :: a.block != []
    requires IsComment(fixed, targets, entries, shown, lines)
    ensures Bytes(Join(lines)) <= 60_002 <==>
            Bytes(Join(fixed)) + (if entries == [] then -1 else Bytes(Join(Header(0, |entries|)))) <= 60_000
  {
    SizeIs(fixed, targets, entries, shown, lines);
    HeaderShrinks(shown, |entries|, |entries|);
    HeaderShrinks(0, |entries|, |entries|);
    hide Bytes, Join, Header, Chosen, StableSort;
    assert shown == 0 ==> StableSort(entries, RankLeq)[..shown] == [];
  }

  lemma OnlyFixed(fixed: seq<string>)
    requires fixed != []
    ensures Bytes(Join(fixed + (Section([], 0) + [""]))) == Bytes(Join(fixed)) + 1
  {
    assert Section([], 0) + [""] == [""];
    JoinBytes(fixed, [""]);
  }

  lemma {:induction false} ChosenBlocks(targets: seq<Target>, n: nat, entries: seq<Entry>)
    requires n <= |targets| && Chosen(targets, n, entries)
    requires forall t | t in targets :: forall a | a in t.archs && a.hasDiff :: a.block != []
    ensures forall e | e in entries :: e.arch.block != []
  {
    if n > 0 {
      var t := targets[n - 1];
      assert t in targets;
      if exists i: nat :: IsBest(t.archs, i) {
        var rest := entries[..|entries| - 1];
        ChosenBlocks(targets, n - 1, rest);
        assert entries == rest + [entries[|entries| - 1]];
      } else {
        ChosenBlocks(targets, n - 1, entries);
      }
    }
  }

  /** The exact size of a comment that shows `shown` blocks. */
  lemma CommentSize(fixed: seq<string>, ranked: seq<Entry>, shown: nat)
    requires fixed != [] && shown <= |ranked| && forall e | e in ranked :: e.arch.block != []
    ensures Bytes(Join(fixed + (Header(shown, |ranked|) + Flatten(ranked[..shown]) + [""]))) ==
            Bytes(Join(fixed)) + Bytes(Join(Header(shown, |ranked|))) + Cost(ranked[..shown]) + 2
  {
    var section := Header(shown, |ranked|) + Flatten(ranked[..shown]);
    assert forall e | e in ranked[..shown] :: e in ranked;
    SectionBytes(Header(shown, |ranked|), ranked[..shown]);
    JoinBytes(section, [""]);
    JoinBytes(fixed, section + [""]);
  }

  lemma RankedBlocks(entries: seq<Entry>)
    requires forall e | e in entries :: e.arch.block != []
    ensures forall e | e in StableSort(entries, RankLeq) :: e.arch.block != []
  {
    var ranked := StableSort(entries, RankLeq);
    SameElements(entries, ranked);
    forall e | e in ranked ensures e.arch.block != [] {
      var i :| 0 <= i < |ranked| && ranked[i] == e;
      assert ranked[i] in entries;
    }
  }

  /** A line of `n` letters. */
  function Letters(n: nat): (s: string)
    ensures |s| == n && Bytes(s) == n
  {
    if n == 0 then "" else
      var s := ['a'] + Letters(n - 1);
      assert s[1..] == Letters(n - 1);
      s
  }

  lemma {:induction false} BytesAtMost(s: string)
    ensures Bytes(s) <= 4 * |s|
  {
    if s != "" { BytesAtMost(s[1..]); }
  }

  lemma SmallHeader()
    ensures Bytes(Join(Header(1, 1))) < 1000
  {
    HeaderBytes(1, 1);
    BytesAtMost(Join(HEADING));
    BytesAtMost("Showing ");
    BytesAtMost(Digits(1));
    BytesAtMost("/" + Digits(1) + " summaries.");
  }

  /** The limit itself is not kept: one block that uses up the budget makes a comment two bytes over. */
  lemma TwoBytesOver() returns (fixed: seq<string>, entries: seq<Entry>)
    ensures fixed != [] && |entries| == 1 && entries[0].arch.block != []
    ensures FillsBudget(StableSort(entries, RankLeq), MAX_COMMENT_BYTES - Bytes(Join(fixed)), 1)
    ensures Bytes(Join(fixed + (Section(entries, 1) + [""]))) == 60_002
  {
    SmallHeader();
    fixed := ["x"];
    JoinOne("x");
    BytesAtMost("x");
    hide Bytes, Join, Header;
    var line := Letters(MAX_COMMENT_BYTES - Bytes(Join(fixed)) - Bytes(Join(Header(1, 1))) - 1);
    entries := [Entry("t", Arch("a", true, 0, [line]))];
    JoinOne(line);
    assert StableSort(entries, RankLeq) == entries;
    assert entries[..1] == entries && entries[..0] == [];
    CommentSize(fixed, entries, 1);
  }
}
