/** Peaks of a histogram and the modes the lowland algorithm keeps of them. */
module LowlandModes {

  ghost predicate IsPeak(heights: seq<real>, i: int) {
    0 < i < |heights| - 1 && heights[i - 1] < heights[i] && heights[i] > heights[i + 1]
  }

  ghost predicate Increasing(xs: seq<nat>) {
    forall i, j | 0 <= i < j < |xs| :: xs[i] < xs[j]
  }

  /** `extract_peaks`: exactly the bins higher than both neighbours, in order. */
  method ExtractPeaks(heights: seq<real>) returns (peaks: seq<nat>)
    ensures Increasing(peaks)
    ensures forall i :: i in peaks <==> IsPeak(heights, i)
  {
    peaks := [];
    var i := 1;
    while i < |heights| - 1
      invariant 1 <= i
      invariant |heights| >= 2 ==> i <= |heights| - 1
      invariant Increasing(peaks) && forall a | 0 <= a < |peaks| :: peaks[a] < i
      invariant forall k :: k in peaks <==> k < i && IsPeak(heights, k)
    {
      if heights[i - 1] < heights[i] && heights[i] > heights[i + 1] {
        peaks := peaks + [i];
      }
      i := i + 1;
    }
  }

  /** What one lowland test sees: the mode it would close and the two peaks around the lowland. */
  datatype Query = Query(candidate: nat, left: nat, right: nat)

  /** The bins the test narrows the lowland to, and the height of the lower peak. */
  datatype Bounds = Bounds(left: nat, right: nat, minHeight: real)

  ghost predicate Narrowed(heights: seq<real>, left: nat, right: nat, b: Bounds) {
    && left <= b.left <= b.right <= right < |heights|
    && b.minHeight <= heights[left] && b.minHeight <= heights[right]
    && (b.minHeight == heights[left] || b.minHeight == heights[right])
    && (forall k | left <= k < b.left :: heights[k] > b.minHeight)
    && (forall k | b.right < k <= right :: heights[k] > b.minHeight)
  }

  /** The scans of `lowland_between`: the outermost bins not above the lower peak. */
  method NarrowLowland(heights: seq<real>, leftPeak: nat, rightPeak: nat) returns (b: Bounds)
    requires leftPeak <= rightPeak < |heights|
    ensures Narrowed(heights, leftPeak, rightPeak, b)
    ensures heights[b.left] <= b.minHeight && heights[b.right] <= b.minHeight
  {
    var left, right := leftPeak, rightPeak;
    var minHeight := if heights[leftPeak] <= heights[rightPeak] then heights[leftPeak] else heights[rightPeak];
    while left < right && heights[left] > minHeight
      invariant leftPeak <= left <= right
      invariant forall k | leftPeak <= k < left :: heights[k] > minHeight
    {
      left := left + 1;
    }
    while left < right && heights[right] > minHeight
      invariant left <= right <= rightPeak
      invariant forall k | right < k <= rightPeak :: heights[k] > minHeight
    {
      right := right - 1;
    }
    b := Bounds(left, right, minHeight);
  }

  /** The narrowed lowland depends on its two peaks alone, so the verdict is a function of the query. */
  lemma NarrowingIsUnique(heights: seq<real>, left: nat, right: nat, a: Bounds, b: Bounds)
    requires left <= right < |heights|
    requires Narrowed(heights, left, right, a) && heights[a.left] <= a.minHeight && heights[a.right] <= a.minHeight
    requires Narrowed(heights, left, right, b) && heights[b.left] <= b.minHeight && heights[b.right] <= b.minHeight
    ensures a == b
  {
  }

  // Which peaks end a segment.

  ghost predicate InRange(heights: seq<real>, peaks: seq<nat>) {
    forall i | 0 <= i < |peaks| :: peaks[i] < |heights|
  }

  /** `m` is the leftmost of the tallest peaks among `peaks[lo..hi]`. */
  ghost predicate LeftmostTallest(heights: seq<real>, peaks: seq<nat>, lo: int, hi: int, m: nat)
    requires 0 <= lo <= hi <= |peaks| && InRange(heights, peaks)
  {
    exists k :: lo <= k < hi && peaks[k] == m
      && (forall j | lo <= j < hi :: heights[peaks[j]] <= heights[m])
      && (forall j | lo <= j < k :: heights[peaks[j]] < heights[m])
  }

  /** Between peak `j` of the segment from `lo` and peak `i` no peak is taller than `j`. */
  ghost predicate Visible(heights: seq<real>, peaks: seq<nat>, lo: int, i: int, j: int)
    requires 0 <= lo <= i <= |peaks| && InRange(heights, peaks)
  {
    lo <= j < i && forall k | j < k < i :: heights[peaks[k]] <= heights[peaks[j]]
  }

  /**
   * Peak `j` faces peak `i`: it is visible and lower, or it is the nearest visible one that is not lower,
   * and is taller.
   */
  ghost predicate Faces(heights: seq<real>, peaks: seq<nat>, lo: int, i: int, j: int)
    requires 0 <= lo <= i < |peaks| && InRange(heights, peaks)
  {
    && Visible(heights, peaks, lo, i, j)
    && (heights[peaks[j]] < heights[peaks[i]]
        || (heights[peaks[j]] > heights[peaks[i]]
            && forall k | j < k < i && Visible(heights, peaks, lo, i, k) :: heights[peaks[k]] < heights[peaks[i]]))
  }

  /** Peak `i` ends the segment from `lo`: it is across a lowland from some peak it faces. */
  ghost predicate Ends(heights: seq<real>, peaks: seq<nat>, lowland: Query -> bool, lo: int, i: int)
    requires 0 <= lo <= i < |peaks| && InRange(heights, peaks)
  {
    exists m, j: int :: LeftmostTallest(heights, peaks, lo, i, m) && Faces(heights, peaks, lo, i, j)
      && lowland(Query(m, peaks[j], peaks[i]))
  }

  /** `cuts` splits the first `n` peaks into consecutive nonempty segments. */
  ghost predicate IsSplit(cuts: seq<nat>, n: nat) {
    |cuts| > 0 && cuts[0] == 0 && cuts[|cuts| - 1] == n && Increasing(cuts)
  }

  /** Each segment ends at the first peak that ends it. */
  ghost predicate EndsWhereItMust(heights: seq<real>, peaks: seq<nat>, lowland: Query -> bool, cuts: seq<nat>)
    requires InRange(heights, peaks)
  {
    && (forall a | 0 <= a < |cuts| :: cuts[a] <= |peaks|)
    && (forall a | 0 <= a < |cuts| - 1 :: cuts[a] < cuts[a + 1])
    && (forall a | 0 <= a < |cuts| - 1 && cuts[a + 1] < |peaks| :: Ends(heights, peaks, lowland, cuts[a], cuts[a + 1]))
    && (forall a, i | 0 <= a < |cuts| - 1 && cuts[a] < i < cuts[a + 1] :: !Ends(heights, peaks, lowland, cuts[a], i))
  }

  /** Each mode is the leftmost tallest peak of its own segment. */
  ghost predicate ModesOf(heights: seq<real>, peaks: seq<nat>, cuts: seq<nat>, modes: seq<nat>)
    requires InRange(heights, peaks)
  {
    && |cuts| == |modes| + 1
    && (forall i | 0 <= i < |cuts| :: cuts[i] <= |peaks|)
    && forall i | 0 <= i < |modes| ::
         cuts[i] <= cuts[i + 1] && LeftmostTallest(heights, peaks, cuts[i], cuts[i + 1], modes[i])
  }

  // The stack holds the visible peaks of the open segment.

  ghost predicate Names(peaks: seq<nat>, stack: seq<nat>, ids: seq<int>) {
    && |ids| == |stack|
    && (forall a | 0 <= a < |ids| :: 0 <= ids[a] < |peaks| && stack[a] == peaks[ids[a]])
    && (forall a, b | 0 <= a < b < |ids| :: ids[a] < ids[b])
  }

  ghost predicate Stacked(heights: seq<real>, peaks: seq<nat>, lo: nat, i: nat, stack: seq<nat>, ids: seq<int>)
    requires lo < i <= |peaks| && InRange(heights, peaks)
  {
    && Names(peaks, stack, ids)
    && (forall j :: j in ids <==> Visible(heights, peaks, lo, i, j))
  }

  /** While peak `i` arrives, the visible peaks no longer on the stack are lower, without a lowland between. */
  ghost predicate Popping(heights: seq<real>, peaks: seq<nat>, lowland: Query -> bool, lo: nat, i: nat, m: nat,
                          stack: seq<nat>, ids: seq<int>)
    requires lo < i < |peaks| && InRange(heights, peaks)
  {
    && Names(peaks, stack, ids)
    && LeftmostTallest(heights, peaks, lo, i, m)
    && (forall j | j in ids :: Visible(heights, peaks, lo, i, j))
    && (forall j: int | Visible(heights, peaks, lo, i, j) && j !in ids ::
          heights[peaks[j]] < heights[peaks[i]] && !lowland(Query(m, peaks[j], peaks[i])))
  }

  /** The bottom of the stack is the leftmost tallest peak of the segment. */
  lemma BottomIsTallest(heights: seq<real>, peaks: seq<nat>, lo: nat, i: nat, stack: seq<nat>, ids: seq<int>)
    requires lo < i <= |peaks| && InRange(heights, peaks) && Stacked(heights, peaks, lo, i, stack, ids)
    ensures stack != [] && LeftmostTallest(heights, peaks, lo, i, stack[0])
  {
    var k := Tallest(heights, peaks, lo, i);
    assert Visible(heights, peaks, lo, i, k);
    var a :| 0 <= a < |ids| && ids[a] == k;
    assert ids[0] in ids && Visible(heights, peaks, lo, i, ids[0]);
    assert k <= ids[0];
  }

  lemma StackNeverRises(heights: seq<real>, peaks: seq<nat>, lo: nat, i: nat, stack: seq<nat>, ids: seq<int>, a: nat,
                        b: nat)
    requires lo < i <= |peaks| && InRange(heights, peaks) && Stacked(heights, peaks, lo, i, stack, ids)
    requires a <= b < |stack|
    ensures heights[stack[a]] >= heights[stack[b]]
  {
    assert ids[a] in ids && Visible(heights, peaks, lo, i, ids[a]);
    assert ids[b] in ids && Visible(heights, peaks, lo, i, ids[b]);
  }

  lemma {:induction false} Tallest(heights: seq<real>, peaks: seq<nat>, lo: nat, i: nat) returns (k: nat)
    requires lo < i <= |peaks| && InRange(heights, peaks)
    ensures lo <= k < i && LeftmostTallest(heights, peaks, lo, i, peaks[k])
    ensures forall j | lo <= j < i :: heights[peaks[j]] <= heights[peaks[k]]
    ensures forall j | lo <= j < k :: heights[peaks[j]] < heights[peaks[k]]
  {
    k := i - 1;
    if lo < i - 1 {
      var before := Tallest(heights, peaks, lo, i - 1);
      if heights[peaks[before]] >= heights[peaks[i - 1]] { k := before; }
    }
    assert peaks[k] == peaks[k];
  }

  /** The peak on top of the stack faces the arriving one unless they are equally tall. */
  lemma TopFaces(heights: seq<real>, peaks: seq<nat>, lowland: Query -> bool, lo: nat, i: nat, m: nat, stack: seq<nat>,
                 ids: seq<int>)
    requires lo < i < |peaks| && InRange(heights, peaks) && stack != []
    requires Popping(heights, peaks, lowland, lo, i, m, stack, ids)
    ensures var top := stack[|stack| - 1];
            top < |heights| && (heights[top] != heights[peaks[i]] && lowland(Query(m, top, peaks[i])) ==>
                Ends(heights, peaks, lowland, lo, i))
    ensures |ids| == |stack|
  {
    var top := ids[|ids| - 1];
    assert top in ids;
    forall k | top < k < i && Visible(heights, peaks, lo, i, k) ensures k !in ids {}
    if heights[peaks[top]] != heights[peaks[i]] { assert Faces(heights, peaks, lo, i, top); }
  }

  lemma StartPopping(heights: seq<real>, peaks: seq<nat>, lowland: Query -> bool, lo: nat, i: nat, stack: seq<nat>,
                     ids: seq<int>)
    requires lo < i < |peaks| && InRange(heights, peaks) && Stacked(heights, peaks, lo, i, stack, ids)
    ensures stack != [] && Popping(heights, peaks, lowland, lo, i, stack[0], stack, ids)
    ensures forall a | 0 <= a < |stack| :: stack[a] < |heights|
  {
    BottomIsTallest(heights, peaks, lo, i, stack, ids);
  }

  lemma PopTop(heights: seq<real>, peaks: seq<nat>, lowland: Query -> bool, lo: nat, i: nat, m: nat, stack: seq<nat>,
               ids: seq<int>)
    requires lo < i < |peaks| && InRange(heights, peaks) && stack != []
    requires Popping(heights, peaks, lowland, lo, i, m, stack, ids)
    requires heights[stack[|stack| - 1]] < heights[peaks[i]] && !lowland(Query(m, stack[|stack| - 1], peaks[i]))
    ensures Popping(heights, peaks, lowland, lo, i, m, stack[..|stack| - 1], ids[..|ids| - 1])
  {
  }

  lemma PushPeak(heights: seq<real>, peaks: seq<nat>, lowland: Query -> bool, lo: nat, i: nat, m: nat, stack: seq<nat>,
                 ids: seq<int>)
    requires lo < i < |peaks| && InRange(heights, peaks)
    requires Popping(heights, peaks, lowland, lo, i, m, stack, ids)
    requires stack != [] ==> heights[stack[|stack| - 1]] >= heights[peaks[i]]
    ensures Stacked(heights, peaks, lo, i + 1, stack + [peaks[i]], ids + [i])
  {
    var all := ids + [i];
    forall j | j in ids ensures Visible(heights, peaks, lo, i + 1, j) {
      assert Visible(heights, peaks, lo, i, j);
      var a :| 0 <= a < |ids| && ids[a] == j;
      assert heights[peaks[ids[|ids| - 1]]] <= heights[peaks[j]];
    }
    forall j: int ensures j in all <==> Visible(heights, peaks, lo, i + 1, j) {
      if Visible(heights, peaks, lo, i + 1, j) && j != i { assert Visible(heights, peaks, lo, i, j); }
    }
    forall a | 0 <= a < |ids| ensures ids[a] < i { assert ids[a] in ids; }
  }

  /** A peak across no lowland from anything it faces does not end the segment. */
  lemma GoesOn(heights: seq<real>, peaks: seq<nat>, lowland: Query -> bool, lo: nat, i: nat, m: nat, stack: seq<nat>,
               ids: seq<int>)
    requires lo < i < |peaks| && InRange(heights, peaks)
    requires Popping(heights, peaks, lowland, lo, i, m, stack, ids)
    requires stack != [] ==> heights[stack[|stack| - 1]] >= heights[peaks[i]]
    requires stack != [] && heights[stack[|stack| - 1]] > heights[peaks[i]] ==>
            !lowland(Query(m, stack[|stack| - 1], peaks[i]))
    ensures !Ends(heights, peaks, lowland, lo, i)
  {
    forall n: nat, j: int | LeftmostTallest(heights, peaks, lo, i, n) && Faces(heights, peaks, lo, i, j)
      ensures !lowland(Query(n, peaks[j], peaks[i]))
    {
      ModesUnique(heights, peaks, lo, i, m, n);
      if j in ids {
        var a :| 0 <= a < |ids| && ids[a] == j;
        var top := ids[|ids| - 1];
        assert top in ids && heights[peaks[top]] >= heights[peaks[i]] && j <= top;
        assert Visible(heights, peaks, lo, i, j) && Visible(heights, peaks, lo, i, top);
        assert j == top;
      }
    }
  }

  lemma StartSegment(heights: seq<real>, peaks: seq<nat>, i: nat)
    requires i < |peaks| && InRange(heights, peaks)
    ensures Stacked(heights, peaks, i, i + 1, [peaks[i]], [i])
  {
  }

  datatype Result = NoPeaks | Modes(ids: seq<nat>)

  /** The segments closed so far, each where it must, with its mode; the open one has not ended before `i`. */
  ghost predicate Closed(heights: seq<real>, peaks: seq<nat>, lowland: Query -> bool, i: nat, modes: seq<nat>,
                         cuts: seq<nat>)
    requires i <= |peaks| && InRange(heights, peaks)
  {
    && |cuts| > 0 && IsSplit(cuts, cuts[|cuts| - 1]) && cuts[|cuts| - 1] < i
    && EndsWhereItMust(heights, peaks, lowland, cuts)
    && ModesOf(heights, peaks, cuts, modes)
    && Open(heights, peaks, lowland, cuts[|cuts| - 1], i)
  }

  /** No peak before `i` ends the segment from `lo`. */
  ghost predicate Open(heights: seq<real>, peaks: seq<nat>, lowland: Query -> bool, lo: nat, i: nat)
    requires i <= |peaks| && InRange(heights, peaks)
  {
    forall k | lo < k < i :: !Ends(heights, peaks, lowland, lo, k)
  }

  lemma StaysOpen(heights: seq<real>, peaks: seq<nat>, lowland: Query -> bool, i: nat, modes: seq<nat>, cuts: seq<nat>)
    requires i < |peaks| && InRange(heights, peaks) && Closed(heights, peaks, lowland, i, modes, cuts)
    requires !Ends(heights, peaks, lowland, cuts[|cuts| - 1], i)
    ensures Closed(heights, peaks, lowland, i + 1, modes, cuts)
  {
  }

  lemma Reopens(heights: seq<real>, peaks: seq<nat>, lowland: Query -> bool, i: nat, modes: seq<nat>, cuts: seq<nat>)
    requires i < |peaks| && InRange(heights, peaks) && IsSplit(cuts, i)
    requires EndsWhereItMust(heights, peaks, lowland, cuts) && ModesOf(heights, peaks, cuts, modes)
    ensures Closed(heights, peaks, lowland, i + 1, modes, cuts) && cuts[|cuts| - 1] == i
  {
  }

  /** Closing the open segment at `i`, at the end or because peak `i` ends it. */
  lemma CloseSegment(heights: seq<real>, peaks: seq<nat>, lowland: Query -> bool, i: nat, modes: seq<nat>,
                     cuts: seq<nat>, m: nat)
    requires i <= |peaks| && InRange(heights, peaks) && Closed(heights, peaks, lowland, i, modes, cuts)
    requires i == |peaks| || Ends(heights, peaks, lowland, cuts[|cuts| - 1], i)
    requires LeftmostTallest(heights, peaks, cuts[|cuts| - 1], i, m)
    ensures IsSplit(cuts + [i], i) && ModesOf(heights, peaks, cuts + [i], modes + [m])
    ensures EndsWhereItMust(heights, peaks, lowland, cuts + [i])
  {
    hide Ends, LeftmostTallest;
  }

  /**
   * The loop of `extract_modes`: the peaks fall into consecutive segments, each ended by the first peak
   * across a lowland from one it faces, and each mode is the leftmost tallest peak of one.
   */
  method ExtractModes(heights: seq<real>, peaks: seq<nat>, lowland: Query -> bool)
    returns (r: Result, ghost cuts: seq<nat>)
    requires InRange(heights, peaks)
    ensures r.NoPeaks? <==> peaks == []
    ensures r.Modes? ==>
              && IsSplit(cuts, |peaks|)
              && EndsWhereItMust(heights, peaks, lowland, cuts)
              && ModesOf(heights, peaks, cuts, r.ids)
  {
    cuts := [0];
    if peaks == [] { return NoPeaks, cuts; }
    var modes: seq<nat> := [];
    var stack := [peaks[0]];
    ghost var ids: seq<int> := [0];
    StartSegment(heights, peaks, 0);
    assert Closed(heights, peaks, lowland, 1, modes, cuts);
    hide Closed, Stacked, IsSplit, ModesOf, EndsWhereItMust, LeftmostTallest, Ends;
    for i: nat := 1 to |peaks|
      invariant Closed(heights, peaks, lowland, i, modes, cuts) && |cuts| > 0 && cuts[|cuts| - 1] < i
      invariant Stacked(heights, peaks, cuts[|cuts| - 1], i, stack, ids)
    {
      modes, stack, cuts, ids := Arrive(heights, peaks, lowland, i, modes, stack, cuts, ids);
    }
    BottomIsTallest(heights, peaks, cuts[|cuts| - 1], |peaks|, stack, ids);
    CloseSegment(heights, peaks, lowland, |peaks|, modes, cuts, stack[0]);
    r := Modes(modes + [stack[0]]);
    cuts := cuts + [|peaks|];
  }

  /** One arriving peak: lower peaks are popped, and a lowland on either side closes the segment before it. */
  method Arrive(heights: seq<real>, peaks: seq<nat>, lowland: Query -> bool, i: nat, modes0: seq<nat>, stack0: seq<nat>,
                ghost cuts0: seq<nat>, ghost ids0: seq<int>)
    returns (modes: seq<nat>, stack: seq<nat>, ghost cuts: seq<nat>, ghost ids: seq<int>)
    requires InRange(heights, peaks) && 0 < i < |peaks|
    requires Closed(heights, peaks, lowland, i, modes0, cuts0) && |cuts0| > 0 && cuts0[|cuts0| - 1] < i
    requires Stacked(heights, peaks, cuts0[|cuts0| - 1], i, stack0, ids0)
    ensures Closed(heights, peaks, lowland, i + 1, modes, cuts) && |cuts| > 0 && cuts[|cuts| - 1] < i + 1
    ensures Stacked(heights, peaks, cuts[|cuts| - 1], i + 1, stack, ids)
  {
    var current := peaks[i];
    ghost var lo := cuts0[|cuts0| - 1];
    hide *;
    PeakInRange(heights, peaks, i);
    StartPopping(heights, peaks, lowland, lo, i, stack0, ids0);
    var mode := stack0[0];
    var closed;
    modes, cuts := modes0, cuts0;
    closed, stack, ids := PopLower(heights, peaks, lowland, lo, i, mode, stack0, ids0);
    if stack != [] && heights[stack[|stack| - 1]] > heights[current] {
      TopFaces(heights, peaks, lowland, lo, i, mode, stack, ids);
      if lowland(Query(stack[0], stack[|stack| - 1], current)) {
        stack, closed := [], true;
      }
    }
    if closed {
      modes, cuts, ids := Close(heights, peaks, lowland, i, modes, cuts, mode);
      assert stack + [current] == [current];
    } else {
      GoesOn(heights, peaks, lowland, lo, i, mode, stack, ids);
      PushPeak(heights, peaks, lowland, lo, i, mode, stack, ids);
      StaysOpen(heights, peaks, lowland, i, modes, cuts);
      ids := ids + [i];
    }
    stack := stack + [current];
  }

  /** Pops the lower peaks, up to one across a lowland from the arriving peak. */
  method PopLower(heights: seq<real>, peaks: seq<nat>, lowland: Query -> bool, ghost lo: nat, i: nat, mode: nat,
                  stack0: seq<nat>, ghost ids0: seq<int>)
    returns (closed: bool, stack: seq<nat>, ghost ids: seq<int>)
    requires lo < i < |peaks| && InRange(heights, peaks)
    requires Popping(heights, peaks, lowland, lo, i, mode, stack0, ids0)
    requires stack0 != [] && stack0[0] == mode && forall a | 0 <= a < |stack0| :: stack0[a] < |heights|
    ensures closed ==> stack == [] && Ends(heights, peaks, lowland, lo, i)
    ensures !closed ==> Popping(heights, peaks, lowland, lo, i, mode, stack, ids)
    ensures stack != [] ==> stack[0] == mode && stack[|stack| - 1] < |heights| && peaks[i] < |heights|
                            && heights[stack[|stack| - 1]] >= heights[peaks[i]]
  {
    hide *;
    var current := peaks[i];
    closed, stack, ids := false, stack0, ids0;
    PeakInRange(heights, peaks, i);
    while stack != [] && heights[stack[|stack| - 1]] < heights[current]
      invariant forall a | 0 <= a < |stack| :: stack[a] < |heights|
      invariant stack != [] ==> stack[0] == mode && !closed
      invariant !closed ==> Popping(heights, peaks, lowland, lo, i, mode, stack, ids)
      invariant closed ==> stack == [] && Ends(heights, peaks, lowland, lo, i)
      decreases |stack|
    {
      TopFaces(heights, peaks, lowland, lo, i, mode, stack, ids);
      if lowland(Query(stack[0], stack[|stack| - 1], current)) {
        stack, closed := [], true;
      } else {
        PopTop(heights, peaks, lowland, lo, i, mode, stack, ids);
        stack, ids := stack[..|stack| - 1], ids[..|ids| - 1];
      }
    }
  }

  lemma PeakInRange(heights: seq<real>, peaks: seq<nat>, i: nat)
    requires InRange(heights, peaks) && i < |peaks|
    ensures peaks[i] < |heights|
  {
  }

  /** Records the mode of the segment that ends before peak `i`, which starts the next one. */
  method Close(heights: seq<real>, peaks: seq<nat>, lowland: Query -> bool, i: nat, modes0: seq<nat>,
               ghost cuts0: seq<nat>, mode: nat)
    returns (modes: seq<nat>, ghost cuts: seq<nat>, ghost ids: seq<int>)
    requires i < |peaks| && InRange(heights, peaks) && Closed(heights, peaks, lowland, i, modes0, cuts0)
    requires |cuts0| > 0 && cuts0[|cuts0| - 1] < i && Ends(heights, peaks, lowland, cuts0[|cuts0| - 1], i)
    requires LeftmostTallest(heights, peaks, cuts0[|cuts0| - 1], i, mode)
    ensures modes == modes0 + [mode] && cuts == cuts0 + [i]
    ensures Closed(heights, peaks, lowland, i + 1, modes, cuts)
    ensures Stacked(heights, peaks, i, i + 1, [peaks[i]], ids)
  {
    hide *;
    CloseSegment(heights, peaks, lowland, i, modes0, cuts0, mode);
    modes, cuts, ids := modes0 + [mode], cuts0 + [i], [i];
    Reopens(heights, peaks, lowland, i, modes, cuts);
    StartSegment(heights, peaks, i);
  }

  /** On increasing peaks the modes are a nonempty increasing selection of them. */
  lemma ModesIncrease(heights: seq<real>, peaks: seq<nat>, cuts: seq<nat>, modes: seq<nat>)
    requires InRange(heights, peaks)
    requires peaks != [] && Increasing(peaks) && IsSplit(cuts, |peaks|) && ModesOf(heights, peaks, cuts, modes)
    ensures modes != [] && Increasing(modes) && forall i | 0 <= i < |modes| :: modes[i] in peaks
  {
    forall i, j | 0 <= i < j < |modes| ensures modes[i] < modes[j] {
      var k := ModeIndex(heights, peaks, cuts, modes, i);
      var l := ModeIndex(heights, peaks, cuts, modes, j);
      assert i + 1 == j || cuts[i + 1] < cuts[j];
    }
    forall i | 0 <= i < |modes| ensures modes[i] in peaks {
      var k := ModeIndex(heights, peaks, cuts, modes, i);
    }
  }

  lemma ModeIndex(heights: seq<real>, peaks: seq<nat>, cuts: seq<nat>, modes: seq<nat>, i: nat) returns (k: nat)
    requires InRange(heights, peaks)
    requires ModesOf(heights, peaks, cuts, modes) && i < |modes|
    ensures cuts[i] <= k < cuts[i + 1] <= |peaks| && peaks[k] == modes[i]
  {
    assert LeftmostTallest(heights, peaks, cuts[i], cuts[i + 1], modes[i]);
    k :| cuts[i] <= k < cuts[i + 1] && peaks[k] == modes[i];
  }

  lemma ModesUnique(heights: seq<real>, peaks: seq<nat>, lo: nat, hi: nat, m: nat, n: nat)
    requires lo <= hi <= |peaks| && InRange(heights, peaks)
    requires LeftmostTallest(heights, peaks, lo, hi, m) && LeftmostTallest(heights, peaks, lo, hi, n)
    ensures m == n
  {
  }

  /** The segments, and with them the modes, are determined by heights, peaks and verdicts alone. */
  lemma SegmentsUnique(heights: seq<real>, peaks: seq<nat>, lowland: Query -> bool,
                       cuts: seq<nat>, modes: seq<nat>, others: seq<nat>, modes': seq<nat>)
    requires InRange(heights, peaks)
    requires IsSplit(cuts, |peaks|) && EndsWhereItMust(heights, peaks, lowland, cuts)
            && ModesOf(heights, peaks, cuts, modes)
    requires IsSplit(others, |peaks|) && EndsWhereItMust(heights, peaks, lowland, others)
            && ModesOf(heights, peaks, others, modes')
    ensures cuts == others && modes == modes'
  {
    if |cuts| <= |others| {
      CutsAgree(heights, peaks, lowland, cuts, others, |cuts| - 1);
    } else {
      CutsAgree(heights, peaks, lowland, others, cuts, |others| - 1);
    }
    assert cuts == others;
    forall a | 0 <= a < |modes| ensures modes[a] == modes'[a] {
      ModesUnique(heights, peaks, cuts[a], cuts[a + 1], modes[a], modes'[a]);
    }
  }

  lemma {:induction false} CutsAgree(heights: seq<real>, peaks: seq<nat>, lowland: Query -> bool, cuts: seq<nat>,
                                     others: seq<nat>, a: nat)
    requires InRange(heights, peaks) && a < |cuts| <= |others|
    requires IsSplit(cuts, |peaks|) && EndsWhereItMust(heights, peaks, lowland, cuts)
    requires IsSplit(others, |peaks|) && EndsWhereItMust(heights, peaks, lowland, others)
    ensures forall b | 0 <= b <= a :: cuts[b] == others[b]
  {
    hide Ends;
    if a > 0 {
      CutsAgree(heights, peaks, lowland, cuts, others, a - 1);
      assert cuts[a - 1] == others[a - 1];
      assert cuts[a] <= |peaks| && others[a] <= |peaks|;
    }
  }
}
