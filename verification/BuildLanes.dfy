/** The lanes of a search: which GPU and directory each one uses. */
module BuildLanes {
  import opened Division
  import opened Sorting

  type Gpu = string

  /** The directory of slot `slot` under the GPU's own directory; the lock file is one per GPU. */
  datatype Directory = Directory(gpu: Gpu, slot: nat)

  datatype Lane = Lane(gpu: Gpu, directory: Directory, lock: Gpu)

  function LaneAt(gpus: seq<Gpu>, i: nat): Lane
    requires gpus != []
  {
    var gpu := gpus[i % |gpus|];
    Lane(gpu, Directory(gpu, i / |gpus|), gpu)
  }

  /** Every lane works and locks on its own GPU; lanes go to the GPUs in turn, each round under a further slot. */
  ghost predicate Dealt(gpus: seq<Gpu>, lanes: seq<Lane>) {
    && (forall i | 0 <= i < |lanes| :: lanes[i].directory.gpu == lanes[i].gpu && lanes[i].lock == lanes[i].gpu)
    && (forall i | 0 <= i < |lanes| && i < |gpus| :: lanes[i].gpu == gpus[i] && lanes[i].directory.slot == 0)
    && (forall i, j | 0 <= i < j < |lanes| && j == i + |gpus| ::
          lanes[j].gpu == lanes[i].gpu && lanes[j].directory.slot == lanes[i].directory.slot + 1)
  }

  /** How many of the lanes run on the GPU. */
  ghost function CountOn(lanes: seq<Lane>, g: Gpu): nat {
    if lanes == [] then 0
    else CountOn(lanes[..|lanes| - 1], g) + if lanes[|lanes| - 1].gpu == g then 1 else 0
  }

  /** Any prefix of the lanes loads every two GPUs within one lane of each other, and all of them equally. */
  ghost predicate Fair(gpus: seq<Gpu>, lanes: seq<Lane>, lanesPerGpu: nat) {
    && (forall g, h, n | g in gpus && h in gpus && 0 <= n <= |lanes| ::
          -1 <= CountOn(lanes[..n], g) - CountOn(lanes[..n], h) <= 1)
    && (forall g | g in gpus :: CountOn(lanes, g) == lanesPerGpu)
  }

  /** `build_lanes`. */
  method Build(gpus: seq<Gpu>, lanesPerGpu: nat) returns (lanes: seq<Lane>)
    ensures |lanes| == |gpus| * lanesPerGpu
    ensures forall i | 0 <= i < |lanes| :: gpus != [] && lanes[i] == LaneAt(gpus, i)
    ensures Dealt(gpus, lanes) && (Distinct(gpus) ==> Fair(gpus, lanes, lanesPerGpu))
  {
    lanes := [];
    for index: nat := 0 to |gpus| * lanesPerGpu
      invariant |lanes| == index
      invariant forall i | 0 <= i < |lanes| :: gpus != [] && lanes[i] == LaneAt(gpus, i)
    {
      lanes := lanes + [LaneAt(gpus, index)];
    }
    LanesAreDealt(gpus, lanes);
    hide *;
    if Distinct(gpus) { DealtFairly(gpus, lanes, lanesPerGpu); }
  }

  lemma LanesAreDealt(gpus: seq<Gpu>, lanes: seq<Lane>)
    requires forall i | 0 <= i < |lanes| :: gpus != [] && lanes[i] == LaneAt(gpus, i)
    ensures Dealt(gpus, lanes)
  {
    forall i | 0 <= i < |lanes| && i < |gpus|
      ensures lanes[i].gpu == gpus[i] && lanes[i].directory.slot == 0
    {
      SmallIndex(i, |gpus|);
    }
    forall i, j | 0 <= i < j < |lanes| && j == i + |gpus|
      ensures lanes[j].gpu == lanes[i].gpu && lanes[j].directory.slot == lanes[i].directory.slot + 1
    {
      NextRound(i, |gpus|);
    }
  }

  lemma NextRound(i: nat, m: nat)
    requires m > 0
    ensures (i + m) / m == i / m + 1 && (i + m) % m == i % m
  {
    DivMod(i + m, m, i / m + 1, i % m);
  }

  /** Lanes never share a build directory exactly when the GPU names are distinct. */
  lemma DirectoriesDistinctExactly(gpus: seq<Gpu>, lanes: seq<Lane>)
    requires gpus != [] && |lanes| >= |gpus| && forall i | 0 <= i < |lanes| :: lanes[i] == LaneAt(gpus, i)
    ensures (forall i, j | 0 <= i < j < |lanes| :: lanes[i].directory != lanes[j].directory) <==> Distinct(gpus)
  {
    if Distinct(gpus) {
      forall i, j | 0 <= i < j < |lanes| ensures lanes[i].directory != lanes[j].directory {
        SameDirectorySameLane(gpus, i, j);
      }
    } else {
      var i, j :| 0 <= i < j < |gpus| && gpus[i] == gpus[j];
      SmallIndex(i, |gpus|);
      SmallIndex(j, |gpus|);
      assert lanes[i].directory == lanes[j].directory;
    }
  }

  lemma SmallIndex(i: nat, n: nat)
    requires i < n
    ensures i / n == 0 && i % n == i
  {
  }

  lemma SameDirectorySameLane(gpus: seq<Gpu>, i: nat, j: nat)
    requires Distinct(gpus) && gpus != []
    ensures LaneAt(gpus, i).directory == LaneAt(gpus, j).directory ==> i == j
  {
  }

  /** The lanes among the first `n` that run on the GPU at position `g`. */
  function Load(gpus: seq<Gpu>, g: nat, n: nat): nat
    requires g < |gpus|
  {
    if n == 0 then 0 else Load(gpus, g, n - 1) + if (n - 1) % |gpus| == g then 1 else 0
  }

  lemma {:induction false} LoadIs(gpus: seq<Gpu>, g: nat, n: nat)
    requires g < |gpus|
    ensures Load(gpus, g, n) == n / |gpus| + if g < n % |gpus| then 1 else 0
  {
    if n == 0 {
      SmallIndex(0, |gpus|);
    } else {
      LoadIs(gpus, g, n - 1);
      Successor(n - 1, |gpus|);
    }
  }

  lemma Successor(n: nat, m: nat)
    requires m > 0
    ensures if n % m == m - 1 then (n + 1) / m == n / m + 1 && (n + 1) % m == 0
            else (n + 1) / m == n / m && (n + 1) % m == n % m + 1
  {
    var q, r := n / m, n % m;
    assert n == q * m + r;
    if r == m - 1 {
      assert n + 1 == (q + 1) * m;
      DivMod(n + 1, m, q + 1, 0);
    } else {
      DivMod(n + 1, m, q, r + 1);
    }
  }

  /** Lanes dealt in turn: the lane after `i` rounds of `|gpus|` is on the GPU its remainder names. */
  lemma {:induction false} DealtGpu(gpus: seq<Gpu>, lanes: seq<Lane>, i: nat)
    requires Dealt(gpus, lanes) && gpus != [] && i < |lanes|
    ensures lanes[i].gpu == gpus[i % |gpus|]
  {
    if i < |gpus| {
      SmallIndex(i, |gpus|);
    } else {
      DealtGpu(gpus, lanes, i - |gpus|);
      NextRound(i - |gpus|, |gpus|);
    }
  }

  lemma {:induction false} CountIsLoad(gpus: seq<Gpu>, lanes: seq<Lane>, g: nat, n: nat)
    requires Dealt(gpus, lanes) && Distinct(gpus) && g < |gpus| && n <= |lanes|
    ensures CountOn(lanes[..n], gpus[g]) == Load(gpus, g, n)
  {
    if n > 0 {
      CountIsLoad(gpus, lanes, g, n - 1);
      DealtGpu(gpus, lanes, n - 1);
      assert lanes[..n][..n - 1] == lanes[..n - 1];
      assert gpus[(n - 1) % |gpus|] == gpus[g] <==> (n - 1) % |gpus| == g;
    }
  }

  /** Any prefix of the lanes loads every two GPUs within one lane of each other. */
  lemma Balanced(gpus: seq<Gpu>, lanes: seq<Lane>, g: nat, h: nat, n: nat)
    requires Dealt(gpus, lanes) && Distinct(gpus) && g < |gpus| && h < |gpus| && n <= |lanes|
    ensures -1 <= CountOn(lanes[..n], gpus[g]) - CountOn(lanes[..n], gpus[h]) <= 1
  {
    CountIsLoad(gpus, lanes, g, n);
    CountIsLoad(gpus, lanes, h, n);
    LoadIs(gpus, g, n);
    LoadIs(gpus, h, n);
  }

  lemma WholeRounds(m: nat, rounds: nat)
    requires m > 0
    ensures m * rounds / m == rounds && m * rounds % m == 0
  {
    DivMod(m * rounds, m, rounds, 0);
  }

  /** Every GPU gets as many lanes as asked for. */
  lemma FullRounds(gpus: seq<Gpu>, lanes: seq<Lane>, g: nat, lanesPerGpu: nat)
    requires Dealt(gpus, lanes) && Distinct(gpus) && g < |gpus| && |lanes| == |gpus| * lanesPerGpu
    ensures CountOn(lanes, gpus[g]) == lanesPerGpu
  {
    assert lanes[..|lanes|] == lanes;
    hide *;
    CountIsLoad(gpus, lanes, g, |lanes|);
    LoadIs(gpus, g, |lanes|);
    WholeRounds(|gpus|, lanesPerGpu);
  }

  lemma DealtFairly(gpus: seq<Gpu>, lanes: seq<Lane>, lanesPerGpu: nat)
    requires Dealt(gpus, lanes) && Distinct(gpus) && |lanes| == |gpus| * lanesPerGpu
    ensures Fair(gpus, lanes, lanesPerGpu)
  {
    hide Dealt, Distinct, CountOn;
    forall g, h, n | g in gpus && h in gpus && 0 <= n <= |lanes|
      ensures -1 <= CountOn(lanes[..n], g) - CountOn(lanes[..n], h) <= 1
    {
      var i :| 0 <= i < |gpus| && gpus[i] == g;
      var j :| 0 <= j < |gpus| && gpus[j] == h;
      Balanced(gpus, lanes, i, j, n);
    }
    forall g | g in gpus ensures CountOn(lanes, g) == lanesPerGpu {
      var i :| 0 <= i < |gpus| && gpus[i] == g;
      FullRounds(gpus, lanes, i, lanesPerGpu);
    }
  }
}
