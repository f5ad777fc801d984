/** Worker processes that claim lanes and lock GPUs, as a state machine over its steps. */
module LaneProtocol {
  import opened Sorting
  import opened BuildLanes

  type Pid = nat

  /** The two module globals: the cached lane and the process that cached it. */
  datatype Cache = Unset | Cached(lane: nat, pid: Pid)

  /** Where a process is in one evaluation; only `Locked` runs a benchmark. */
  datatype Stage = Idle | Building | Waiting | Locked

  datatype Proc = Proc(cache: Cache, stage: Stage)

  /**
   * The live processes, the lane queue and the held GPU locks. `spawned` counts the workers forked in
   * the current generation.
   */
  datatype State = State(lanes: seq<Lane>, parent: Pid, queue: seq<nat>, procs: map<Pid, Proc>, locks: map<Gpu, Pid>,
                         spawned: nat)

  function LaneIds(n: nat): (r: seq<nat>)
    ensures |r| == if n == 0 then 0 else n - 1
    ensures forall i | 0 <= i < |r| :: r[i] == i + 1
  {
    if n <= 1 then [] else LaneIds(n - 1) + [n - 1]
  }

  /** `LaneWorker.run`: empties the queue and refills it with every lane but the parent's. */
  method DrainAndRefill(queue: seq<nat>, numLanes: nat) returns (q: seq<nat>)
    ensures q == LaneIds(numLanes)
  {
    q := queue;
    while q != [] {
      q := q[1..];
    }
    var index := 1;
    while index < numLanes
      invariant 1 <= index && (index <= numLanes || q == []) && q == LaneIds(index)
    {
      q := q + [index];
      index := index + 1;
    }
    assert LaneIds(0) == LaneIds(1);
  }

  /** The process has a lane of its own: the cache is its own, not inherited. */
  predicate Holds(s: State, p: Pid) {
    p in s.procs && s.procs[p].cache.Cached? && s.procs[p].cache.pid == p
  }

  function LaneOf(s: State, p: Pid): nat
    requires Holds(s, p)
  {
    s.procs[p].cache.lane
  }

  function SetProc(s: State, p: Pid, proc: Proc): State { s.(procs := s.procs[p := proc]) }

  datatype Step =
    | Run
    | Fork(forker: Pid, child: Pid)
    | Claim(p: Pid)
    | Begin(p: Pid)
    | Finish(p: Pid)
    | Await(p: Pid)
    | Acquire(p: Pid)
    | Release(p: Pid)
    | Exit(p: Pid)

  /** `claim_lane` must draw from the queue: the cache is not this process's own and it is not the parent. */
  predicate MustDraw(s: State, p: Pid) {
    p in s.procs && p != s.parent && !Holds(s, p)
  }

  predicate Enabled(s: State, step: Step) {
    match step
    case Run => s.procs.Keys == {s.parent} && s.procs[s.parent].stage == Idle
    case Fork(forker, child) => forker in s.procs && child !in s.procs
    case Claim(p) => p in s.procs && s.procs[p].stage == Idle && (MustDraw(s, p) ==> s.queue != [])
    case Begin(p) => Holds(s, p) && LaneOf(s, p) < |s.lanes| && s.procs[p].stage == Idle
    case Finish(p) => Holds(s, p) && s.procs[p].stage == Building
    case Await(p) => Holds(s, p) && s.procs[p].stage == Building
    case Acquire(p) => Holds(s, p) && LaneOf(s, p) < |s.lanes| && s.procs[p].stage == Waiting
        && s.lanes[LaneOf(s, p)].lock !in s.locks
    case Release(p) => Holds(s, p) && LaneOf(s, p) < |s.lanes| && s.procs[p].stage == Locked
    case Exit(p) => p in s.procs && p != s.parent
  }

  /** The locks left when process `p` closes its descriptor, by releasing or by dying. */
  function Unlocked(s: State, p: Pid): map<Gpu, Pid> {
    map g | g in s.locks && s.locks[g] != p :: s.locks[g]
  }

  function Next(s: State, step: Step): State
    requires Enabled(s, step)
  {
    match step
    case Run => s.(queue := LaneIds(|s.lanes|), spawned := 0)
    case Fork(forker, child) =>
      SetProc(s, child, Proc(s.procs[forker].cache, Idle)).(spawned := s.spawned + 1)
    case Claim(p) =>
      if Holds(s, p) then s
      else if p == s.parent then SetProc(s, p, s.procs[p].(cache := Cached(0, p)))
      else SetProc(s, p, s.procs[p].(cache := Cached(s.queue[0], p))).(queue := s.queue[1..])
    case Begin(p) => SetProc(s, p, s.procs[p].(stage := Building))
    case Finish(p) => SetProc(s, p, s.procs[p].(stage := Idle))
    case Await(p) => SetProc(s, p, s.procs[p].(stage := Waiting))
    case Acquire(p) =>
      SetProc(s, p, s.procs[p].(stage := Locked)).(locks := s.locks[s.lanes[LaneOf(s, p)].lock := p])
    case Release(p) => SetProc(s, p, s.procs[p].(stage := Idle)).(locks := Unlocked(s, p))
    case Exit(p) => s.(procs := s.procs - {p}, locks := Unlocked(s, p))
  }

  /** Start-up: the parent alone, nothing cached, an empty queue. */
  ghost predicate Init(s: State) {
    && s.procs == map[s.parent := Proc(Unset, Idle)]
    && s.queue == [] && s.locks == map[] && s.spawned == 0
    && s.lanes != []
  }

  // The invariant.

  ghost function Caches(s: State): map<Pid, Cache> {
    map p | p in s.procs :: s.procs[p].cache
  }

  /** Queued lanes are real, distinct and in nobody's cache; one lane is cached under one process only. */
  ghost predicate Apart(queue: seq<nat>, caches: map<Pid, Cache>, numLanes: nat, parent: Pid) {
    && parent in caches && numLanes > 0
    && (caches[parent].Unset? || caches[parent] == Cached(0, parent))
    && (forall i | 0 <= i < |queue| :: 0 < queue[i] < numLanes)
    && Distinct(queue)
    && (forall p | p in caches && caches[p].Cached? :: caches[p].lane < numLanes && caches[p].lane !in queue)
    && (forall p, q | p in caches && q in caches && caches[p].Cached? && caches[q].Cached?
        && caches[p].lane == caches[q].lane ::
          caches[p].pid == caches[q].pid)
    && (forall p | p in caches && caches[p].Cached? && caches[p].lane == 0 :: caches[p].pid == parent)
  }

  ghost predicate LanesApart(s: State) {
    Apart(s.queue, Caches(s), |s.lanes|, s.parent)
  }

  /** A process is past `Idle` only with a lane, and holds a GPU's lock exactly while it is `Locked` on it. */
  ghost predicate LocksHeld(s: State) {
    && (forall p | p in s.procs && s.procs[p].stage != Idle :: Holds(s, p) && LaneOf(s, p) < |s.lanes|)
    && (forall p | p in s.procs && s.procs[p].stage == Locked ::
          s.lanes[LaneOf(s, p)].lock in s.locks && s.locks[s.lanes[LaneOf(s, p)].lock] == p)
    && (forall g | g in s.locks :: s.locks[g] in s.procs && s.procs[s.locks[g]].stage == Locked
                                   && s.lanes[LaneOf(s, s.locks[g])].lock == g)
  }

  ghost predicate Inv(s: State) {
    LanesApart(s) && LocksHeld(s)
  }

  /** The head of the queue goes to a process that has no lane of its own. */
  lemma DrawKeepsApart(queue: seq<nat>, caches: map<Pid, Cache>, numLanes: nat, parent: Pid, p: Pid)
    requires Apart(queue, caches, numLanes, parent) && queue != [] && p in caches && p != parent
    ensures Apart(queue[1..], caches[p := Cached(queue[0], p)], numLanes, parent)
  {
  }

  lemma ForkKeepsApart(queue: seq<nat>, caches: map<Pid, Cache>, numLanes: nat, parent: Pid, forker: Pid, child: Pid)
    requires Apart(queue, caches, numLanes, parent) && forker in caches && child !in caches
    ensures Apart(queue, caches[child := caches[forker]], numLanes, parent)
  {
  }

  lemma LanesStayApart(s: State, step: Step)
    requires LanesApart(s) && Enabled(s, step)
    ensures LanesApart(Next(s, step))
  {
    CachesAfter(s, step);
    hide Apart, Caches;
    match step
    case Run => RefillKeepsApart(s.queue, Caches(s), |s.lanes|, s.parent);
    case Fork(forker, child) => ForkKeepsApart(s.queue, Caches(s), |s.lanes|, s.parent, forker, child);
    case Claim(p) =>
      if MustDraw(s, p) {
        DrawKeepsApart(s.queue, Caches(s), |s.lanes|, s.parent, p);
      } else if p == s.parent && !Holds(s, p) {
        ParentTakesZero(s.queue, Caches(s), |s.lanes|, s.parent);
      }
    case Exit(p) => ExitKeepsApart(s.queue, Caches(s), |s.lanes|, s.parent, p);
    case _ =>
  }

  lemma ParentTakesZero(queue: seq<nat>, caches: map<Pid, Cache>, numLanes: nat, parent: Pid)
    requires Apart(queue, caches, numLanes, parent)
    ensures Apart(queue, caches[parent := Cached(0, parent)], numLanes, parent)
  {
  }

  lemma RefillKeepsApart(queue: seq<nat>, caches: map<Pid, Cache>, numLanes: nat, parent: Pid)
    requires Apart(queue, caches, numLanes, parent) && caches.Keys == {parent}
    ensures Apart(LaneIds(numLanes), caches, numLanes, parent)
  {
  }

  lemma ExitKeepsApart(queue: seq<nat>, caches: map<Pid, Cache>, numLanes: nat, parent: Pid, p: Pid)
    requires Apart(queue, caches, numLanes, parent) && p != parent
    ensures Apart(queue, caches - {p}, numLanes, parent)
  {
  }

  /** What each step does to the processes' caches. */
  lemma CachesAfter(s: State, step: Step)
    requires Enabled(s, step)
    ensures Caches(s).Keys == s.procs.Keys && forall p | p in s.procs :: Caches(s)[p] == s.procs[p].cache
    ensures Caches(Next(s, step)) ==
            match step
            case Fork(forker, child) => Caches(s)[child := s.procs[forker].cache]
            case Claim(p) =>
              if Holds(s, p) then Caches(s)
              else Caches(s)[p := Cached(if p == s.parent then 0 else s.queue[0], p)]
            case Exit(p) => Caches(s) - {p}
            case _ => Caches(s)
  {
    hide LaneIds, Unlocked;
  }

  /** Steps that leave the `Locked` processes, their lanes and the lock table alone. */
  lemma LocksUntouched(s: State, t: State)
    requires LocksHeld(s) && t.locks == s.locks && t.lanes == s.lanes
    requires forall p | p in t.procs :: t.procs[p].stage != Idle ==> Holds(t, p) && LaneOf(t, p) < |t.lanes|
    requires forall p | p in t.procs && t.procs[p].stage == Locked :: p in s.procs && s.procs[p] == t.procs[p]
    requires forall p | p in s.procs && s.procs[p].stage == Locked :: p in t.procs && s.procs[p] == t.procs[p]
    ensures LocksHeld(t)
  {
  }

  lemma SameProcsKeepLocks(s: State, t: State)
    requires LocksHeld(s) && t.locks == s.locks && t.lanes == s.lanes && t.procs == s.procs
    ensures LocksHeld(t)
  {
    LocksUntouched(s, t);
  }

  lemma ForkKeepsLocks(s: State, forker: Pid, child: Pid)
    requires LocksHeld(s) && Enabled(s, Fork(forker, child))
    ensures LocksHeld(Next(s, Fork(forker, child)))
  {
    LocksUntouched(s, Next(s, Fork(forker, child)));
  }

  lemma ClaimKeepsLocks(s: State, p: Pid)
    requires LocksHeld(s) && Enabled(s, Claim(p))
    ensures LocksHeld(Next(s, Claim(p)))
  {
    LocksUntouched(s, Next(s, Claim(p)));
  }

  /** A process with a lane changes its stage, but neither to nor from `Locked`. */
  lemma StageKeepsLocks(s: State, p: Pid, stage: Stage)
    requires LocksHeld(s) && Holds(s, p) && (LaneOf(s, p) < |s.lanes| || s.procs[p].stage != Idle)
    requires s.procs[p].stage != Locked && stage != Locked
    ensures LocksHeld(SetProc(s, p, s.procs[p].(stage := stage)))
  {
    LocksUntouched(s, SetProc(s, p, s.procs[p].(stage := stage)));
  }

  /** A process that gives up its lock or dies leaves the other processes' locks. */
  lemma UnlockKeeps(s: State, t: State, p: Pid)
    requires LocksHeld(s) && t.locks == Unlocked(s, p) && t.lanes == s.lanes
    requires forall q | q in t.procs && q != p :: q in s.procs && s.procs[q] == t.procs[q]
    requires forall q | q in s.procs && q != p :: q in t.procs && s.procs[q] == t.procs[q]
    requires p in t.procs ==> t.procs[p].stage == Idle
    ensures LocksHeld(t)
  {
  }

  lemma LocksStayHeld(s: State, step: Step)
    requires LocksHeld(s) && Enabled(s, step)
    ensures LocksHeld(Next(s, step))
  {
    hide LocksHeld, Unlocked;
    var t := Next(s, step);
    match step
    case Run => SameProcsKeepLocks(s, t);
    case Fork(forker, child) => ForkKeepsLocks(s, forker, child);
    case Claim(p) => ClaimKeepsLocks(s, p);
    case Begin(p) => StageKeepsLocks(s, p, Building);
    case Finish(p) => StageKeepsLocks(s, p, Idle);
    case Await(p) => StageKeepsLocks(s, p, Waiting);
    case Acquire(p) => AcquireKeeps(s, p);
    case Release(p) => UnlockKeeps(s, t, p);
    case Exit(p) => UnlockKeeps(s, t, p);
  }

  lemma AcquireKeeps(s: State, p: Pid)
    requires LocksHeld(s) && Enabled(s, Acquire(p))
    ensures LocksHeld(Next(s, Acquire(p)))
  {
  }

  /** Every step keeps the invariant. */
  lemma StepInv(s: State, step: Step)
    requires Inv(s) && Enabled(s, step)
    ensures Inv(Next(s, step))
  {
    LanesStayApart(s, step);
    LocksStayHeld(s, step);
  }

  ghost predicate IsRun(states: seq<State>, steps: seq<Step>) {
    && |states| == |steps| + 1
    && Init(states[0])
    && forall i | 0 <= i < |steps| :: Enabled(states[i], steps[i]) && states[i + 1] == Next(states[i], steps[i])
  }

  lemma {:induction false} RunInv(states: seq<State>, steps: seq<Step>, i: nat)
    requires IsRun(states, steps) && i < |states|
    ensures Inv(states[i])
  {
    if i == 0 {
    } else {
      RunInv(states, steps, i - 1);
      StepInv(states[i - 1], steps[i - 1]);
    }
  }

  /** No two processes hold one lane, and at most one per GPU is in the locked section. */
  ghost predicate Safe(s: State) {
    && (forall p, q | Holds(s, p) && Holds(s, q) && p != q :: LaneOf(s, p) != LaneOf(s, q))
    && (forall p | Holds(s, p) :: LaneOf(s, p) < |s.lanes|)
    && (forall p | p in s.procs && s.procs[p].stage == Locked :: Holds(s, p))
    && (forall p, q | Holds(s, p) && Holds(s, q) && s.procs[p].stage == Locked == s.procs[q].stage && p != q ::
          s.lanes[LaneOf(s, p)].gpu != s.lanes[LaneOf(s, q)].gpu)
  }

  lemma InvIsSafe(s: State)
    requires Inv(s) && forall i | 0 <= i < |s.lanes| :: s.lanes[i].lock == s.lanes[i].gpu
    ensures Safe(s)
  {
    forall p, q | Holds(s, p) && Holds(s, q) && p != q ensures LaneOf(s, p) != LaneOf(s, q) {
      assert Caches(s)[p] == s.procs[p].cache && Caches(s)[q] == s.procs[q].cache;
    }
    forall p | Holds(s, p) ensures LaneOf(s, p) < |s.lanes| {
      assert Caches(s)[p] == s.procs[p].cache;
    }
  }

  /** Lanes are fixed for a whole search. */
  lemma {:induction false} LanesFixed(states: seq<State>, steps: seq<Step>, i: nat)
    requires IsRun(states, steps) && i < |states|
    ensures states[i].lanes == states[0].lanes && states[i].parent == states[0].parent
  {
    if i > 0 { LanesFixed(states, steps, i - 1); }
  }

  /**
   * Safety over every run on lanes built from distinct GPUs: at every moment live processes hold
   * different lanes and build directories, children forked with a cached lane included, and each GPU
   * has at most one process in its locked section.
   */
  lemma EveryRunIsSafe(gpus: seq<Gpu>, states: seq<State>, steps: seq<Step>, i: nat, p: Pid, q: Pid)
    requires IsRun(states, steps) && i < |states|
    requires gpus != [] && Distinct(gpus) && |states[0].lanes| >= |gpus|
    requires forall k | 0 <= k < |states[0].lanes| :: states[0].lanes[k] == LaneAt(gpus, k)
    ensures Safe(states[i])
    ensures var s := states[i];
            Holds(s, p) && Holds(s, q) && p != q ==>
              s.lanes[LaneOf(s, p)].directory != s.lanes[LaneOf(s, q)].directory
  {
    var s := states[i];
    RunInv(states, steps, i);
    LanesFixed(states, steps, i);
    InvIsSafe(s);
    if Holds(s, p) && Holds(s, q) && p != q {
      SameDirectorySameLane(gpus, LaneOf(s, p), LaneOf(s, q));
    }
  }

  // Locks are neither stale nor lost.

  /** The process is in the locked section of the GPU. */
  ghost predicate LockedOn(s: State, q: Pid, g: Gpu) {
    Holds(s, q) && s.procs[q].stage == Locked && LaneOf(s, q) < |s.lanes| && s.lanes[LaneOf(s, q)].gpu == g
  }

  /**
   * At every moment of every run a process may enter the locked section if and only if it waits to and nobody is
   * in the section of its GPU: no dead or finished process keeps a lock.
   */
  lemma AcquiresExactly(states: seq<State>, steps: seq<Step>, i: nat, p: Pid)
    requires IsRun(states, steps) && i < |states|
    requires forall k | 0 <= k < |states[0].lanes| :: states[0].lanes[k].lock == states[0].lanes[k].gpu
    ensures var s := states[i];
            p in s.procs && s.procs[p].stage == Waiting ==> Holds(s, p) && LaneOf(s, p) < |s.lanes|
    ensures var s := states[i];
            Enabled(s, Acquire(p)) <==>
            && p in s.procs && s.procs[p].stage == Waiting
            && Holds(s, p) && LaneOf(s, p) < |s.lanes|
            && forall q :: !LockedOn(s, q, s.lanes[LaneOf(s, p)].gpu)
  {
    var s := states[i];
    RunInv(states, steps, i);
    LanesFixed(states, steps, i);
    if Holds(s, p) && LaneOf(s, p) < |s.lanes| {
      var g := s.lanes[LaneOf(s, p)].gpu;
      if g in s.locks { assert LockedOn(s, s.locks[g], g); }
    }
  }

  /** A process that has a lane keeps it for as long as it lives. */
  lemma {:induction false} LaneKept(states: seq<State>, steps: seq<Step>, i: nat, j: nat, p: Pid)
    requires IsRun(states, steps) && i <= j < |states| && Holds(states[i], p)
    requires forall k | i <= k < j :: steps[k] != Exit(p)
    ensures Holds(states[j], p) && LaneOf(states[j], p) == LaneOf(states[i], p)
    decreases j - i
  {
    if i < j { LaneKept(states, steps, i, j - 1, p); }
  }

  /** A process can die in its locked section, and whoever waits for that GPU can then enter its own. */
  lemma DeathFreesLock(states: seq<State>, steps: seq<Step>, i: nat, p: Pid, q: Pid, g: Gpu)
    requires IsRun(states, steps) && i < |states|
    requires forall k | 0 <= k < |states[0].lanes| :: states[0].lanes[k].lock == states[0].lanes[k].gpu
    requires LockedOn(states[i], p, g) && p != states[i].parent
    requires q in states[i].procs && states[i].procs[q].stage == Waiting
    requires Holds(states[i], q) && LaneOf(states[i], q) < |states[i].lanes|
            && states[i].lanes[LaneOf(states[i], q)].gpu == g
    ensures !Enabled(states[i], Acquire(q)) && Enabled(states[i], Exit(p))
    ensures Enabled(Next(states[i], Exit(p)), Acquire(q))
  {
    RunInv(states, steps, i);
    LanesFixed(states, steps, i);
  }

  /**
   * Any live process can fork at any moment. The child has to draw a lane of its own, unless the cache it
   * inherits was filled under the process number it is given.
   */
  lemma ForkedChildDraws(states: seq<State>, steps: seq<Step>, i: nat, forker: Pid, child: Pid)
    requires IsRun(states, steps) && i < |states| && forker in states[i].procs && child !in states[i].procs
    ensures Enabled(states[i], Fork(forker, child))
    ensures MustDraw(Next(states[i], Fork(forker, child)), child) <==>
            var cache := states[i].procs[forker].cache; cache.Unset? || cache.pid != child
  {
    RunInv(states, steps, i);
  }

  /** Once only the idle parent is left a generation can start, with every lane but the first one queued once. */
  lemma GenerationStarts(states: seq<State>, steps: seq<Step>, i: nat)
    requires IsRun(states, steps) && i < |states|
    requires states[i].procs.Keys == {states[i].parent} && states[i].procs[states[i].parent].stage == Idle
    ensures Enabled(states[i], Run)
    ensures var queue := Next(states[i], Run).queue;
            Distinct(queue) && forall l: nat :: l in queue <==> 0 < l < |states[i].lanes|
  {
    var n, queue := |states[i].lanes|, LaneIds(|states[i].lanes|);
    forall l: nat | 0 < l < n ensures l in queue {
      assert queue[l - 1] == l;
    }
  }

  /** An evaluation, run to its end or given up after the build, leaves everything as it was. */
  lemma EvaluationReturns(s: State, p: Pid)
    requires LocksHeld(s) && Enabled(s, Begin(p)) && s.lanes[LaneOf(s, p)].lock !in s.locks
    ensures Enabled(Next(s, Begin(p)), Finish(p)) && Next(Next(s, Begin(p)), Finish(p)) == s
    ensures var waiting := Next(Next(s, Begin(p)), Await(p));
            && Enabled(waiting, Acquire(p)) && Enabled(Next(waiting, Acquire(p)), Release(p))
            && Next(Next(waiting, Acquire(p)), Release(p)) == s
  {
    var locked := Next(Next(Next(s, Begin(p)), Await(p)), Acquire(p));
    assert s.procs[p := s.procs[p]] == s.procs;
    assert forall g | g in s.locks :: s.locks[g] != p;
    assert Unlocked(locked, p) == s.locks;
  }

  /**
   * On any two lanes of different GPUs some run has the parent and a worker, forked with the parent's lane in its
   * cache, in their locked sections at once.
   */
  lemma BothBenchmark(lanes: seq<Lane>) returns (states: seq<State>, steps: seq<Step>)
    requires |lanes| >= 2 && lanes[0].lock != lanes[1].lock
    ensures IsRun(states, steps) && states[0].lanes == lanes
    ensures var s := states[|steps|];
            && s.lanes == lanes && Holds(s, 0) && Holds(s, 1)
            && s.procs[0].stage == Locked == s.procs[1].stage && LaneOf(s, 0) == 0 && LaneOf(s, 1) == 1
    ensures exists i :: 0 <= i < |states| && 1 in states[i].procs && states[i].procs[1].cache == Cached(0, 0)
  {
    states, steps := BothHaveLanes(lanes);
    states, steps := GoOn(states, steps, lanes, 0, 1);
    states, steps := GoOn(states, steps, lanes, 1, 0);
  }

  ghost predicate HasLane(s: State, lanes: seq<Lane>, p: Pid, stage: Stage) {
    s.lanes == lanes && Holds(s, p) && LaneOf(s, p) == p && s.procs[p].stage == stage
  }

  lemma BothHaveLanes(lanes: seq<Lane>) returns (states: seq<State>, steps: seq<Step>)
    requires |lanes| >= 2
    ensures IsRun(states, steps) && states[0].lanes == lanes
    ensures HasLane(states[|steps|], lanes, 0, Idle) && HasLane(states[|steps|], lanes, 1, Idle)
    ensures states[|steps|].locks == map[]
    ensures exists i :: 0 <= i < |states| && 1 in states[i].procs && states[i].procs[1].cache == Cached(0, 0)
  {
    var s := State(lanes, 0, [], map[0 := Proc(Unset, Idle)], map[], 0);
    var first := Next(s, Run);
    var claimed := Next(first, Claim(0));
    var forked := Next(claimed, Fork(0, 1));
    var drawn := Next(forked, Claim(1));
    states, steps := [s, first, claimed, forked, drawn], [Run, Claim(0), Fork(0, 1), Claim(1)];
    assert states[3].procs[1].cache == Cached(0, 0);
  }

  /** A process with a lane whose lock is free builds, waits and enters its locked section; another is left alone. */
  lemma GoOn(states: seq<State>, steps: seq<Step>, lanes: seq<Lane>, p: Pid, other: Pid)
    returns (states': seq<State>, steps': seq<Step>)
    requires IsRun(states, steps) && HasLane(states[|steps|], lanes, p, Idle) && p < |lanes| && p != other
    requires Holds(states[|steps|], other) && lanes[p].lock !in states[|steps|].locks
    ensures IsRun(states', steps') && states <= states' && HasLane(states'[|steps'|], lanes, p, Locked)
    ensures Holds(states'[|steps'|], other)
    ensures states'[|steps'|].procs[other] == states[|steps|].procs[other]
    ensures states'[|steps'|].locks == states[|steps|].locks[lanes[p].lock := p]
  {
    var s := states[|steps|];
    var building := Next(s, Begin(p));
    var waiting := Next(building, Await(p));
    var locked := Next(waiting, Acquire(p));
    states', steps' := states + [building, waiting, locked], steps + [Begin(p), Await(p), Acquire(p)];
  }

  // Claiming never waits.

  ghost function Undrawn(s: State): set<Pid> {
    set p | p in s.procs && MustDraw(s, p)
  }

  /** Each worker of the generation draws at most once, so the workers still to draw find enough lanes. */
  ghost predicate EnoughLanes(s: State) {
    |Undrawn(s)| + (|s.lanes| - 1 - |s.queue|) <= s.spawned
  }

  /** Processes with the same caches have the same draws before them. */
  lemma SameToDraw(s: State, t: State)
    requires t.parent == s.parent && t.procs.Keys == s.procs.Keys
    requires forall p | p in s.procs :: t.procs[p].cache == s.procs[p].cache
    ensures Undrawn(t) == Undrawn(s)
  {
  }

  lemma EnoughAfterStep(s: State, step: Step)
    requires s.lanes != [] && EnoughLanes(s) && Enabled(s, step)
    ensures EnoughLanes(Next(s, step))
  {
    var t := Next(s, step);
    match step
    case Run =>
    case Fork(forker, child) =>
      Smaller(Undrawn(t), Undrawn(s) + {child});
    case Claim(p) =>
      if MustDraw(s, p) {
        assert p in Undrawn(s) && Undrawn(t) == Undrawn(s) - {p};
      } else {
        assert Undrawn(t) == Undrawn(s);
      }
    case Exit(p) =>
      Smaller(Undrawn(t), Undrawn(s));
    case _ => SameToDraw(s, t);
  }

  lemma Smaller(a: set<Pid>, b: set<Pid>)
    requires a <= b
    ensures |a| <= |b|
  {
    assert b == a + (b - a);
  }

  /** From the first generation on there are enough lanes. */
  lemma {:induction false} EnoughInRun(states: seq<State>, steps: seq<Step>, first: nat, i: nat)
    requires IsRun(states, steps) && first < i < |states| && steps[first] == Run
    ensures EnoughLanes(states[i])
  {
    RunInv(states, steps, i - 1);
    if i == first + 1 {
    } else {
      EnoughInRun(states, steps, first, i - 1);
      EnoughAfterStep(states[i - 1], steps[i - 1]);
    }
  }

  /** With fewer workers in a generation than lanes, a worker that asks for a lane gets one at once. */
  lemma ClaimNeverWaits(states: seq<State>, steps: seq<Step>, first: nat, i: nat, p: Pid)
    requires IsRun(states, steps) && first < i < |states| && steps[first] == Run
    requires MustDraw(states[i], p) && states[i].spawned <= |states[i].lanes| - 1
    ensures states[i].queue != []
  {
    EnoughInRun(states, steps, first, i);
    assert p in Undrawn(states[i]);
  }

  // Waiting for a lane that never comes.

  /** `p` has to draw a lane and none is queued. */
  predicate Waits(s: State, p: Pid) {
    MustDraw(s, p) && s.queue == []
  }

  /** An idle process gets a lane for the asking unless it waits; one that has a lane gets that one again. */
  lemma ClaimsExactly(states: seq<State>, steps: seq<Step>, i: nat, p: Pid)
    requires IsRun(states, steps) && i < |states| && p in states[i].procs && states[i].procs[p].stage == Idle
    ensures Enabled(states[i], Claim(p)) <==> !Waits(states[i], p)
    ensures !Waits(states[i], p) ==>
              var t := Next(states[i], Claim(p));
              && Holds(t, p) && LaneOf(t, p) < |t.lanes| && Enabled(t, Begin(p))
              && (Holds(states[i], p) ==> t == states[i])
  {
    RunInv(states, steps, i);
    var s := states[i];
    if Holds(s, p) { assert Caches(s)[p] == s.procs[p].cache; }
  }

  /** Some run of one generation has forked `w` workers and left one of the processes waiting. */
  ghost predicate CanWait(lanes: seq<Lane>, w: nat) {
    exists states, steps, p :: WaitingRun(states, steps, lanes, w, p)
  }

  ghost predicate WaitingRun(states: seq<State>, steps: seq<Step>, lanes: seq<Lane>, w: nat, p: Pid) {
    && IsRun(states, steps) && states[0].lanes == lanes
    && steps != [] && steps[0] == Run
    && states[|steps|].spawned == w && Waits(states[|steps|], p)
  }

  /** A run of a generation in which no process but the parent is idle without a lane. */
  ghost predicate Served(states: seq<State>, steps: seq<Step>, lanes: seq<Lane>, k: nat) {
    && IsRun(states, steps) && states[0].lanes == lanes
    && steps != [] && steps[0] == Run
    && var s := states[|steps|];
       && s.parent == 0 && s.lanes == lanes
       && s.spawned == k && (forall p: Pid :: p in s.procs <==> p <= k) && s.procs[0] == Proc(Unset, Idle)
  }

  /** One more fork by the parent; the child has to draw a lane. */
  lemma ForkOne(states: seq<State>, steps: seq<Step>, lanes: seq<Lane>, k: nat)
    returns (states': seq<State>, steps': seq<Step>)
    requires Served(states, steps, lanes, k)
    ensures Served(states', steps', lanes, k + 1) && states'[|steps'|].procs[k + 1] == Proc(Unset, Idle)
    ensures states'[|steps'|].queue == states[|steps|].queue
  {
    states', steps' := states + [Next(states[|steps|], Fork(0, k + 1))], steps + [Fork(0, k + 1)];
  }

  /** `k` workers fork and draw the first `k` lanes. */
  lemma {:induction false} ServeWorkers(lanes: seq<Lane>, k: nat) returns (states: seq<State>, steps: seq<Step>)
    requires k < |lanes|
    ensures Served(states, steps, lanes, k) && states[|steps|].queue == LaneIds(|lanes|)[k..]
  {
    if k == 0 {
      var s := State(lanes, 0, [], map[0 := Proc(Unset, Idle)], map[], 0);
      states, steps := [s, Next(s, Run)], [Run];
      assert LaneIds(|lanes|)[0..] == LaneIds(|lanes|);
    } else {
      states, steps := ServeWorkers(lanes, k - 1);
      states, steps := ForkOne(states, steps, lanes, k - 1);
      assert LaneIds(|lanes|)[k - 1..][1..] == LaneIds(|lanes|)[k..];
      var s := states[|steps|];
      assert MustDraw(s, k) && !Holds(s, k);
      assert Next(s, Claim(k)).queue == s.queue[1..];
      states, steps := states + [Next(s, Claim(k))], steps + [Claim(k)];
    }
  }

  /** Workers past the last lane fork, and each of them has to wait. */
  lemma {:induction false} ForkTooMany(lanes: seq<Lane>, w: nat) returns (states: seq<State>, steps: seq<Step>)
    requires lanes != [] && w >= |lanes|
    ensures Served(states, steps, lanes, w) && Waits(states[|steps|], w)
    decreases w
  {
    if w == |lanes| {
      states, steps := ServeWorkers(lanes, w - 1);
    } else {
      states, steps := ForkTooMany(lanes, w - 1);
    }
    states, steps := ForkOne(states, steps, lanes, w - 1);
  }

  /** A generation can leave a worker waiting exactly when it forks at least as many workers as there are lanes. */
  lemma WaitsExactly(lanes: seq<Lane>, w: nat)
    requires lanes != []
    ensures CanWait(lanes, w) <==> w >= |lanes|
  {
    if CanWait(lanes, w) {
      var states, steps, p :| WaitingRun(states, steps, lanes, w, p);
      LanesFixed(states, steps, |steps|);
      if w < |lanes| { ClaimNeverWaits(states, steps, 0, |steps|, p); }
    }
    if w >= |lanes| {
      var states, steps := ForkTooMany(lanes, w);
      assert WaitingRun(states, steps, lanes, w, w);
    }
  }

  /** A waiting process waits until it dies, whatever the others do: nothing refills the queue while it lives. */
  lemma {:induction false} WaitsForEver(states: seq<State>, steps: seq<Step>, i: nat, j: nat, p: Pid)
    requires IsRun(states, steps) && i <= j < |states| && Waits(states[i], p)
    requires forall k | i <= k < j :: steps[k] != Exit(p)
    ensures Waits(states[j], p) && !Enabled(states[j], Claim(p))
    decreases j - i
  {
    if i < j {
      WaitsForEver(states, steps, i, j - 1, p);
    }
  }

  /** A concrete run: one lane, one worker, which is left waiting. */
  lemma OneWorkerTooManyWaits() returns (states: seq<State>, steps: seq<Step>)
    ensures IsRun(states, steps) && |states| == 3 && steps[0] == Run
    ensures states[2].spawned == |states[2].lanes| && MustDraw(states[2], 1) && !Enabled(states[2], Claim(1))
  {
    var lane := Lane("0", Directory("0", 0), "0");
    var s0 := State([lane], 0, [], map[0 := Proc(Unset, Idle)], map[], 0);
    var s1 := Next(s0, Run);
    var s2 := Next(s1, Fork(0, 1));
    states, steps := [s0, s1, s2], [Run, Fork(0, 1)];
  }
}
