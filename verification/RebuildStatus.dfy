/** Dirty propagation through the reverse dependency graph, and the status of every project. */
module RebuildStatus {
  import opened Sorting
  import opened RebuildGraph

  /** A dependent and whether the edge asks for a full rebuild. */
  type Edge = (Key, bool)

  type Reverse = map<Key, seq<Edge>>

  function Out(rev: Reverse, dep: Key): seq<Edge> {
    if dep in rev then rev[dep] else []
  }

  ghost predicate HasEdge(cfg: Config, dep: Key, e: Edge) {
    && e.0 in cfg.projects
    && var p := cfg.projects[e.0]; if e.1 then dep in p.full else dep in p.lite || dep in p.transitive
  }

  ghost predicate IsReverse(cfg: Config, rev: Reverse) {
    forall dep, e :: e in Out(rev, dep) <==> HasEdge(cfg, dep, e)
  }

  method AddEdges(rev: Reverse, deps: seq<Key>, edge: Edge) returns (r: Reverse)
    ensures forall dep, e :: e in Out(r, dep) <==> e in Out(rev, dep) || (dep in deps && e == edge)
  {
    r := rev;
    for i := 0 to |deps|
      invariant forall dep, e :: e in Out(r, dep) <==> e in Out(rev, dep) || (dep in deps[..i] && e == edge)
    {
      assert deps[..i + 1] == deps[..i] + [deps[i]];
      r := r[deps[i] := Out(r, deps[i]) + [edge]];
    }
    assert deps[..|deps|] == deps;
  }

  /** `build_reverse_dependency_graph`. */
  method BuildReverse(cfg: Config) returns (rev: Reverse)
    requires cfg.Valid()
    ensures IsReverse(cfg, rev)
  {
    rev := map[];
    for i := 0 to |cfg.keys|
      invariant forall dep, e :: e in Out(rev, dep) <==> e.0 in cfg.keys[..i] && HasEdge(cfg, dep, e)
    {
      var key := cfg.keys[i];
      assert key in cfg.keys && cfg.keys[..i + 1] == cfg.keys[..i] + [key];
      var p := cfg.projects[key];
      rev := AddEdges(rev, p.full, (key, true));
      rev := AddEdges(rev, p.lite, (key, false));
      rev := AddEdges(rev, p.transitive, (key, false));
    }
    assert cfg.keys[..|cfg.keys|] == cfg.keys;
  }

  // Propagation.

  type Item = (Key, nat)

  /** Some project with dirty files, `c`, is listed by `x` as a full dependency. */
  ghost predicate FullDependent(cfg: Config, initial: seq<Key>, x: Key) {
    x in cfg.projects && exists c :: c in initial && c in cfg.projects[x].full
  }

  ghost predicate Upstream(cfg: Config, initial: seq<Key>, x: Key) {
    x in initial || exists c :: c in initial && cfg.Reaches(x, c)
  }

  /** What the sets mean while `queue` is still to be expanded. */
  ghost predicate Spread(cfg: Config, rev: Reverse, initial: seq<Key>, full: set<Key>, lite: set<Key>,
                         queue: seq<Item>) {
    && (forall it | it in queue :: it.0 in full + lite && (it.1 == 0 ==> it.0 in initial))
    && (forall c | c in initial :: c in full)
    && full !! lite
    && (forall x | x in full :: x in initial || FullDependent(cfg, initial, x))
    && (forall x | x in full + lite :: Upstream(cfg, initial, x))
    && (forall c | c in initial :: (c, 0) in queue || FullDone(rev, full, c))
    && (forall c | c in full + lite :: Pending(queue, c) || Done(rev, full + lite, c))
  }

  ghost predicate Pending(queue: seq<Item>, c: Key) {
    exists it :: it in queue && it.0 == c
  }

  ghost predicate FullDone(rev: Reverse, full: set<Key>, c: Key) {
    forall e | e in Out(rev, c) && e.1 :: e.0 in full
  }

  ghost predicate Done(rev: Reverse, found: set<Key>, c: Key) {
    forall e | e in Out(rev, c) :: e.0 in found
  }

  /** Every edge comes from a dependency path, so what it adds lies upstream of a dirty project. */
  lemma EdgeIsUpstream(cfg: Config, raw: Config, rev: Reverse, initial: seq<Key>, c: Key, e: Edge)
    requires Completed(raw, cfg) && IsReverse(cfg, rev) && e in Out(rev, c) && Upstream(cfg, initial, c)
    ensures Upstream(cfg, initial, e.0)
  {
    assert HasEdge(cfg, c, e);
    CompletedReaches(raw, cfg);
    if cfg.DependsOn(e.0, c) {
      DirectReaches(cfg, e.0, c);
    }
    assert cfg.Reaches(e.0, c);
    if c !in initial {
      var d :| d in initial && cfg.Reaches(c, d);
      ReachesTransitive(cfg, e.0, c, d);
    }
  }

  /** A project found for the first time, or promoted, joins the queue with its dependents still to visit. */
  lemma AddOne(cfg: Config, rev: Reverse, initial: seq<Key>, full: set<Key>, lite: set<Key>,
               queue: seq<Item>, x: Key, depth: nat, asFull: bool)
    requires Spread(cfg, rev, initial, full, lite, queue) && Upstream(cfg, initial, x) && depth > 0
    requires x !in full && (asFull || x !in lite) && (asFull ==> FullDependent(cfg, initial, x))
    ensures Spread(cfg, rev, initial, if asFull then full + {x} else full, if asFull then lite - {x} else lite + {x},
                   queue + [(x, depth)])
  {
    var f, l := if asFull then full + {x} else full, if asFull then lite - {x} else lite + {x};
    var all := queue + [(x, depth)];
    hide FullDependent, Upstream;
    assert f + l == full + lite + {x};
    assert all[|queue|] == (x, depth) && forall it | it in queue :: it in all;
    forall c | c in f + l ensures Pending(all, c) || Done(rev, f + l, c) {
      if c != x { assert Pending(queue, c) || Done(rev, full + lite, c); }
    }
  }

  /** A project already found may become a full one. */
  lemma Promote(cfg: Config, rev: Reverse, initial: seq<Key>, full: set<Key>, lite: set<Key>, queue: seq<Item>, x: Key)
    requires Spread(cfg, rev, initial, full, lite, queue) && x in lite && FullDependent(cfg, initial, x)
    ensures Spread(cfg, rev, initial, full + {x}, lite - {x}, queue)
  {
    hide FullDependent, Upstream;
    assert full + {x} + (lite - {x}) == full + lite;
  }

  /** An expanded item leaves the queue. */
  lemma Finish(cfg: Config, rev: Reverse, initial: seq<Key>, full: set<Key>, lite: set<Key>, it: Item, rest: seq<Item>)
    requires Spread(cfg, rev, initial, full, lite, [it] + rest)
    requires Done(rev, full + lite, it.0) && (it.1 == 0 ==> FullDone(rev, full, it.0))
    ensures Spread(cfg, rev, initial, full, lite, rest)
  {
  }

  /** The sets reached when nothing is left to expand, whatever the order of expansion. */
  lemma Settled(cfg: Config, raw: Config, rev: Reverse, initial: seq<Key>, full: set<Key>, lite: set<Key>)
    requires Completed(raw, cfg) && IsReverse(cfg, rev) && Spread(cfg, rev, initial, full, lite, [])
    ensures forall x :: x in full <==> x in initial || FullDependent(cfg, initial, x)
    ensures forall x :: x in full + lite <==> Upstream(cfg, initial, x)
    ensures full !! lite
  {
    forall x | FullDependent(cfg, initial, x) ensures x in full {
      var c :| c in initial && c in cfg.projects[x].full;
      assert HasEdge(cfg, c, (x, true));
    }
    var found := full + lite;
    forall x, y | y in found && cfg.DependsOn(x, y) ensures x in found {
      var e := (x, y in cfg.projects[x].full);
      assert HasEdge(cfg, y, e);
    }
    forall x, c | c in initial && cfg.Reaches(x, c) ensures x in found {
      var n: nat :| cfg.ReachesIn(x, c, n);
      ClosedBackHolds(cfg, found, x, c, n);
    }
  }

  function Work(all: set<Key>, full: set<Key>, lite: set<Key>): nat {
    2 * |all - (full + lite)| + |lite|
  }

  lemma WorkDrops(all: set<Key>, full: set<Key>, lite: set<Key>, x: Key)
    requires x in all && x !in full && full !! lite
    ensures Work(all, full + {x}, lite - {x}) < Work(all, full, lite)
    ensures x !in lite ==> Work(all, full, lite + {x}) < Work(all, full, lite)
  {
    if x in lite {
      assert full + {x} + (lite - {x}) == full + lite;
    } else {
      assert lite - {x} == lite;
      assert full + {x} + lite == full + lite + {x};
      assert full + (lite + {x}) == full + lite + {x};
      LeftDrops(all, full + lite, x);
    }
  }

  lemma LeftDrops(all: set<Key>, found: set<Key>, x: Key)
    requires x in all && x !in found
    ensures |all - (found + {x})| == |all - found| - 1
  {
    assert all - (found + {x}) == (all - found) - {x};
  }

  /** `propagate_dirty_projects`. */
  method Propagate(cfg: Config, ghost raw: Config, initial: seq<Key>, rev: Reverse)
    returns (full: set<Key>, lite: set<Key>)
    requires Completed(raw, cfg) && IsReverse(cfg, rev)
    ensures forall x :: x in full <==> x in initial || FullDependent(cfg, initial, x)
    ensures forall x :: x in full + lite <==> Upstream(cfg, initial, x)
    ensures full !! lite
  {
    hide *;
    var queue, seen;
    full, queue, seen := Begin(cfg, initial, rev);
    lite := {};
    while queue != []
      invariant Spread(cfg, rev, initial, full, lite, queue)
      invariant forall it | it in seen :: it.0 in full + lite
      decreases Work(cfg.projects.Keys, full, lite), |queue|
    {
      var item, rest := queue[0], queue[1..];
      assert queue == [item] + rest;
      full, lite, queue, seen := Expand(cfg, raw, initial, rev, full, lite, item, rest, seen);
    }
    Settled(cfg, raw, rev, initial, full, lite);
  }

  /** The changed projects, each queued at depth zero. */
  method Begin(cfg: Config, initial: seq<Key>, rev: Reverse) returns (full: set<Key>, queue: seq<Item>, seen: set<Item>)
    ensures Spread(cfg, rev, initial, full, {}, queue)
    ensures forall it | it in seen :: it.0 in full + {}
  {
    full := set c | c in initial;
    queue := seq(|initial|, i requires 0 <= i < |initial| => (initial[i], 0));
    seen := set it | it in queue;
    assert forall i | 0 <= i < |initial| :: queue[i] == (initial[i], 0);
  }

  /** Visits one dependent of the dequeued item. */
  method Relax(cfg: Config, ghost raw: Config, initial: seq<Key>, rev: Reverse, full0: set<Key>, lite0: set<Key>,
               item: Item, edge: Edge, queue0: seq<Item>, seen0: set<Item>)
    returns (full: set<Key>, lite: set<Key>, queue: seq<Item>, seen: set<Item>)
    requires Completed(raw, cfg) && IsReverse(cfg, rev) && edge in Out(rev, item.0)
    requires Spread(cfg, rev, initial, full0, lite0, [item] + queue0)
    requires forall it | it in seen0 :: it.0 in full0 + lite0
    ensures Spread(cfg, rev, initial, full, lite, [item] + queue)
    ensures forall it | it in seen :: it.0 in full + lite
    ensures full0 <= full && full0 + lite0 <= full + lite
    ensures edge.0 in full + lite && (edge.1 && item.1 == 0 ==> edge.0 in full)
    ensures (full, lite, queue) == (full0, lite0, queue0)
            || Work(cfg.projects.Keys, full, lite) < Work(cfg.projects.Keys, full0, lite0)
  {
    full, lite, queue, seen := full0, lite0, queue0, seen0;
    var (dependent, edgeFull) := edge;
    var depth := item.1;
    var propagateFull := edgeFull && depth == 0;
    if dependent in full || (!propagateFull && dependent in lite) { return; }
    var key := (dependent, depth + 1);
    Grow(cfg, raw, rev, initial, full0, lite0, item, edge, queue0, key);
    WorkDrops(cfg.projects.Keys, full, lite, dependent);
    if propagateFull {
      lite, full := lite - {dependent}, full + {dependent};
    } else {
      lite := lite + {dependent};
    }
    if key !in seen {
      seen := seen + {key};
      queue := queue + [key];
    }
  }

  lemma Grow(cfg: Config, raw: Config, rev: Reverse, initial: seq<Key>, full: set<Key>, lite: set<Key>,
             item: Item, edge: Edge, queue: seq<Item>, key: Item)
    requires Completed(raw, cfg) && IsReverse(cfg, rev) && edge in Out(rev, item.0)
    requires Spread(cfg, rev, initial, full, lite, [item] + queue)
    requires key == (edge.0, item.1 + 1) && edge.0 !in full && ((edge.1 && item.1 == 0) || edge.0 !in lite)
    ensures var asFull, x := edge.1 && item.1 == 0, edge.0;
            var f, l := if asFull then full + {x} else full, if asFull then lite - {x} else lite + {x};
            && Spread(cfg, rev, initial, f, l, [item] + (queue + [key]))
            && (x in lite ==> Spread(cfg, rev, initial, f, l, [item] + queue))
            && full <= f && full + lite <= f + l && x in f + l && full !! lite && x in cfg.projects
  {
    var asFull := edge.1 && item.1 == 0;
    Found(cfg, raw, rev, initial, full, lite, item, edge, queue);
    AddOne(cfg, rev, initial, full, lite, [item] + queue, edge.0, item.1 + 1, asFull);
    if edge.0 in lite { Promote(cfg, rev, initial, full, lite, [item] + queue, edge.0); }
    hide Spread, Completed, IsReverse, FullDependent, Upstream;
    AppendInside(item, queue, key);
  }

  lemma AppendInside(item: Item, queue: seq<Item>, key: Item)
    ensures [item] + queue + [key] == [item] + (queue + [key])
  {
  }

  lemma Found(cfg: Config, raw: Config, rev: Reverse, initial: seq<Key>, full: set<Key>, lite: set<Key>,
              item: Item, edge: Edge, queue: seq<Item>)
    requires Completed(raw, cfg) && IsReverse(cfg, rev) && edge in Out(rev, item.0)
    requires Spread(cfg, rev, initial, full, lite, [item] + queue)
    ensures Upstream(cfg, initial, edge.0) && edge.0 in cfg.projects
    ensures edge.1 && item.1 == 0 ==> FullDependent(cfg, initial, edge.0)
    ensures full !! lite
  {
    assert item in [item] + queue;
    assert HasEdge(cfg, item.0, edge);
    EdgeIsUpstream(cfg, raw, rev, initial, item.0, edge);
  }

  /** The inner loop: visits the dependents of one dequeued item. */
  method Expand(cfg: Config, ghost raw: Config, initial: seq<Key>, rev: Reverse, full0: set<Key>, lite0: set<Key>,
                item: Item, rest: seq<Item>, seen0: set<Item>)
    returns (full: set<Key>, lite: set<Key>, queue: seq<Item>, seen: set<Item>)
    requires Completed(raw, cfg) && IsReverse(cfg, rev)
    requires Spread(cfg, rev, initial, full0, lite0, [item] + rest)
    requires forall it | it in seen0 :: it.0 in full0 + lite0
    ensures Spread(cfg, rev, initial, full, lite, queue)
    ensures forall it | it in seen :: it.0 in full + lite
    ensures (full, lite, queue) == (full0, lite0, rest)
            || Work(cfg.projects.Keys, full, lite) < Work(cfg.projects.Keys, full0, lite0)
  {
    hide Spread;
    full, lite, queue, seen := full0, lite0, rest, seen0;
    var edges := Out(rev, item.0);
    for j := 0 to |edges|
      invariant Spread(cfg, rev, initial, full, lite, [item] + queue)
      invariant forall it | it in seen :: it.0 in full + lite
      invariant forall k | 0 <= k < j :: edges[k].0 in full + lite && (item.1 == 0 && edges[k].1 ==> edges[k].0 in full)
      invariant (full, lite, queue) == (full0, lite0, rest)
                || Work(cfg.projects.Keys, full, lite) < Work(cfg.projects.Keys, full0, lite0)
    {
      full, lite, queue, seen := Relax(cfg, raw, initial, rev, full, lite, item, edges[j], queue, seen);
    }
    Finish(cfg, rev, initial, full, lite, item, queue);
  }

  // Project statuses.

  datatype Status = Clean | DirtyDeps | Dirty

  predicate HasDirtyFiles(dirty: map<Key, seq<string>>, k: Key) {
    k in dirty && dirty[k] != []
  }

  function ChangedIn(dirty: map<Key, seq<string>>): Key -> bool {
    (k: Key) => k != CORE && HasDirtyFiles(dirty, k)
  }

  /** A listed project with files changed in its own bucket. */
  ghost predicate ChangedProject(cfg: Config, dirty: map<Key, seq<string>>, k: Key) {
    k in cfg.keys && HasDirtyFiles(dirty, k)
  }

  /** The project changed, or names a changed project as a full dependency. */
  ghost predicate NeedsFull(cfg: Config, dirty: map<Key, seq<string>>, k: Key)
    requires k in cfg.projects
  {
    ChangedProject(cfg, dirty, k) || exists d :: ChangedProject(cfg, dirty, d) && d in cfg.projects[k].full
  }

  /** The project did not change and no dependency path, of either kind and any length, leads to one that did. */
  ghost predicate Unaffected(cfg: Config, dirty: map<Key, seq<string>>, k: Key) {
    !ChangedProject(cfg, dirty, k) && forall d | ChangedProject(cfg, dirty, d) :: !cfg.Reaches(k, d)
  }

  /** `determine_rebuild_sets`: when no core file changed, the status of every project is exact. */
  method DetermineRebuildSets(cfg: Config, ghost raw: Config, dirty: map<Key, seq<string>>, rev: Reverse)
    returns (statuses: map<Key, Status>, full: set<Key>, lite: set<Key>)
    requires raw.Valid() && Completed(raw, cfg) && IsReverse(cfg, rev) && CORE in dirty
    ensures statuses.Keys == set k | k in cfg.keys
    ensures full !! lite
    ensures dirty[CORE] != [] ==> full == (set k | k in cfg.keys) && forall k | k in statuses :: statuses[k] == Dirty
    ensures dirty[CORE] == [] ==> forall k | k in statuses ::
              && (statuses[k] == Dirty <==> NeedsFull(raw, dirty, k))
              && (statuses[k] == Clean <==> Unaffected(raw, dirty, k))
    ensures forall k | k in statuses ::
              && (k in full <==> statuses[k] == Dirty)
              && (k in lite <==> statuses[k] == DirtyDeps)
  {
    hide FullDependent, Upstream, IsReverse, ChangedProject, NeedsFull, Unaffected, Filter, HasDirtyFiles, ChangedIn;
    if dirty[CORE] != [] {
      full, lite := set k | k in cfg.keys, {};
      statuses := map k | k in cfg.keys :: Dirty;
      return;
    }
    var initial := Filter(cfg.keys, ChangedIn(dirty));
    ChangedAreInitial(cfg, raw, dirty, initial);
    full, lite := Propagate(cfg, raw, initial, rev);
    statuses := map k | k in cfg.keys :: if k in full then Dirty else if k in lite then DirtyDeps else Clean;
    StatusesAreExact(cfg, raw, dirty, initial, full, lite);
  }

  lemma ChangedAreInitial(cfg: Config, raw: Config, dirty: map<Key, seq<string>>, initial: seq<Key>)
    requires Completed(raw, cfg) && CORE in dirty && dirty[CORE] == []
    requires initial == Filter(cfg.keys, ChangedIn(dirty))
    ensures forall k :: k in initial <==> ChangedProject(raw, dirty, k)
  {
    Filtered(cfg.keys, ChangedIn(dirty));
    forall k | k in initial ensures ChangedProject(raw, dirty, k) {
      var i :| 0 <= i < |initial| && initial[i] == k;
    }
    forall k | ChangedProject(raw, dirty, k) ensures k in initial {
      var i :| 0 <= i < |cfg.keys| && cfg.keys[i] == k;
    }
  }

  lemma StatusesAreExact(cfg: Config, raw: Config, dirty: map<Key, seq<string>>, initial: seq<Key>, full: set<Key>,
                         lite: set<Key>)
    requires raw.Valid() && Completed(raw, cfg)
    requires forall k :: k in initial <==> ChangedProject(raw, dirty, k)
    requires forall x :: x in full <==> x in initial || FullDependent(cfg, initial, x)
    requires forall x :: x in full + lite <==> Upstream(cfg, initial, x)
    ensures forall k | k in cfg.keys ::
              && (k in full <==> NeedsFull(raw, dirty, k))
              && (k !in full && k !in lite <==> Unaffected(raw, dirty, k))
  {
    CompletedReaches(raw, cfg);
    forall k | k in cfg.keys
      ensures k in full <==> NeedsFull(raw, dirty, k)
    {
      assert k in raw.keys;
    }
    forall k | k in cfg.keys
      ensures k !in full && k !in lite <==> Unaffected(raw, dirty, k)
    {
      assert k in full + lite <==> Upstream(cfg, initial, k);
    }
  }

  /**
   * From the configured direct dependencies and the changed files to every project's status: the
   * path through `load_config`, the reverse graph and the propagation.
   */
  method InspectChanges(raw: Config, dirty: map<Key, seq<string>>)
    returns (statuses: map<Key, Status>, full: set<Key>, lite: set<Key>)
    requires raw.Valid() && CORE in dirty
    ensures statuses.Keys == set k | k in raw.keys
    ensures full !! lite
    ensures dirty[CORE] != [] ==> forall k | k in statuses :: statuses[k] == Dirty
    ensures dirty[CORE] == [] ==> forall k | k in statuses ::
              && (statuses[k] == Dirty <==> NeedsFull(raw, dirty, k))
              && (statuses[k] == Clean <==> Unaffected(raw, dirty, k))
    ensures forall k | k in statuses ::
              && (k in full <==> statuses[k] == Dirty)
              && (k in lite <==> statuses[k] == DirtyDeps)
  {
    var cfg := Complete(raw);
    var rev := BuildReverse(cfg);
    statuses, full, lite := DetermineRebuildSets(cfg, raw, dirty, rev);
  }
}
