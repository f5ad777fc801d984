/** Which projects must be rebuilt: dependency closure, reverse graph and dirty propagation. */
module RebuildGraph {
  import opened Sorting

  type Key = string

  const CORE: Key := "core"

  datatype Project = Project(full: seq<Key>, lite: seq<Key>, transitive: seq<Key>)

  datatype Config = Config(projects: map<Key, Project>, keys: seq<Key>) {
    /** `keys` lists the dictionary's keys once each, in order. */
    ghost predicate Valid() {
      Distinct(keys) && forall k :: k in keys <==> k in projects
    }

    ghost predicate DependsOn(a: Key, b: Key) {
      a in projects && (b in projects[a].full || b in projects[a].lite)
    }

    /** A dependency path with `n` intermediate projects. */
    ghost predicate ReachesIn(a: Key, b: Key, n: nat)
      decreases n
    {
      if n == 0 then DependsOn(a, b)
      else exists m :: DependsOn(a, m) && ReachesIn(m, b, n - 1)
    }

    ghost predicate Reaches(a: Key, b: Key) {
      exists n: nat :: ReachesIn(a, b, n)
    }
  }

  lemma {:induction false} JoinPaths(cfg: Config, a: Key, b: Key, c: Key, n: nat, m: nat)
    requires cfg.ReachesIn(a, b, n) && cfg.ReachesIn(b, c, m)
    ensures cfg.ReachesIn(a, c, n + m + 1)
    decreases n
  {
    if n > 0 {
      var x :| cfg.DependsOn(a, x) && cfg.ReachesIn(x, b, n - 1);
      JoinPaths(cfg, x, b, c, n - 1, m);
    }
  }

  lemma ReachesTransitive(cfg: Config, a: Key, b: Key, c: Key)
    requires cfg.Reaches(a, b) && cfg.Reaches(b, c)
    ensures cfg.Reaches(a, c)
  {
    var n: nat :| cfg.ReachesIn(a, b, n);
    var m: nat :| cfg.ReachesIn(b, c, m);
    JoinPaths(cfg, a, b, c, n, m);
  }

  lemma DirectReaches(cfg: Config, a: Key, b: Key)
    requires cfg.DependsOn(a, b)
    ensures cfg.Reaches(a, b)
  {
    assert cfg.ReachesIn(a, b, 0);
  }

  /** A set closed under dependencies holds everything reachable from it. */
  lemma {:induction false} ClosedHolds(cfg: Config, s: set<Key>, a: Key, b: Key, n: nat)
    requires forall x, y | x in s && cfg.DependsOn(x, y) :: y in s
    requires a in s && cfg.ReachesIn(a, b, n)
    ensures b in s
    decreases n
  {
    if n > 0 {
      var m :| cfg.DependsOn(a, m) && cfg.ReachesIn(m, b, n - 1);
      ClosedHolds(cfg, s, m, b, n - 1);
    }
  }

  /** A set closed under dependents holds everything that reaches it. */
  lemma {:induction false} ClosedBackHolds(cfg: Config, s: set<Key>, a: Key, b: Key, n: nat)
    requires forall x, y | y in s && cfg.DependsOn(x, y) :: x in s
    requires b in s && cfg.ReachesIn(a, b, n)
    ensures a in s
    decreases n
  {
    if n > 0 {
      var m :| cfg.DependsOn(a, m) && cfg.ReachesIn(m, b, n - 1);
      ClosedBackHolds(cfg, s, m, b, n - 1);
    }
  }

  // Transitive dependencies.

  /** `build_dependency_graph_raw` without the edge kinds, which its only reader drops. */
  function Graph(cfg: Config): map<Key, seq<Key>> {
    map k | k in cfg.projects :: cfg.projects[k].full + cfg.projects[k].lite
  }

  function Edges(graph: map<Key, seq<Key>>, k: Key): seq<Key> {
    if k in graph then graph[k] else []
  }

  function Names(graph: map<Key, seq<Key>>): set<Key> {
    set k, i | k in graph && 0 <= i < |graph[k]| :: graph[k][i]
  }

  /** Everything found is reachable, and every found project's dependencies are found or queued. */
  ghost predicate Searching(cfg: Config, key: Key, visited: set<Key>, queue: seq<Key>) {
    && (forall d | d in visited :: d != key && cfg.Reaches(key, d) && d in Names(Graph(cfg)))
    && (forall d | d in queue :: d in Names(Graph(cfg)) && cfg.Reaches(key, d))
    && (forall a, b | (a == key || a in visited) && cfg.DependsOn(a, b) :: b == key || b in visited || b in queue)
  }

  lemma SearchStarts(cfg: Config, key: Key)
    ensures Searching(cfg, key, {}, Edges(Graph(cfg), key))
  {
    forall d ensures d in Edges(Graph(cfg), key) <==> cfg.DependsOn(key, d) {
    }
    forall d | cfg.DependsOn(key, d) ensures cfg.Reaches(key, d) {
      DirectReaches(cfg, key, d);
    }
  }

  lemma SearchSkips(cfg: Config, key: Key, visited: set<Key>, dep: Key, rest: seq<Key>)
    requires Searching(cfg, key, visited, [dep] + rest) && (dep == key || dep in visited)
    ensures Searching(cfg, key, visited, rest)
  {
  }

  lemma SearchExpands(cfg: Config, key: Key, visited: set<Key>, dep: Key, rest: seq<Key>)
    requires Searching(cfg, key, visited, [dep] + rest) && dep != key && dep !in visited
    ensures Searching(cfg, key, visited + {dep}, rest + Edges(Graph(cfg), dep))
    ensures |Names(Graph(cfg)) - (visited + {dep})| < |Names(Graph(cfg)) - visited|
  {
    assert dep in [dep] + rest;
    forall d ensures d in Edges(Graph(cfg), dep) <==> cfg.DependsOn(dep, d) {
    }
    forall d | cfg.DependsOn(dep, d) ensures cfg.Reaches(key, d) {
      DirectReaches(cfg, dep, d);
      ReachesTransitive(cfg, key, dep, d);
    }
    assert Names(Graph(cfg)) - (visited + {dep}) == (Names(Graph(cfg)) - visited) - {dep};
  }

  lemma SearchEnds(cfg: Config, key: Key, visited: set<Key>)
    requires Searching(cfg, key, visited, [])
    ensures forall d :: d in visited <==> d != key && cfg.Reaches(key, d)
  {
    var closed := visited + {key};
    forall d | d != key && cfg.Reaches(key, d) ensures d in visited {
      var n: nat :| cfg.ReachesIn(key, d, n);
      ClosedHolds(cfg, closed, key, d, n);
    }
  }

  /** The breadth-first search of `compute_transitive_dependencies`: all that `key` reaches, itself aside. */
  method Visit(cfg: Config, graph: map<Key, seq<Key>>, key: Key) returns (visited: set<Key>)
    requires graph == Graph(cfg)
    ensures forall d :: d in visited <==> d != key && cfg.Reaches(key, d)
  {
    hide *;
    visited := {};
    var queue := Edges(graph, key);
    SearchStarts(cfg, key);
    while queue != []
      invariant Searching(cfg, key, visited, queue)
      decreases |Names(graph) - visited|, |queue|
    {
      var dep, rest := queue[0], queue[1..];
      assert queue == [dep] + rest;
      if dep == key || dep in visited {
        SearchSkips(cfg, key, visited, dep, rest);
        queue := rest;
      } else {
        SearchExpands(cfg, key, visited, dep, rest);
        visited, queue := visited + {dep}, rest + Edges(graph, dep);
      }
    }
    SearchEnds(cfg, key, visited);
  }

  /** What one project's transitive dependencies are: reachable projects that are not direct dependencies. */
  ghost predicate IsTransitive(cfg: Config, key: Key, transitive: seq<Key>) {
    && key in cfg.projects
    && forall d :: d in transitive <==>
         d in cfg.keys && d != key && cfg.Reaches(key, d) && d !in cfg.projects[key].full
             && d !in cfg.projects[key].lite
  }

  method TransitiveOf(cfg: Config, graph: map<Key, seq<Key>>, key: Key) returns (transitive: seq<Key>)
    requires graph == Graph(cfg) && key in cfg.projects
    ensures IsTransitive(cfg, key, transitive)
  {
    var visited := Visit(cfg, graph, key);
    var p := cfg.projects[key];
    transitive := [];
    for i := 0 to |cfg.keys|
      invariant forall d :: d in transitive <==> d in cfg.keys[..i] && d in visited && d !in p.full && d !in p.lite
    {
      assert cfg.keys[..i + 1] == cfg.keys[..i] + [cfg.keys[i]];
      var dep := cfg.keys[i];
      if dep in visited && dep !in p.full && dep !in p.lite {
        transitive := transitive + [dep];
      }
    }
    assert cfg.keys[..|cfg.keys|] == cfg.keys;
  }

  /** The loaded configuration: the same direct dependencies, with the transitive ones filled in. */
  ghost predicate Completed(raw: Config, cfg: Config) {
    && cfg.keys == raw.keys && cfg.projects.Keys == raw.projects.Keys
    && forall k | k in raw.projects ::
         && cfg.projects[k].full == raw.projects[k].full
         && cfg.projects[k].lite == raw.projects[k].lite
         && IsTransitive(raw, k, cfg.projects[k].transitive)
  }

  /** `load_config` from the parsed projects on. */
  method Complete(raw: Config) returns (cfg: Config)
    requires raw.Valid()
    ensures Completed(raw, cfg) && cfg.Valid()
  {
    var graph := Graph(raw);
    var projects := raw.projects;
    for i := 0 to |raw.keys|
      invariant projects.Keys == raw.projects.Keys
      invariant forall k | k in projects ::
                  && projects[k].full == raw.projects[k].full
                  && projects[k].lite == raw.projects[k].lite
      invariant forall k | k in raw.keys[..i] :: IsTransitive(raw, k, projects[k].transitive)
    {
      var key := raw.keys[i];
      assert raw.keys[..i + 1] == raw.keys[..i] + [key];
      assert key in raw.keys;
      var transitive := TransitiveOf(raw, graph, key);
      projects := projects[key := projects[key].(transitive := transitive)];
    }
    assert raw.keys[..|raw.keys|] == raw.keys;
    cfg := Config(projects, raw.keys);
  }

  lemma CompletedReaches(raw: Config, cfg: Config)
    requires Completed(raw, cfg)
    ensures forall a, b :: cfg.Reaches(a, b) <==> raw.Reaches(a, b)
  {
    forall a, b, n: nat ensures cfg.ReachesIn(a, b, n) <==> raw.ReachesIn(a, b, n) {
      SameSteps(raw, cfg, a, b, n);
    }
  }

  lemma {:induction false} SameSteps(raw: Config, cfg: Config, a: Key, b: Key, n: nat)
    requires Completed(raw, cfg)
    ensures cfg.ReachesIn(a, b, n) <==> raw.ReachesIn(a, b, n)
    decreases n
  {
    assert forall x, y :: cfg.DependsOn(x, y) <==> raw.DependsOn(x, y);
    if n > 0 {
      var j: nat := n - 1;
      forall m ensures cfg.ReachesIn(m, b, j) <==> raw.ReachesIn(m, b, j) {
        SameSteps(raw, cfg, m, b, j);
      }
    }
  }
}
