/** Which project owns each changed file. */
module DirtyFiles {
  import opened Sorting
  import opened RebuildGraph

  /**
   * The projects in order, the include/exclude patterns as a test of project and path, and the
   * projects whose files each project gives up.
   */
  datatype Owners = Owners(keys: seq<Key>, matches: (Key, string) -> bool, excludes: map<Key, seq<Key>>) {
    ghost predicate Valid() {
      Distinct(keys) && forall k :: k in keys <==> k in excludes
    }

    predicate Matched(k: Key, f: string) { k != CORE && k in keys && matches(k, f) }
  }

  /** The projects that still hold `f` after the exclusion pass has handled the first `n` projects. */
  ghost function Holders(c: Owners, f: string, n: nat): set<Key>
    requires n <= |c.keys| && c.Valid()
  {
    if n == 0 then set k | k in c.keys && c.Matched(k, f)
    else
      var k, before := c.keys[n - 1], Holders(c, f, n - 1);
      assert k in c.keys;
      if exists o :: o in c.excludes[k] && o in before then before - {k} else before
  }

  function Bucket(files: map<Key, seq<string>>, k: Key): seq<string> {
    if k in files then files[k] else []
  }

  ghost function HeldBy(c: Owners, k: Key, n: nat): string -> bool
    requires n <= |c.keys| && c.Valid()
  {
    f => k in Holders(c, f, n)
  }

  lemma {:induction false} FilterTwice<T>(xs: seq<T>, p: T -> bool, q: T -> bool, r: T -> bool)
    requires forall i | 0 <= i < |xs| :: r(xs[i]) == (p(xs[i]) && q(xs[i]))
    ensures Filter(Filter(xs, p), q) == Filter(xs, r)
  {
    if xs != [] {
      FilterTwice(xs[1..], p, q, r);
      if p(xs[0]) {
        assert ([xs[0]] + Filter(xs[1..], p))[1..] == Filter(xs[1..], p);
      } else {
        assert Filter(xs, p) == Filter(xs[1..], p);
      }
    }
  }

  /** The buckets after `n` projects: each non-core bucket lists its files in their original order. */
  ghost predicate Passed(c: Owners, dirty: seq<string>, files: map<Key, seq<string>>, n: nat)
    requires n <= |c.keys| && c.Valid()
  {
    && (forall k :: k in files <==> k in c.keys && k != CORE)
    && (forall k | k in files :: files[k] == Filter(dirty, HeldBy(c, k, n)))
  }

  lemma InBucket(c: Owners, dirty: seq<string>, files: map<Key, seq<string>>, n: nat, k: Key, f: string)
    requires n <= |c.keys| && c.Valid() && Passed(c, dirty, files, n) && f in dirty
    ensures f in Bucket(files, k) <==> k in Holders(c, f, n)
  {
    HoldersAreMatched(c, f, n);
    Filtered(dirty, HeldBy(c, k, n));
    if k in files {
      var i :| 0 <= i < |dirty| && dirty[i] == f;
      if f in files[k] {
        var j :| 0 <= j < |files[k]| && files[k][j] == f;
      }
    }
  }

  lemma {:induction false} HoldersAreMatched(c: Owners, f: string, n: nat)
    requires n <= |c.keys| && c.Valid()
    ensures forall k | k in Holders(c, f, n) :: c.Matched(k, f)
  {
    if n > 0 { HoldersAreMatched(c, f, n - 1); }
  }

  /** The files of bucket `k` that are in none of the listed buckets. */
  predicate Excluded(files: map<Key, seq<string>>, given: seq<Key>, f: string) {
    exists i :: 0 <= i < |given| && f in Bucket(files, given[i])
  }

  lemma ExcludedExactly(c: Owners, dirty: seq<string>, files: map<Key, seq<string>>, n: nat, f: string)
    requires c.Valid() && n < |c.keys| && Passed(c, dirty, files, n) && c.keys[n] in c.keys && f in dirty
    ensures Excluded(files, c.excludes[c.keys[n]], f) <==>
            exists o :: o in c.excludes[c.keys[n]] && o in Holders(c, f, n)
  {
    hide Holders, Passed;
    var given := c.excludes[c.keys[n]];
    forall o ensures f in Bucket(files, o) <==> o in Holders(c, f, n) {
      InBucket(c, dirty, files, n, o, f);
    }
    if Excluded(files, given, f) {
      var i :| 0 <= i < |given| && f in Bucket(files, given[i]);
      assert given[i] in given;
    }
    if o :| o in given && o in Holders(c, f, n) {
      var i :| 0 <= i < |given| && given[i] == o;
    }
  }

  function KeptBy(files: map<Key, seq<string>>, given: seq<Key>): string -> bool {
    f => !Excluded(files, given, f)
  }

  lemma OtherBucketStays(c: Owners, dirty: seq<string>, n: nat, k: Key)
    requires c.Valid() && n < |c.keys| && k != c.keys[n]
    ensures Filter(dirty, HeldBy(c, k, n)) == Filter(dirty, HeldBy(c, k, n + 1))
  {
  }

  lemma OwnBucketShrinks(c: Owners, dirty: seq<string>, files: map<Key, seq<string>>, n: nat)
    requires c.Valid() && n < |c.keys| && Passed(c, dirty, files, n) && c.keys[n] in c.keys && c.keys[n] in files
    ensures Filter(files[c.keys[n]], KeptBy(files, c.excludes[c.keys[n]])) == Filter(dirty, HeldBy(c, c.keys[n], n + 1))
  {
    var key := c.keys[n];
    var keep := KeptBy(files, c.excludes[key]);
    forall i | 0 <= i < |dirty|
      ensures HeldBy(c, key, n + 1)(dirty[i]) == (HeldBy(c, key, n)(dirty[i]) && keep(dirty[i]))
    {
      ExcludedExactly(c, dirty, files, n, dirty[i]);
    }
    FilterTwice(dirty, HeldBy(c, key, n), keep, HeldBy(c, key, n + 1));
  }

  /** One project gives up the files its excluded projects hold at that moment. */
  lemma ExcludeStep(c: Owners, dirty: seq<string>, files: map<Key, seq<string>>, n: nat)
    requires c.Valid() && n < |c.keys| && Passed(c, dirty, files, n) && c.keys[n] in c.keys
    ensures var k := c.keys[n];
            var kept := Filter(Bucket(files, k), KeptBy(files, c.excludes[k]));
            Passed(c, dirty, if k == CORE then files else files[k := kept], n + 1)
  {
    var key := c.keys[n];
    var kept := Filter(Bucket(files, key), KeptBy(files, c.excludes[key]));
    hide Filter, Holders, HeldBy, KeptBy;
    if key == CORE {
      AllStay(c, dirty, files, files, n);
    } else {
      OwnBucketShrinks(c, dirty, files, n);
      assert Bucket(files, key) == files[key];
      AllStay(c, dirty, files, files[key := kept], n);
    }
  }

  lemma AllStay(c: Owners, dirty: seq<string>, files: map<Key, seq<string>>, after: map<Key, seq<string>>, n: nat)
    requires c.Valid() && n < |c.keys| && Passed(c, dirty, files, n) && after.Keys == files.Keys
    requires forall k | k in files && k != c.keys[n] :: after[k] == files[k]
    requires c.keys[n] in files ==> after[c.keys[n]] == Filter(dirty, HeldBy(c, c.keys[n], n + 1))
    ensures Passed(c, dirty, after, n + 1)
  {
    hide Filter, Holders, HeldBy;
    forall k | k in files && k != c.keys[n] ensures after[k] == Filter(dirty, HeldBy(c, k, n + 1)) {
      OtherBucketStays(c, dirty, n, k);
    }
  }

  function MatchedBy(c: Owners, k: Key): string -> bool {
    f => c.matches(k, f)
  }

  lemma PassStarts(c: Owners, dirty: seq<string>, files: map<Key, seq<string>>)
    requires c.Valid()
    requires files == map k | k in c.keys && k != CORE :: Filter(dirty, MatchedBy(c, k))
    ensures Passed(c, dirty, files, 0)
  {
    forall k | k in files ensures files[k] == Filter(dirty, HeldBy(c, k, 0)) {
      FilterSame(dirty, MatchedBy(c, k), HeldBy(c, k, 0));
    }
  }

  predicate Unmatched(c: Owners, files: map<Key, seq<string>>, f: string) {
    forall i :: 0 <= i < |c.keys| ==> f !in Bucket(files, c.keys[i])
  }

  function UnmatchedIn(c: Owners, files: map<Key, seq<string>>): string -> bool {
    f => Unmatched(c, files, f)
  }

  ghost function Unheld(c: Owners): string -> bool
    requires c.Valid()
  {
    f => Holders(c, f, |c.keys|) == {}
  }

  lemma UnmatchedExactly(c: Owners, dirty: seq<string>, files: map<Key, seq<string>>)
    requires c.Valid() && Passed(c, dirty, files, |c.keys|)
    ensures Filter(dirty, UnmatchedIn(c, files)) == Filter(dirty, Unheld(c))
  {
    hide Passed;
    forall f | f in dirty ensures Unmatched(c, files, f) <==> Holders(c, f, |c.keys|) == {} {
      HoldersAreMatched(c, f, |c.keys|);
      hide Holders;
      forall k ensures f in Bucket(files, k) <==> k in Holders(c, f, |c.keys|) {
        InBucket(c, dirty, files, |c.keys|, k, f);
      }
    }
    FilterSame(dirty, UnmatchedIn(c, files), Unheld(c));
  }

  /** `build_project_dirty_map`. */
  method BuildProjectDirtyMap(c: Owners, dirty: seq<string>) returns (files: map<Key, seq<string>>)
    requires c.Valid()
    ensures files.Keys == (set k | k in c.keys) + {"core"}
    ensures forall k | k in files && k != "core" :: files[k] == Filter(dirty, HeldBy(c, k, |c.keys|))
    ensures files["core"] == Filter(dirty, Unheld(c))
  {
    files := map k | k in c.keys && k != CORE :: Filter(dirty, MatchedBy(c, k));
    PassStarts(c, dirty, files);
    files := ExclusionPass(c, dirty, files);
    UnmatchedExactly(c, dirty, files);
    hide Filter, Holders, HeldBy, Unheld, UnmatchedIn;
    files := files[CORE := Filter(dirty, UnmatchedIn(c, files))];
  }

  /** The loop that removes the files owned by other projects, project by project. */
  method ExclusionPass(c: Owners, ghost dirty: seq<string>, matched: map<Key, seq<string>>)
    returns (files: map<Key, seq<string>>)
    requires c.Valid() && Passed(c, dirty, matched, 0)
    ensures Passed(c, dirty, files, |c.keys|)
  {
    files := matched;
    for n := 0 to |c.keys|
      invariant Passed(c, dirty, files, n)
    {
      var k := c.keys[n];
      assert k in c.keys;
      ExcludeStep(c, dirty, files, n);
      hide Filter, KeptBy, Passed;
      if k != CORE {
        files := files[k := Filter(Bucket(files, k), KeptBy(files, c.excludes[k]))];
      }
    }
  }

  // Which files are orphaned by the exclusion pass.

  /** The project at `i` excludes itself or a later project, and that project's patterns match the file too. */
  ghost predicate YieldsForward(c: Owners, f: string, i: nat)
    requires i < |c.keys| && c.Valid() && c.keys[i] in c.keys
  {
    exists j :: i <= j < |c.keys| && c.Matched(c.keys[j], f) && c.keys[j] in c.excludes[c.keys[i]]
  }

  ghost predicate AllYield(c: Owners, f: string, n: nat)
    requires n <= |c.keys| && c.Valid()
  {
    forall i | 0 <= i < n && c.Matched(c.keys[i], f) :: YieldsForward(c, f, i)
  }

  ghost function Unhandled(c: Owners, f: string, n: nat): set<Key> {
    set j | n <= j < |c.keys| && c.Matched(c.keys[j], f) :: c.keys[j]
  }

  lemma OneLessToHandle(c: Owners, f: string, n: nat)
    requires 0 < n <= |c.keys| && c.Valid()
    ensures Unhandled(c, f, n) == Unhandled(c, f, n - 1) - {c.keys[n - 1]}
    ensures c.keys[n - 1] in Unhandled(c, f, n - 1) <==> c.Matched(c.keys[n - 1], f)
  {
  }

  /** While every handled project yields, exactly the projects still to come hold the file. */
  lemma {:induction false} YieldingLeavesLater(c: Owners, f: string, n: nat)
    requires n <= |c.keys| && c.Valid() && AllYield(c, f, n)
    ensures Holders(c, f, n) == Unhandled(c, f, n)
  {
    if n == 0 {
      forall k ensures k in Holders(c, f, 0) <==> k in Unhandled(c, f, 0) {
        if k in Holders(c, f, 0) {
          var j :| 0 <= j < |c.keys| && c.keys[j] == k;
        }
      }
    } else {
      YieldingLeavesLater(c, f, n - 1);
      OneLessToHandle(c, f, n);
      assert c.keys[n - 1] in c.keys;
      if c.Matched(c.keys[n - 1], f) {
        assert YieldsForward(c, f, n - 1);
        var j :| n - 1 <= j < |c.keys| && c.Matched(c.keys[j], f) && c.keys[j] in c.excludes[c.keys[n - 1]];
        assert c.keys[j] in Unhandled(c, f, n - 1);
      }
      hide Unhandled, AllYield, YieldsForward;
    }
  }

  /** A project that has been handled and still holds the file keeps it. */
  lemma {:induction false} HandledKeeps(c: Owners, f: string, i: nat, n: nat)
    requires i < n <= |c.keys| && c.Valid() && c.keys[i] in Holders(c, f, i + 1)
    ensures c.keys[i] in Holders(c, f, n)
  {
    if i + 1 < n {
      HandledKeeps(c, f, i, n - 1);
      assert c.keys[n - 1] != c.keys[i];
    }
  }

  lemma {:induction false} FirstStubborn(c: Owners, f: string, n: nat) returns (i: nat)
    requires n <= |c.keys| && c.Valid() && !AllYield(c, f, n)
    ensures i < n && c.Matched(c.keys[i], f) && !YieldsForward(c, f, i) && AllYield(c, f, i)
  {
    hide YieldsForward;
    if AllYield(c, f, n - 1) {
      i := n - 1;
    } else {
      i := FirstStubborn(c, f, n - 1);
    }
  }

  /**
   * The exclusion pass leaves no project holding `f` exactly when every project whose patterns
   * match `f` excludes itself or a later matching project.
   */
  lemma OrphanedExactly(c: Owners, f: string)
    requires c.Valid()
    ensures Holders(c, f, |c.keys|) == {} <==> AllYield(c, f, |c.keys|)
  {
    if AllYield(c, f, |c.keys|) {
      YieldingLeavesLater(c, f, |c.keys|);
    } else {
      var i := FirstStubborn(c, f, |c.keys|);
      YieldingLeavesLater(c, f, i);
      assert c.keys[i] in Unhandled(c, f, i);
      assert c.keys[i] in Holders(c, f, i + 1);
      HandledKeeps(c, f, i, |c.keys|);
    }
  }

  /** A project not yet handled holds what it matches. */
  lemma {:induction false} LaterHoldsMatched(c: Owners, f: string, i: nat, n: nat)
    requires n <= i < |c.keys| && c.Valid()
    ensures c.keys[i] in Holders(c, f, n) <==> c.Matched(c.keys[i], f)
  {
    if n > 0 {
      LaterHoldsMatched(c, f, i, n - 1);
      assert c.keys[n - 1] != c.keys[i];
    }
  }

  lemma {:induction false} HandledStays(c: Owners, f: string, i: nat, n: nat)
    requires i < n <= |c.keys| && c.Valid()
    ensures c.keys[i] in Holders(c, f, n) <==> c.keys[i] in Holders(c, f, i + 1)
  {
    if i + 1 < n {
      HandledStays(c, f, i, n - 1);
      assert c.keys[n - 1] != c.keys[i];
    }
  }

  /** Another project holds the file when the one at `i` is handled. */
  ghost predicate HeldAtTurn(c: Owners, f: string, i: nat, j: nat)
    requires i < |c.keys| && j < |c.keys| && c.Valid()
  {
    if j < i then c.keys[j] in Holders(c, f, |c.keys|) else c.Matched(c.keys[j], f)
  }

  /**
   * Who holds a file in the end: a project whose patterns match it and that excludes no earlier project that
   * holds it in the end, and neither itself nor a later project that matches it.
   */
  lemma HoldersExactly(c: Owners, f: string, i: nat)
    requires c.Valid() && i < |c.keys| && c.keys[i] in c.keys
    ensures c.keys[i] in Holders(c, f, |c.keys|) <==>
            && c.Matched(c.keys[i], f)
            && forall j | 0 <= j < |c.keys| && c.keys[j] in c.excludes[c.keys[i]] :: !HeldAtTurn(c, f, i, j)
  {
    var k := c.keys[i];
    HandledStays(c, f, i, |c.keys|);
    LaterHoldsMatched(c, f, i, i);
    HoldersAreMatched(c, f, i);
    forall j: nat | j < |c.keys| ensures c.keys[j] in Holders(c, f, i) <==> HeldAtTurn(c, f, i, j) {
      if j < i {
        HandledStays(c, f, j, i);
        HandledStays(c, f, j, |c.keys|);
      } else {
        LaterHoldsMatched(c, f, j, i);
      }
    }
    assert Holders(c, f, i + 1) ==
           if exists o :: o in c.excludes[k] && o in Holders(c, f, i) then Holders(c, f, i) - {k} else Holders(c, f, i);
    hide Holders, HeldAtTurn;
    if o :| o in c.excludes[k] && o in Holders(c, f, i) {
      var j :| 0 <= j < |c.keys| && c.keys[j] == o;
    }
  }

  /** A concrete orphan: the one project matches every file and excludes itself. */
  lemma SelfExclusionOrphans(f: string)
    ensures var c := Owners(["a"], (k, g) => true, map["a" := ["a"]]);
            c.Valid() && c.Matched("a", f) && Holders(c, f, |c.keys|) == {}
  {
    var c := Owners(["a"], (k, g) => true, map["a" := ["a"]]);
    assert "a" in Holders(c, f, 0);
    assert Holders(c, f, 1) == Holders(c, f, 0) - {"a"};
  }

  /** Without self-exclusion no matched file is orphaned: only unmatched files fall to core. */
  lemma NoSelfExclusionNoOrphans(c: Owners, f: string)
    requires c.Valid() && forall k | k in c.keys :: k !in c.excludes[k]
    ensures Holders(c, f, |c.keys|) == {} <==> forall k | k in c.keys :: !c.Matched(k, f)
  {
    OrphanedExactly(c, f);
    if k :| k in c.keys && c.Matched(k, f) {
      var i :| 0 <= i < |c.keys| && c.keys[i] == k;
      var last := LastMatched(c, f, |c.keys|, i);
      assert c.keys[last] in c.keys;
      assert !YieldsForward(c, f, last);
    }
  }

  lemma {:induction false} LastMatched(c: Owners, f: string, n: nat, i: nat) returns (last: nat)
    requires i < n <= |c.keys| && c.Matched(c.keys[i], f)
    ensures last < n && c.Matched(c.keys[last], f) && forall j | last < j < n :: !c.Matched(c.keys[j], f)
  {
    if c.Matched(c.keys[n - 1], f) { last := n - 1; } else { last := LastMatched(c, f, n - 1, i); }
  }

  /** Every changed file lands in some bucket, and core shares none with another project. */
  lemma EveryFileHasABucket(c: Owners, dirty: seq<string>, files: map<Key, seq<string>>, f: string)
    requires c.Valid() && f in dirty
    requires files.Keys == (set k | k in c.keys) + {CORE}
    requires forall k | k in files && k != CORE :: files[k] == Filter(dirty, HeldBy(c, k, |c.keys|))
    requires files[CORE] == Filter(dirty, Unheld(c))
    ensures exists k :: k in files && f in files[k]
    ensures f in files[CORE] ==> forall k | k in files && k != CORE :: f !in files[k]
    ensures f in files[CORE] <==> AllYield(c, f, |c.keys|)
  {
    var i :| 0 <= i < |dirty| && dirty[i] == f;
    Filtered(dirty, Unheld(c));
    OrphanedExactly(c, f);
    HoldersAreMatched(c, f, |c.keys|);
    forall k | k in files && k != CORE ensures f in files[k] <==> k in Holders(c, f, |c.keys|) {
      Filtered(dirty, HeldBy(c, k, |c.keys|));
      if f in files[k] { var j :| 0 <= j < |files[k]| && files[k][j] == f; }
    }
    if f in files[CORE] {
      var j :| 0 <= j < |files[CORE]| && files[CORE][j] == f;
    } else if k :| k in Holders(c, f, |c.keys|) {
      assert k in files;
    }
  }
}
