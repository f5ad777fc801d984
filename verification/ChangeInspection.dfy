/** From the changed files to every project's status: ownership and propagation together. */
module ChangeInspection {
  import opened Sorting
  import opened RebuildGraph
  import opened RebuildStatus
  import opened DirtyFiles

  /** Some changed file is still held by `k` after the exclusion pass. */
  ghost predicate Touched(c: Owners, dirty: seq<string>, k: Key)
    requires c.Valid()
  {
    k in c.keys && exists f :: f in dirty && k in Holders(c, f, |c.keys|)
  }

  /** Some changed file belongs to no project: each that matches it gives it up to itself or a later one. */
  ghost predicate CoreTouched(c: Owners, dirty: seq<string>)
    requires c.Valid()
  {
    exists f :: f in dirty && AllYield(c, f, |c.keys|)
  }

  lemma TouchedExactly(c: Owners, dirty: seq<string>, files: map<Key, seq<string>>, k: Key)
    requires c.Valid() && k in files && k in c.keys && k != CORE
    requires files[k] == Filter(dirty, HeldBy(c, k, |c.keys|))
    ensures files[k] != [] <==> Touched(c, dirty, k)
  {
  }

  lemma CoreTouchedExactly(c: Owners, dirty: seq<string>)
    requires c.Valid()
    ensures Filter(dirty, Unheld(c)) != [] <==> CoreTouched(c, dirty)
  {
    forall f ensures Unheld(c)(f) <==> AllYield(c, f, |c.keys|) {
      OrphanedExactly(c, f);
    }
  }

  /** A project changed, or one it lists as a full dependency did. */
  ghost predicate MustRebuild(c: Owners, raw: Config, dirty: seq<string>, k: Key)
    requires c.Valid() && k in raw.projects
  {
    Touched(c, dirty, k) || exists d :: d in raw.projects[k].full && Touched(c, dirty, d)
  }

  ghost predicate MayStay(c: Owners, raw: Config, dirty: seq<string>, k: Key)
    requires c.Valid()
  {
    !Touched(c, dirty, k) && forall d | Touched(c, dirty, d) :: !raw.Reaches(k, d)
  }

  /** The path of `main` from the changed files to the statuses. */
  method InspectFiles(c: Owners, raw: Config, dirty: seq<string>)
    returns (statuses: map<Key, Status>, full: set<Key>, lite: set<Key>)
    requires c.Valid() && raw.Valid() && c.keys == raw.keys
    ensures statuses.Keys == (set k | k in raw.keys) && full !! lite
    ensures CoreTouched(c, dirty) ==> forall k | k in statuses :: statuses[k] == Dirty
    ensures !CoreTouched(c, dirty) ==> forall k | k in statuses ::
              && (statuses[k] == Dirty <==> MustRebuild(c, raw, dirty, k))
              && (statuses[k] == Clean <==> MayStay(c, raw, dirty, k))
    ensures forall k | k in statuses ::
              && (k in full <==> statuses[k] == Dirty)
              && (k in lite <==> statuses[k] == DirtyDeps)
  {
    var files := BuildProjectDirtyMap(c, dirty);
    CoreTouchedExactly(c, dirty);
    statuses, full, lite := InspectChanges(raw, files);
    if files[CORE] == [] {
      ChangedAreTouched(c, raw, dirty, files);
    }
  }

  lemma ChangedAreTouched(c: Owners, raw: Config, dirty: seq<string>, files: map<Key, seq<string>>)
    requires c.Valid() && raw.Valid() && c.keys == raw.keys
    requires files.Keys == (set k | k in c.keys) + {CORE} && files[CORE] == []
    requires forall k | k in files && k != CORE :: files[k] == Filter(dirty, HeldBy(c, k, |c.keys|))
    ensures forall k :: ChangedProject(raw, files, k) <==> Touched(c, dirty, k)
  {
    forall k ensures ChangedProject(raw, files, k) <==> Touched(c, dirty, k) {
      if k == CORE {
        forall f ensures CORE !in Holders(c, f, |c.keys|) { HoldersAreMatched(c, f, |c.keys|); }
      } else if k in c.keys {
        TouchedExactly(c, dirty, files, k);
      }
    }
  }
}
