/** Executing a rollback: the registry versions above the target are deleted newest first. */
module Rollback {
  import opened Prelude
  import Json
  import CatalogSync
  import SyncHistory
  import Drift

  type Versions = map<int, Json.Text>

  /** Which of the calls go through; a delete is decided per version. */
  datatype Calls = Calls(fetches: bool, lists: bool, readsArtifact: bool, deletes: int -> bool, clearsArtifacts: bool, savesResult: bool)

  datatype RollbackResult = RollbackResult(registered: seq<string>, skipped: seq<string>, artifacts: seq<(string, int)>,
    plannedTotal: nat, warningTotal: nat, action: string)

  /** `Raised` covers every exception: an unknown version, a failing registry call, a failing store. */
  datatype Outcome = Done(result: RollbackResult) | Raised

  // ---------- newest first ----------

  predicate Descending(s: seq<int>)
  {
    forall i, j :: 0 <= i < j < |s| ==> s[i] > s[j]
  }

  /** `sorted(s, reverse=True)`. */
  function SortedDown(s: set<int>): (r: seq<int>)
    ensures Descending(r)
    ensures forall v :: v in r <==> v in s
    decreases |s|
  {
    if s == {} then []
    else
      var h := Highest(s);
      [h] + SortedDown(s - {h})
  }

  function Newer(versions: Versions, target: int): (r: set<int>)
    ensures forall v :: v in r <==> v in versions && v > target
  {
    set v | v in versions && v > target
  }

  function UpTo(versions: Versions, bound: int): Versions
  {
    map v | v in versions && v <= bound :: versions[v]
  }

  /** The versions left after deleting some, one by one. */
  function Removed(versions: Versions, gone: seq<int>): Versions
  {
    if gone == [] then versions else Removed(versions, gone[..|gone| - 1]) - {gone[|gone| - 1]}
  }

  lemma {:induction false} RemovedKeys(versions: Versions, gone: seq<int>)
    ensures Removed(versions, gone) == map v | v in versions && v !in gone :: versions[v]
  {
    if gone != [] {
      RemovedKeys(versions, gone[..|gone| - 1]);
      assert gone == gone[..|gone| - 1] + [gone[|gone| - 1]];
    }
  }

  /** The version a run stops at: the newest one whose deletion fails, or the target. */
  function Bound(versions: Versions, target: int, deletes: int -> bool): (b: int)
    ensures b >= target
  {
    var stuck := set v | v in Newer(versions, target) && !deletes(v);
    if stuck == {} then target else Highest(stuck)
  }

  /** Among descending numbers, those before the `n`th are the ones above it. */
  lemma BeforeIsAbove(s: seq<int>, n: nat, v: int)
    requires Descending(s) && n <= |s| && v in s
    ensures v in s[..n] <==> n == |s| || v > s[n]
  {
    var i :| 0 <= i < |s| && s[i] == v;
    if i < n { assert s[..n][i] == v; }
  }

  /** After any number of deletions the surviving versions are those up to some bound, never below the target. */
  lemma PrefixSurvives(versions: Versions, target: int, n: nat)
    requires n <= |SortedDown(Newer(versions, target))|
    ensures var newer := SortedDown(Newer(versions, target));
            var bound := if n < |newer| then newer[n] else target;
            bound >= target && Removed(versions, newer[..n]) == UpTo(versions, bound)
  {
    var newer := SortedDown(Newer(versions, target));
    var bound := if n < |newer| then newer[n] else target;
    if n < |newer| { assert newer[n] in newer; }
    RemovedKeys(versions, newer[..n]);
    forall v | v in versions ensures v in newer[..n] <==> v > bound {
      if v in newer {
        BeforeIsAbove(newer, n, v);
      } else {
        assert v !in newer[..n];
      }
    }
  }

  // ---------- the stores ----------

  class Registry {
    var subjects: map<string, Versions>

    constructor (subjects: map<string, Versions>)
      ensures this.subjects == subjects
    {
      this.subjects := subjects;
    }

    ghost function VersionsOf(subject: string): Versions
      reads this
    {
      if subject in subjects then subjects[subject] else map[]
    }

    method GetVersions(subject: string) returns (r: Versions)
      ensures r == VersionsOf(subject)
    {
      r := if subject in subjects then subjects[subject] else map[];
    }

    method DeleteVersion(subject: string, version: int, goesThrough: bool) returns (ok: bool)
      requires subject in subjects
      modifies this
      ensures ok == goesThrough
      ensures subjects == if ok then old(subjects)[subject := old(subjects)[subject] - {version}] else old(subjects)
    {
      ok := goesThrough;
      if ok {
        var versions := subjects[subject];
        subjects := subjects[subject := versions - {version}];
      }
    }
  }

  class ArtifactStore {
    var artifacts: set<(string, int)>

    constructor (artifacts: set<(string, int)>)
      ensures this.artifacts == artifacts
    {
      this.artifacts := artifacts;
    }

    /** `delete_artifacts_newer_than`. */
    method DeleteNewerThan(subject: string, version: int)
      modifies this
      ensures forall a :: a in artifacts <==> a in old(artifacts) && !(a.0 == subject && a.1 > version)
    {
      artifacts := set a | a in artifacts && !(a.0 == subject && a.1 > version);
    }
  }

  ghost predicate HasNewerArtifact(artifacts: set<(string, int)>, subject: string, version: int)
  {
    exists a :: a in artifacts && a.0 == subject && a.1 > version
  }

  /** An empty text counts as a missing version. */
  predicate Exists(versions: Versions, version: int)
  {
    version in versions && versions[version] != Json.End
  }

  /** All of them can be deleted. */
  predicate AllDelete(deletes: int -> bool, s: seq<int>)
  {
    s == [] || (AllDelete(deletes, s[..|s| - 1]) && deletes(s[|s| - 1]))
  }

  lemma {:induction false} AllDeleteEach(deletes: int -> bool, s: seq<int>)
    requires AllDelete(deletes, s)
    ensures forall v :: v in s ==> deletes(v)
  {
    if s != [] {
      AllDeleteEach(deletes, s[..|s| - 1]);
      assert s == s[..|s| - 1] + [s[|s| - 1]];
    }
  }

  /** Every version above the target can be deleted. */
  ghost predicate Deletable(versions: Versions, target: int, deletes: int -> bool)
  {
    forall v :: v in versions && v > target ==> deletes(v)
  }

  /** After the first `n` deletions: those versions are gone, everything else is as before. */
  ghost predicate DeletedUpTo(before: map<string, Versions>, after: map<string, Versions>, subject: string,
                              deletes: int -> bool, newer: seq<int>, n: nat)
    requires subject in before
  {
    && n <= |newer|
    && after == before[subject := Removed(before[subject], newer[..n])]
    && AllDelete(deletes, newer[..n])
  }

  lemma DeletedStep(before: map<string, Versions>, after: map<string, Versions>, subject: string,
                    deletes: int -> bool, newer: seq<int>, n: nat)
    requires subject in before && n < |newer| && DeletedUpTo(before, after, subject, deletes, newer, n) && deletes(newer[n])
    ensures DeletedUpTo(before, after[subject := after[subject] - {newer[n]}], subject, deletes, newer, n + 1)
  {
    assert newer[..n + 1][..n] == newer[..n];
    assert after[subject] == Removed(before[subject], newer[..n]);
    assert after[subject] - {newer[n]} == Removed(before[subject], newer[..n + 1]);
  }

  /** The deletion loop: every version above the target, newest first, until one fails. */
  method DeleteNewer(registry: Registry, subject: string, target: int, deletes: int -> bool) returns (ok: bool)
    requires subject in registry.subjects
    modifies registry
    ensures registry.subjects == old(registry.subjects)[subject := registry.VersionsOf(subject)]
    ensures registry.VersionsOf(subject) == UpTo(old(registry.VersionsOf(subject)), Bound(old(registry.VersionsOf(subject)), target, deletes))
    ensures ok <==> Deletable(old(registry.VersionsOf(subject)), target, deletes)
  {
    var versions := registry.GetVersions(subject);
    var newer := SortedDown(Newer(versions, target));
    ghost var before := registry.subjects;
    var n := 0;
    while n < |newer|
      invariant DeletedUpTo(before, registry.subjects, subject, deletes, newer, n)
    {
      ghost var now := registry.subjects;
      ok := registry.DeleteVersion(subject, newer[n], deletes(newer[n]));
      if !ok { break; }
      DeletedStep(before, now, subject, deletes, newer, n);
      n := n + 1;
    }
    LoopEnds(versions, target, deletes, newer, n);
    ok := n == |newer|;
  }

  lemma LoopEnds(versions: Versions, target: int, deletes: int -> bool, newer: seq<int>, n: nat)
    requires newer == SortedDown(Newer(versions, target)) && n <= |newer|
    requires AllDelete(deletes, newer[..n]) && (n < |newer| ==> !deletes(newer[n]))
    ensures Removed(versions, newer[..n]) == UpTo(versions, Bound(versions, target, deletes))
    ensures n == |newer| <==> Deletable(versions, target, deletes)
  {
    PrefixSurvives(versions, target, n);
    AllDeleteEach(deletes, newer[..n]);
    if n < |newer| {
      StuckAt(versions, target, deletes, newer, n);
    } else {
      assert newer[..n] == newer;
      NoFailureBound(versions, target, deletes);
    }
  }

  lemma StuckAt(versions: Versions, target: int, deletes: int -> bool, newer: seq<int>, n: nat)
    requires newer == SortedDown(Newer(versions, target))
    requires n < |newer| && !deletes(newer[n]) && forall v :: v in newer[..n] ==> deletes(v)
    ensures newer[n] in versions && newer[n] > target && Bound(versions, target, deletes) == newer[n]
  {
    assert newer[n] in newer;
    var stuck := set v | v in Newer(versions, target) && !deletes(v);
    assert newer[n] in stuck;
    BeforeIsAbove(newer, n, Highest(stuck));
  }

  /** The target can be rolled back to: every read before the deletions goes through and it is there. */
  predicate Starts(versions: Versions, target: int, calls: Calls)
  {
    calls.fetches && calls.lists && calls.readsArtifact && target in versions && versions[target] != Json.End
  }

  /**
   `execute`. Whatever fails, other subjects keep their versions and artifacts, and the subject keeps
   its versions up to a bound at or above the target; on success the target is the latest version.
   The artifacts newer than the target go only when versions newer than it went.
   */
  method Execute(registry: Registry, store: ArtifactStore, subject: string, target: int, calls: Calls) returns (r: Outcome)
    modifies registry, store
    ensures forall s :: s != subject ==> registry.VersionsOf(s) == old(registry.VersionsOf(s))
    ensures var before := old(registry.VersionsOf(subject));
            registry.VersionsOf(subject)
            == if Starts(before, target, calls) then UpTo(before, Bound(before, target, calls.deletes)) else before
    ensures var before := old(registry.VersionsOf(subject));
            var cleared := Starts(before, target, calls) && Deletable(before, target, calls.deletes) && calls.clearsArtifacts
                           && Newer(before, target) != {};
            forall a :: a in store.artifacts <==> a in old(store.artifacts) && !(cleared && a.0 == subject && a.1 > target)
    ensures var before := old(registry.VersionsOf(subject));
            r.Done? <==> Starts(before, target, calls) && Deletable(before, target, calls.deletes)
                         && (Newer(before, target) == {} || calls.clearsArtifacts) && calls.savesResult
    ensures r.Done? ==> target in registry.VersionsOf(subject) && forall v :: v in registry.VersionsOf(subject) ==> v <= target
    ensures r.Done? ==>
      HasNewerArtifact(store.artifacts, subject, target)
      == (old(HasNewerArtifact(store.artifacts, subject, target)) && Newer(old(registry.VersionsOf(subject)), target) == {})
    ensures r.Done? ==>
      r.result == if Newer(old(registry.VersionsOf(subject)), target) == {}
                  then RollbackResult([], [subject], [], 0, 1, "NONE")
                  else RollbackResult([subject], [], [(subject, target)], 1, 0, "ROLLBACK")
  {
    if !calls.fetches || !calls.lists {
      return Raised;
    }
    var versions := registry.GetVersions(subject);
    if !Exists(versions, target) || !calls.readsArtifact {
      return Raised;
    }
    NothingNewer(versions, target, calls.deletes);
    if Newer(versions, target) == {} {
      if !calls.savesResult {
        return Raised;
      }
      return Done(RollbackResult([], [subject], [], 0, 1, "NONE"));
    }
    var ok := DeleteNewer(registry, subject, target, calls.deletes);
    if !ok || !calls.clearsArtifacts {
      return Raised;
    }
    NoFailureBound(versions, target, calls.deletes);
    store.DeleteNewerThan(subject, target);
    if !calls.savesResult {
      return Raised;
    }
    return Done(RollbackResult([subject], [], [(subject, target)], 1, 0, "ROLLBACK"));
  }

  lemma NothingNewer(versions: Versions, target: int, deletes: int -> bool)
    ensures Newer(versions, target) == {} ==> UpTo(versions, Bound(versions, target, deletes)) == versions
  {
  }

  lemma NoFailureBound(versions: Versions, target: int, deletes: int -> bool)
    requires Deletable(versions, target, deletes)
    ensures Bound(versions, target, deletes) == target
  {
  }

  // ---------- a rollback and the catalog ----------

  /**
   What the deletions of a rollback do, complete or stopped half-way, is a truncation in the sense of
   the histories; so it keeps the catalog behind exactly when the catalog has seen no deleted version.
   */
  lemma DeletionsAreTruncation(cfg: CatalogSync.Config, m: SyncHistory.Moment, subject: string, target: int, deletes: int -> bool,
    m': SyncHistory.Moment)
    requires SyncHistory.AllLive(m.registry) && SyncHistory.AllBehind(cfg, m)
    requires subject in m.registry && target in m.registry[subject] && m'.catalog == m.catalog
    requires m'.registry == m.registry[subject := UpTo(m.registry[subject], Bound(m.registry[subject], target, deletes))]
    ensures SyncHistory.AllLive(m'.registry)
    ensures SyncHistory.AllBehind(cfg, m') <==> SyncHistory.Unseen(m, subject, Bound(m.registry[subject], target, deletes))
  {
    var bound := Bound(m.registry[subject], target, deletes);
    assert target <= bound;
    assert SyncHistory.Kept(m.registry[subject], bound) == UpTo(m.registry[subject], bound);
    SyncHistory.TruncateKeepsExactly(cfg, m, subject, bound, m');
  }

  /**
   A rollback that removes the registry's latest version leaves an up-to-date catalog ahead of the
   registry: no failure-free sync brings it back, and the drift report keeps its catalog flags.
   */
  lemma RollbackOutdatesCatalog(cfg: CatalogSync.Config, versions: Versions, target: int, calls: CatalogSync.Calls,
    observed: set<int>, flags: seq<Drift.Flag>)
    requires SyncHistory.IsLive(versions) && target in versions && target < SyncHistory.Last(versions)
    requires SyncHistory.IsLive(UpTo(versions, target)) && SyncHistory.FailureFree(cfg, calls, UpTo(versions, target))
    requires var rest, synced := UpTo(versions, target), CatalogSync.SyncedSlice(cfg, calls, SyncHistory.Rebuild(cfg, versions));
             var info := Drift.LatestOf(cfg, rest);
             Drift.FlagsTell(Drift.LocalOf(synced, observed), info.version.value, info.canonicalHash, flags)
    ensures CatalogSync.SyncedSlice(cfg, calls, SyncHistory.Rebuild(cfg, versions)) == SyncHistory.Rebuild(cfg, versions)
    ensures !Drift.CatalogClean(flags)
  {
    var rest := UpTo(versions, target);
    assert target in rest && SyncHistory.Last(rest) == target;
    SyncHistory.AheadIsSkipped(cfg, calls, rest, SyncHistory.Rebuild(cfg, versions));
    Drift.NoCatalogDriftAfterSyncExactly(cfg, calls, rest, SyncHistory.Rebuild(cfg, versions), observed, flags);
  }
}
