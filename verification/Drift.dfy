/** The drift report: the registry's latest version of a subject against the local catalog. */
module Drift {
  import opened Prelude
  import Json
  import CatalogSync
  import SyncHistory

  /** The report's flags, in the code the lower-case texts of these names. */
  datatype Flag =
    | CATALOG_SUBJECT_MISSING
    | CATALOG_SUBJECT_VERSION_MISMATCH
    | CATALOG_VERSION_MISSING
    | CATALOG_SNAPSHOT_VERSION_MISMATCH
    | CATALOG_CANONICAL_HASH_MISMATCH
    | OBSERVED_USAGE_ON_NON_LATEST_VERSION

  /** The registry's answer for one version. */
  datatype LatestInfo = LatestInfo(version: Option<int>, canonicalHash: Option<string>)

  /** What the database holds for one subject: a nullable watermark, the hash of every snapshot, observed versions. */
  datatype Local = Local(subjectRow: Option<Option<int>>, rows: map<int, Option<string>>, observed: set<int>)

  datatype Report = Report(
    registryLatest: int,
    registryHash: Option<string>,
    catalogLatest: Option<int>,
    catalogHash: Option<string>,
    observedVersion: Option<int>,
    flags: seq<Flag>,
    hasDrift: bool)

  /** `ORDER BY version DESC LIMIT 1`. */
  function Newest(versions: set<int>): Option<int>
  {
    if versions == {} then None else Some(Highest(versions))
  }

  function NewestHash(local: Local): Option<string>
  {
    if local.rows.Keys == {} then None else local.rows[Highest(local.rows.Keys)]
  }

  // ---------- agreement, said without the flags ----------

  predicate WatermarkAgrees(local: Local, latest: int)
  {
    local.subjectRow == Some(Some(latest))
  }

  predicate SnapshotAgrees(local: Local, latest: int)
  {
    Newest(local.rows.Keys) == Some(latest)
  }

  /** The hashes agree unless both sides have one and they differ. */
  predicate HashAgrees(local: Local, hash: Option<string>)
  {
    local.rows.Keys == {} || hash.None? || NewestHash(local).None? || hash == NewestHash(local)
  }

  predicate ObservedAgrees(local: Local, latest: int)
  {
    local.observed == {} || Highest(local.observed) == latest
  }

  /** No flag of the catalog: only the one about observed usage may be there. */
  predicate CatalogClean(flags: seq<Flag>)
  {
    flags == [] || flags == [OBSERVED_USAGE_ON_NON_LATEST_VERSION]
  }

  /** What each flag says. */
  predicate Applies(f: Flag, local: Local, latest: int, hash: Option<string>)
  {
    match f
    case CATALOG_SUBJECT_MISSING => local.subjectRow.None?
    case CATALOG_SUBJECT_VERSION_MISMATCH => local.subjectRow.Some? && !WatermarkAgrees(local, latest)
    case CATALOG_VERSION_MISSING => local.rows.Keys == {}
    case CATALOG_SNAPSHOT_VERSION_MISMATCH => local.rows.Keys != {} && !SnapshotAgrees(local, latest)
    case CATALOG_CANONICAL_HASH_MISMATCH => !HashAgrees(local, hash)
    case OBSERVED_USAGE_ON_NON_LATEST_VERSION => !ObservedAgrees(local, latest)
  }

  function Rank(f: Flag): nat
  {
    match f
    case CATALOG_SUBJECT_MISSING => 0
    case CATALOG_SUBJECT_VERSION_MISMATCH => 1
    case CATALOG_VERSION_MISSING => 2
    case CATALOG_SNAPSHOT_VERSION_MISMATCH => 3
    case CATALOG_CANONICAL_HASH_MISMATCH => 4
    case OBSERVED_USAGE_ON_NON_LATEST_VERSION => 5
  }

  /** Of the first `k` flags, those that apply are listed, in order and once. */
  ghost predicate Lists(local: Local, latest: int, hash: Option<string>, k: nat, flags: seq<Flag>)
  {
    && (forall i, j :: 0 <= i < j < |flags| ==> Rank(flags[i]) < Rank(flags[j]))
    && (forall f :: f in flags <==> Rank(f) < k && Applies(f, local, latest, hash))
  }

  /** The flags listed are those that apply, each once. */
  ghost predicate FlagsTell(local: Local, latest: int, hash: Option<string>, flags: seq<Flag>)
  {
    Lists(local, latest, hash, 6, flags)
  }

  lemma NextFlag(local: Local, latest: int, hash: Option<string>, flags: seq<Flag>, f: Flag)
    requires Lists(local, latest, hash, Rank(f), flags)
    ensures Lists(local, latest, hash, Rank(f) + 1, if Applies(f, local, latest, hash) then flags + [f] else flags)
  {
  }

  /** No flag means that everything agrees; no flag but the observed one means that the catalog agrees. */
  lemma FlagsMeaning(local: Local, latest: int, hash: Option<string>, flags: seq<Flag>)
    requires FlagsTell(local, latest, hash, flags)
    ensures CatalogClean(flags) <==> WatermarkAgrees(local, latest) && SnapshotAgrees(local, latest) && HashAgrees(local, hash)
    ensures flags == [] <==> CatalogClean(flags) && ObservedAgrees(local, latest)
  {
    var O := OBSERVED_USAGE_ON_NON_LATEST_VERSION;
    assert forall f :: f in flags <==> Applies(f, local, latest, hash);
    if flags == [] || flags == [O] {
      assert forall f :: f != O ==> !Applies(f, local, latest, hash);
      assert !Applies(CATALOG_SUBJECT_MISSING, local, latest, hash);
      assert !Applies(CATALOG_SUBJECT_VERSION_MISMATCH, local, latest, hash);
      assert !Applies(CATALOG_VERSION_MISSING, local, latest, hash);
      assert !Applies(CATALOG_SNAPSHOT_VERSION_MISMATCH, local, latest, hash);
      assert !Applies(CATALOG_CANONICAL_HASH_MISMATCH, local, latest, hash);
    }
    if WatermarkAgrees(local, latest) && SnapshotAgrees(local, latest) && HashAgrees(local, hash) {
      forall i | 0 <= i < |flags| ensures flags[i] == O {
        assert flags[i] in flags;
      }
      if flags != [] {
        assert flags[0] == flags[|flags| - 1] == O;
        assert flags == [O];
      }
    }
    assert Applies(O, local, latest, hash) <==> !ObservedAgrees(local, latest);
  }

  /** The flag list, built by appends. */
  method DriftFlags(local: Local, latest: int, hash: Option<string>) returns (flags: seq<Flag>)
    ensures FlagsTell(local, latest, hash, flags)
  {
    flags := [];
    NextFlag(local, latest, hash, flags, CATALOG_SUBJECT_MISSING);
    if local.subjectRow.None? {
      flags := flags + [CATALOG_SUBJECT_MISSING];
      NextFlag(local, latest, hash, flags, CATALOG_SUBJECT_VERSION_MISMATCH);
    } else {
      NextFlag(local, latest, hash, flags, CATALOG_SUBJECT_VERSION_MISMATCH);
      if local.subjectRow.value != Some(latest) {
        flags := flags + [CATALOG_SUBJECT_VERSION_MISMATCH];
      }
    }
    assert Lists(local, latest, hash, 2, flags);
    flags := SnapshotFlags(local, latest, hash, flags);
    NextFlag(local, latest, hash, flags, OBSERVED_USAGE_ON_NON_LATEST_VERSION);
    if local.observed != {} && Highest(local.observed) != latest {
      flags := flags + [OBSERVED_USAGE_ON_NON_LATEST_VERSION];
    }
  }

  /** The appends about the newest snapshot. */
  method SnapshotFlags(local: Local, latest: int, hash: Option<string>, before: seq<Flag>) returns (flags: seq<Flag>)
    requires Lists(local, latest, hash, 2, before)
    ensures Lists(local, latest, hash, 5, flags)
  {
    flags := before;
    NextFlag(local, latest, hash, flags, CATALOG_VERSION_MISSING);
    if local.rows.Keys == {} {
      flags := flags + [CATALOG_VERSION_MISSING];
      NextFlag(local, latest, hash, flags, CATALOG_SNAPSHOT_VERSION_MISMATCH);
      NextFlag(local, latest, hash, flags, CATALOG_CANONICAL_HASH_MISMATCH);
    } else {
      NextFlag(local, latest, hash, flags, CATALOG_SNAPSHOT_VERSION_MISMATCH);
      if Highest(local.rows.Keys) != latest {
        flags := flags + [CATALOG_SNAPSHOT_VERSION_MISMATCH];
      }
      NextFlag(local, latest, hash, flags, CATALOG_CANONICAL_HASH_MISMATCH);
      var rowHash := local.rows[Highest(local.rows.Keys)];
      if hash.Some? && rowHash.Some? && hash != rowHash {
        flags := flags + [CATALOG_CANONICAL_HASH_MISMATCH];
      }
    }
  }

  /** Every read goes through and the subject has a latest version. */
  predicate Answers(connected: Result<()>, listing: Result<set<int>>, fetch: int -> Result<LatestInfo>, stored: Result<Local>)
  {
    && connected.Ok? && listing.Ok? && listing.value != {}
    && fetch(Highest(listing.value)).Ok? && fetch(Highest(listing.value)).value.version.Some?
    && stored.Ok?
  }

  /** `execute`. An unknown subject raises, and so does every failing read: the connection, the registry, the database. */
  method Execute(connected: Result<()>, listing: Result<set<int>>, fetch: int -> Result<LatestInfo>, stored: Result<Local>)
    returns (r: Result<Report>)
    ensures r.Ok? <==> Answers(connected, listing, fetch, stored)
    ensures r.Ok? ==>
      var info, local, report := fetch(Highest(listing.value)).value, stored.value, r.value;
      && report.registryLatest == info.version.value && report.registryHash == info.canonicalHash
      && report.catalogLatest == Newest(local.rows.Keys) && report.catalogHash == NewestHash(local)
      && report.observedVersion == Newest(local.observed)
      && FlagsTell(local, info.version.value, info.canonicalHash, report.flags)
      && report.hasDrift == (report.flags != [])
  {
    if connected.Err? {
      return Err(connected.error);
    }
    if listing.Err? {
      return Err(listing.error);
    }
    if listing.value == {} {
      return Err("Subject not found");
    }
    var latest := fetch(Highest(listing.value));
    if latest.Err? {
      return Err(latest.error);
    }
    var info := latest.value;
    if info.version.None? {
      return Err("Subject not found");
    }
    if stored.Err? {
      return Err(stored.error);
    }
    var local := stored.value;
    var flags := DriftFlags(local, info.version.value, info.canonicalHash);
    return Ok(Report(info.version.value, info.canonicalHash, Newest(local.rows.Keys), NewestHash(local),
      Newest(local.observed), flags, flags != []));
  }

  // ---------- sync, then drift ----------

  /** The catalog rows of a subject as the report reads them. */
  function LocalOf(slice: CatalogSync.Slice, observed: set<int>): Local
  {
    Local(slice.subjectRow, map v | v in slice.rows :: Some(slice.rows[v].digest), observed)
  }

  /** The registry's latest version, hashed by the adapter with the catalog's own hash function. */
  function LatestOf(cfg: CatalogSync.Config, versions: SyncHistory.Versions): LatestInfo
    requires SyncHistory.IsLive(versions)
  {
    var h := SyncHistory.Last(versions);
    LatestInfo(Some(h), Some(cfg.digest(versions[h])))
  }

  /**
   The watermark is not ahead, no snapshot is newer than the registry, and a watermark that has
   caught up has the latest snapshot with the right hash.
   */
  predicate NotAhead(cfg: CatalogSync.Config, versions: SyncHistory.Versions, slice: CatalogSync.Slice)
    requires SyncHistory.IsLive(versions)
  {
    var h, mark := SyncHistory.Last(versions), CatalogSync.MarkOf(slice);
    && (CatalogSync.HasMark(mark) ==> mark.value <= h)
    && (forall v :: v in slice.rows ==> v <= h)
    && (mark == Some(h) ==> h in slice.rows && slice.rows[h].digest == cfg.digest(versions[h]))
  }

  lemma NewestIs(s: set<int>, h: int)
    ensures Newest(s) == Some(h) <==> h in s && forall x :: x in s ==> x <= h
  {
  }

  /** A failure-free sync leaves no catalog flag exactly when the catalog was not ahead of the registry. */
  lemma NoCatalogDriftAfterSyncExactly(cfg: CatalogSync.Config, calls: CatalogSync.Calls, versions: SyncHistory.Versions,
    slice: CatalogSync.Slice, observed: set<int>, flags: seq<Flag>)
    requires SyncHistory.IsLive(versions) && SyncHistory.FailureFree(cfg, calls, versions)
    requires var info := LatestOf(cfg, versions);
             FlagsTell(LocalOf(CatalogSync.SyncedSlice(cfg, calls, slice), observed), info.version.value, info.canonicalHash, flags)
    ensures CatalogClean(flags) <==> NotAhead(cfg, versions, slice)
  {
    FlagsMeaning(LocalOf(CatalogSync.SyncedSlice(cfg, calls, slice), observed), LatestOf(cfg, versions).version.value,
      LatestOf(cfg, versions).canonicalHash, flags);
    var h, mark := SyncHistory.Last(versions), CatalogSync.MarkOf(slice);
    var synced := CatalogSync.SyncedSlice(cfg, calls, slice);
    var local := LocalOf(synced, observed);
    SyncHistory.SyncedRows(cfg, calls, versions, slice);
    NewestIs(local.rows.Keys, h);
    assert local.rows.Keys == synced.rows.Keys;
    if CatalogSync.HasMark(mark) && h <= mark.value {
      assert WatermarkAgrees(local, h) <==> mark == Some(h);
    } else {
      var copied := SyncHistory.Copied(cfg, versions, CatalogSync.FirstVersion(mark), h);
      assert h in copied && synced.rows == slice.rows + copied;
      assert forall v :: v in synced.rows <==> v in slice.rows || v in copied;
      assert HashAgrees(local, Some(cfg.digest(versions[h]))) || !SnapshotAgrees(local, h);
    }
  }

  lemma RebuiltHasNoCatalogDrift(cfg: CatalogSync.Config, m: SyncHistory.Moment, subject: string, observed: set<int>,
    flags: seq<Flag>)
    requires SyncHistory.AllLive(m.registry) && SyncHistory.IsRebuilt(cfg, m) && subject in m.registry
    requires var info := LatestOf(cfg, m.registry[subject]);
             FlagsTell(LocalOf(CatalogSync.SliceOf(m.catalog, subject), observed), info.version.value, info.canonicalHash, flags)
    ensures CatalogClean(flags)
    ensures flags == [] <==> ObservedAgrees(LocalOf(CatalogSync.SliceOf(m.catalog, subject), observed), SyncHistory.Last(m.registry[subject]))
  {
    var versions := m.registry[subject];
    var h := SyncHistory.Last(versions);
    var local := LocalOf(CatalogSync.SliceOf(m.catalog, subject), observed);
    FlagsMeaning(local, h, Some(cfg.digest(versions[h])), flags);
    NewestIs(local.rows.Keys, h);
    assert h in local.rows;
  }

  /**
   After every history from an empty catalog in which no removed subject came back early, a final
   failure-free sync leaves no live subject with a catalog flag, and no flag at all exactly when the
   observed version agrees.
   */
  lemma NoCatalogDriftAfterHistory(cfg: CatalogSync.Config, moments: seq<SyncHistory.Moment>, events: seq<SyncHistory.Event>,
    subjects: seq<string>, calls: string -> CatalogSync.Calls, last: SyncHistory.Moment, subject: string, observed: set<int>,
    flags: seq<Flag>)
    requires SyncHistory.IsHistory(cfg, moments, events) && SyncHistory.EmptyRows(moments[0].catalog)
    requires SyncHistory.NothingUndone(cfg, moments, events)
    requires SyncHistory.Happens(cfg, moments[|events|], SyncHistory.Sync(subjects, calls), last)
    requires subject in last.registry
    requires var info := LatestOf(cfg, last.registry[subject]);
             FlagsTell(LocalOf(CatalogSync.SliceOf(last.catalog, subject), observed), info.version.value, info.canonicalHash, flags)
    ensures CatalogClean(flags)
    ensures flags == [] <==>
              ObservedAgrees(LocalOf(CatalogSync.SliceOf(last.catalog, subject), observed), SyncHistory.Last(last.registry[subject]))
  {
    SyncHistory.HistoryEqualsRebuild(cfg, moments, events, subjects, calls, last);
    RebuiltHasNoCatalogDrift(cfg, last, subject, observed, flags);
  }
}
