/**
 What the incremental sync is for: after any history of registry growth, removals, deletions and
 failure-free syncs, when the catalog is what a sync from scratch would have produced.
 */
module SyncHistory {
  import opened Prelude
  import Json
  import opened CatalogSync

  /** The live versions of one subject. */
  type Versions = map<int, Json.Text>

  predicate IsLive(versions: Versions)
  {
    versions != map[] && forall v :: v in versions ==> v >= 1
  }

  function Last(versions: Versions): (h: int)
    requires IsLive(versions)
    ensures h in versions && h >= 1 && forall v :: v in versions ==> v <= h
  {
    assert versions.Keys != {};
    Highest(versions.Keys)
  }

  /** Every call of one subject's task goes through; a version the registry no longer has cannot be fetched. */
  ghost predicate FailureFree(cfg: Config, calls: Calls, versions: Versions)
    requires IsLive(versions)
  {
    && calls.readOk && calls.metaSaves
    && AnswerFrom(calls.latest, 0, cfg.maxRetries) == Latest(Last(versions))
    && (forall v :: v in versions ==> calls.version(v).reply == Delivered(versions[v]) && calls.version(v).saves)
    && (forall v :: v !in versions ==> calls.version(v).reply == FetchFails && calls.version(v).rollsBack)
  }

  /** The rows of the versions between two bounds. */
  function Copied(cfg: Config, versions: Versions, lo: int, hi: int): map<int, Row>
  {
    map v | v in versions && lo <= v <= hi :: RowFor(cfg, versions[v])
  }

  /** The catalog rows of a subject synced from nothing. */
  function Rebuild(cfg: Config, versions: Versions): Slice
    requires IsLive(versions)
  {
    Slice(Some(Some(Last(versions))), Copied(cfg, versions, 1, Last(versions)))
  }

  // ---------- one failure-free sync ----------

  lemma NeverStuck(cfg: Config, calls: Calls, versions: Versions)
    requires IsLive(versions) && FailureFree(cfg, calls, versions)
    ensures forall v :: !IsStuck(calls, v)
    ensures forall v :: IsSaved(calls, v) <==> v in versions
  {
  }

  lemma AllSaved(cfg: Config, calls: Calls, versions: Versions, lo: int)
    requires IsLive(versions) && FailureFree(cfg, calls, versions)
    ensures SavedRows(cfg, calls, lo, RangeEnd(lo, Last(versions))) == Copied(cfg, versions, lo, Last(versions))
  {
    NeverStuck(cfg, calls, versions);
  }

  lemma FetchedRows(cfg: Config, calls: Calls, versions: Versions, mark: Option<int>, next: int, w: Work)
    requires IsLive(versions) && FailureFree(cfg, calls, versions)
    ensures var h := Last(versions);
            FetchedFrom(cfg, calls, mark, h, next, w) == Marked(calls, mark, h, Fetched(cfg, calls, next, RangeEnd(next, h), w))
  {
    NeverStuck(cfg, calls, versions);
    FetchedMeaning(cfg, calls, mark, Last(versions), next, RangeEnd(next, Last(versions)), w);
  }

  /** Below the watermark nothing is looked at; above it every version is copied; an old latest is skipped. */
  lemma SyncedRows(cfg: Config, calls: Calls, versions: Versions, slice: Slice)
    requires IsLive(versions) && FailureFree(cfg, calls, versions)
    ensures var h, mark := Last(versions), MarkOf(slice);
            SyncedSlice(cfg, calls, slice)
            == if HasMark(mark) && h <= mark.value then slice
               else Slice(Some(Some(h)), slice.rows + Copied(cfg, versions, FirstVersion(mark), h))
  {
    AllSaved(cfg, calls, versions, FirstVersion(MarkOf(slice)));
    FetchedRows(cfg, calls, versions, MarkOf(slice), FirstVersion(MarkOf(slice)), Work(slice, ZERO));
  }

  /** What a failure-free sync counts: a new subject without a watermark, each version number of the range, no error. */
  lemma SyncedCounters(cfg: Config, calls: Calls, versions: Versions, slice: Slice)
    requires IsLive(versions) && FailureFree(cfg, calls, versions)
    ensures var h, mark := Last(versions), MarkOf(slice);
            var count := if h >= FirstVersion(mark) then h - FirstVersion(mark) + 1 else 0;
            SyncedSubject(cfg, calls, Work(slice, ZERO)).tally == Tally(if HasMark(mark) then 0 else 1, count, count, 0)
  {
    AllSaved(cfg, calls, versions, FirstVersion(MarkOf(slice)));
    FetchedRows(cfg, calls, versions, MarkOf(slice), FirstVersion(MarkOf(slice)), Work(slice, ZERO));
  }

  /** The rows of a subject as some earlier moment of its registry history left them. */
  ghost predicate Behind(cfg: Config, versions: Versions, slice: Slice)
    requires IsLive(versions)
  {
    var mark := MarkOf(slice);
    && (HasMark(mark) ==> mark.value <= Last(versions))
    && (forall v :: v in slice.rows ==> v in versions)
    && (forall v :: v in versions && v < FirstVersion(mark) ==> v in slice.rows && slice.rows[v] == RowFor(cfg, versions[v]))
  }

  lemma BehindIsRebuilt(cfg: Config, calls: Calls, versions: Versions, slice: Slice)
    requires IsLive(versions) && FailureFree(cfg, calls, versions) && Behind(cfg, versions, slice)
    ensures SyncedSlice(cfg, calls, slice) == Rebuild(cfg, versions)
  {
    var all, result := Copied(cfg, versions, 1, Last(versions)), SyncedSlice(cfg, calls, slice);
    SyncedRows(cfg, calls, versions, slice);
    forall v ensures v in result.rows <==> v in all {
    }
    forall v | v in all ensures result.rows[v] == all[v] {
    }
    assert result.rows == all;
  }

  lemma RebuiltWasBehind(cfg: Config, calls: Calls, versions: Versions, slice: Slice)
    requires IsLive(versions) && FailureFree(cfg, calls, versions) && SyncedSlice(cfg, calls, slice) == Rebuild(cfg, versions)
    ensures Behind(cfg, versions, slice)
  {
    var result := SyncedSlice(cfg, calls, slice);
    SyncedRows(cfg, calls, versions, slice);
    forall v | v in slice.rows ensures v in versions {
      assert v in result.rows;
    }
    forall v | v in versions && v < FirstVersion(MarkOf(slice)) ensures v in slice.rows && slice.rows[v] == RowFor(cfg, versions[v]) {
      assert v in Copied(cfg, versions, 1, Last(versions)) && v in result.rows;
    }
  }

  /**
   A failure-free incremental sync equals a rebuild exactly when the watermark is not ahead, no row
   lacks its registry version, and the rows at or below the watermark are the registry's.
   */
  lemma SyncEqualsRebuildExactly(cfg: Config, calls: Calls, versions: Versions, slice: Slice)
    requires IsLive(versions) && FailureFree(cfg, calls, versions)
    ensures SyncedSlice(cfg, calls, slice) == Rebuild(cfg, versions) <==> Behind(cfg, versions, slice)
  {
    if Behind(cfg, versions, slice) {
      BehindIsRebuilt(cfg, calls, versions, slice);
    } else if SyncedSlice(cfg, calls, slice) == Rebuild(cfg, versions) {
      RebuiltWasBehind(cfg, calls, versions, slice);
    }
  }

  /** A watermark ahead of the registry is never brought back: the subject is skipped for good. */
  lemma AheadIsSkipped(cfg: Config, calls: Calls, versions: Versions, slice: Slice)
    requires IsLive(versions) && FailureFree(cfg, calls, versions)
    requires HasMark(MarkOf(slice)) && Last(versions) < MarkOf(slice).value
    ensures SyncedSlice(cfg, calls, slice) == slice != Rebuild(cfg, versions)
  {
  }

  /**
   One swallowed fetch failure is never made up for: the watermark has passed the version, so no
   later sync, however successful, brings its row in.
   */
  lemma MissedVersionStaysMissing(cfg: Config, calls: Calls, versions: Versions, slice: Slice, missed: int)
    requires IsLive(versions) && FailureFree(cfg, calls, versions)
    requires missed in versions && missed !in slice.rows && HasMark(MarkOf(slice)) && missed <= MarkOf(slice).value
    ensures missed !in SyncedSlice(cfg, calls, slice).rows
    ensures HasMark(MarkOf(SyncedSlice(cfg, calls, slice))) && missed <= MarkOf(SyncedSlice(cfg, calls, slice)).value
  {
    SyncedRows(cfg, calls, versions, slice);
  }

  // ---------- histories ----------

  type Registry = map<string, Versions>

  datatype Moment = Moment(registry: Registry, catalog: Catalog)

  datatype Event =
    | Publish(subject: string, version: int, text: Json.Text)
    | Drop(subject: string)
    | Truncate(subject: string, above: int)
    | Sync(subjects: seq<string>, calls: string -> Calls)

  predicate AllLive(registry: Registry)
  {
    forall s :: s in registry ==> IsLive(registry[s])
  }

  function VersionsOf(registry: Registry, s: string): Versions
  {
    if s in registry then registry[s] else map[]
  }

  /** Versions of a live subject only grow; a removed subject may come back at any time, with any version. */
  predicate MayPublish(registry: Registry, s: string, version: int)
  {
    version >= 1 && forall v :: v in VersionsOf(registry, s) ==> v < version
  }

  /** The next number can always be published. */
  lemma NextMayBePublished(registry: Registry, s: string)
    requires AllLive(registry)
    ensures MayPublish(registry, s, if s in registry then Last(registry[s]) + 1 else 1)
  {
  }

  /** One more version, above all others. */
  function Grown(versions: Versions, version: int, t: Json.Text): (r: Versions)
    requires version >= 1 && forall v :: v in versions ==> 1 <= v < version
    ensures IsLive(r) && Last(r) == version
  {
    var r := versions[version := t];
    assert version in r;
    r
  }

  /** What is left when the versions above a bound are deleted, as a rollback does. */
  function Kept(versions: Versions, above: int): (r: Versions)
    requires IsLive(versions) && exists v :: v in versions && v <= above
    ensures IsLive(r) && Last(r) <= above
  {
    var r := map v | v in versions && v <= above :: versions[v];
    assert forall v :: v in versions && v <= above ==> v in r;
    r
  }

  /** A failure-free sync of the whole registry. */
  ghost predicate IsSync(cfg: Config, m: Moment, subjects: seq<string>, calls: string -> Calls)
    requires AllLive(m.registry)
  {
    && NoRepeats(subjects) && Elements(subjects) == m.registry.Keys
    && forall s :: s in m.registry ==> FailureFree(cfg, calls(s), m.registry[s])
  }

  ghost predicate Happens(cfg: Config, m: Moment, e: Event, m': Moment)
    requires AllLive(m.registry)
  {
    match e
    case Publish(s, v, t) =>
      MayPublish(m.registry, s, v) && m' == m.(registry := m.registry[s := Grown(VersionsOf(m.registry, s), v, t)])
    case Drop(s) => m' == m.(registry := m.registry - {s})
    case Truncate(s, above) =>
      && s in m.registry && (exists v :: v in m.registry[s] && v <= above)
      && m' == m.(registry := m.registry[s := Kept(m.registry[s], above)])
    case Sync(subjects, calls) =>
      && IsSync(cfg, m, subjects, calls)
      && m'.registry == m.registry
      && SyncedCatalog(cfg, m.catalog, subjects, calls, m'.catalog)
  }

  /** Version rows are never alone: wherever there are rows, there is a subject row. */
  ghost predicate Known(c: Catalog)
  {
    forall s :: SliceOf(c, s) == NO_SLICE || SliceOf(c, s).subjectRow.Some?
  }

  ghost predicate AllBehind(cfg: Config, m: Moment)
    requires AllLive(m.registry)
  {
    forall s :: s in m.registry ==> Behind(cfg, m.registry[s], SliceOf(m.catalog, s))
  }

  /** The catalog holds exactly what a rebuild of every live subject would. */
  ghost predicate IsRebuilt(cfg: Config, m: Moment)
    requires AllLive(m.registry)
  {
    forall s :: SliceOf(m.catalog, s) == if s in m.registry then Rebuild(cfg, m.registry[s]) else NO_SLICE
  }

  /** What the sync of any moment leaves of one subject. */
  lemma SyncedMoment(cfg: Config, m: Moment, subjects: seq<string>, calls: string -> Calls, m': Moment, s: string)
    requires AllLive(m.registry) && Happens(cfg, m, Sync(subjects, calls), m')
    ensures s in m.registry ==>
              SliceOf(m'.catalog, s) == SyncedSlice(cfg, calls(s), SliceOf(m.catalog, s)) && FailureFree(cfg, calls(s), m.registry[s])
    ensures s !in m.registry ==>
              SliceOf(m'.catalog, s) == if s in Existing(m.catalog) then NO_SLICE else SliceOf(m.catalog, s)
  {
    WithoutStaleMeaning(m.catalog, m.registry.Keys);
  }

  lemma LiveRebuiltExactly(cfg: Config, m: Moment, subjects: seq<string>, calls: string -> Calls, m': Moment, s: string)
    requires AllLive(m.registry) && Happens(cfg, m, Sync(subjects, calls), m') && s in m.registry
    ensures SliceOf(m'.catalog, s) == Rebuild(cfg, m.registry[s]) <==> Behind(cfg, m.registry[s], SliceOf(m.catalog, s))
  {
    SyncedMoment(cfg, m, subjects, calls, m', s);
    SyncEqualsRebuildExactly(cfg, calls(s), m.registry[s], SliceOf(m.catalog, s));
  }

  /** No dead subject has rows that only the version table tells of. */
  ghost predicate NoOrphans(m: Moment)
  {
    forall s :: s !in m.registry && s !in Existing(m.catalog) ==> SliceOf(m.catalog, s) == NO_SLICE
  }

  /**
   The failure-free sync of ANY moment leaves a rebuilt catalog exactly when every live subject is
   behind its registry and no dead subject has rows that only the version table tells of.
   */
  lemma SyncRebuildsExactly(cfg: Config, m: Moment, subjects: seq<string>, calls: string -> Calls, m': Moment)
    requires AllLive(m.registry) && Happens(cfg, m, Sync(subjects, calls), m')
    ensures IsRebuilt(cfg, m') <==> AllBehind(cfg, m) && NoOrphans(m)
  {
    assert m'.registry == m.registry;
    forall s | s in m.registry
      ensures SliceOf(m'.catalog, s) == Rebuild(cfg, m.registry[s]) <==> Behind(cfg, m.registry[s], SliceOf(m.catalog, s))
    {
      LiveRebuiltExactly(cfg, m, subjects, calls, m', s);
    }
    forall s | s !in m.registry ensures SliceOf(m'.catalog, s) == if s in Existing(m.catalog) then NO_SLICE else SliceOf(m.catalog, s) {
      SyncedMoment(cfg, m, subjects, calls, m', s);
    }
  }

  /** The same when no rows are alone, as in every history that starts with an empty catalog. */
  lemma KnownSyncRebuildsExactly(cfg: Config, m: Moment, subjects: seq<string>, calls: string -> Calls, m': Moment)
    requires AllLive(m.registry) && Happens(cfg, m, Sync(subjects, calls), m') && Known(m.catalog)
    ensures Known(m'.catalog)
    ensures IsRebuilt(cfg, m') <==> AllBehind(cfg, m)
  {
    SyncRebuildsExactly(cfg, m, subjects, calls, m');
    forall s | SliceOf(m.catalog, s) != NO_SLICE ensures s in Existing(m.catalog) {
      assert s in SubjectTable(m.catalog);
    }
    forall s ensures SliceOf(m'.catalog, s) == NO_SLICE || SliceOf(m'.catalog, s).subjectRow.Some? {
      SyncedMoment(cfg, m, subjects, calls, m', s);
      if s in m.registry { SyncedRows(cfg, calls(s), m.registry[s], SliceOf(m.catalog, s)); }
    }
  }

  lemma RebuiltIsBehind(cfg: Config, versions: Versions)
    requires IsLive(versions)
    ensures Behind(cfg, versions, Rebuild(cfg, versions))
  {
  }

  // ---------- subjects that come back ----------

  /** A publish that brings back a removed subject finds no rows of its former life that differ from its new one. */
  ghost predicate ReturnsBehind(cfg: Config, m: Moment, e: Event)
  {
    e.Publish? && e.version >= 1 && e.subject !in m.registry
    ==> Behind(cfg, Grown(map[], e.version, e.text), SliceOf(m.catalog, e.subject))
  }

  lemma GrowthKeepsBehind(cfg: Config, versions: Versions, v: int, t: Json.Text, slice: Slice)
    requires IsLive(versions) && Behind(cfg, versions, slice) && v > Last(versions)
    ensures Behind(cfg, Grown(versions, v, t), slice)
  {
  }

  /** A publish keeps every live subject behind exactly when it does not bring back a subject with rows of its former life. */
  lemma PublishKeepsExactly(cfg: Config, m: Moment, s: string, v: int, t: Json.Text, m': Moment)
    requires AllLive(m.registry) && AllBehind(cfg, m) && Happens(cfg, m, Publish(s, v, t), m')
    ensures AllLive(m'.registry)
    ensures AllBehind(cfg, m') <==> ReturnsBehind(cfg, m, Publish(s, v, t))
  {
    var grown := Grown(VersionsOf(m.registry, s), v, t);
    if s in m.registry {
      GrowthKeepsBehind(cfg, m.registry[s], v, t, SliceOf(m.catalog, s));
    }
    assert m'.registry[s] == grown;
    assert s in m.registry ==> Behind(cfg, grown, SliceOf(m'.catalog, s));
    assert forall x :: x in m'.registry && x != s ==> m'.registry[x] == m.registry[x];
  }

  /**
   The input on which incremental sync and rebuild part: an up-to-date subject with versions beyond
   the first is removed and comes back with version 1 before the next sync. Its old rows stay.
   */
  lemma EarlyReturnIsNotRebuilt(cfg: Config, m: Moment, s: string, t: Json.Text, m1: Moment, m2: Moment,
    subjects: seq<string>, calls: string -> Calls, m3: Moment)
    requires AllLive(m.registry) && IsRebuilt(cfg, m) && s in m.registry && Last(m.registry[s]) > 1
    requires Happens(cfg, m, Drop(s), m1) && AllLive(m1.registry) && Happens(cfg, m1, Publish(s, 1, t), m2)
    requires AllLive(m2.registry) && Happens(cfg, m2, Sync(subjects, calls), m3)
    ensures SliceOf(m3.catalog, s) == SliceOf(m.catalog, s)
    ensures !IsRebuilt(cfg, m3)
  {
    var slice := SliceOf(m.catalog, s);
    assert slice == Rebuild(cfg, m.registry[s]) && m2.registry[s] == Grown(map[], 1, t);
    SyncedMoment(cfg, m2, subjects, calls, m3, s);
    AheadIsSkipped(cfg, calls(s), m2.registry[s], slice);
  }

  // ---------- versions that are deleted ----------

  /** The catalog has seen none of the versions deleted. */
  ghost predicate Unseen(m: Moment, s: string, above: int)
    requires AllLive(m.registry) && s in m.registry && exists v :: v in m.registry[s] && v <= above
  {
    var slice := SliceOf(m.catalog, s);
    && (forall v :: v in slice.rows ==> v <= above)
    && (HasMark(MarkOf(slice)) ==> MarkOf(slice).value <= Last(Kept(m.registry[s], above)))
  }

  /** Deleting the versions above a bound keeps every live subject behind exactly when the catalog has seen none of them. */
  lemma TruncateKeepsExactly(cfg: Config, m: Moment, s: string, above: int, m': Moment)
    requires AllLive(m.registry) && AllBehind(cfg, m) && Happens(cfg, m, Truncate(s, above), m')
    ensures AllLive(m'.registry)
    ensures AllBehind(cfg, m') <==> Unseen(m, s, above)
  {
    var kept, slice := Kept(m.registry[s], above), SliceOf(m.catalog, s);
    assert Behind(cfg, m.registry[s], slice);
    assert Behind(cfg, kept, slice) <==> Unseen(m, s, above) by {
      assert forall v :: v in kept <==> v in m.registry[s] && v <= above;
    }
    assert forall x :: x in m'.registry && x != s ==> m'.registry[x] == m.registry[x];
  }

  // ---------- whole histories ----------

  /** The moments of a history, each following from the one before by its event. */
  ghost predicate IsHistory(cfg: Config, moments: seq<Moment>, events: seq<Event>)
  {
    && |moments| == |events| + 1
    && (forall i :: 0 <= i < |moments| ==> AllLive(moments[i].registry))
    && forall i :: 0 <= i < |events| ==> HappensAt(cfg, moments, events, i)
  }

  ghost predicate HappensAt(cfg: Config, moments: seq<Moment>, events: seq<Event>, i: nat)
    requires i < |events| && |moments| == |events| + 1 && AllLive(moments[i].registry)
  {
    Happens(cfg, moments[i], events[i], moments[i + 1])
  }

  /** The event takes back something the catalog has seen: it revives a subject over old rows, or deletes versions seen. */
  ghost predicate Undoes(cfg: Config, m: Moment, e: Event)
    requires AllLive(m.registry)
  {
    match e
    case Publish(_, _, _) => !ReturnsBehind(cfg, m, e)
    case Truncate(s, above) => s in m.registry && (exists v :: v in m.registry[s] && v <= above) && !Unseen(m, s, above)
    case _ => false
  }

  /** No event of the history takes back what the catalog has seen. */
  ghost predicate NothingUndone(cfg: Config, moments: seq<Moment>, events: seq<Event>)
    requires IsHistory(cfg, moments, events)
  {
    forall i :: 0 <= i < |events| ==> !Undoes(cfg, moments[i], events[i])
  }

  lemma HappensKeepsKnown(cfg: Config, m: Moment, e: Event, m': Moment)
    requires AllLive(m.registry) && Known(m.catalog) && Happens(cfg, m, e, m')
    ensures AllLive(m'.registry) && Known(m'.catalog)
  {
    match e {
      case Publish(_, _, _) =>
      case Drop(_) =>
      case Truncate(_, _) =>
      case Sync(subjects, calls) => KnownSyncRebuildsExactly(cfg, m, subjects, calls, m');
    }
  }

  lemma HappensKeepsBehind(cfg: Config, m: Moment, e: Event, m': Moment)
    requires AllLive(m.registry) && Known(m.catalog) && AllBehind(cfg, m) && Happens(cfg, m, e, m')
    ensures AllLive(m'.registry)
    ensures AllBehind(cfg, m') <==> !Undoes(cfg, m, e)
  {
    match e {
      case Publish(s, v, t) => PublishKeepsExactly(cfg, m, s, v, t, m');
      case Drop(s) =>
      case Truncate(s, above) => TruncateKeepsExactly(cfg, m, s, above, m');
      case Sync(subjects, calls) =>
        KnownSyncRebuildsExactly(cfg, m, subjects, calls, m');
        forall s | s in m'.registry ensures Behind(cfg, m'.registry[s], SliceOf(m'.catalog, s)) {
          RebuiltIsBehind(cfg, m'.registry[s]);
        }
    }
  }

  lemma {:induction false} HistoryKeepsKnown(cfg: Config, moments: seq<Moment>, events: seq<Event>, n: nat)
    requires IsHistory(cfg, moments, events) && Known(moments[0].catalog) && n <= |events|
    ensures Known(moments[n].catalog)
  {
    if n > 0 {
      HistoryKeepsKnown(cfg, moments, events, n - 1);
      assert HappensAt(cfg, moments, events, n - 1);
      HappensKeepsKnown(cfg, moments[n - 1], events[n - 1], moments[n]);
    }
  }

  lemma {:induction false} HistoryKeepsBehind(cfg: Config, moments: seq<Moment>, events: seq<Event>, n: nat)
    requires IsHistory(cfg, moments, events) && Known(moments[0].catalog) && AllBehind(cfg, moments[0])
    requires n <= |events| && UndoneNothingUpTo(cfg, moments, events, n)
    ensures AllBehind(cfg, moments[n])
  {
    if n > 0 {
      HistoryKeepsBehind(cfg, moments, events, n - 1);
      HistoryKeepsKnown(cfg, moments, events, n - 1);
      assert HappensAt(cfg, moments, events, n - 1);
      HappensKeepsBehind(cfg, moments[n - 1], events[n - 1], moments[n]);
    }
  }

  ghost predicate EmptyRows(c: Catalog)
  {
    forall s :: SliceOf(c, s) == NO_SLICE
  }

  lemma EmptyIsBehind(cfg: Config, m: Moment)
    requires AllLive(m.registry) && EmptyRows(m.catalog)
    ensures Known(m.catalog) && AllBehind(cfg, m)
  {
    forall s | s in m.registry ensures Behind(cfg, m.registry[s], SliceOf(m.catalog, s)) {
      assert SliceOf(m.catalog, s) == NO_SLICE;
    }
  }

  /**
   After ANY history that starts with an empty catalog, a failure-free sync leaves exactly the rows and
   watermarks of a rebuild if and only if every live subject was behind its registry.
   */
  lemma HistoryEqualsRebuildExactly(cfg: Config, moments: seq<Moment>, events: seq<Event>, subjects: seq<string>,
    calls: string -> Calls, last: Moment)
    requires IsHistory(cfg, moments, events) && EmptyRows(moments[0].catalog)
    requires Happens(cfg, moments[|events|], Sync(subjects, calls), last)
    ensures IsRebuilt(cfg, last) <==> AllBehind(cfg, moments[|events|])
  {
    EmptyIsBehind(cfg, moments[0]);
    HistoryKeepsKnown(cfg, moments, events, |events|);
    KnownSyncRebuildsExactly(cfg, moments[|events|], subjects, calls, last);
  }

  /** Which holds whenever nothing the catalog had seen was taken back. */
  lemma HistoryEqualsRebuild(cfg: Config, moments: seq<Moment>, events: seq<Event>, subjects: seq<string>,
    calls: string -> Calls, last: Moment)
    requires IsHistory(cfg, moments, events) && EmptyRows(moments[0].catalog) && NothingUndone(cfg, moments, events)
    requires Happens(cfg, moments[|events|], Sync(subjects, calls), last)
    ensures IsRebuilt(cfg, last)
  {
    EmptyIsBehind(cfg, moments[0]);
    HistoryKeepsBehind(cfg, moments, events, |events|);
    HistoryEqualsRebuildExactly(cfg, moments, events, subjects, calls, last);
  }

  // ---------- what the rows of a rebuilt catalog say ----------

  /** The subject has its latest version as watermark and one row per version, with the text and its digest. */
  ghost predicate HoldsTexts(cfg: Config, versions: Versions, slice: Slice)
  {
    && slice.rows.Keys == versions.Keys
    && (forall v :: v in versions ==> slice.rows[v].text == versions[v] && slice.rows[v].digest == cfg.digest(versions[v]))
    && exists h :: h in versions && (forall v :: v in versions ==> v <= h) && slice.subjectRow == Some(Some(h))
  }

  lemma RebuildHoldsTexts(cfg: Config, versions: Versions)
    requires IsLive(versions)
    ensures HoldsTexts(cfg, versions, Rebuild(cfg, versions))
  {
    assert Last(versions) in versions;
  }

  /** The failure-free sync of a moment whose live subjects are behind leaves the registry's own texts in the catalog. */
  lemma SyncHoldsTexts(cfg: Config, m: Moment, subjects: seq<string>, calls: string -> Calls, m': Moment, s: string)
    requires AllLive(m.registry) && Happens(cfg, m, Sync(subjects, calls), m') && AllBehind(cfg, m) && s in m.registry
    ensures HoldsTexts(cfg, m.registry[s], SliceOf(m'.catalog, s))
  {
    LiveRebuiltExactly(cfg, m, subjects, calls, m', s);
    RebuildHoldsTexts(cfg, m.registry[s]);
  }

  // ---------- histories in which nothing is undone, told from the registry alone ----------

  /** A sync comes between the removal of a subject and each later version of it. */
  ghost predicate Forgotten(events: seq<Event>)
  {
    forall i, j :: 0 <= i < j < |events| && events[i].Drop? && events[j].Publish? && events[i].subject == events[j].subject
      ==> SyncedBetween(events, i, j)
  }

  ghost predicate SyncedBetween(events: seq<Event>, i: nat, j: nat)
    requires j <= |events|
  {
    exists k :: i < k < j && events[k].Sync?
  }

  /** No sync came while a version to be deleted later was there. */
  ghost predicate DeletedInTime(moments: seq<Moment>, events: seq<Event>)
    requires |moments| == |events| + 1
  {
    forall k, j :: 0 <= k < j < |events| && events[k].Sync? && events[j].Truncate?
      ==> forall v :: v in VersionsOf(moments[k].registry, events[j].subject) ==> v <= events[j].above
  }

  function LastSync(events: seq<Event>, n: nat): (k: Option<nat>)
    requires n <= |events|
    ensures k.Some? ==> k.value < n && events[k.value].Sync?
    ensures forall i :: (if k.Some? then k.value + 1 else 0) <= i < n ==> !events[i].Sync?
  {
    if n == 0 then None else if events[n - 1].Sync? then Some(n - 1) else LastSync(events, n - 1)
  }

  /** The registry as the last sync found it. */
  function SeenRegistry(moments: seq<Moment>, events: seq<Event>, n: nat): Registry
    requires |moments| == |events| + 1 && n <= |events|
  {
    match LastSync(events, n) case None => map[] case Some(k) => moments[k].registry
  }

  /** The catalog holds what a rebuild of the registry `seen` would. */
  ghost predicate IsSnapshot(cfg: Config, c: Catalog, seen: Registry)
    requires AllLive(seen)
  {
    forall s :: SliceOf(c, s) == if s in seen then Rebuild(cfg, seen[s]) else NO_SLICE
  }

  /** A subject that is gone has been removed since. */
  lemma {:induction false} WasDropped(cfg: Config, moments: seq<Moment>, events: seq<Event>, k: nat, n: nat, s: string) returns (d: nat)
    requires IsHistory(cfg, moments, events) && k <= n <= |events|
    requires s in moments[k].registry && s !in moments[n].registry
    ensures k <= d < n && events[d] == Drop(s)
  {
    assert HappensAt(cfg, moments, events, n - 1);
    if s in moments[n - 1].registry {
      d := n - 1;
    } else {
      d := WasDropped(cfg, moments, events, k, n - 1, s);
    }
  }

  /** A subject without rows can come back, and a live one can grow. */
  lemma PublishUndoesNothing(cfg: Config, m: Moment, s: string, v: int, t: Json.Text)
    requires AllLive(m.registry) && (s in m.registry || SliceOf(m.catalog, s) == NO_SLICE)
    ensures !Undoes(cfg, m, Publish(s, v, t))
  {
  }

  /** What a sync saw before the deleted versions came is not touched. */
  lemma TruncateUndoesNothing(cfg: Config, m: Moment, s: string, above: int, seen: Registry)
    requires AllLive(m.registry) && AllBehind(cfg, m) && AllLive(seen) && IsSnapshot(cfg, m.catalog, seen)
    requires forall v :: v in VersionsOf(seen, s) ==> v <= above
    ensures !Undoes(cfg, m, Truncate(s, above))
  {
    if s in m.registry && exists v :: v in m.registry[s] && v <= above {
      if s in seen {
        assert VersionsOf(seen, s) == seen[s];
        SeenIsUnseen(cfg, m, s, above, seen[s]);
      } else {
        assert SliceOf(m.catalog, s) == NO_SLICE;
      }
    }
  }

  lemma SeenIsUnseen(cfg: Config, m: Moment, s: string, above: int, seen: Versions)
    requires AllLive(m.registry) && AllBehind(cfg, m) && s in m.registry && exists v :: v in m.registry[s] && v <= above
    requires IsLive(seen) && SliceOf(m.catalog, s) == Rebuild(cfg, seen) && forall v :: v in seen ==> v <= above
    ensures Unseen(m, s, above)
  {
    var h := Last(seen);
    assert Behind(cfg, m.registry[s], SliceOf(m.catalog, s));
    assert h in Rebuild(cfg, seen).rows;
    assert h in Kept(m.registry[s], above);
  }

  lemma SeenIsLive(cfg: Config, moments: seq<Moment>, events: seq<Event>, n: nat)
    requires IsHistory(cfg, moments, events) && n <= |events|
    ensures AllLive(SeenRegistry(moments, events, n))
  {
  }

  lemma SyncAfterDrop(events: seq<Event>, d: nat, n: nat) returns (k: nat)
    requires Forgotten(events) && d < n < |events| && events[n].Publish? && events[d] == Drop(events[n].subject)
    ensures d < k < n && events[k].Sync?
  {
    assert SyncedBetween(events, d, n);
    k :| d < k < n && events[k].Sync?;
  }

  /** Since a subject that is seen and gone was removed after the last sync, it does not come back now. */
  lemma ReturnsForgotten(cfg: Config, moments: seq<Moment>, events: seq<Event>, n: nat)
    requires IsHistory(cfg, moments, events) && n < |events| && Forgotten(events) && events[n].Publish?
    ensures events[n].subject in moments[n].registry || events[n].subject !in SeenRegistry(moments, events, n)
  {
    var s, k := events[n].subject, LastSync(events, n);
    if s !in moments[n].registry && k.Some? && s in moments[k.value].registry {
      var d := WasDropped(cfg, moments, events, k.value, n, s);
      var between := SyncAfterDrop(events, d, n);
    }
  }

  lemma NextUndoesNothing(cfg: Config, moments: seq<Moment>, events: seq<Event>, n: nat)
    requires IsHistory(cfg, moments, events) && n < |events| && Forgotten(events) && DeletedInTime(moments, events)
    requires IsSnapshotAt(cfg, moments, events, n) && AllBehind(cfg, moments[n])
    ensures !Undoes(cfg, moments[n], events[n])
  {
    match events[n] {
      case Publish(s, v, t) =>
        ReturnsForgotten(cfg, moments, events, n);
        PublishUndoesNothing(cfg, moments[n], s, v, t);
      case Truncate(s, above) => TruncateUndoesNothing(cfg, moments[n], s, above, SeenRegistry(moments, events, n));
      case _ =>
    }
  }

  lemma NextSnapshot(cfg: Config, m: Moment, e: Event, m': Moment, seen: Registry)
    requires AllLive(m.registry) && AllLive(seen) && Happens(cfg, m, e, m') && Known(m.catalog) && AllBehind(cfg, m)
    requires IsSnapshot(cfg, m.catalog, seen)
    ensures IsSnapshot(cfg, m'.catalog, if e.Sync? then m.registry else seen)
  {
    if e.Sync? { KnownSyncRebuildsExactly(cfg, m, e.subjects, e.calls, m'); }
  }

  /** The catalog after `n` events is a rebuild of the registry as the last sync found it. */
  ghost predicate IsSnapshotAt(cfg: Config, moments: seq<Moment>, events: seq<Event>, n: nat)
    requires |moments| == |events| + 1 && n <= |events|
  {
    var seen := SeenRegistry(moments, events, n);
    AllLive(seen) && IsSnapshot(cfg, moments[n].catalog, seen)
  }

  lemma SnapshotStep(cfg: Config, moments: seq<Moment>, events: seq<Event>, n: nat)
    requires IsHistory(cfg, moments, events) && n < |events| && IsSnapshotAt(cfg, moments, events, n)
    requires Known(moments[n].catalog) && AllBehind(cfg, moments[n])
    ensures IsSnapshotAt(cfg, moments, events, n + 1)
  {
    assert HappensAt(cfg, moments, events, n);
    SeenIsLive(cfg, moments, events, n + 1);
    NextSnapshot(cfg, moments[n], events[n], moments[n + 1], SeenRegistry(moments, events, n));
  }

  ghost predicate UndoneNothingUpTo(cfg: Config, moments: seq<Moment>, events: seq<Event>, n: nat)
    requires IsHistory(cfg, moments, events) && n <= |events|
  {
    forall i :: 0 <= i < n ==> !Undoes(cfg, moments[i], events[i])
  }

  lemma SnapshotNext(cfg: Config, moments: seq<Moment>, events: seq<Event>, n: nat)
    requires IsHistory(cfg, moments, events) && n < |events| && Forgotten(events) && DeletedInTime(moments, events)
    requires Known(moments[0].catalog) && AllBehind(cfg, moments[0])
    requires UndoneNothingUpTo(cfg, moments, events, n) && IsSnapshotAt(cfg, moments, events, n)
    ensures UndoneNothingUpTo(cfg, moments, events, n + 1) && IsSnapshotAt(cfg, moments, events, n + 1)
  {
    HistoryKeepsBehind(cfg, moments, events, n);
    HistoryKeepsKnown(cfg, moments, events, n);
    NextUndoesNothing(cfg, moments, events, n);
    SnapshotStep(cfg, moments, events, n);
  }

  lemma {:induction false} SnapshotsFollow(cfg: Config, moments: seq<Moment>, events: seq<Event>, n: nat)
    requires IsHistory(cfg, moments, events) && n <= |events| && Forgotten(events) && DeletedInTime(moments, events)
    requires Known(moments[0].catalog) && AllBehind(cfg, moments[0]) && IsSnapshotAt(cfg, moments, events, 0)
    ensures UndoneNothingUpTo(cfg, moments, events, n) && IsSnapshotAt(cfg, moments, events, n)
  {
    if n > 0 {
      SnapshotsFollow(cfg, moments, events, n - 1);
      SnapshotNext(cfg, moments, events, n - 1);
    }
  }

  /**
   Seen from the registry's side alone: if a sync comes between every removal of a subject and its
   return, and no sync came while a version to be deleted later was there, nothing is undone, and the
   next sync leaves a rebuilt catalog.
   */
  lemma TimelyHistoryEqualsRebuild(cfg: Config, moments: seq<Moment>, events: seq<Event>, subjects: seq<string>,
    calls: string -> Calls, last: Moment)
    requires IsHistory(cfg, moments, events) && EmptyRows(moments[0].catalog)
    requires Forgotten(events) && DeletedInTime(moments, events)
    requires Happens(cfg, moments[|events|], Sync(subjects, calls), last)
    ensures NothingUndone(cfg, moments, events) && IsRebuilt(cfg, last)
  {
    EmptyIsBehind(cfg, moments[0]);
    SnapshotsFollow(cfg, moments, events, |events|);
    HistoryEqualsRebuild(cfg, moments, events, subjects, calls, last);
  }

  // ---------- a second sync ----------

  /** Syncing what a failure-free sync left changes no row and counts nothing, whatever the rows were before. */
  lemma SyncedAgain(cfg: Config, calls: Calls, calls': Calls, versions: Versions, slice: Slice)
    requires IsLive(versions) && FailureFree(cfg, calls, versions) && FailureFree(cfg, calls', versions)
    ensures var synced := SyncedSlice(cfg, calls, slice);
            SyncedSubject(cfg, calls', Work(synced, ZERO)) == Work(synced, ZERO)
  {
    SyncedRows(cfg, calls, versions, slice);
  }

  ghost predicate AddsNothing(cfg: Config, c: Catalog, s: string, calls: string -> Calls)
  {
    SyncedSubject(cfg, calls(s), Work(SliceOf(c, s), ZERO)) == Work(SliceOf(c, s), ZERO)
  }

  lemma {:induction false} NothingCounted(cfg: Config, c: Catalog, subjects: seq<string>, n: nat, calls: string -> Calls)
    requires n <= |subjects| && forall i :: 0 <= i < n ==> AddsNothing(cfg, c, subjects[i], calls)
    ensures TotalTally(cfg, c, subjects, n, calls) == ZERO
  {
    if n > 0 {
      NothingCounted(cfg, c, subjects, n - 1, calls);
      assert AddsNothing(cfg, c, subjects[n - 1], calls);
    }
  }

  /** After the sync of any moment the catalog knows live subjects only. */
  lemma SyncLeavesNoStale(cfg: Config, m: Moment, subjects: seq<string>, calls: string -> Calls, m': Moment)
    requires AllLive(m.registry) && Happens(cfg, m, Sync(subjects, calls), m')
    ensures StaleOf(m'.catalog, m.registry.Keys) == {}
  {
    WithoutStaleMeaning(m.catalog, m.registry.Keys);
    forall s | s in SubjectTable(m'.catalog) ensures s in m.registry {
      SyncedMoment(cfg, m, subjects, calls, m', s);
    }
  }

  /**
   Two syncs of an unchanged registry, from ANY catalog: the second changes no row, artifact or
   metadata, removes nothing and counts nothing.
   */
  lemma SecondSyncAddsNothing(cfg: Config, m: Moment, subjects: seq<string>, calls: string -> Calls, m1: Moment,
    subjects': seq<string>, calls': string -> Calls, m2: Moment)
    requires AllLive(m.registry) && Happens(cfg, m, Sync(subjects, calls), m1) && Happens(cfg, m1, Sync(subjects', calls'), m2)
    ensures forall s :: SliceOf(m2.catalog, s) == SliceOf(m1.catalog, s)
    ensures m2.catalog.artifacts == m1.catalog.artifacts && m2.catalog.metadata == m1.catalog.metadata
    ensures SyncedTally(cfg, m1.catalog, subjects', calls') == ZERO
    ensures RemovalOf(m1.catalog, Elements(subjects')) == NO_REMOVAL
  {
    SyncLeavesNoStale(cfg, m, subjects, calls, m1);
    NothingStale(m1.catalog, m.registry.Keys);
    forall s | s in m.registry ensures AddsNothing(cfg, m1.catalog, s, calls') {
      SyncedMoment(cfg, m, subjects, calls, m1, s);
      SyncedAgain(cfg, calls(s), calls'(s), m.registry[s], SliceOf(m.catalog, s));
    }
    forall i | 0 <= i < |subjects'| ensures AddsNothing(cfg, m1.catalog, subjects'[i], calls') {
      assert subjects'[i] in Elements(subjects');
    }
    NothingCounted(cfg, m1.catalog, subjects', |subjects'|, calls');
    forall s ensures SliceOf(m2.catalog, s) == SliceOf(m1.catalog, s) {
      SyncedMoment(cfg, m1, subjects', calls', m2, s);
      if s in m.registry { assert AddsNothing(cfg, m1.catalog, s, calls'); }
    }
  }
}
