/**
 The incremental catalog sync: stale subjects are deleted, then one task per subject asks for the
 latest version and copies only the versions above the watermark.

 The outcome of every remote and database call is a parameter, so all failure patterns are covered.
 */
module CatalogSync {
  import opened Prelude
  import Json

  // ---------- the tables ----------

  /** One row of `schema_versions`. */
  datatype Row = Row(text: Json.Text, digest: string)

  /**
   The rows of one subject: its `schema_subjects` row, if any, holding a nullable `latest_version`
   (the watermark), and its `schema_versions` rows by version.
   */
  datatype Slice = Slice(subjectRow: Option<Option<int>>, rows: map<int, Row>)

  const NO_SLICE := Slice(None, map[])

  datatype Catalog = Catalog(slices: map<string, Slice>, artifacts: set<(string, int)>, metadata: set<string>)

  function SliceOf(c: Catalog, subject: string): Slice
  {
    if subject in c.slices then c.slices[subject] else NO_SLICE
  }

  function SetSlice(c: Catalog, subject: string, slice: Slice): Catalog
  {
    c.(slices := c.slices[subject := slice])
  }

  /** `c'` is `c` with the rows of one subject replaced. */
  ghost predicate OnlyChanges(c: Catalog, c': Catalog, subject: string, slice: Slice)
  {
    && SliceOf(c', subject) == slice
    && (forall s :: s != subject ==> SliceOf(c', s) == SliceOf(c, s))
    && c'.artifacts == c.artifacts
    && c'.metadata == c.metadata
  }

  // ---------- the calls ----------

  datatype LatestReply = Timeout | RegistryError | Fault | Nothing | Found(version: int)

  datatype FetchReply = Delivered(text: Json.Text) | Empty | FetchFails

  /** Fetching one version: the reply, whether merge and commit succeed, whether a rollback succeeds. */
  datatype VersionCalls = VersionCalls(reply: FetchReply, saves: bool, rollsBack: bool)

  /** Everything one subject's task will see, fixed before it runs. */
  datatype Calls = Calls(
    readOk: bool,
    latest: nat -> LatestReply,
    version: int -> VersionCalls,
    metaSaves: bool,
    metaRollsBack: bool)

  /** `digest` is `_canonicalize_and_hash`. */
  datatype Config = Config(maxRetries: nat, digest: Json.Text -> string)

  // ---------- what one subject's sync comes to ----------

  datatype Tally = Tally(subjectsNew: nat, versionsNew: nat, versionsTotal: nat, errors: nat)

  const ZERO := Tally(0, 0, 0, 0)

  /** The rows of a subject together with the counters its task shares. */
  datatype Work = Work(slice: Slice, tally: Tally)
  {
    function CountSubject(): Work { this.(tally := tally.(subjectsNew := tally.subjectsNew + 1)) }

    function CountVersion(): Work
    {
      this.(tally := tally.(versionsNew := tally.versionsNew + 1, versionsTotal := tally.versionsTotal + 1))
    }

    function CountError(): Work { this.(tally := tally.(errors := tally.errors + 1)) }
  }

  /** The watermark read from the subject row; a missing row and a NULL look alike. */
  function MarkOf(slice: Slice): Option<int>
  {
    if slice.subjectRow.Some? then slice.subjectRow.value else None
  }

  /** Python truthiness: None and 0 are both "no watermark". */
  predicate HasMark(mark: Option<int>)
  {
    mark.Some? && mark.value != 0
  }

  function FirstVersion(mark: Option<int>): int
  {
    if HasMark(mark) then mark.value + 1 else 1
  }

  datatype Answer = Raises | NoAnswer | Latest(version: int)

  function AnswerFrom(latest: nat -> LatestReply, attempt: nat, maxRetries: nat): Answer
    decreases maxRetries - attempt
  {
    if attempt >= maxRetries then NoAnswer
    else
      match latest(attempt)
      case Timeout => AnswerFrom(latest, attempt + 1, maxRetries)
      case RegistryError => NoAnswer
      case Fault => Raises
      case Nothing => NoAnswer
      case Found(v) => Latest(v)
  }

  function RowFor(cfg: Config, t: Json.Text): Row
  {
    Row(t, cfg.digest(t))
  }

  function WithRow(cfg: Config, slice: Slice, version: int, t: Json.Text): Slice
  {
    slice.(rows := slice.rows[version := RowFor(cfg, t)])
  }

  /** One version: the rows afterwards, or None when even the rollback raises. A failed fetch counts as done. */
  function SyncedVersion(cfg: Config, calls: Calls, slice: Slice, version: int): Option<Slice>
  {
    var c := calls.version(version);
    match c.reply
    case Empty => Some(slice)
    case FetchFails => if c.rollsBack then Some(slice) else None
    case Delivered(t) => if c.saves then Some(WithRow(cfg, slice, version, t)) else if c.rollsBack then Some(slice) else None
  }

  /** Writing the watermark, and the counter that follows it. */
  function Marked(calls: Calls, mark: Option<int>, latest: int, w: Work): Work
  {
    if calls.metaSaves || calls.metaRollsBack then
      var w' := if calls.metaSaves then w.(slice := w.slice.(subjectRow := Some(Some(latest)))) else w;
      if HasMark(mark) then w' else w'.CountSubject()
    else w.CountError()
  }

  function FetchedFrom(cfg: Config, calls: Calls, mark: Option<int>, latest: int, next: int, w: Work): Work
    decreases latest - next + 1
  {
    if next > latest then Marked(calls, mark, latest, w)
    else
      match SyncedVersion(cfg, calls, w.slice, next)
      case Some(s) => FetchedFrom(cfg, calls, mark, latest, next + 1, w.(slice := s).CountVersion())
      case None => w.CountError()
  }

  function Answered(cfg: Config, calls: Calls, mark: Option<int>, a: Answer, w: Work): Work
  {
    match a
    case Raises => w.CountError()
    case NoAnswer => w
    case Latest(v) =>
      if HasMark(mark) && v <= mark.value then w
      else FetchedFrom(cfg, calls, mark, v, FirstVersion(mark), w)
  }

  /** `_sync_subject`: the rows and the shared counters after a sync task, from those before it. */
  function SyncedSubject(cfg: Config, calls: Calls, w: Work): Work
  {
    if calls.readOk then
      Answered(cfg, calls, MarkOf(w.slice), AnswerFrom(calls.latest, 0, cfg.maxRetries), w)
    else w.CountError()
  }

  // ---------- the retry loop ----------

  /** The first `n` attempts all time out. */
  ghost predicate AllTimeOut(latest: nat -> LatestReply, n: nat)
  {
    forall k: nat :: k < n ==> latest(k) == Timeout
  }

  lemma {:induction false} AnswerSkipsTimeouts(latest: nat -> LatestReply, n: nat, maxRetries: nat)
    requires n <= maxRetries && AllTimeOut(latest, n)
    ensures AnswerFrom(latest, 0, maxRetries) == AnswerFrom(latest, n, maxRetries)
  {
    if n > 0 { AnswerSkipsTimeouts(latest, n - 1, maxRetries); }
  }

  /** The answer is the first reply that is not a timeout, within the allowed attempts. */
  lemma RetryMeaning(latest: nat -> LatestReply, n: nat, maxRetries: nat)
    requires n <= maxRetries && AllTimeOut(latest, n)
    requires n < maxRetries ==> latest(n) != Timeout
    ensures AnswerFrom(latest, 0, maxRetries)
         == if n == maxRetries then NoAnswer
            else match latest(n) case Found(v) => Latest(v) case Fault => Raises case _ => NoAnswer
  {
    AnswerSkipsTimeouts(latest, n, maxRetries);
  }

  // ---------- what a task comes to, whatever fails ----------

  predicate IsSaved(calls: Calls, version: int)
  {
    calls.version(version).reply.Delivered? && calls.version(version).saves
  }

  /** The version fails and so does the rollback after it. */
  predicate IsStuck(calls: Calls, version: int)
  {
    var c := calls.version(version);
    !c.rollsBack && (c.reply.FetchFails? || (c.reply.Delivered? && !c.saves))
  }

  /** The position after the range of versions to fetch. */
  function RangeEnd(next: int, latest: int): int
  {
    if next > latest then next else latest + 1
  }

  /** The rows of the versions saved among `lo`, `lo + 1`, ... below `hi`. */
  function SavedRows(cfg: Config, calls: Calls, lo: int, hi: int): map<int, Row>
  {
    map v | lo <= v < hi && IsSaved(calls, v) :: RowFor(cfg, calls.version(v).reply.text)
  }

  /** Those versions done: saved rows are in, and every version counts, saved or not. */
  function Fetched(cfg: Config, calls: Calls, lo: int, hi: int, w: Work): Work
    requires lo <= hi
  {
    Work(w.slice.(rows := w.slice.rows + SavedRows(cfg, calls, lo, hi)),
         w.tally.(versionsNew := w.tally.versionsNew + (hi - lo), versionsTotal := w.tally.versionsTotal + (hi - lo)))
  }

  lemma FetchedNext(cfg: Config, calls: Calls, lo: int, hi: int, w: Work)
    requires lo < hi && !IsStuck(calls, lo)
    ensures SyncedVersion(cfg, calls, w.slice, lo).Some?
    ensures var w' := w.(slice := SyncedVersion(cfg, calls, w.slice, lo).value).CountVersion();
            Fetched(cfg, calls, lo + 1, hi, w') == Fetched(cfg, calls, lo, hi, w)
  {
    var rows := SyncedVersion(cfg, calls, w.slice, lo).value.rows;
    assert rows + SavedRows(cfg, calls, lo + 1, hi) == w.slice.rows + SavedRows(cfg, calls, lo, hi);
  }

  /**
   The range is done up to the first stuck version, which ends the sync with an error, or to its end,
   after which the watermark is written whatever became of the versions below it.
   */
  lemma {:induction false} FetchedMeaning(cfg: Config, calls: Calls, mark: Option<int>, latest: int, next: int, stop: int, w: Work)
    requires next <= stop <= RangeEnd(next, latest)
    requires forall v :: next <= v < stop ==> !IsStuck(calls, v)
    requires if stop <= latest then IsStuck(calls, stop) else true
    ensures FetchedFrom(cfg, calls, mark, latest, next, w)
         == if stop <= latest then Fetched(cfg, calls, next, stop, w).CountError()
            else Marked(calls, mark, latest, Fetched(cfg, calls, next, stop, w))
    decreases stop - next
  {
    if next < stop {
      FetchedNext(cfg, calls, next, stop, w);
      FetchedMeaning(cfg, calls, mark, latest, next + 1, stop, w.(slice := SyncedVersion(cfg, calls, w.slice, next).value).CountVersion());
    } else {
      assert w.slice.rows + SavedRows(cfg, calls, next, stop) == w.slice.rows;
    }
  }

  /** The first stuck version of a range, or the position after its end. */
  lemma {:induction false} FirstStuck(calls: Calls, next: int, latest: int) returns (stop: int)
    ensures next <= stop <= RangeEnd(next, latest)
    ensures forall v :: next <= v < stop ==> !IsStuck(calls, v)
    ensures stop <= latest ==> IsStuck(calls, stop)
    decreases latest - next + 1
  {
    if next > latest || IsStuck(calls, next) {
      stop := next;
    } else {
      stop := FirstStuck(calls, next + 1, latest);
    }
  }

  // ---------- a task, from its calls and rows alone ----------

  /** A delivered version that is saved has a row with its text and the text's digest; nothing else changes. */
  ghost predicate VersionTold(cfg: Config, c: VersionCalls, before: Catalog, after: Catalog, subject: string, version: int, raised: bool)
  {
    && (raised <==> !c.rollsBack && (c.reply == FetchFails || (c.reply.Delivered? && !c.saves)))
    && after.artifacts == before.artifacts && after.metadata == before.metadata
    && SliceOf(after, subject).subjectRow == SliceOf(before, subject).subjectRow
    && (forall s :: s != subject ==> SliceOf(after, s) == SliceOf(before, s))
    && (forall v :: v != version ==>
          (v in SliceOf(after, subject).rows <==> v in SliceOf(before, subject).rows)
          && (v in SliceOf(before, subject).rows ==> SliceOf(after, subject).rows[v] == SliceOf(before, subject).rows[v]))
    && (if c.reply.Delivered? && c.saves
        then version in SliceOf(after, subject).rows
             && SliceOf(after, subject).rows[version].text == c.reply.text
             && SliceOf(after, subject).rows[version].digest == cfg.digest(c.reply.text)
        else SliceOf(after, subject).rows == SliceOf(before, subject).rows)
  }

  /** The version lies above the watermark; a missing row, a NULL and a 0 are no watermark. */
  ghost predicate Above(slice: Slice, v: int)
  {
    match slice.subjectRow
    case Some(Some(mark)) => if mark == 0 then v >= 1 else v > mark
    case _ => v >= 1
  }

  /** After timeouts only, and within the allowed attempts, the registry names its latest version. */
  ghost predicate Finds(cfg: Config, calls: Calls, latest: int)
  {
    exists n: nat :: n < cfg.maxRetries && AllTimeOut(calls.latest, n) && calls.latest(n) == Found(latest)
  }

  /** The latest version found is worth a look: there is no watermark, or a lower one. */
  ghost predicate IsNews(slice: Slice, latest: int)
  {
    match slice.subjectRow
    case Some(Some(mark)) => mark == 0 || mark < latest
    case _ => true
  }

  /** The task gets to fetch the version: no version before it is stuck. */
  ghost predicate Reaches(cfg: Config, calls: Calls, slice: Slice, v: int)
  {
    && calls.readOk && Above(slice, v)
    && (exists latest :: Finds(cfg, calls, latest) && v <= latest)
    && forall u :: Above(slice, u) && u < v ==> !IsStuck(calls, u)
  }

  /** The task gets past the last version. */
  ghost predicate Completes(cfg: Config, calls: Calls, slice: Slice, latest: int)
  {
    && calls.readOk && Finds(cfg, calls, latest) && IsNews(slice, latest)
    && forall u :: Above(slice, u) && u <= latest ==> !IsStuck(calls, u)
  }

  /** The version is fetched and saved, so its row holds the delivered text and its digest; any other row is as before. */
  ghost predicate RowTold(cfg: Config, calls: Calls, before: Slice, after: Slice, v: int)
  {
    if Reaches(cfg, calls, before, v) && IsSaved(calls, v)
    then v in after.rows && after.rows[v].text == calls.version(v).reply.text
         && after.rows[v].digest == cfg.digest(calls.version(v).reply.text)
    else (v in after.rows <==> v in before.rows) && (v in before.rows ==> after.rows[v] == before.rows[v])
  }

  /** The watermark is the latest version exactly when the task gets past the last version and saves it. */
  ghost predicate MarkTold(cfg: Config, calls: Calls, before: Slice, after: Slice)
  {
    && (forall latest :: Completes(cfg, calls, before, latest) && calls.metaSaves ==> after.subjectRow == Some(Some(latest)))
    && (!calls.metaSaves || (forall latest :: !Completes(cfg, calls, before, latest)) ==> after.subjectRow == before.subjectRow)
  }

  ghost predicate SliceTold(cfg: Config, calls: Calls, before: Slice, after: Slice)
  {
    (forall v :: RowTold(cfg, calls, before, after, v)) && MarkTold(cfg, calls, before, after)
  }

  lemma {:induction false} FirstReply(latest: nat -> LatestReply, n: nat, maxRetries: nat) returns (k: nat)
    requires n <= maxRetries && AllTimeOut(latest, n)
    ensures n <= k <= maxRetries && AllTimeOut(latest, k) && (k < maxRetries ==> latest(k) != Timeout)
    decreases maxRetries - n
  {
    if n == maxRetries || latest(n) != Timeout {
      k := n;
    } else {
      k := FirstReply(latest, n + 1, maxRetries);
    }
  }

  lemma FindsExactly(cfg: Config, calls: Calls, v: int)
    ensures AnswerFrom(calls.latest, 0, cfg.maxRetries) == Latest(v) <==> Finds(cfg, calls, v)
  {
    if Finds(cfg, calls, v) {
      var n: nat :| n < cfg.maxRetries && AllTimeOut(calls.latest, n) && calls.latest(n) == Found(v);
      RetryMeaning(calls.latest, n, cfg.maxRetries);
    } else {
      var k := FirstReply(calls.latest, 0, cfg.maxRetries);
      RetryMeaning(calls.latest, k, cfg.maxRetries);
    }
  }

  lemma AboveExactly(slice: Slice, v: int)
    ensures Above(slice, v) <==> v >= FirstVersion(MarkOf(slice))
    ensures IsNews(slice, v) <==> !(HasMark(MarkOf(slice)) && v <= MarkOf(slice).value)
  {
  }

  /** Whatever fails, the rows after a task are told by its calls and the rows before it. */
  lemma SyncTold(cfg: Config, calls: Calls, w: Work)
    ensures SliceTold(cfg, calls, w.slice, SyncedSubject(cfg, calls, w).slice)
  {
    var answer := AnswerFrom(calls.latest, 0, cfg.maxRetries);
    forall latest ensures Finds(cfg, calls, latest) <==> answer == Latest(latest) { FindsExactly(cfg, calls, latest); }
    forall v
      ensures Above(w.slice, v) <==> v >= FirstVersion(MarkOf(w.slice))
      ensures IsNews(w.slice, v) <==> !(HasMark(MarkOf(w.slice)) && v <= MarkOf(w.slice).value)
    {
      AboveExactly(w.slice, v);
    }
    if answer.Latest? && calls.readOk && IsNews(w.slice, answer.version) {
      RangeTold(cfg, calls, w, answer.version);
    }
  }

  /** The registry's answer and the watermark, in the words of the task's own functions. */
  ghost predicate IsRange(cfg: Config, calls: Calls, slice: Slice, latest: int)
  {
    && calls.readOk && IsNews(slice, latest)
    && (forall v :: Finds(cfg, calls, v) <==> v == latest)
    && forall v :: Above(slice, v) <==> v >= FirstVersion(MarkOf(slice))
  }

  lemma RangeStops(cfg: Config, calls: Calls, slice: Slice, latest: int) returns (stop: int)
    requires IsRange(cfg, calls, slice, latest)
    ensures var first := FirstVersion(MarkOf(slice));
            && first <= stop <= RangeEnd(first, latest) && (stop <= latest ==> IsStuck(calls, stop))
            && (forall v :: first <= v < stop ==> !IsStuck(calls, v))
            && (forall v :: Reaches(cfg, calls, slice, v) <==> first <= v <= latest && v <= stop)
    ensures forall v :: Completes(cfg, calls, slice, v) <==> v == latest && stop > latest
  {
    var first := FirstVersion(MarkOf(slice));
    stop := FirstStuck(calls, first, latest);
    forall v ensures Reaches(cfg, calls, slice, v) <==> first <= v <= latest && v <= stop {
      if stop < v <= latest {
        assert Above(slice, stop) && IsStuck(calls, stop);
      }
      if first <= v <= latest && v <= stop {
        assert Finds(cfg, calls, latest);
      }
    }
  }

  lemma RangeTold(cfg: Config, calls: Calls, w: Work, latest: int)
    requires IsRange(cfg, calls, w.slice, latest)
    ensures SliceTold(cfg, calls, w.slice, FetchedFrom(cfg, calls, MarkOf(w.slice), latest, FirstVersion(MarkOf(w.slice)), w).slice)
  {
    var first := FirstVersion(MarkOf(w.slice));
    var stop := RangeStops(cfg, calls, w.slice, latest);
    StopSlice(cfg, calls, w, MarkOf(w.slice), latest, first, stop);
    StopTold(cfg, calls, w.slice, FetchedFrom(cfg, calls, MarkOf(w.slice), latest, first, w).slice, latest, first, stop);
  }

  lemma StopSlice(cfg: Config, calls: Calls, w: Work, mark: Option<int>, latest: int, first: int, stop: int)
    requires first <= stop <= RangeEnd(first, latest) && (stop <= latest ==> IsStuck(calls, stop))
    requires forall v :: first <= v < stop ==> !IsStuck(calls, v)
    ensures FetchedFrom(cfg, calls, mark, latest, first, w).slice
         == Slice(if stop > latest && calls.metaSaves then Some(Some(latest)) else w.slice.subjectRow,
                  w.slice.rows + SavedRows(cfg, calls, first, stop))
  {
    FetchedMeaning(cfg, calls, mark, latest, first, stop, w);
  }

  lemma StopTold(cfg: Config, calls: Calls, before: Slice, after: Slice, latest: int, first: int, stop: int)
    requires after == Slice(if stop > latest && calls.metaSaves then Some(Some(latest)) else before.subjectRow,
                            before.rows + SavedRows(cfg, calls, first, stop))
    requires first <= stop <= RangeEnd(first, latest)
    requires (stop <= latest ==> IsStuck(calls, stop)) && forall v :: first <= v < stop ==> !IsStuck(calls, v)
    requires forall v :: Reaches(cfg, calls, before, v) <==> first <= v <= latest && v <= stop
    requires forall v :: Completes(cfg, calls, before, v) <==> v == latest && stop > latest
    ensures SliceTold(cfg, calls, before, after)
  {
    forall v ensures RowTold(cfg, calls, before, after, v) {
      assert Reaches(cfg, calls, before, v) <==> first <= v <= latest && v <= stop;
      SavedRowTold(cfg, calls, before, after, first, stop, v);
    }
  }

  lemma SavedRowTold(cfg: Config, calls: Calls, before: Slice, after: Slice, first: int, stop: int, v: int)
    requires after.rows == before.rows + SavedRows(cfg, calls, first, stop)
    requires Reaches(cfg, calls, before, v) && !IsStuck(calls, v) <==> first <= v < stop
    ensures RowTold(cfg, calls, before, after, v)
  {
  }

  // ---------- the counters of a task, likewise ----------

  /** The versions fetched without getting stuck, saved or not. */
  ghost predicate IsDone(cfg: Config, calls: Calls, slice: Slice, v: int)
  {
    Reaches(cfg, calls, slice, v) && !IsStuck(calls, v)
  }

  ghost predicate AreDone(cfg: Config, calls: Calls, slice: Slice, done: set<int>)
  {
    forall v :: v in done <==> IsDone(cfg, calls, slice, v)
  }

  /** The subject has no watermark. */
  ghost predicate IsFresh(slice: Slice)
  {
    match slice.subjectRow
    case Some(Some(mark)) => mark == 0
    case _ => true
  }

  ghost predicate MeetsFault(cfg: Config, calls: Calls)
  {
    exists n: nat :: n < cfg.maxRetries && AllTimeOut(calls.latest, n) && calls.latest(n) == Fault
  }

  /** The task raises: reading the row, the latest version, a rollback inside the range or after the watermark. */
  ghost predicate Raising(cfg: Config, calls: Calls, slice: Slice)
  {
    || !calls.readOk
    || MeetsFault(cfg, calls)
    || (exists v :: Reaches(cfg, calls, slice, v) && IsStuck(calls, v))
    || (!calls.metaSaves && !calls.metaRollsBack && exists latest :: Completes(cfg, calls, slice, latest))
  }

  /** A new subject is counted once its watermark is dealt with, without a raise. */
  ghost predicate CountsAsNew(cfg: Config, calls: Calls, slice: Slice)
  {
    IsFresh(slice) && (calls.metaSaves || calls.metaRollsBack) && exists latest :: Completes(cfg, calls, slice, latest)
  }

  ghost predicate TallyTold(cfg: Config, calls: Calls, slice: Slice, before: Tally, after: Tally)
  {
    && (forall done :: AreDone(cfg, calls, slice, done) ==>
          after.versionsNew == before.versionsNew + |done| && after.versionsTotal == before.versionsTotal + |done|)
    && after.errors == before.errors + (if Raising(cfg, calls, slice) then 1 else 0)
    && after.subjectsNew == before.subjectsNew + (if CountsAsNew(cfg, calls, slice) then 1 else 0)
  }

  lemma {:induction false} IntervalSize(s: set<int>, lo: int, hi: int)
    requires lo <= hi && forall v :: v in s <==> lo <= v < hi
    ensures |s| == hi - lo
    decreases hi - lo
  {
    if lo == hi {
      EmptyWithoutElements(s);
    } else {
      IntervalSize(s - {hi - 1}, lo, hi - 1);
    }
  }

  /** What a task counts under any failures; in particular it counts one error exactly when it raises. */
  lemma CountersTold(cfg: Config, calls: Calls, w: Work)
    ensures TallyTold(cfg, calls, w.slice, w.tally, SyncedSubject(cfg, calls, w).tally)
  {
    var answer := AnswerFrom(calls.latest, 0, cfg.maxRetries);
    FaultExactly(cfg, calls);
    forall latest ensures Finds(cfg, calls, latest) <==> answer == Latest(latest) { FindsExactly(cfg, calls, latest); }
    forall v
      ensures Above(w.slice, v) <==> v >= FirstVersion(MarkOf(w.slice))
      ensures IsNews(w.slice, v) <==> !(HasMark(MarkOf(w.slice)) && v <= MarkOf(w.slice).value)
    {
      AboveExactly(w.slice, v);
    }
    if answer.Latest? && calls.readOk && IsNews(w.slice, answer.version) {
      RangeCounted(cfg, calls, w, answer.version);
    } else {
      NothingReached(cfg, calls, w.slice);
    }
  }

  lemma FaultExactly(cfg: Config, calls: Calls)
    ensures AnswerFrom(calls.latest, 0, cfg.maxRetries) == Raises <==> MeetsFault(cfg, calls)
  {
    if MeetsFault(cfg, calls) {
      var n: nat :| n < cfg.maxRetries && AllTimeOut(calls.latest, n) && calls.latest(n) == Fault;
      RetryMeaning(calls.latest, n, cfg.maxRetries);
    } else {
      var k := FirstReply(calls.latest, 0, cfg.maxRetries);
      RetryMeaning(calls.latest, k, cfg.maxRetries);
    }
  }

  lemma NothingReached(cfg: Config, calls: Calls, slice: Slice)
    requires !calls.readOk || forall latest :: Finds(cfg, calls, latest) ==> !IsNews(slice, latest)
    ensures forall v :: !Reaches(cfg, calls, slice, v)
    ensures forall v :: !Completes(cfg, calls, slice, v)
    ensures forall done :: AreDone(cfg, calls, slice, done) ==> |done| == 0
  {
    forall done | AreDone(cfg, calls, slice, done) ensures |done| == 0 {
      forall v ensures v !in done { assert !IsDone(cfg, calls, slice, v); }
      EmptyWithoutElements(done);
    }
  }

  lemma RangeCounted(cfg: Config, calls: Calls, w: Work, latest: int)
    requires IsRange(cfg, calls, w.slice, latest) && !MeetsFault(cfg, calls)
    ensures TallyTold(cfg, calls, w.slice, w.tally,
                      FetchedFrom(cfg, calls, MarkOf(w.slice), latest, FirstVersion(MarkOf(w.slice)), w).tally)
  {
    var mark, first := MarkOf(w.slice), FirstVersion(MarkOf(w.slice));
    var stop := RangeStops(cfg, calls, w.slice, latest);
    StopTally(cfg, calls, w, mark, latest, first, stop);
    DoneCounted(cfg, calls, w.slice, latest, first, stop);
    RaisingAt(cfg, calls, w.slice, latest, first, stop);
    assert Completes(cfg, calls, w.slice, latest) <==> stop > latest;
    assert CountsAsNew(cfg, calls, w.slice) <==> stop > latest && (calls.metaSaves || calls.metaRollsBack) && !HasMark(mark);
  }

  lemma StopTally(cfg: Config, calls: Calls, w: Work, mark: Option<int>, latest: int, first: int, stop: int)
    requires first <= stop <= RangeEnd(first, latest) && (stop <= latest ==> IsStuck(calls, stop))
    requires forall v :: first <= v < stop ==> !IsStuck(calls, v)
    ensures var t, ends := FetchedFrom(cfg, calls, mark, latest, first, w).tally, calls.metaSaves || calls.metaRollsBack;
            && t.versionsNew == w.tally.versionsNew + (stop - first)
            && t.versionsTotal == w.tally.versionsTotal + (stop - first)
            && t.errors == w.tally.errors + (if stop <= latest || !ends then 1 else 0)
            && t.subjectsNew == w.tally.subjectsNew + (if stop > latest && ends && !HasMark(mark) then 1 else 0)
  {
    FetchedMeaning(cfg, calls, mark, latest, first, stop, w);
  }

  lemma DoneCounted(cfg: Config, calls: Calls, slice: Slice, latest: int, first: int, stop: int)
    requires first <= stop <= RangeEnd(first, latest)
    requires (stop <= latest ==> IsStuck(calls, stop)) && forall v :: first <= v < stop ==> !IsStuck(calls, v)
    requires forall v :: Reaches(cfg, calls, slice, v) <==> first <= v <= latest && v <= stop
    ensures forall done :: AreDone(cfg, calls, slice, done) ==> |done| == stop - first
  {
    forall done | AreDone(cfg, calls, slice, done) ensures |done| == stop - first {
      forall v ensures v in done <==> first <= v < stop { assert v in done <==> IsDone(cfg, calls, slice, v); }
      IntervalSize(done, first, stop);
    }
  }

  lemma RaisingAt(cfg: Config, calls: Calls, slice: Slice, latest: int, first: int, stop: int)
    requires calls.readOk && !MeetsFault(cfg, calls) && first <= stop <= RangeEnd(first, latest)
    requires (stop <= latest ==> IsStuck(calls, stop)) && forall v :: first <= v < stop ==> !IsStuck(calls, v)
    requires forall v :: Reaches(cfg, calls, slice, v) <==> first <= v <= latest && v <= stop
    requires forall v :: Completes(cfg, calls, slice, v) <==> v == latest && stop > latest
    ensures Raising(cfg, calls, slice) <==> stop <= latest || !(calls.metaSaves || calls.metaRollsBack)
  {
    assert Completes(cfg, calls, slice, latest) <==> stop > latest;
    if stop <= latest { assert Reaches(cfg, calls, slice, stop); }
  }

  // ---------- stale subjects ----------
  // ---------- stale subjects ----------

  function SubjectTable(c: Catalog): set<string>
  {
    set s | s in c.slices && c.slices[s].subjectRow.Some?
  }

  function VersionTable(c: Catalog): set<(string, int)>
  {
    set s, v | s in c.slices && v in c.slices[s].rows :: (s, v)
  }

  /** The subjects the sync knows of; version rows are not consulted. */
  function Existing(c: Catalog): set<string>
  {
    SubjectTable(c) + (set a | a in c.artifacts :: a.0) + c.metadata
  }

  function KeysIn(table: set<(string, int)>, subjects: set<string>): set<(string, int)>
  {
    set k | k in table && k.0 in subjects
  }

  function WithoutSubjects(c: Catalog, gone: set<string>): Catalog
  {
    Catalog(c.slices - gone, c.artifacts - KeysIn(c.artifacts, gone), c.metadata - gone)
  }

  function StaleOf(c: Catalog, live: set<string>): set<string>
  {
    Existing(c) - live
  }

  function WithoutStale(c: Catalog, live: set<string>): Catalog
  {
    WithoutSubjects(c, StaleOf(c, live))
  }

  /** After the removal only live subjects are known, and their rows are untouched. */
  lemma WithoutStaleMeaning(c: Catalog, live: set<string>)
    ensures Existing(WithoutStale(c, live)) == Existing(c) * live
    ensures forall s :: s in live ==> SliceOf(WithoutStale(c, live), s) == SliceOf(c, s)
    ensures forall a :: a in WithoutStale(c, live).artifacts <==> a in c.artifacts && a.0 in live
    ensures forall s :: s in WithoutStale(c, live).metadata <==> s in c.metadata && s in live
  {
  }

  /**
   Version rows of a subject the registry no longer has survive exactly when nothing but version
   rows tells of the subject: the stale set is computed without the version table.
   */
  lemma OrphanRowsSurviveExactly(c: Catalog, live: set<string>, subject: string)
    requires subject !in live
    ensures SliceOf(WithoutStale(c, live), subject).rows != map[]
       <==> SliceOf(c, subject).rows != map[] && subject !in Existing(c)
  {
  }

  datatype Removal = Removal(subjects: set<string>, subjectsRemoved: nat, versionsRemoved: nat, artifactsRemoved: nat,
    metadataRemoved: nat)

  const NO_REMOVAL := Removal({}, 0, 0, 0, 0)

  /** Some table other than the version table tells of the subject. */
  ghost predicate IsKnown(c: Catalog, s: string)
  {
    || (s in c.slices && c.slices[s].subjectRow.Some?)
    || (exists a :: a in c.artifacts && a.0 == s)
    || s in c.metadata
  }

  /** The subjects removed are the known ones that are not live; the counters are the rows that named them. */
  ghost predicate RemovalTold(c: Catalog, live: set<string>, r: Removal)
  {
    && (forall s :: s in r.subjects <==> IsKnown(c, s) && s !in live)
    && r.subjectsRemoved == |r.subjects|
    && r.versionsRemoved == |set s, v | s in c.slices && s in r.subjects && v in c.slices[s].rows :: (s, v)|
    && r.artifactsRemoved == |set a | a in c.artifacts && a.0 in r.subjects|
    && r.metadataRemoved == |set s | s in c.metadata && s in r.subjects|
  }

  lemma RemovalMeaning(c: Catalog, live: set<string>)
    ensures RemovalTold(c, live, RemovalOf(c, live))
  {
    var gone := StaleOf(c, live);
    StaleMeaning(c, live);
    assert KeysIn(VersionTable(c), gone) == set s, v | s in c.slices && s in gone && v in c.slices[s].rows :: (s, v);
    assert KeysIn(c.artifacts, gone) == set a | a in c.artifacts && a.0 in gone;
    assert c.metadata * gone == set s | s in c.metadata && s in gone;
  }

  lemma StaleMeaning(c: Catalog, live: set<string>)
    ensures forall s :: s in StaleOf(c, live) <==> IsKnown(c, s) && s !in live
  {
  }

  /** What deleting the stale subjects takes out of `c`. */
  function RemovalOf(c: Catalog, live: set<string>): Removal
  {
    var gone := StaleOf(c, live);
    Removal(gone, |gone|, |KeysIn(VersionTable(c), gone)|, |KeysIn(c.artifacts, gone)|, |c.metadata * gone|)
  }

  // ---------- the service ----------

  class SyncMetrics {
    var subjectsTotal: nat
    var subjectsNew: nat
    var versionsTotal: nat
    var versionsNew: nat
    var subjectsRemoved: nat
    var versionsRemoved: nat
    var artifactsRemoved: nat
    var metadataRemoved: nat
    var errors: nat
    var removedSubjects: set<string>

    constructor ()
      ensures Counts() == ZERO && Gone() == NO_REMOVAL && subjectsTotal == 0
    {
      subjectsTotal, subjectsNew, versionsTotal, versionsNew := 0, 0, 0, 0;
      subjectsRemoved, versionsRemoved, artifactsRemoved, metadataRemoved := 0, 0, 0, 0;
      errors, removedSubjects := 0, {};
    }

    /** The counters the subject tasks share. */
    ghost function Counts(): Tally
      reads this
    {
      Tally(subjectsNew, versionsNew, versionsTotal, errors)
    }

    /** The counters of the removal step. */
    ghost function Gone(): Removal
      reads this
    {
      Removal(removedSubjects, subjectsRemoved, versionsRemoved, artifactsRemoved, metadataRemoved)
    }
  }

  class CatalogSyncService {
    const cfg: Config
    var catalog: Catalog

    constructor (cfg: Config, catalog: Catalog)
      ensures this.cfg == cfg && this.catalog == catalog
    {
      this.cfg := cfg;
      this.catalog := catalog;
    }

    /** `_get_latest_version_with_retry`. */
    method GetLatestVersionWithRetry(calls: Calls) returns (a: Answer)
      ensures a == AnswerFrom(calls.latest, 0, cfg.maxRetries)
    {
      var attempt := 0;
      while attempt < cfg.maxRetries
        invariant attempt <= cfg.maxRetries
        invariant AnswerFrom(calls.latest, attempt, cfg.maxRetries) == AnswerFrom(calls.latest, 0, cfg.maxRetries)
      {
        match calls.latest(attempt) {
          case Timeout => attempt := attempt + 1;
          case RegistryError => return NoAnswer;
          case Fault => return Raises;
          case Nothing => return NoAnswer;
          case Found(v) => return Latest(v);
        }
      }
      a := NoAnswer;
    }

    /** `_sync_version`: every failure but a failing rollback is swallowed. */
    method SyncVersion(calls: Calls, subject: string, version: int) returns (raised: bool)
      modifies this
      ensures var r := SyncedVersion(cfg, calls, SliceOf(old(catalog), subject), version);
              && raised == r.None?
              && (if r.Some? then OnlyChanges(old(catalog), catalog, subject, r.value) else catalog == old(catalog))
      ensures VersionTold(cfg, calls.version(version), old(catalog), catalog, subject, version, raised)
    {
      var c := calls.version(version);
      if c.reply.Empty? { return false; }
      if c.reply.Delivered? && c.saves {
        catalog := SetSlice(catalog, subject, WithRow(cfg, SliceOf(catalog, subject), version, c.reply.text));
        return false;
      }
      raised := !c.rollsBack;
    }

    /** `_update_subject_meta`: the watermark is written whatever happened to the versions below it. */
    method UpdateSubjectMeta(calls: Calls, subject: string, latest: int) returns (raised: bool)
      modifies this
      ensures raised == (!calls.metaSaves && !calls.metaRollsBack)
      ensures var before := SliceOf(old(catalog), subject);
              if calls.metaSaves
              then OnlyChanges(old(catalog), catalog, subject, before.(subjectRow := Some(Some(latest))))
              else catalog == old(catalog)
    {
      if calls.metaSaves {
        catalog := SetSlice(catalog, subject, SliceOf(catalog, subject).(subjectRow := Some(Some(latest))));
        return false;
      }
      raised := !calls.metaRollsBack;
    }

    ghost function Of(subject: string, metrics: SyncMetrics): Work
      reads this, metrics
    {
      Work(SliceOf(catalog, subject), metrics.Counts())
    }

    /** `_sync_subject`, from inside the semaphore. */
    method SyncSubject(calls: Calls, subject: string, metrics: SyncMetrics)
      modifies this, metrics`subjectsNew, metrics`versionsNew, metrics`versionsTotal, metrics`errors
      ensures Of(subject, metrics) == SyncedSubject(cfg, calls, old(Of(subject, metrics)))
      ensures OnlyChanges(old(catalog), catalog, subject, SliceOf(catalog, subject))
    {
      var raised := !calls.readOk;
      if !raised {
        raised := FetchAndMark(calls, subject, metrics);
      }
      if raised {
        metrics.errors := metrics.errors + 1;
      }
    }

    /** The body of the `try`: everything up to the exception, if there is one. */
    method FetchAndMark(calls: Calls, subject: string, metrics: SyncMetrics) returns (raised: bool)
      requires calls.readOk
      modifies this, metrics`subjectsNew, metrics`versionsNew, metrics`versionsTotal
      ensures var w := Of(subject, metrics);
              (if raised then w.CountError() else w) == SyncedSubject(cfg, calls, old(Of(subject, metrics)))
      ensures OnlyChanges(old(catalog), catalog, subject, SliceOf(catalog, subject))
    {
      var currentLatest := MarkOf(SliceOf(catalog, subject));
      var answer := GetLatestVersionWithRetry(calls);
      if answer.NoAnswer? || answer.Raises? {
        return answer.Raises?;
      }
      var latest := answer.version;
      if HasMark(currentLatest) && latest <= currentLatest.value {
        return false;
      }
      raised := FetchVersions(calls, subject, currentLatest, latest, metrics);
    }

    /** The version range, then the watermark. */
    method FetchVersions(calls: Calls, subject: string, currentLatest: Option<int>, latest: int, metrics: SyncMetrics)
      returns (raised: bool)
      modifies this, metrics`subjectsNew, metrics`versionsNew, metrics`versionsTotal
      ensures var w := Of(subject, metrics);
              (if raised then w.CountError() else w)
              == FetchedFrom(cfg, calls, currentLatest, latest, FirstVersion(currentLatest), old(Of(subject, metrics)))
      ensures OnlyChanges(old(catalog), catalog, subject, SliceOf(catalog, subject))
    {
      var version := FirstVersion(currentLatest);
      ghost var goal := FetchedFrom(cfg, calls, currentLatest, latest, version, Of(subject, metrics));
      while version <= latest
        invariant OnlyChanges(old(catalog), catalog, subject, SliceOf(catalog, subject))
        invariant goal == FetchedFrom(cfg, calls, currentLatest, latest, version, Of(subject, metrics))
      {
        raised := SyncVersion(calls, subject, version);
        if raised { return; }
        metrics.versionsNew := metrics.versionsNew + 1;
        metrics.versionsTotal := metrics.versionsTotal + 1;
        version := version + 1;
      }
      raised := UpdateSubjectMeta(calls, subject, latest);
      if raised { return; }
      if !HasMark(currentLatest) {
        metrics.subjectsNew := metrics.subjectsNew + 1;
      }
    }

    /** The deletion half of `sync_all`. */
    method RemoveStale(live: set<string>, metrics: SyncMetrics)
      requires metrics.Gone() == NO_REMOVAL
      modifies this, metrics
      ensures catalog == WithoutStale(old(catalog), live)
      ensures metrics.Gone() == RemovalOf(old(catalog), live)
      ensures metrics.Counts() == old(metrics.Counts()) && metrics.subjectsTotal == old(metrics.subjectsTotal)
    {
      var stale := StaleOf(catalog, live);
      if stale != {} {
        var versionsRemoved := |KeysIn(VersionTable(catalog), stale)|;
        var artifactsRemoved := |KeysIn(catalog.artifacts, stale)|;
        var metadataRemoved := |catalog.metadata * stale|;
        catalog := WithoutSubjects(catalog, stale);
        metrics.subjectsRemoved := metrics.subjectsRemoved + |stale|;
        metrics.versionsRemoved := metrics.versionsRemoved + versionsRemoved;
        metrics.artifactsRemoved := metrics.artifactsRemoved + artifactsRemoved;
        metrics.metadataRemoved := metrics.metadataRemoved + metadataRemoved;
        metrics.removedSubjects := metrics.removedSubjects + stale;
      } else {
        NothingStale(catalog, live);
      }
    }

    /** `sync_all`, with its subject tasks run one after another; None is a failed listing. */
    method SyncAll(listing: Option<seq<string>>, calls: string -> Calls) returns (metrics: SyncMetrics)
      requires listing.Some? ==> NoRepeats(listing.value)
      modifies this
      ensures fresh(metrics)
      ensures listing.None? ==> catalog == old(catalog) && metrics.Counts() == ZERO.(errors := 1) && metrics.Gone() == NO_REMOVAL
      ensures listing.Some? ==> SyncedCatalog(cfg, old(catalog), listing.value, calls, catalog)
      ensures listing.Some? ==> SubjectsTold(cfg, old(catalog), listing.value, calls, catalog)
      ensures listing.Some? ==> metrics.Counts() == SyncedTally(cfg, old(catalog), listing.value, calls)
      ensures listing.Some? ==> metrics.Gone() == RemovalOf(old(catalog), Elements(listing.value))
      ensures listing.Some? ==> RemovalTold(old(catalog), Elements(listing.value), metrics.Gone())
      ensures metrics.subjectsTotal == if listing.Some? then |listing.value| else 0
    {
      metrics := new SyncMetrics();
      match listing {
        case None => metrics.errors := metrics.errors + 1;
        case Some(subjects) => SyncListed(subjects, calls, metrics);
      }
    }

    method SyncListed(subjects: seq<string>, calls: string -> Calls, metrics: SyncMetrics)
      requires NoRepeats(subjects)
      requires metrics.Counts() == ZERO && metrics.Gone() == NO_REMOVAL
      modifies this, metrics
      ensures SyncedCatalog(cfg, old(catalog), subjects, calls, catalog)
      ensures SubjectsTold(cfg, old(catalog), subjects, calls, catalog)
      ensures metrics.Counts() == SyncedTally(cfg, old(catalog), subjects, calls)
      ensures metrics.Gone() == RemovalOf(old(catalog), Elements(subjects)) && metrics.subjectsTotal == |subjects|
      ensures RemovalTold(old(catalog), Elements(subjects), metrics.Gone())
    {
      RemovalMeaning(catalog, Elements(subjects));
      metrics.subjectsTotal := |subjects|;
      RemoveStale(Elements(subjects), metrics);
      SyncSubjects(subjects, calls, metrics);
      CatalogTold(cfg, old(catalog), subjects, calls, catalog);
    }

    /** The gathered tasks, one after another. */
    method SyncSubjects(subjects: seq<string>, calls: string -> Calls, metrics: SyncMetrics)
      requires NoRepeats(subjects) && metrics.Counts() == ZERO
      modifies this, metrics`subjectsNew, metrics`versionsNew, metrics`versionsTotal, metrics`errors
      ensures SyncedOn(cfg, old(catalog), Elements(subjects), calls, catalog)
      ensures metrics.Counts() == TotalTally(cfg, old(catalog), subjects, |subjects|, calls)
      ensures metrics.Gone() == old(metrics.Gone())
    {
      var n := 0;
      while n < |subjects|
        invariant n <= |subjects|
        invariant SyncedFirst(cfg, old(catalog), subjects, n, calls, catalog, metrics.Counts())
        invariant metrics.Gone() == old(metrics.Gone())
      {
        ghost var before := catalog;
        ghost var counts := metrics.Counts();
        SyncSubject(calls(subjects[n]), subjects[n], metrics);
        SyncedNext(cfg, old(catalog), subjects, n, calls, before, counts, catalog, metrics.Counts());
        n := n + 1;
      }
      assert subjects[..n] == subjects;
    }
  }

  /** The first `n` subjects are synced and counted. */
  ghost predicate SyncedFirst(cfg: Config, c: Catalog, subjects: seq<string>, n: nat, calls: string -> Calls, c': Catalog, counts: Tally)
    requires n <= |subjects|
  {
    SyncedOn(cfg, c, Elements(subjects[..n]), calls, c') && counts == TotalTally(cfg, c, subjects, n, calls)
  }

  lemma SyncedNext(cfg: Config, c: Catalog, subjects: seq<string>, n: nat, calls: string -> Calls, before: Catalog, counts: Tally,
    after: Catalog, counts': Tally)
    requires n < |subjects| && NoRepeats(subjects) && SyncedFirst(cfg, c, subjects, n, calls, before, counts)
    requires OnlyChanges(before, after, subjects[n], SliceOf(after, subjects[n]))
    requires Work(SliceOf(after, subjects[n]), counts')
          == SyncedSubject(cfg, calls(subjects[n]), Work(SliceOf(before, subjects[n]), counts))
    ensures SyncedFirst(cfg, c, subjects, n + 1, calls, after, counts')
  {
    ElementsNext(subjects, n);
    SyncedStep(cfg, c, Elements(subjects[..n]), subjects[n], calls, before, after, counts);
  }

  lemma ElementsNext(subjects: seq<string>, n: nat)
    requires n < |subjects| && NoRepeats(subjects)
    ensures subjects[n] !in Elements(subjects[..n])
    ensures Elements(subjects[..n + 1]) == Elements(subjects[..n]) + {subjects[n]}
  {
    assert subjects[..n + 1] == subjects[..n] + [subjects[n]];
  }

  lemma NothingStale(c: Catalog, live: set<string>)
    requires StaleOf(c, live) == {}
    ensures WithoutStale(c, live) == c
    ensures KeysIn(VersionTable(c), {}) == {} && KeysIn(c.artifacts, {}) == {} && c.metadata * {} == {}
  {
  }

  // ---------- all subjects ----------

  predicate NoRepeats(subjects: seq<string>)
  {
    forall i, j :: 0 <= i < j < |subjects| ==> subjects[i] != subjects[j]
  }

  function Elements(subjects: seq<string>): set<string>
  {
    set s | s in subjects
  }

  /** The shared counters after the first `n` tasks. */
  function TotalTally(cfg: Config, c: Catalog, subjects: seq<string>, n: nat, calls: string -> Calls): Tally
    requires n <= |subjects|
  {
    if n == 0 then ZERO
    else
      var s := subjects[n - 1];
      SyncedSubject(cfg, calls(s), Work(SliceOf(c, s), TotalTally(cfg, c, subjects, n - 1, calls))).tally
  }

  /** The rows a subject's task leaves, whatever the counters. */
  function SyncedSlice(cfg: Config, calls: Calls, slice: Slice): Slice
  {
    SyncedSubject(cfg, calls, Work(slice, ZERO)).slice
  }

  /** The subjects in `done` are synced, each on its own rows; everything else is as in `c`. */
  ghost predicate SyncedOn(cfg: Config, c: Catalog, done: set<string>, calls: string -> Calls, c': Catalog)
  {
    && (forall s :: s in done ==> SliceOf(c', s) == SyncedSlice(cfg, calls(s), SliceOf(c, s)))
    && (forall s :: s !in done ==> SliceOf(c', s) == SliceOf(c, s))
    && c'.artifacts == c.artifacts
    && c'.metadata == c.metadata
  }

  lemma SyncedStep(cfg: Config, c: Catalog, done: set<string>, s: string, calls: string -> Calls, c': Catalog, c'': Catalog,
    counts: Tally)
    requires s !in done && SyncedOn(cfg, c, done, calls, c')
    requires OnlyChanges(c', c'', s, SyncedSubject(cfg, calls(s), Work(SliceOf(c', s), counts)).slice)
    ensures SliceOf(c', s) == SliceOf(c, s)
    ensures SyncedOn(cfg, c, done + {s}, calls, c'')
  {
    RowsIgnoreCounters(cfg, calls(s), SliceOf(c, s), counts);
  }

  // ---------- the counters never influence the rows, and only add up ----------

  function Plus(a: Tally, b: Tally): Tally
  {
    Tally(a.subjectsNew + b.subjectsNew, a.versionsNew + b.versionsNew, a.versionsTotal + b.versionsTotal, a.errors + b.errors)
  }

  function Shift(t: Tally, w: Work): Work
  {
    w.(tally := Plus(t, w.tally))
  }

  lemma ShiftZero(t: Tally, slice: Slice)
    ensures Shift(t, Work(slice, ZERO)) == Work(slice, t)
  {
  }

  lemma {:induction false} FetchedShifts(cfg: Config, calls: Calls, mark: Option<int>, latest: int, next: int, t: Tally, w: Work)
    ensures FetchedFrom(cfg, calls, mark, latest, next, Shift(t, w)) == Shift(t, FetchedFrom(cfg, calls, mark, latest, next, w))
    decreases latest - next + 1
  {
    if next <= latest {
      match SyncedVersion(cfg, calls, w.slice, next) {
        case Some(s) =>
          var w' := w.(slice := s).CountVersion();
          assert Shift(t, w') == Shift(t, w).(slice := s).CountVersion();
          FetchedShifts(cfg, calls, mark, latest, next + 1, t, w');
        case None =>
      }
    }
  }

  lemma SubjectShifts(cfg: Config, calls: Calls, t: Tally, w: Work)
    ensures SyncedSubject(cfg, calls, Shift(t, w)) == Shift(t, SyncedSubject(cfg, calls, w))
  {
    var mark := MarkOf(w.slice);
    match AnswerFrom(calls.latest, 0, cfg.maxRetries) {
      case Latest(v) => FetchedShifts(cfg, calls, mark, v, FirstVersion(mark), t, w);
      case _ =>
    }
  }

  lemma RowsIgnoreCounters(cfg: Config, calls: Calls, slice: Slice, t: Tally)
    ensures SyncedSubject(cfg, calls, Work(slice, t)).slice == SyncedSlice(cfg, calls, slice)
  {
    SubjectShifts(cfg, calls, t, Work(slice, ZERO));
    ShiftZero(t, slice);
  }

  /** What `sync_all` leaves behind: stale subjects gone, every listed subject synced on its own rows. */
  ghost predicate SyncedCatalog(cfg: Config, c: Catalog, subjects: seq<string>, calls: string -> Calls, c': Catalog)
  {
    SyncedOn(cfg, WithoutStale(c, Elements(subjects)), Elements(subjects), calls, c')
  }

  /** Every listed subject's rows are told by its calls and its own rows before; a known subject not listed has none left. */
  ghost predicate SubjectsTold(cfg: Config, c: Catalog, subjects: seq<string>, calls: string -> Calls, c': Catalog)
  {
    && (forall s :: s in subjects ==> SliceTold(cfg, calls(s), SliceOf(c, s), SliceOf(c', s)))
    && (forall s :: s !in subjects ==> SliceOf(c', s) == if IsKnown(c, s) then NO_SLICE else SliceOf(c, s))
    && (forall a :: a in c'.artifacts <==> a in c.artifacts && a.0 in subjects)
    && (forall s :: s in c'.metadata <==> s in c.metadata && s in subjects)
  }

  lemma CatalogTold(cfg: Config, c: Catalog, subjects: seq<string>, calls: string -> Calls, c': Catalog)
    requires SyncedCatalog(cfg, c, subjects, calls, c')
    ensures SubjectsTold(cfg, c, subjects, calls, c')
  {
    var live := Elements(subjects);
    WithoutStaleMeaning(c, live);
    StaleMeaning(c, live);
    forall s | s in subjects ensures SliceTold(cfg, calls(s), SliceOf(c, s), SliceOf(c', s)) {
      assert s in live;
      SyncTold(cfg, calls(s), Work(SliceOf(c, s), ZERO));
    }
    forall s | s !in subjects ensures SliceOf(c', s) == if IsKnown(c, s) then NO_SLICE else SliceOf(c, s) {
      assert s !in live;
    }
  }

  /** What the sync of the listed subjects adds to the shared counters. */
  function SyncedTally(cfg: Config, c: Catalog, subjects: seq<string>, calls: string -> Calls): Tally
  {
    TotalTally(cfg, WithoutStale(c, Elements(subjects)), subjects, |subjects|, calls)
  }
}
