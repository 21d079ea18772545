/**
 The gathered sync tasks as they really run: each task moves from one await point to the next, any
 task that may move moves, and a semaphore limits how many are past their first one.
 */
module SyncConcurrency {
  import opened Prelude
  import Json
  import opened CatalogSync

  /** Where a task is suspended. */
  datatype Phase =
    | Waiting
    | Reading
    | Asking(mark: Option<int>, attempt: nat)
    | Fetching(mark: Option<int>, latest: int, next: int)
    | Saving(mark: Option<int>, latest: int, next: int, text: Json.Text)
    | Marking(mark: Option<int>, latest: int)
    | Finished

  datatype Moved = Moved(phase: Phase, work: Work)

  function AtVersion(mark: Option<int>, latest: int, next: int): Phase
  {
    if next <= latest then Fetching(mark, latest, next) else Marking(mark, latest)
  }

  /** The rollback after a failed fetch or save. */
  function RolledBack(calls: Calls, mark: Option<int>, latest: int, next: int, w: Work): Moved
  {
    if calls.version(next).rollsBack then Moved(AtVersion(mark, latest, next + 1), w.CountVersion())
    else Moved(Finished, w.CountError())
  }

  function Replied(calls: Calls, mark: Option<int>, attempt: nat, w: Work): Moved
  {
    match calls.latest(attempt)
    case Timeout => Moved(Asking(mark, attempt + 1), w)
    case RegistryError => Moved(Finished, w)
    case Fault => Moved(Finished, w.CountError())
    case Nothing => Moved(Finished, w)
    case Found(v) =>
      if HasMark(mark) && v <= mark.value then Moved(Finished, w) else Moved(AtVersion(mark, v, FirstVersion(mark)), w)
  }

  /** One task runs to its next await point. It sees its own subject's rows and the shared counters. */
  function Move(cfg: Config, calls: Calls, p: Phase, w: Work): Moved
  {
    match p
    case Waiting => Moved(Reading, w)
    case Reading => if calls.readOk then Moved(Asking(MarkOf(w.slice), 0), w) else Moved(Finished, w.CountError())
    case Asking(mark, attempt) =>
      if attempt >= cfg.maxRetries then Moved(Finished, w) else Replied(calls, mark, attempt, w)
    case Fetching(mark, latest, next) =>
      (match calls.version(next).reply
       case Empty => Moved(AtVersion(mark, latest, next + 1), w.CountVersion())
       case FetchFails => RolledBack(calls, mark, latest, next, w)
       case Delivered(t) => Moved(Saving(mark, latest, next, t), w))
    case Saving(mark, latest, next, t) =>
      if calls.version(next).saves
      then Moved(AtVersion(mark, latest, next + 1), w.(slice := WithRow(cfg, w.slice, next, t)).CountVersion())
      else RolledBack(calls, mark, latest, next, w)
    case Marking(mark, latest) => Moved(Finished, Marked(calls, mark, latest, w))
    case Finished => Moved(Finished, w)
  }

  /** A version phase lies inside its range. */
  predicate InRange(p: Phase)
  {
    (p.Fetching? || p.Saving?) ==> p.next <= p.latest
  }

  // ---------- what is left to do from a phase ----------

  function Rest(cfg: Config, calls: Calls, p: Phase, w: Work): Work
  {
    match p
    case Waiting => SyncedSubject(cfg, calls, w)
    case Reading => SyncedSubject(cfg, calls, w)
    case Asking(mark, attempt) => Answered(cfg, calls, mark, AnswerFrom(calls.latest, attempt, cfg.maxRetries), w)
    case Fetching(mark, latest, next) => FetchedFrom(cfg, calls, mark, latest, next, w)
    case Saving(mark, latest, next, t) =>
      if calls.version(next).saves
      then FetchedFrom(cfg, calls, mark, latest, next + 1, w.(slice := WithRow(cfg, w.slice, next, t)).CountVersion())
      else if calls.version(next).rollsBack then FetchedFrom(cfg, calls, mark, latest, next + 1, w.CountVersion())
      else w.CountError()
    case Marking(mark, latest) => Marked(calls, mark, latest, w)
    case Finished => w
  }

  lemma AtVersionRest(cfg: Config, calls: Calls, mark: Option<int>, latest: int, next: int, w: Work)
    ensures Rest(cfg, calls, AtVersion(mark, latest, next), w) == FetchedFrom(cfg, calls, mark, latest, next, w)
  {
  }

  /** The small steps compute what the method-level specification says. */
  lemma MoveKeepsRest(cfg: Config, calls: Calls, p: Phase, w: Work)
    requires InRange(p)
    ensures var m := Move(cfg, calls, p, w);
            InRange(m.phase) && Rest(cfg, calls, m.phase, m.work) == Rest(cfg, calls, p, w)
  {
    match p {
      case Fetching(mark, latest, next) => AtVersionRest(cfg, calls, mark, latest, next + 1, w.CountVersion());
      case Saving(mark, latest, next, t) =>
        AtVersionRest(cfg, calls, mark, latest, next + 1, w.CountVersion());
        AtVersionRest(cfg, calls, mark, latest, next + 1, w.(slice := WithRow(cfg, w.slice, next, t)).CountVersion());
      case Asking(mark, attempt) =>
        if attempt < cfg.maxRetries && calls.latest(attempt).Found? {
          AtVersionRest(cfg, calls, mark, calls.latest(attempt).version, FirstVersion(mark), w);
        }
      case _ =>
    }
  }

  lemma MoveShifts(cfg: Config, calls: Calls, p: Phase, t: Tally, w: Work)
    ensures Move(cfg, calls, p, Shift(t, w)).phase == Move(cfg, calls, p, w).phase
    ensures Move(cfg, calls, p, Shift(t, w)).work == Shift(t, Move(cfg, calls, p, w).work)
  {
  }

  lemma RestShifts(cfg: Config, calls: Calls, p: Phase, t: Tally, w: Work)
    ensures Rest(cfg, calls, p, Shift(t, w)) == Shift(t, Rest(cfg, calls, p, w))
  {
    match p {
      case Waiting => SubjectShifts(cfg, calls, t, w);
      case Reading => SubjectShifts(cfg, calls, t, w);
      case Asking(mark, attempt) =>
        match AnswerFrom(calls.latest, attempt, cfg.maxRetries) {
          case Latest(v) => FetchedShifts(cfg, calls, mark, v, FirstVersion(mark), t, w);
          case _ =>
        }
      case Fetching(mark, latest, next) => FetchedShifts(cfg, calls, mark, latest, next, t, w);
      case Saving(mark, latest, next, text) =>
        var saved := w.(slice := WithRow(cfg, w.slice, next, text)).CountVersion();
        assert Shift(t, saved) == Shift(t, w).(slice := WithRow(cfg, w.slice, next, text)).CountVersion();
        FetchedShifts(cfg, calls, mark, latest, next + 1, t, saved);
        FetchedShifts(cfg, calls, mark, latest, next + 1, t, w.CountVersion());
        assert Shift(t, w.CountVersion()) == Shift(t, w).CountVersion();
      case _ =>
    }
  }

  // ---------- how many moves a task makes ----------

  function Stage(p: Phase): nat
  {
    match p
    case Waiting => 5
    case Reading => 4
    case Asking(_, _) => 3
    case Fetching(_, _, _) => 2
    case Saving(_, _, _, _) => 2
    case Marking(_, _) => 1
    case Finished => 0
  }

  function Within(cfg: Config, p: Phase): nat
  {
    match p
    case Asking(_, attempt) => if attempt < cfg.maxRetries then cfg.maxRetries - attempt else 0
    case Fetching(_, latest, next) => if next <= latest then 2 * (latest - next) + 1 else 0
    case Saving(_, latest, next, _) => if next <= latest then 2 * (latest - next) else 0
    case _ => 0
  }

  /** The number of moves from here to the end, which only the task's own calls and rows decide. */
  function MovesLeft(cfg: Config, calls: Calls, p: Phase, slice: Slice): nat
    requires InRange(p)
    decreases Stage(p), Within(cfg, p)
  {
    if p.Finished? then 0
    else
      var m := Move(cfg, calls, p, Work(slice, ZERO));
      1 + MovesLeft(cfg, calls, m.phase, m.work.slice)
  }

  // ---------- all tasks together ----------

  datatype Job = Job(cfg: Config, subjects: seq<string>, calls: string -> Calls, maxConcurrent: nat)

  datatype State = State(catalog: Catalog, phases: seq<Phase>, tally: Tally)

  predicate Fits(job: Job, st: State)
  {
    |st.phases| == |job.subjects| && NoRepeats(job.subjects) && forall i :: 0 <= i < |st.phases| ==> InRange(st.phases[i])
  }

  function Start(job: Job, c: Catalog): State
  {
    State(c, seq(|job.subjects|, _ => Waiting), ZERO)
  }

  predicate Holding(p: Phase)
  {
    !p.Waiting? && !p.Finished?
  }

  /** The number of tasks inside the semaphore, among the first `n`. */
  function Inside(phases: seq<Phase>, n: nat): nat
    requires n <= |phases|
  {
    if n == 0 then 0 else Inside(phases, n - 1) + if Holding(phases[n - 1]) then 1 else 0
  }

  predicate Enabled(job: Job, st: State, i: nat)
  {
    && i < |st.phases|
    && !st.phases[i].Finished?
    && (st.phases[i].Waiting? ==> Inside(st.phases, |st.phases|) < job.maxConcurrent)
  }

  function TaskWork(job: Job, st: State, i: nat): Work
    requires Fits(job, st) && i < |st.phases|
  {
    Work(SliceOf(st.catalog, job.subjects[i]), st.tally)
  }

  function Step(job: Job, st: State, i: nat): (r: State)
    requires Fits(job, st) && i < |st.phases|
    ensures Fits(job, r)
  {
    var s := job.subjects[i];
    var w := TaskWork(job, st, i);
    MoveKeepsRest(job.cfg, job.calls(s), st.phases[i], w);
    var m := Move(job.cfg, job.calls(s), st.phases[i], w);
    State(SetSlice(st.catalog, s, m.work.slice), st.phases[i := m.phase], m.work.tally)
  }

  /** `to` is reached from `from` by letting the scheduled tasks move in turn, each when it may. */
  ghost predicate Runs(job: Job, from: State, schedule: seq<nat>, to: State)
    requires Fits(job, from)
    decreases |schedule|
  {
    if schedule == [] then from == to
    else Enabled(job, from, schedule[0]) && Runs(job, Step(job, from, schedule[0]), schedule[1..], to)
  }

  predicate Complete(st: State)
  {
    forall i :: 0 <= i < |st.phases| ==> st.phases[i].Finished?
  }

  // ---------- sums ----------

  datatype Counter = SubjectsNew | VersionsNew | VersionsTotal | Errors

  function Part(t: Tally, k: Counter): nat
  {
    match k
    case SubjectsNew => t.subjectsNew
    case VersionsNew => t.versionsNew
    case VersionsTotal => t.versionsTotal
    case Errors => t.errors
  }

  lemma SameParts(t: Tally, u: Tally)
    requires forall k :: Part(t, k) == Part(u, k)
    ensures t == u
  {
    assert Part(t, SubjectsNew) == Part(u, SubjectsNew) && Part(t, VersionsNew) == Part(u, VersionsNew);
    assert Part(t, VersionsTotal) == Part(u, VersionsTotal) && Part(t, Errors) == Part(u, Errors);
  }

  function Sum(ms: seq<nat>): nat
  {
    if ms == [] then 0 else Sum(ms[..|ms| - 1]) + ms[|ms| - 1]
  }

  lemma WholePrefix(ms: seq<nat>)
    ensures ms[..|ms|] == ms
  {
  }

  lemma {:induction false} SumChange(ms: seq<nat>, ns: seq<nat>, i: nat, d: nat)
    requires |ms| == |ns| && i < |ms| && ms[i] == d + ns[i]
    requires forall j :: 0 <= j < |ms| && j != i ==> ms[j] == ns[j]
    ensures Sum(ms) == d + Sum(ns)
  {
    var n := |ms| - 1;
    if i < n {
      SumChange(ms[..n], ns[..n], i, d);
    } else {
      assert ms[..n] == ns[..n];
    }
  }

  lemma {:induction false} SumZero(ms: seq<nat>)
    requires forall j :: 0 <= j < |ms| ==> ms[j] == 0
    ensures Sum(ms) == 0
  {
    if ms != [] { SumZero(ms[..|ms| - 1]); }
  }

  // ---------- what every step keeps ----------

  function RestOf(job: Job, st: State, i: nat): Work
    requires Fits(job, st) && i < |st.phases|
  {
    var s := job.subjects[i];
    Rest(job.cfg, job.calls(s), st.phases[i], Work(SliceOf(st.catalog, s), ZERO))
  }

  /** What each task will still add to one of the counters. */
  function ToCome(job: Job, st: State, k: Counter): seq<nat>
    requires Fits(job, st)
  {
    seq(|st.phases|, i requires 0 <= i < |st.phases| => Part(RestOf(job, st, i).tally, k))
  }

  /** A counter as it will be when every task has finished. */
  function Goal(job: Job, st: State, k: Counter): nat
    requires Fits(job, st)
  {
    Part(st.tally, k) + Sum(ToCome(job, st, k))
  }

  function MovesOf(job: Job, st: State, i: nat): nat
    requires Fits(job, st) && i < |st.phases|
  {
    var s := job.subjects[i];
    MovesLeft(job.cfg, job.calls(s), st.phases[i], SliceOf(st.catalog, s))
  }

  function Moves(job: Job, st: State): seq<nat>
    requires Fits(job, st)
  {
    seq(|st.phases|, i requires 0 <= i < |st.phases| => MovesOf(job, st, i))
  }

  /** The whole effect still to come: every listed subject's final rows and the final counters. */
  ghost predicate SameGoal(job: Job, st: State, st': State)
    requires Fits(job, st) && Fits(job, st')
  {
    && (forall i :: 0 <= i < |st.phases| ==> RestOf(job, st', i).slice == RestOf(job, st, i).slice)
    && (forall s :: s !in job.subjects ==> SliceOf(st'.catalog, s) == SliceOf(st.catalog, s))
    && st'.catalog.artifacts == st.catalog.artifacts
    && st'.catalog.metadata == st.catalog.metadata
    && (forall k :: Goal(job, st', k) == Goal(job, st, k))
  }

  /** Only task `i` and its own rows differ. */
  ghost predicate OnlyTask(job: Job, st: State, st': State, i: nat)
    requires Fits(job, st) && Fits(job, st')
  {
    forall j :: 0 <= j < |st.phases| && j != i
      ==> st'.phases[j] == st.phases[j] && SliceOf(st'.catalog, job.subjects[j]) == SliceOf(st.catalog, job.subjects[j])
  }

  /** One move: the task's own counters and rows, seen with and without the shared counters. */
  lemma MoveSplits(cfg: Config, calls: Calls, p: Phase, slice: Slice, t: Tally) returns (d: Tally)
    requires InRange(p)
    ensures var m := Move(cfg, calls, p, Work(slice, ZERO));
            && Move(cfg, calls, p, Work(slice, t)) == Moved(m.phase, Work(m.work.slice, Plus(t, d)))
            && InRange(m.phase)
            && Rest(cfg, calls, p, Work(slice, ZERO)) == Shift(d, Rest(cfg, calls, m.phase, Work(m.work.slice, ZERO)))
  {
    var own := Work(slice, ZERO);
    var m := Move(cfg, calls, p, own);
    d := m.work.tally;
    ShiftZero(t, slice);
    MoveShifts(cfg, calls, p, t, own);
    MoveKeepsRest(cfg, calls, p, own);
    var next := Work(m.work.slice, ZERO);
    ShiftZero(d, m.work.slice);
    RestShifts(cfg, calls, m.phase, d, next);
  }

  lemma StepDiffers(job: Job, st: State, i: nat)
    requires Fits(job, st) && i < |st.phases|
    ensures OnlyTask(job, st, Step(job, st, i), i)
    ensures forall s :: s != job.subjects[i] ==> SliceOf(Step(job, st, i).catalog, s) == SliceOf(st.catalog, s)
  {
  }

  lemma TaskStep(job: Job, st: State, i: nat) returns (d: Tally)
    requires Fits(job, st) && i < |st.phases|
    ensures var st' := Step(job, st, i);
            && st'.tally == Plus(st.tally, d)
            && RestOf(job, st, i) == Shift(d, RestOf(job, st', i))
            && (!st.phases[i].Finished? ==> MovesOf(job, st, i) == 1 + MovesOf(job, st', i))
  {
    var s := job.subjects[i];
    d := MoveSplits(job.cfg, job.calls(s), st.phases[i], SliceOf(st.catalog, s), st.tally);
  }

  lemma GoalKept(job: Job, st: State, st': State, i: nat, d: Tally, k: Counter)
    requires Fits(job, st) && Fits(job, st') && i < |st.phases|
    requires forall j :: 0 <= j < |st.phases| && j != i ==> RestOf(job, st', j) == RestOf(job, st, j)
    requires st'.tally == Plus(st.tally, d) && RestOf(job, st, i) == Shift(d, RestOf(job, st', i))
    ensures Goal(job, st', k) == Goal(job, st, k)
  {
    SumChange(ToCome(job, st, k), ToCome(job, st', k), i, Part(d, k));
  }

  lemma StepKeepsGoal(job: Job, st: State, i: nat)
    requires Fits(job, st) && i < |st.phases|
    ensures SameGoal(job, st, Step(job, st, i))
    ensures !st.phases[i].Finished? ==> Sum(Moves(job, st)) == 1 + Sum(Moves(job, Step(job, st, i)))
  {
    var st' := Step(job, st, i);
    var d := TaskStep(job, st, i);
    StepDiffers(job, st, i);
    assert forall j :: 0 <= j < |st.phases| && j != i ==> RestOf(job, st', j) == RestOf(job, st, j);
    forall k ensures Goal(job, st', k) == Goal(job, st, k) {
      GoalKept(job, st, st', i, d, k);
    }
    if !st.phases[i].Finished? {
      SumChange(Moves(job, st), Moves(job, st'), i, 1);
    }
  }

  lemma SameGoalTransitive(job: Job, a: State, b: State, c: State)
    requires Fits(job, a) && Fits(job, b) && Fits(job, c) && SameGoal(job, a, b) && SameGoal(job, b, c)
    ensures SameGoal(job, a, c)
  {
  }

  lemma {:induction false} RunKeeps(job: Job, from: State, schedule: seq<nat>, to: State)
    requires Fits(job, from) && Runs(job, from, schedule, to)
    ensures Fits(job, to) && SameGoal(job, from, to)
    ensures Sum(Moves(job, from)) == |schedule| + Sum(Moves(job, to))
    decreases |schedule|
  {
    if schedule != [] {
      var next := Step(job, from, schedule[0]);
      StepKeepsGoal(job, from, schedule[0]);
      RunKeeps(job, next, schedule[1..], to);
      SameGoalTransitive(job, from, next, to);
    }
  }

  // ---------- confluence ----------

  lemma CompleteRests(job: Job, st: State)
    requires Fits(job, st) && Complete(st)
    ensures Sum(Moves(job, st)) == 0
    ensures forall k :: Goal(job, st, k) == Part(st.tally, k)
  {
    SumZero(Moves(job, st));
    forall k ensures Goal(job, st, k) == Part(st.tally, k) {
      SumZero(ToCome(job, st, k));
    }
  }

  lemma {:induction false} StartGoal(job: Job, c: Catalog, n: nat, k: Counter)
    requires NoRepeats(job.subjects) && n <= |job.subjects|
    ensures Sum(ToCome(job, Start(job, c), k)[..n]) == Part(TotalTally(job.cfg, c, job.subjects, n, job.calls), k)
  {
    if n > 0 {
      StartGoal(job, c, n - 1, k);
      var ms := ToCome(job, Start(job, c), k);
      assert ms[..n][..n - 1] == ms[..n - 1];
      var s := job.subjects[n - 1];
      TallyOnTop(job.cfg, job.calls(s), SliceOf(c, s), TotalTally(job.cfg, c, job.subjects, n - 1, job.calls), k);
    }
  }

  lemma TallyOnTop(cfg: Config, calls: Calls, slice: Slice, t: Tally, k: Counter)
    ensures Part(SyncedSubject(cfg, calls, Work(slice, t)).tally, k)
         == Part(t, k) + Part(SyncedSubject(cfg, calls, Work(slice, ZERO)).tally, k)
  {
    SubjectShifts(cfg, calls, t, Work(slice, ZERO));
    ShiftZero(t, slice);
  }

  lemma FinalTally(job: Job, c: Catalog, to: State)
    requires NoRepeats(job.subjects) && Fits(job, to) && Complete(to) && SameGoal(job, Start(job, c), to)
    ensures to.tally == TotalTally(job.cfg, c, job.subjects, |job.subjects|, job.calls)
  {
    var from := Start(job, c);
    var total := TotalTally(job.cfg, c, job.subjects, |job.subjects|, job.calls);
    CompleteRests(job, to);
    forall k ensures Part(to.tally, k) == Part(total, k) {
      StartGoal(job, c, |job.subjects|, k);
      WholePrefix(ToCome(job, from, k));
      assert Goal(job, to, k) == Goal(job, from, k);
    }
    SameParts(to.tally, total);
  }

  /**
   Every complete run, in whatever order the tasks move, ends with the rows and the counters of
   running them one after another, after the same number of moves.
   */
  lemma RunsAreConfluent(job: Job, c: Catalog, schedule: seq<nat>, to: State)
    requires NoRepeats(job.subjects) && Runs(job, Start(job, c), schedule, to) && Complete(to)
    ensures SyncedOn(job.cfg, c, Elements(job.subjects), job.calls, to.catalog)
    ensures to.tally == TotalTally(job.cfg, c, job.subjects, |job.subjects|, job.calls)
    ensures |schedule| == Sum(Moves(job, Start(job, c)))
  {
    var from := Start(job, c);
    RunKeeps(job, from, schedule, to);
    CompleteRests(job, to);
    FinalTally(job, c, to);
    forall s | s in Elements(job.subjects)
      ensures SliceOf(to.catalog, s) == SyncedSlice(job.cfg, job.calls(s), SliceOf(c, s))
    {
      var i :| 0 <= i < |job.subjects| && job.subjects[i] == s;
      FinalSlice(job, c, to, i);
    }
  }

  lemma FinalSlice(job: Job, c: Catalog, to: State, i: nat)
    requires NoRepeats(job.subjects) && Fits(job, to) && Complete(to) && SameGoal(job, Start(job, c), to) && i < |job.subjects|
    ensures var s := job.subjects[i]; SliceOf(to.catalog, s) == SyncedSlice(job.cfg, job.calls(s), SliceOf(c, s))
  {
    assert RestOf(job, to, i).slice == RestOf(job, Start(job, c), i).slice;
  }

  // ---------- the semaphore ----------

  lemma {:induction false} InsideChange(phases: seq<Phase>, i: nat, p: Phase, n: nat)
    requires i < |phases| && n <= |phases|
    ensures Inside(phases[i := p], n)
         == Inside(phases, n) + if i < n then (if Holding(p) then 1 else 0) - (if Holding(phases[i]) then 1 else 0) else 0
  {
    if n > 0 { InsideChange(phases, i, p, n - 1); }
  }

  lemma {:induction false} NoneInside(n: nat, phases: seq<Phase>)
    requires n <= |phases| && forall i :: 0 <= i < n ==> phases[i].Waiting?
    ensures Inside(phases, n) == 0
  {
    if n > 0 { NoneInside(n - 1, phases); }
  }

  lemma {:induction false} RunKeepsBound(job: Job, from: State, schedule: seq<nat>, to: State)
    requires Fits(job, from) && Runs(job, from, schedule, to)
    requires Inside(from.phases, |from.phases|) <= job.maxConcurrent
    ensures Fits(job, to) && Inside(to.phases, |to.phases|) <= job.maxConcurrent
    decreases |schedule|
  {
    if schedule != [] {
      var i := schedule[0];
      var next := Step(job, from, i);
      InsideChange(from.phases, i, next.phases[i], |from.phases|);
      RunKeepsBound(job, next, schedule[1..], to);
    }
  }

  /** No reachable state has more than `max_concurrent` tasks inside the semaphore. */
  lemma SemaphoreHolds(job: Job, c: Catalog, schedule: seq<nat>, st: State)
    requires NoRepeats(job.subjects) && Runs(job, Start(job, c), schedule, st)
    ensures Fits(job, st) && Inside(st.phases, |st.phases|) <= job.maxConcurrent
    ensures |TasksInside(st.phases, |st.phases|)| <= job.maxConcurrent
  {
    NoneInside(|job.subjects|, Start(job, c).phases);
    RunKeepsBound(job, Start(job, c), schedule, st);
    InsideCounts(st.phases, |st.phases|);
  }

  /** The tasks among the first `n` that have begun and not finished. */
  ghost function TasksInside(phases: seq<Phase>, n: nat): set<nat>
    requires n <= |phases|
  {
    set i: nat | i < n && phases[i] != Waiting && phases[i] != Finished
  }

  lemma OneMoreTask(phases: seq<Phase>, n: nat)
    requires n < |phases|
    ensures TasksInside(phases, n + 1) == TasksInside(phases, n) + if phases[n] != Waiting && phases[n] != Finished then {n} else {}
  {
  }

  lemma {:induction false} InsideCounts(phases: seq<Phase>, n: nat)
    requires n <= |phases|
    ensures Inside(phases, n) == |TasksInside(phases, n)|
  {
    if n > 0 {
      InsideCounts(phases, n - 1);
      OneMoreTask(phases, n - 1);
      assert n - 1 !in TasksInside(phases, n - 1);
    }
  }

  // ---------- progress ----------

  lemma {:induction false} SomeoneInside(phases: seq<Phase>, n: nat)
    requires n <= |phases| && Inside(phases, n) > 0
    ensures exists i :: 0 <= i < n && Holding(phases[i])
  {
    if n > 0 && !Holding(phases[n - 1]) { SomeoneInside(phases, n - 1); }
  }

  /** With at least one permit, a state that is not complete always lets some task move. */
  lemma SomeoneCanMove(job: Job, st: State) returns (i: nat)
    requires job.maxConcurrent > 0 && !Complete(st)
    ensures Enabled(job, st, i)
  {
    if Inside(st.phases, |st.phases|) > 0 {
      SomeoneInside(st.phases, |st.phases|);
      i :| 0 <= i < |st.phases| && Holding(st.phases[i]);
    } else {
      i :| 0 <= i < |st.phases| && !st.phases[i].Finished?;
    }
  }

  /** So every state can be run to completion, and no run is longer than the moves it starts with. */
  lemma {:induction false} CanComplete(job: Job, st: State) returns (schedule: seq<nat>, to: State)
    requires Fits(job, st) && job.maxConcurrent > 0
    ensures Runs(job, st, schedule, to) && Complete(to)
    decreases Sum(Moves(job, st))
  {
    if Complete(st) {
      schedule, to := [], st;
    } else {
      var i := SomeoneCanMove(job, st);
      StepKeepsGoal(job, st, i);
      var rest, end := CanComplete(job, Step(job, st, i));
      schedule, to := [i] + rest, end;
    }
  }

  /** A sync completes in some order exactly when it has a permit or nothing to do. */
  lemma CompletesExactlyWithPermits(job: Job, c: Catalog)
    requires NoRepeats(job.subjects)
    ensures (exists schedule, to :: Runs(job, Start(job, c), schedule, to) && Complete(to))
       <==> job.maxConcurrent > 0 || job.subjects == []
  {
    var from := Start(job, c);
    if job.maxConcurrent > 0 || job.subjects == [] {
      var schedule, to := [], from;
      if job.maxConcurrent > 0 { schedule, to := CanComplete(job, from); }
      assert Runs(job, Start(job, c), schedule, to) && Complete(to);
      assert exists schedule, to :: Runs(job, Start(job, c), schedule, to) && Complete(to);
    } else {
      assert from.phases[0].Waiting?;
      NoneInside(|job.subjects|, from.phases);
      assert forall i: nat :: !Enabled(job, from, i);
      forall schedule, to | Runs(job, from, schedule, to) ensures !Complete(to) {
      }
    }
  }
}
