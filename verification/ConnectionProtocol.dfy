/**
 Concurrent calls of `get_schema_registry_client` in one event loop, interleaved with
 invalidations and with the commits of the registry use cases.

 A task moves from one suspension point to the next: waiting for its lock, reading the row (between
 the recheck and the row's arrival), and holding the row until the client is stored.
 */
module ConnectionProtocol {
  import opened Prelude
  import opened Connection

  datatype Phase = Waiting | Reading | Loaded(row: Option<Row>)

  datatype Task = Task(id: string, lock: nat, phase: Phase)

  /**
   `held` are the acquired locks. `created` and `dropped` count, per id, the clients built and the
   invalidations that removed one; `pending` counts the commits not yet followed by their invalidation.
   */
  datatype State = State(
    cache: Cache,
    held: set<nat>,
    tasks: map<nat, Task>,
    rows: Rows,
    created: multiset<string>,
    dropped: multiset<string>,
    pending: multiset<string>)

  datatype Event =
    | Arrive(t: nat, id: string)
    | Enter(t: nat)
    | ReadRow(t: nat)
    | Store(t: nat)
    | Abandon(t: nat)
    | Invalidate(resourceType: string, id: string)
    | CommitCreate(id: string, row: Row)
    | CommitUpdate(id: string, row: Row)
    | CommitDelete(id: string)

  predicate Critical(task: Task)
  {
    !task.phase.Waiting?
  }

  predicate BothCritical(a: Task, b: Task)
  {
    Critical(a) && Critical(b)
  }

  predicate Enabled(st: State, e: Event)
  {
    match e
    case Arrive(t, id) => t !in st.tasks
    case Enter(t) => t in st.tasks && st.tasks[t].phase.Waiting? && st.tasks[t].lock !in st.held
    case ReadRow(t) => t in st.tasks && st.tasks[t].phase.Reading?
    case Store(t) => t in st.tasks && st.tasks[t].phase.Loaded?
    case Abandon(t) => t in st.tasks
    case CommitUpdate(id, _) => id in st.rows
    case CommitDelete(id) => id in st.rows
    case _ => true
  }

  /** The task is over: its lock, if acquired, is released. */
  function Over(st: State, t: nat): State
    requires t in st.tasks
  {
    st.(tasks := st.tasks - {t}, held := if Critical(st.tasks[t]) then st.held - {st.tasks[t].lock} else st.held)
  }

  function Next(st: State, e: Event): State
    requires Enabled(st, e)
  {
    match e
    case Arrive(t, id) =>
      if id in st.cache.clients then st
      else
        var cache := WithLock(st.cache, LockKey(id));
        st.(cache := cache, tasks := st.tasks[t := Task(id, cache.locks[LockKey(id)], Waiting)])
    case Enter(t) =>
      var task := st.tasks[t];
      if task.id in st.cache.clients then Over(st, t)
      else st.(held := st.held + {task.lock}, tasks := st.tasks[t := task.(phase := Reading)])
    case ReadRow(t) =>
      var task := st.tasks[t];
      st.(tasks := st.tasks[t := task.(phase := Loaded(Find(st.rows, task.id)))])
    case Store(t) =>
      var task := st.tasks[t];
      (match ClientFor(task.phase.row)
       case Ok(client) =>
         Over(st, t).(cache := st.cache.(clients := st.cache.clients[task.id := client]), created := st.created + multiset{task.id})
       case Err(_) => Over(st, t))
    case Abandon(t) => Over(st, t)
    case Invalidate(resourceType, id) =>
      st.(cache := Invalidated(st.cache, resourceType, id),
          dropped := if resourceType == SCHEMA_REGISTRY && id in st.cache.clients then st.dropped + multiset{id} else st.dropped,
          pending := if resourceType == SCHEMA_REGISTRY then st.pending - multiset{id} else st.pending)
    case CommitCreate(id, row) => st.(rows := st.rows[id := if id in st.rows then Row(row.settings, true) else row])
    case CommitUpdate(id, row) => st.(rows := st.rows[id := row], pending := st.pending + multiset{id})
    case CommitDelete(id) =>
      st.(rows := st.rows[id := st.rows[id].(isActive := false)], pending := st.pending + multiset{id})
  }

  /** A create writes the settings given and leaves the row active if there was one; other rows stay. */
  lemma CommitCreateExactly(st: State, id: string, row: Row)
    ensures var rows := Next(st, CommitCreate(id, row)).rows;
            && Find(rows, id) == Some(Row(row.settings, id in st.rows || row.isActive))
            && forall x :: x != id ==> Find(rows, x) == Find(st.rows, x)
  {
  }

  /** A get of a cached id is over at once; any other one waits for its lock. */
  lemma ArriveExactly(st: State, t: nat, id: string)
    requires t !in st.tasks
    ensures id in st.cache.clients ==> Next(st, Arrive(t, id)) == st
    ensures id !in st.cache.clients ==> t in Next(st, Arrive(t, id)).tasks && Next(st, Arrive(t, id)).tasks[t].phase == Waiting
  {
  }

  function Initial(rows: Rows): State
  {
    State(Cache(map[], map[], 0), {}, map[], rows, multiset{}, multiset{}, multiset{})
  }

  /** The events take `from` to `to`, each when it may happen. */
  ghost predicate Runs(from: State, events: seq<Event>, to: State)
    decreases |events|
  {
    if events == [] then from == to
    else Enabled(from, events[0]) && Runs(Next(from, events[0]), events[1..], to)
  }

  // ---------- mutual exclusion ----------

  /** The invalidation does not delete the lock of any id in use. */
  ghost predicate Harmless(used: set<string>, e: Event)
  {
    && (e.Arrive? ==> e.id in used)
    && (e.Invalidate? ==> forall y :: y in used ==> InvalidationKey(e.resourceType, e.id) != LockKey(y))
  }

  /** At most one task of an id is between its recheck and its store. */
  ghost predicate Exclusive(st: State)
  {
    forall t, u :: t in st.tasks && u in st.tasks && BothCritical(st.tasks[t], st.tasks[u]) && st.tasks[t].id == st.tasks[u].id ==> t == u
  }

  /** Every client ever built is either cached or was dropped by an invalidation. */
  ghost predicate Accounted(st: State)
  {
    forall id :: st.created[id] == st.dropped[id] + if id in st.cache.clients then 1 else 0
  }

  ghost predicate TaskSafe(used: set<string>, st: State, t: nat)
    requires t in st.tasks
  {
    var task := st.tasks[t];
    && task.id in used
    && LockKey(task.id) in st.cache.locks && st.cache.locks[LockKey(task.id)] == task.lock
    && (Critical(task) ==> task.lock in st.held && task.id !in st.cache.clients)
  }

  ghost predicate Safe(used: set<string>, st: State)
  {
    && (forall t :: t in st.tasks ==> TaskSafe(used, st, t))
    && (forall t, u :: t in st.tasks && u in st.tasks && BothCritical(st.tasks[t], st.tasks[u])
          && st.tasks[t].lock == st.tasks[u].lock
          ==> t == u)
    && Accounted(st)
  }

  lemma SafeIsExclusive(used: set<string>, st: State)
    requires Safe(used, st)
    ensures Exclusive(st)
  {
  }

  lemma OverKeepsSafe(used: set<string>, st: State, t: nat)
    requires Safe(used, st) && t in st.tasks
    ensures Safe(used, Over(st, t))
  {
  }

  lemma ArriveKeepsSafe(used: set<string>, st: State, t: nat, id: string)
    requires Safe(used, st) && t !in st.tasks && id in used
    ensures Safe(used, Next(st, Arrive(t, id)))
  {
  }

  lemma EnterKeepsSafe(used: set<string>, st: State, t: nat)
    requires Safe(used, st) && Enabled(st, Enter(t))
    ensures Safe(used, Next(st, Enter(t)))
  {
  }

  lemma ReadKeepsSafe(used: set<string>, st: State, t: nat)
    requires Safe(used, st) && Enabled(st, ReadRow(t))
    ensures Safe(used, Next(st, ReadRow(t)))
  {
  }

  lemma StoreKeepsSafe(used: set<string>, st: State, t: nat)
    requires Safe(used, st) && Enabled(st, Store(t))
    ensures Safe(used, Next(st, Store(t)))
  {
  }

  lemma InvalidateKeepsSafe(used: set<string>, st: State, resourceType: string, id: string)
    requires Safe(used, st) && Harmless(used, Invalidate(resourceType, id))
    ensures Safe(used, Next(st, Invalidate(resourceType, id)))
  {
  }

  lemma NextKeepsSafe(used: set<string>, st: State, e: Event)
    requires Safe(used, st) && Enabled(st, e) && Harmless(used, e)
    ensures Safe(used, Next(st, e))
  {
    match e {
      case Arrive(t, id) => ArriveKeepsSafe(used, st, t, id);
      case Enter(t) => EnterKeepsSafe(used, st, t);
      case ReadRow(t) => ReadKeepsSafe(used, st, t);
      case Store(t) => StoreKeepsSafe(used, st, t);
      case Abandon(t) => OverKeepsSafe(used, st, t);
      case Invalidate(resourceType, id) => InvalidateKeepsSafe(used, st, resourceType, id);
      case _ =>
        var st' := Next(st, e);
        assert forall t :: t in st.tasks ==> TaskSafe(used, st, t) == TaskSafe(used, st', t);
    }
  }

  lemma {:induction false} RunKeepsSafe(used: set<string>, from: State, events: seq<Event>, to: State)
    requires Safe(used, from) && Runs(from, events, to) && forall e :: e in events ==> Harmless(used, e)
    ensures Safe(used, to)
    decreases |events|
  {
    if events != [] {
      assert events[0] in events;
      NextKeepsSafe(used, from, events[0]);
      RunKeepsSafe(used, Next(from, events[0]), events[1..], to);
    }
  }

  /** The ids a run asks for and the ids it invalidates, for the one resource type that callers use. */
  ghost predicate Confined(used: set<string>, invalidated: set<string>, events: seq<Event>)
  {
    forall e :: e in events ==>
      (e.Arrive? ==> e.id in used) && (e.Invalidate? ==> e.resourceType == SCHEMA_REGISTRY && e.id in invalidated)
  }

  /** In every run: one task at a time per id, and no client lost or built twice. */
  ghost predicate AlwaysSafe(used: set<string>, invalidated: set<string>)
  {
    forall rows, events, to :: Runs(Initial(rows), events, to) && Confined(used, invalidated, events)
      ==> Exclusive(to) && Accounted(to)
  }

  /** The run in which invalidating `x` lets two tasks of `registry_x` past the recheck. */
  function Intrusion(x: string): seq<Event>
  {
    var y := "registry_" + x;
    [Arrive(1, y), Enter(1), Invalidate(SCHEMA_REGISTRY, x), Arrive(2, y), Enter(2)]
  }

  function Intruded(x: string, rows: Rows): State
  {
    var y := "registry_" + x;
    State(Cache(map[], map[LockKey(y) := 1], 2), {0, 1}, map[1 := Task(y, 0, Reading), 2 := Task(y, 1, Reading)], rows,
      multiset{}, multiset{}, multiset{})
  }

  lemma IntrusionRuns(x: string, rows: Rows)
    ensures Runs(Initial(rows), Intrusion(x), Intruded(x, rows)) && !Exclusive(Intruded(x, rows))
  {
    var y := "registry_" + x;
    var e := Intrusion(x);
    KeysMeetExactly(x, y);
    var s1 := Next(Initial(rows), e[0]);
    var s2 := Next(s1, e[1]);
    var s3 := Next(s2, e[2]);
    assert s2.cache.locks == map[LockKey(y) := 0];
    assert s3.cache.locks == map[] && s3.cache.clients == map[];
    var s4 := Next(s3, e[3]);
    var s5 := Next(s4, e[4]);
    assert s3.pending == multiset{};
    assert s5 == Intruded(x, rows);
    assert Runs(s5, e[5..], s5);
    assert e[4..][1..] == e[5..] && e[3..][1..] == e[4..] && e[2..][1..] == e[3..] && e[1..][1..] == e[2..];
    assert Runs(s4, e[4..], s5);
    assert Runs(s3, e[3..], s5);
    assert Runs(s2, e[2..], s5);
    assert Runs(s1, e[1..], s5);
    var bad := Intruded(x, rows).tasks;
    assert Critical(bad[1]) && Critical(bad[2]);
  }

  /**
   The cache is safe in every run exactly when no invalidated id X comes with an id `registry_X` in
   use: locks are stored under `schema_<id>` and deleted under `schema_registry_<id>`.
   */
  lemma AlwaysSafeExactly(used: set<string>, invalidated: set<string>)
    ensures AlwaysSafe(used, invalidated) <==> forall x :: x in invalidated ==> "registry_" + x !in used
  {
    if x :| x in invalidated && "registry_" + x in used {
      IntrusionRuns(x, map[]);
      assert Confined(used, invalidated, Intrusion(x));
      assert !AlwaysSafe(used, invalidated);
    } else {
      forall rows, events, to | Runs(Initial(rows), events, to) && Confined(used, invalidated, events)
        ensures Exclusive(to) && Accounted(to)
      {
        forall e | e in events ensures Harmless(used, e) {
          if e.Invalidate? {
            forall y | y in used ensures InvalidationKey(e.resourceType, e.id) != LockKey(y) {
              KeysMeetExactly(e.id, y);
            }
          }
        }
        RunKeepsSafe(used, Initial(rows), events, to);
        SafeIsExclusive(used, to);
      }
    }
  }

  // ---------- the cache agrees with the table ----------

  /**
   A create is of an id that is absent or inactive, and no commit changes an active row that some
   task has read and not yet turned into a client.
   */
  ghost predicate Orderly(st: State, e: Event)
  {
    match e
    case CommitCreate(id, _) => id in st.rows ==> !st.rows[id].isActive
    case CommitUpdate(id, _) => NoneLoaded(st, id)
    case CommitDelete(id) => NoneLoaded(st, id)
    case _ => true
  }

  ghost predicate NoneLoaded(st: State, id: string)
  {
    forall t :: t in st.tasks && st.tasks[t].phase.Loaded? && st.tasks[t].id == id ==> ClientFor(st.tasks[t].phase.row).Err?
  }

  ghost predicate OrderlyRun(from: State, events: seq<Event>, to: State)
    decreases |events|
  {
    if events == [] then from == to
    else Enabled(from, events[0]) && Orderly(from, events[0]) && OrderlyRun(Next(from, events[0]), events[1..], to)
  }

  /** Outside the window between a commit and its invalidation, a cached client is the current, active row's. */
  ghost predicate CacheAgrees(st: State)
  {
    forall id :: id in st.cache.clients && st.pending[id] == 0 ==> ClientFor(Find(st.rows, id)) == Ok(st.cache.clients[id])
  }

  /** A task that has read a row it will turn into a client has read the current one. */
  ghost predicate LoadedAgrees(st: State)
  {
    forall t :: t in st.tasks && st.tasks[t].phase.Loaded? && ClientFor(st.tasks[t].phase.row).Ok?
      ==> ClientFor(Find(st.rows, st.tasks[t].id)) == ClientFor(st.tasks[t].phase.row)
  }

  lemma CommitKeepsAgreement(st: State, st': State, id: string)
    requires CacheAgrees(st) && LoadedAgrees(st)
    requires st'.cache == st.cache && st'.tasks == st.tasks
    requires forall x :: x != id ==> Find(st'.rows, x) == Find(st.rows, x) && st'.pending[x] == st.pending[x]
    requires NoneLoaded(st, id)
    requires st'.pending[id] > 0 || (st'.pending[id] == st.pending[id] && ClientFor(Find(st.rows, id)).Err?)
    ensures CacheAgrees(st') && LoadedAgrees(st')
  {
  }

  lemma TaskKeepsAgreement(st: State, e: Event)
    requires CacheAgrees(st) && LoadedAgrees(st) && Enabled(st, e)
    requires e.Arrive? || e.Enter? || e.ReadRow? || e.Abandon? || e.Store?
    ensures CacheAgrees(Next(st, e)) && LoadedAgrees(Next(st, e))
  {
  }

  lemma InvalidateKeepsAgreement(st: State, resourceType: string, id: string)
    requires CacheAgrees(st) && LoadedAgrees(st)
    ensures var st' := Next(st, Invalidate(resourceType, id)); CacheAgrees(st') && LoadedAgrees(st')
  {
  }

  lemma NextKeepsAgreement(st: State, e: Event)
    requires CacheAgrees(st) && LoadedAgrees(st) && Enabled(st, e) && Orderly(st, e)
    ensures CacheAgrees(Next(st, e)) && LoadedAgrees(Next(st, e))
  {
    match e {
      case CommitCreate(id, row) => CommitKeepsAgreement(st, Next(st, e), id);
      case CommitUpdate(id, row) => CommitKeepsAgreement(st, Next(st, e), id);
      case CommitDelete(id) => CommitKeepsAgreement(st, Next(st, e), id);
      case Invalidate(resourceType, id) => InvalidateKeepsAgreement(st, resourceType, id);
      case _ => TaskKeepsAgreement(st, e);
    }
  }

  lemma {:induction false} OrderlyRunKeepsAgreement(from: State, events: seq<Event>, to: State)
    requires CacheAgrees(from) && LoadedAgrees(from) && OrderlyRun(from, events, to)
    ensures CacheAgrees(to) && LoadedAgrees(to)
    decreases |events|
  {
    if events != [] {
      NextKeepsAgreement(from, events[0]);
      OrderlyRunKeepsAgreement(Next(from, events[0]), events[1..], to);
    }
  }

  /** In every orderly run the cache agrees with the table; no lock is needed for this. */
  lemma CacheAlwaysAgrees(rows: Rows, events: seq<Event>, to: State)
    requires OrderlyRun(Initial(rows), events, to)
    ensures CacheAgrees(to)
  {
    OrderlyRunKeepsAgreement(Initial(rows), events, to);
  }

  /**
   What the order is needed for: a store of a row read before a commit leaves a stale client
   exactly when the commit changed what the row's client would be.
   */
  lemma LateStoreAgreesExactly(st: State, t: nat)
    requires CacheAgrees(st) && Enabled(st, Store(t))
    requires st.pending[st.tasks[t].id] == 0 && ClientFor(st.tasks[t].phase.row).Ok?
    ensures CacheAgrees(Next(st, Store(t))) <==> ClientFor(Find(st.rows, st.tasks[t].id)) == ClientFor(st.tasks[t].phase.row)
  {
  }

  /** A get of `x` reads the row, an update of the row is written and invalidated, then the get stores its client. */
  function LateStore(x: string, row: Row): seq<Event>
  {
    [Arrive(0, x), Enter(0), ReadRow(0), CommitUpdate(x, row), Invalidate(SCHEMA_REGISTRY, x), Store(0)]
  }

  /** Where that run ends: every commit is invalidated, nobody is active, and the old row's client is cached. */
  function LateStored(x: string, rows: Rows, row: Row): State
    requires x in rows
  {
    State(Cache(map[x := Client(rows[x].settings)], map[LockKey(x) := 0], 1), {}, map[], rows[x := row],
          multiset{x}, multiset{}, multiset{})
  }

  /** The moment between the read and the update. */
  function LateLoaded(x: string, rows: Rows): State
    requires x in rows
  {
    State(Cache(map[], map[LockKey(x) := 0], 1), {0}, map[0 := Task(x, 0, Loaded(Some(rows[x])))], rows,
          multiset{}, multiset{}, multiset{})
  }

  lemma LateStoreBegins(x: string, rows: Rows, row: Row, to: State)
    requires x in rows && Runs(LateLoaded(x, rows), LateStore(x, row)[3..], to)
    ensures Runs(Initial(rows), LateStore(x, row), to)
  {
    var e := LateStore(x, row);
    var s1 := Next(Initial(rows), e[0]);
    var s2 := Next(s1, e[1]);
    assert Next(s2, e[2]) == LateLoaded(x, rows);
    assert e[2..][1..] == e[3..] && e[1..][1..] == e[2..];
    assert Runs(s2, e[2..], to);
    assert Runs(s1, e[1..], to);
  }

  lemma LateStoreEnds(x: string, rows: Rows, row: Row)
    requires x in rows && rows[x].isActive
    ensures Runs(LateLoaded(x, rows), LateStore(x, row)[3..], LateStored(x, rows, row))
  {
    var e := LateStore(x, row);
    KeysMeetExactly(x, x);
    var s4 := Next(LateLoaded(x, rows), e[3]);
    var s5 := Next(s4, e[4]);
    assert s4.pending == multiset{x} && s5.pending == multiset{};
    assert s5.cache == LateLoaded(x, rows).cache;
    var s6 := LateStored(x, rows, row);
    assert Next(s5, e[5]).held == {} && Next(s5, e[5]).tasks == map[];
    assert Next(s5, e[5]) == s6;
    assert e[5..][1..] == [] && e[4..][1..] == e[5..] && e[3..][1..] == e[4..];
    assert Runs(s5, e[5..], s6);
    assert Runs(s4, e[4..], s6);
  }

  /**
   A whole run that shows it: nothing is pending at its end, and its client is stale exactly when the
   update between the read and the store changed the client of the row.
   */
  lemma LateStoreRuns(x: string, rows: Rows, row: Row)
    requires x in rows && rows[x].isActive
    ensures Runs(Initial(rows), LateStore(x, row), LateStored(x, rows, row))
    ensures LateStored(x, rows, row).pending == multiset{}
    ensures CacheAgrees(LateStored(x, rows, row)) <==> row.isActive && row.settings == rows[x].settings
  {
    LateStoreEnds(x, rows, row);
    LateStoreBegins(x, rows, row, LateStored(x, rows, row));
    assert x in LateStored(x, rows, row).cache.clients && LateStored(x, rows, row).pending[x] == 0;
  }

  /** And a create over an active row, which is not followed by an invalidation, leaves a stale client. */
  lemma CreateOverActiveAgreesExactly(st: State, id: string, row: Row)
    requires CacheAgrees(st) && id in st.rows && st.rows[id].isActive && st.pending[id] == 0
    ensures CacheAgrees(Next(st, CommitCreate(id, row)))
       <==> id !in st.cache.clients || st.cache.clients[id].settings == row.settings
  {
  }
}
