/** The apply pipeline: plan, judge, then register item by item with partial failure. */
module Apply {
  import opened Prelude
  import opened Models
  import opened Planner
  import PolicyPack
  import CanonicalText

  // ---------- the event bus ----------

  /** A subscriber, by what calling it raises. */
  datatype Handler = Handler(name: string, raises: Option<string>)

  function Call(h: Handler): Result<()>
  {
    if h.raises.Some? then Err(h.raises.value) else Ok(())
  }

  /** The errors of the subscribers that raise, in calling order. */
  function ErrorsOf(handlers: seq<Handler>): seq<string>
  {
    if handlers == [] then []
    else
      var n := |handlers| - 1;
      ErrorsOf(handlers[..n]) + match Call(handlers[n]) case Ok(_) => [] case Err(e) => [e]
  }

  lemma ErrorsStep(handlers: seq<Handler>, i: nat)
    requires i < |handlers|
    ensures ErrorsOf(handlers[..i + 1]) == ErrorsOf(handlers[..i]) + match Call(handlers[i]) case Ok(_) => [] case Err(e) => [e]
  {
    assert handlers[..i + 1][..i] == handlers[..i];
  }

  class EventBus {
    var handlers: map<string, seq<Handler>>

    constructor ()
      ensures handlers == map[]
    {
      handlers := map[];
    }

    function Subscribed(eventType: string): seq<Handler>
      reads this
    {
      if eventType in handlers then handlers[eventType] else []
    }

    method Subscribe(eventType: string, handler: Handler)
      modifies this
      ensures Subscribed(eventType) == old(Subscribed(eventType)) + [handler]
      ensures forall other :: other != eventType ==> Subscribed(other) == old(Subscribed(other))
    {
      handlers := handlers[eventType := Subscribed(eventType) + [handler]];
    }

    /** Every subscriber is called, in order; what they raise is logged and never reaches the publisher. */
    method Publish(eventType: string) returns (outcome: Result<()>, called: seq<Handler>, logged: seq<string>)
      ensures outcome == Ok(())
      ensures called == Subscribed(eventType)
      ensures logged == ErrorsOf(Subscribed(eventType))
    {
      var subscribers := Subscribed(eventType);
      called, logged := [], [];
      for i := 0 to |subscribers|
        invariant called == subscribers[..i]
        invariant logged == ErrorsOf(subscribers[..i])
      {
        ErrorsStep(subscribers, i);
        called := called + [subscribers[i]];
        match Call(subscribers[i]) {
          case Ok(_) =>
          case Err(e) => logged := logged + [e];
        }
      }
      assert subscribers[..|subscribers|] == subscribers;
      outcome := Ok(());
    }
  }

  const SCHEMA_REGISTERED := "schema.registered"

  // ---------- one item ----------

  /** How the calls made for one spec end: the version registered, and what recording the artifact raises. */
  datatype ItemOutcome = ItemOutcome(register: Result<int>, record: Option<string>)

  datatype Artifact = Artifact(subject: string, version: int)

  datatype Status = Skipped | Applied(artifact: Artifact) | Failed(error: string)

  datatype Tag = TSkipped | TApplied | TFailed

  function TagOf(s: Status): Tag
  {
    match s case Skipped => TSkipped case Applied(_) => TApplied case Failed(_) => TFailed
  }

  predicate Actionable(spec: Spec, item: PlanItem<ChangeNote>)
  {
    item.action != NO_ACTION && !spec.dryRunOnly
  }

  /** The calls' outcomes, per subject. */
  type Outcomes = string -> ItemOutcome

  /** Registering, then building and recording the artifact; the first exception is the item's error. */
  function Attempt(spec: Spec, o: ItemOutcome): Status
  {
    match o.register
    case Err(e) => Failed(e)
    case Ok(version) =>
      if version < 1 then Failed("artifact version must be >= 1")
      else if o.record.Some? then Failed(o.record.value)
      else Applied(Artifact(spec.subject, version))
  }

  function StatusOf(spec: Spec, item: PlanItem<ChangeNote>, outcomes: Outcomes): Status
  {
    if Actionable(spec, item) then Attempt(spec, outcomes(spec.subject)) else Skipped
  }

  function Statuses(specs: seq<Spec>, items: seq<PlanItem<ChangeNote>>, outcomes: Outcomes): (r: seq<Status>)
    requires |specs| == |items|
    ensures |r| == |specs|
  {
    seq(|specs|, i requires 0 <= i < |specs| => StatusOf(specs[i], items[i], outcomes))
  }

  /** The subjects of one status, in batch order. */
  function Where(subjects: seq<string>, statuses: seq<Status>, tag: Tag): seq<string>
    requires |subjects| == |statuses|
  {
    if subjects == [] then []
    else
      var n := |subjects| - 1;
      Where(subjects[..n], statuses[..n], tag) + if TagOf(statuses[n]) == tag then [subjects[n]] else []
  }

  /** The artifacts of the applied items, in batch order. */
  function ArtifactsOf(statuses: seq<Status>): seq<Artifact>
  {
    if statuses == [] then []
    else
      var n := |statuses| - 1;
      ArtifactsOf(statuses[..n]) + if statuses[n].Applied? then [statuses[n].artifact] else []
  }

  /** The subjects a register call is made for, in order. */
  function Attempted(subjects: seq<string>, statuses: seq<Status>): seq<string>
    requires |subjects| == |statuses|
  {
    if subjects == [] then []
    else
      var n := |subjects| - 1;
      Attempted(subjects[..n], statuses[..n]) + if statuses[n].Skipped? then [] else [subjects[n]]
  }

  // ---------- the same, from the calls alone ----------

  /** The first exception among the calls for a spec. */
  ghost predicate RaisesFirst(o: ItemOutcome, e: string)
  {
    || o.register == Err(e)
    || (o.register.Ok? && o.register.value < 1 && e == "artifact version must be >= 1")
    || (o.register.Ok? && o.register.value >= 1 && o.record == Some(e))
  }

  /** No call raises, and the registry gave the version. */
  ghost predicate GoesThrough(o: ItemOutcome, version: int)
  {
    o.register == Ok(version) && version >= 1 && o.record == None
  }

  /** Some item of the subject changes something and its spec is not a dry run. */
  ghost predicate IsCalled(specs: seq<Spec>, items: seq<PlanItem<ChangeNote>>, s: string)
    requires |specs| == |items|
  {
    exists i :: 0 <= i < |specs| && specs[i].subject == s && items[i].action != NO_ACTION && !specs[i].dryRunOnly
  }

  /** A register call is made for exactly the items that change something and whose spec is not a dry run. */
  ghost predicate CallsTold(specs: seq<Spec>, items: seq<PlanItem<ChangeNote>>, calls: seq<string>)
    requires |specs| == |items|
  {
    forall s :: s in calls <==> IsCalled(specs, items, s)
  }

  /** The others are skipped. */
  ghost predicate SkippedTold(specs: seq<Spec>, items: seq<PlanItem<ChangeNote>>, skipped: seq<string>)
    requires |specs| == |items|
  {
    forall s :: s in skipped <==>
      exists i :: 0 <= i < |specs| && specs[i].subject == s && (items[i].action == NO_ACTION || specs[i].dryRunOnly)
  }

  /**
   An item called for is registered exactly when no call raises, with the version the registry gave,
   and failed exactly when one does, with the text of the first exception.
   */
  ghost predicate ListsTold(specs: seq<Spec>, items: seq<PlanItem<ChangeNote>>, outcomes: Outcomes,
                            registered: seq<string>, failed: seq<Failure>, artifacts: seq<Artifact>)
    requires |specs| == |items|
  {
    && (forall s :: s in registered <==> exists a :: a in artifacts && a.subject == s)
    && (forall a :: a in artifacts <==> IsCalled(specs, items, a.subject) && GoesThrough(outcomes(a.subject), a.version))
    && (forall f :: f in failed <==> IsCalled(specs, items, f.subject) && RaisesFirst(outcomes(f.subject), f.error))
  }

  /** Each spec's entry repeats its subject, action and reason and says what became of its item. */
  ghost predicate DetailsTold(specs: seq<Spec>, items: seq<PlanItem<ChangeNote>>, outcomes: Outcomes, details: seq<Detail>)
    requires |specs| == |items|
  {
    && |details| == |specs|
    && forall i :: 0 <= i < |specs| ==> DetailTold(specs[i], items[i], outcomes(specs[i].subject), details[i])
  }

  ghost predicate DetailTold(spec: Spec, item: PlanItem<ChangeNote>, o: ItemOutcome, d: Detail)
  {
    var sent := item.action != NO_ACTION && !spec.dryRunOnly;
    && d.subject == spec.subject && d.action == item.action && d.reason == spec.reason
    && (d.status == "skipped" <==> !sent)
    && (d.status == "applied" <==> sent && exists v :: GoesThrough(o, v))
    && (d.status == "failed" <==> sent && exists e :: RaisesFirst(o, e))
    && forall e :: d.errorMessage == Some(e) <==> sent && RaisesFirst(o, e)
  }

  /** One item's status, from its calls. */
  lemma StatusMeaning(spec: Spec, item: PlanItem<ChangeNote>, outcomes: Outcomes)
    ensures var status, sent := StatusOf(spec, item, outcomes), item.action != NO_ACTION && !spec.dryRunOnly;
            && (status.Skipped? <==> !sent)
            && (forall a :: status == Applied(a) <==> sent && a.subject == spec.subject && GoesThrough(outcomes(spec.subject), a.version))
            && (forall e :: status == Failed(e) <==> sent && RaisesFirst(outcomes(spec.subject), e))
  {
    var o := outcomes(spec.subject);
    if Actionable(spec, item) {
      assert Attempt(spec, o).Failed? ==> RaisesFirst(o, Attempt(spec, o).error);
      assert Attempt(spec, o).Applied? ==> GoesThrough(o, Attempt(spec, o).artifact.version);
    }
  }

  lemma {:induction false} AttemptedMembers(subjects: seq<string>, statuses: seq<Status>, s: string)
    requires |subjects| == |statuses|
    ensures s in Attempted(subjects, statuses) <==> exists i :: 0 <= i < |subjects| && subjects[i] == s && !statuses[i].Skipped?
  {
    if subjects != [] {
      var n := |subjects| - 1;
      AttemptedMembers(subjects[..n], statuses[..n], s);
      assert forall i :: 0 <= i < n ==> subjects[..n][i] == subjects[i] && statuses[..n][i] == statuses[i];
    }
  }

  lemma CallsFollow(specs: seq<Spec>, items: seq<PlanItem<ChangeNote>>, outcomes: Outcomes)
    requires |specs| == |items|
    ensures CallsTold(specs, items, Attempted(Subjects(specs), Statuses(specs, items, outcomes)))
  {
    var subjects, statuses := Subjects(specs), Statuses(specs, items, outcomes);
    forall i | 0 <= i < |specs|
      ensures subjects[i] == specs[i].subject && (!statuses[i].Skipped? <==> items[i].action != NO_ACTION && !specs[i].dryRunOnly)
    {
      StatusMeaning(specs[i], items[i], outcomes);
    }
    forall s ensures s in Attempted(subjects, statuses) <==> IsCalled(specs, items, s) {
      AttemptedMembers(subjects, statuses, s);
    }
  }

  lemma SkippedFollow(specs: seq<Spec>, items: seq<PlanItem<ChangeNote>>, outcomes: Outcomes)
    requires |specs| == |items|
    ensures SkippedTold(specs, items, Where(Subjects(specs), Statuses(specs, items, outcomes), TSkipped))
  {
    var subjects, statuses := Subjects(specs), Statuses(specs, items, outcomes);
    forall i | 0 <= i < |specs|
      ensures subjects[i] == specs[i].subject && (TagOf(statuses[i]) == TSkipped <==> items[i].action == NO_ACTION || specs[i].dryRunOnly)
    {
      StatusMeaning(specs[i], items[i], outcomes);
    }
    WhereMembers(subjects, statuses, TSkipped);
  }

  lemma {:induction false} RunArtifactOf(subjects: seq<string>, statuses: seq<Status>, a: Artifact)
    requires |subjects| == |statuses|
    ensures a in RunItems(subjects, statuses, Ok(())).artifacts <==> exists i :: 0 <= i < |subjects| && statuses[i] == Applied(a)
  {
    if subjects != [] {
      var n := |subjects| - 1;
      RunArtifactOf(subjects[..n], statuses[..n], a);
      assert forall i :: 0 <= i < n ==> statuses[..n][i] == statuses[i];
    }
  }

  lemma {:induction false} RunFailureOf(subjects: seq<string>, statuses: seq<Status>, f: Failure)
    requires |subjects| == |statuses|
    ensures f in RunItems(subjects, statuses, Ok(())).failed
       <==> exists i :: 0 <= i < |subjects| && subjects[i] == f.subject && statuses[i] == Failed(f.error)
  {
    if subjects != [] {
      var n := |subjects| - 1;
      RunFailureOf(subjects[..n], statuses[..n], f);
      assert forall i :: 0 <= i < n ==> subjects[..n][i] == subjects[i] && statuses[..n][i] == statuses[i];
    }
  }

  lemma {:induction false} RunRegisteredOf(subjects: seq<string>, statuses: seq<Status>, s: string)
    requires |subjects| == |statuses| && OwnArtifacts(subjects, statuses)
    ensures var l := RunItems(subjects, statuses, Ok(())); s in l.registered <==> exists a :: a in l.artifacts && a.subject == s
  {
    if subjects != [] {
      var n := |subjects| - 1;
      RunRegisteredOf(subjects[..n], statuses[..n], s);
      var l, l' := RunItems(subjects[..n], statuses[..n], Ok(())), RunItems(subjects, statuses, Ok(()));
      assert forall a :: a in l'.artifacts <==> a in l.artifacts || statuses[n] == Applied(a);
    }
  }

  lemma ArtifactFollows(specs: seq<Spec>, items: seq<PlanItem<ChangeNote>>, outcomes: Outcomes, a: Artifact)
    requires |specs| == |items|
    ensures a in RunItems(Subjects(specs), Statuses(specs, items, outcomes), Ok(())).artifacts
       <==> IsCalled(specs, items, a.subject) && GoesThrough(outcomes(a.subject), a.version)
  {
    var statuses := Statuses(specs, items, outcomes);
    RunArtifactOf(Subjects(specs), statuses, a);
    forall i | 0 <= i < |specs|
      ensures statuses[i] == Applied(a) <==>
                && items[i].action != NO_ACTION && !specs[i].dryRunOnly
                && a.subject == specs[i].subject && GoesThrough(outcomes(a.subject), a.version)
    {
      StatusMeaning(specs[i], items[i], outcomes);
    }
  }

  lemma FailureFollows(specs: seq<Spec>, items: seq<PlanItem<ChangeNote>>, outcomes: Outcomes, f: Failure)
    requires |specs| == |items|
    ensures f in RunItems(Subjects(specs), Statuses(specs, items, outcomes), Ok(())).failed
       <==> IsCalled(specs, items, f.subject) && RaisesFirst(outcomes(f.subject), f.error)
  {
    var subjects, statuses := Subjects(specs), Statuses(specs, items, outcomes);
    RunFailureOf(subjects, statuses, f);
    forall i | 0 <= i < |specs|
      ensures subjects[i] == f.subject && statuses[i] == Failed(f.error) <==>
                && items[i].action != NO_ACTION && !specs[i].dryRunOnly
                && f.subject == specs[i].subject && RaisesFirst(outcomes(f.subject), f.error)
    {
      StatusMeaning(specs[i], items[i], outcomes);
    }
  }

  lemma ListsFollow(specs: seq<Spec>, items: seq<PlanItem<ChangeNote>>, outcomes: Outcomes)
    requires |specs| == |items|
    ensures var l := RunItems(Subjects(specs), Statuses(specs, items, outcomes), Ok(()));
            ListsTold(specs, items, outcomes, l.registered, l.failed, l.artifacts)
  {
    var subjects, statuses := Subjects(specs), Statuses(specs, items, outcomes);
    var l := RunItems(subjects, statuses, Ok(()));
    forall s ensures s in l.registered <==> exists a :: a in l.artifacts && a.subject == s {
      RunRegisteredOf(subjects, statuses, s);
    }
    forall a ensures a in l.artifacts <==> IsCalled(specs, items, a.subject) && GoesThrough(outcomes(a.subject), a.version) {
      ArtifactFollows(specs, items, outcomes, a);
    }
    forall f ensures f in l.failed <==> IsCalled(specs, items, f.subject) && RaisesFirst(outcomes(f.subject), f.error) {
      FailureFollows(specs, items, outcomes, f);
    }
  }

  lemma DetailFollows(specs: seq<Spec>, items: seq<PlanItem<ChangeNote>>, outcomes: Outcomes, i: nat)
    requires i < |specs| == |items|
    ensures var status := Statuses(specs, items, outcomes)[i];
            DetailTold(specs[i], items[i], outcomes(specs[i].subject),
                       Detail(specs[i].subject, items[i].action, StatusWord(status), specs[i].reason, ErrorOf(status)))
  {
    var status := StatusOf(specs[i], items[i], outcomes);
    StatusMeaning(specs[i], items[i], outcomes);
    if status.Applied? {
      assert GoesThrough(outcomes(specs[i].subject), status.artifact.version);
    } else if status.Failed? {
      assert RaisesFirst(outcomes(specs[i].subject), status.error);
    }
  }

  /** Everything the result must say, from the calls alone. */
  ghost predicate ResultTold(specs: seq<Spec>, items: seq<PlanItem<ChangeNote>>, outcomes: Outcomes, r: ApplyResult)
    requires |specs| == |items|
  {
    && ListsTold(specs, items, outcomes, r.registered, r.failed, r.artifacts)
    && SkippedTold(specs, items, r.skipped)
    && DetailsTold(specs, items, outcomes, r.details)
  }

  // ---------- the result ----------

  datatype Failure = Failure(subject: string, error: string)

  datatype Detail = Detail(subject: string, action: PlanAction, status: string, reason: Option<string>, errorMessage: Option<string>)

  datatype ApplyResult = ApplyResult(
    registered: seq<string>,
    skipped: seq<string>,
    failed: seq<Failure>,
    artifacts: seq<Artifact>,
    requestedTotal: nat,
    plannedTotal: nat,
    details: seq<Detail>)
  {
    /** `summary()["skipped_count"]` */
    function SkippedCount(): nat
    {
      if requestedTotal >= plannedTotal then requestedTotal - plannedTotal else 0
    }
  }

  function FailedSubjects(failed: seq<Failure>): (r: seq<string>)
    ensures |r| == |failed|
  {
    seq(|failed|, i requires 0 <= i < |failed| => failed[i].subject)
  }

  function StatusWord(s: Status): string
  {
    match s case Applied(_) => "applied" case Failed(_) => "failed" case Skipped => "skipped"
  }

  function ErrorOf(s: Status): Option<string>
  {
    if s.Failed? then Some(s.error) else None
  }

  /** Everything the result must say, from the status of each item. */
  ghost predicate Reflects(specs: seq<Spec>, items: seq<PlanItem<ChangeNote>>, statuses: seq<Status>, r: ApplyResult)
    requires |specs| == |items| == |statuses|
  {
    var subjects := Subjects(specs);
    && r.registered == Where(subjects, statuses, TApplied)
    && r.skipped == Where(subjects, statuses, TSkipped)
    && FailedSubjects(r.failed) == Where(subjects, statuses, TFailed)
    && |r.artifacts| == |r.registered| && (forall k :: 0 <= k < |r.artifacts| ==> r.artifacts[k].subject == r.registered[k])
    && r.artifacts == ArtifactsOf(statuses)
    && r.requestedTotal == |specs|
    && r.plannedTotal == |Attempted(subjects, statuses)|
    && |r.details| == |specs|
    && forall i :: 0 <= i < |specs| ==>
         r.details[i] == Detail(specs[i].subject, items[i].action, StatusWord(statuses[i]), specs[i].reason, ErrorOf(statuses[i]))
  }

  // ---------- the loop ----------

  /** The loop's lists after `n` items. */
  ghost predicate Progress(subjects: seq<string>, statuses: seq<Status>, n: nat, registered: seq<string>,
                           failed: seq<Failure>, artifacts: seq<Artifact>, calls: seq<string>)
    requires n <= |subjects| == |statuses|
  {
    && registered == Where(subjects[..n], statuses[..n], TApplied)
    && FailedSubjects(failed) == Where(subjects[..n], statuses[..n], TFailed)
    && (forall k :: 0 <= k < |failed| ==> exists i :: 0 <= i < n && subjects[i] == failed[k].subject && statuses[i] == Failed(failed[k].error))
    && |artifacts| == |registered| && (forall k :: 0 <= k < |artifacts| ==> artifacts[k].subject == registered[k])
    && calls == Attempted(subjects[..n], statuses[..n])
  }

  lemma WhereStep(subjects: seq<string>, statuses: seq<Status>, n: nat, tag: Tag)
    requires n < |subjects| == |statuses|
    ensures Where(subjects[..n + 1], statuses[..n + 1], tag) ==
              Where(subjects[..n], statuses[..n], tag) + if TagOf(statuses[n]) == tag then [subjects[n]] else []
    ensures Attempted(subjects[..n + 1], statuses[..n + 1]) ==
              Attempted(subjects[..n], statuses[..n]) + if statuses[n].Skipped? then [] else [subjects[n]]
  {
    assert subjects[..n + 1][..n] == subjects[..n] && statuses[..n + 1][..n] == statuses[..n];
  }

  lemma SkipStep(subjects: seq<string>, statuses: seq<Status>, n: nat, registered: seq<string>,
                 failed: seq<Failure>, artifacts: seq<Artifact>, calls: seq<string>)
    requires n < |subjects| == |statuses| && Progress(subjects, statuses, n, registered, failed, artifacts, calls)
    requires statuses[n].Skipped?
    ensures Progress(subjects, statuses, n + 1, registered, failed, artifacts, calls)
  {
    WhereStep(subjects, statuses, n, TApplied);
    WhereStep(subjects, statuses, n, TFailed);
  }

  lemma ApplyStep(subjects: seq<string>, statuses: seq<Status>, n: nat, registered: seq<string>,
                  failed: seq<Failure>, artifacts: seq<Artifact>, calls: seq<string>)
    requires n < |subjects| == |statuses| && Progress(subjects, statuses, n, registered, failed, artifacts, calls)
    requires statuses[n].Applied? && statuses[n].artifact.subject == subjects[n]
    ensures Progress(subjects, statuses, n + 1, registered + [subjects[n]], failed,
                     artifacts + [statuses[n].artifact], calls + [subjects[n]])
  {
    WhereStep(subjects, statuses, n, TApplied);
    WhereStep(subjects, statuses, n, TFailed);
  }

  lemma FailStep(subjects: seq<string>, statuses: seq<Status>, n: nat, registered: seq<string>,
                 failed: seq<Failure>, artifacts: seq<Artifact>, calls: seq<string>)
    requires n < |subjects| == |statuses| && Progress(subjects, statuses, n, registered, failed, artifacts, calls)
    requires statuses[n].Failed?
    ensures Progress(subjects, statuses, n + 1, registered, failed + [Failure(subjects[n], statuses[n].error)],
                     artifacts, calls + [subjects[n]])
  {
    WhereStep(subjects, statuses, n, TApplied);
    WhereStep(subjects, statuses, n, TFailed);
    var mine := Failure(subjects[n], statuses[n].error);
    assert FailedSubjects(failed + [mine]) == FailedSubjects(failed) + [subjects[n]];
    forall k | 0 <= k < |failed + [mine]|
      ensures exists i :: 0 <= i < n + 1 && subjects[i] == (failed + [mine])[k].subject && statuses[i] == Failed((failed + [mine])[k].error)
    {
      if k == |failed| {
        assert subjects[n] == mine.subject && statuses[n] == Failed(mine.error);
      } else {
        var i :| 0 <= i < n && subjects[i] == failed[k].subject && statuses[i] == Failed(failed[k].error);
      }
    }
  }

  // The loop's lists, whatever publishing an event comes to.

  datatype Lists = Lists(registered: seq<string>, failed: seq<Failure>, artifacts: seq<Artifact>, calls: seq<string>)

  /** What the `except` of one item adds. */
  function Caught(subject: string, r: Result<()>): seq<Failure>
  {
    match r case Ok(_) => [] case Err(e) => [Failure(subject, e)]
  }

  /** One item: its subject is registered before the event is published, so a raise lists it as failed too. */
  function ItemStep(l: Lists, subject: string, status: Status, published: Result<()>): Lists
  {
    match status
    case Skipped => l
    case Failed(e) => Lists(l.registered, l.failed + [Failure(subject, e)], l.artifacts, l.calls + [subject])
    case Applied(a) =>
      Lists(l.registered + [subject], l.failed + Caught(subject, published), l.artifacts + [a], l.calls + [subject])
  }

  function RunItems(subjects: seq<string>, statuses: seq<Status>, published: Result<()>): Lists
    requires |subjects| == |statuses|
  {
    if subjects == [] then Lists([], [], [], [])
    else
      var n := |subjects| - 1;
      ItemStep(RunItems(subjects[..n], statuses[..n], published), subjects[n], statuses[n], published)
  }

  /** An item's artifact carries the item's subject. */
  ghost predicate OwnArtifacts(subjects: seq<string>, statuses: seq<Status>)
    requires |subjects| == |statuses|
  {
    forall i :: 0 <= i < |subjects| && statuses[i].Applied? ==> statuses[i].artifact.subject == subjects[i]
  }

  lemma {:induction false} RunArtifacts(subjects: seq<string>, statuses: seq<Status>, published: Result<()>)
    requires |subjects| == |statuses|
    ensures RunItems(subjects, statuses, published).artifacts == ArtifactsOf(statuses)
  {
    if subjects != [] { RunArtifacts(subjects[..|subjects| - 1], statuses[..|subjects| - 1], published); }
  }

  /** With a publish that never raises, the lists follow the statuses. */
  lemma {:induction false} RunFollowsStatuses(subjects: seq<string>, statuses: seq<Status>, n: nat)
    requires n <= |subjects| == |statuses| && OwnArtifacts(subjects, statuses)
    ensures var l := RunItems(subjects[..n], statuses[..n], Ok(()));
            Progress(subjects, statuses, n, l.registered, l.failed, l.artifacts, l.calls)
  {
    if n > 0 {
      RunFollowsStatuses(subjects, statuses, n - 1);
      var l := RunItems(subjects[..n - 1], statuses[..n - 1], Ok(()));
      assert subjects[..n][..n - 1] == subjects[..n - 1] && statuses[..n][..n - 1] == statuses[..n - 1];
      match statuses[n - 1]
      case Skipped => SkipStep(subjects, statuses, n - 1, l.registered, l.failed, l.artifacts, l.calls);
      case Applied(_) => ApplyStep(subjects, statuses, n - 1, l.registered, l.failed, l.artifacts, l.calls);
      case Failed(_) => FailStep(subjects, statuses, n - 1, l.registered, l.failed, l.artifacts, l.calls);
    }
  }

  /**
   The loop over the actionable items. Items follow the specs one for one and subjects are
   distinct, so looking a spec up by its item's subject finds the spec at the same index.
   */
  method ApplyItems(bus: EventBus, specs: seq<Spec>, items: seq<PlanItem<ChangeNote>>, outcomes: Outcomes)
    returns (registered: seq<string>, failed: seq<Failure>, artifacts: seq<Artifact>, calls: seq<string>)
    requires |specs| == |items|
    ensures Progress(Subjects(specs), Statuses(specs, items, outcomes), |specs|, registered, failed, artifacts, calls)
    ensures Lists(registered, failed, artifacts, calls) == RunItems(Subjects(specs), Statuses(specs, items, outcomes), Ok(()))
    ensures CallsTold(specs, items, calls) && ListsTold(specs, items, outcomes, registered, failed, artifacts)
  {
    registered, failed, artifacts, calls := [], [], [], [];
    ghost var subjects, statuses := Subjects(specs), Statuses(specs, items, outcomes);
    for n := 0 to |specs|
      invariant Lists(registered, failed, artifacts, calls) == RunItems(subjects[..n], statuses[..n], Ok(()))
    {
      var spec := specs[n];
      assert subjects[..n + 1][..n] == subjects[..n] && statuses[..n + 1][..n] == statuses[..n];
      if Actionable(spec, items[n]) {
        calls := calls + [spec.subject];
        match Attempt(spec, outcomes(spec.subject)) {
          case Failed(e) => failed := failed + [Failure(spec.subject, e)];
          case Applied(artifact) =>
            artifacts := artifacts + [artifact];
            registered := registered + [spec.subject];
            var published, _, _ := bus.Publish(SCHEMA_REGISTERED);
            failed := failed + Caught(spec.subject, published);
        }
      }
    }
    assert subjects[..|specs|] == subjects && statuses[..|specs|] == statuses;
    RunFollowsStatuses(subjects, statuses, |specs|);
    CallsFollow(specs, items, outcomes);
    ListsFollow(specs, items, outcomes);
  }

  method SkippedSubjects(specs: seq<Spec>, items: seq<PlanItem<ChangeNote>>, ghost outcomes: Outcomes) returns (skipped: seq<string>)
    requires |specs| == |items|
    ensures skipped == Where(Subjects(specs), Statuses(specs, items, outcomes), TSkipped)
    ensures SkippedTold(specs, items, skipped)
  {
    skipped := [];
    ghost var subjects, statuses := Subjects(specs), Statuses(specs, items, outcomes);
    for n := 0 to |specs|
      invariant skipped == Where(subjects[..n], statuses[..n], TSkipped)
    {
      WhereStep(subjects, statuses, n, TSkipped);
      if !Actionable(specs[n], items[n]) { skipped := skipped + [specs[n].subject]; }
    }
    assert subjects[..|specs|] == subjects && statuses[..|specs|] == statuses;
    SkippedFollow(specs, items, outcomes);
  }

  // ---------- conservation ----------

  lemma {:induction false} WhereMembers(subjects: seq<string>, statuses: seq<Status>, tag: Tag)
    requires |subjects| == |statuses|
    ensures forall s :: s in Where(subjects, statuses, tag) <==>
              exists i :: 0 <= i < |subjects| && subjects[i] == s && TagOf(statuses[i]) == tag
  {
    if subjects != [] {
      var n := |subjects| - 1;
      WhereMembers(subjects[..n], statuses[..n], tag);
      forall s ensures s in Where(subjects, statuses, tag) <==>
        exists i :: 0 <= i < |subjects| && subjects[i] == s && TagOf(statuses[i]) == tag
      {
        if i :| 0 <= i < |subjects| && subjects[i] == s && TagOf(statuses[i]) == tag {
          if i < n { assert subjects[..n][i] == s && statuses[..n][i] == statuses[i]; }
        }
      }
    }
  }

  function Occurrences(s: seq<string>, x: string): nat
  {
    if s == [] then 0 else Occurrences(s[..|s| - 1], x) + if s[|s| - 1] == x then 1 else 0
  }

  lemma {:induction false} OccurrencesCounted(s: seq<string>, x: string)
    ensures multiset(s)[x] == Occurrences(s, x)
  {
    if s != [] {
      var n := |s| - 1;
      OccurrencesCounted(s[..n], x);
      assert s == s[..n] + [s[n]];
    }
  }

  lemma OccurrencesAppended(s: seq<string>, y: string, x: string)
    ensures Occurrences(s + [y], x) == Occurrences(s, x) + if y == x then 1 else 0
  {
    assert (s + [y])[..|s|] == s;
  }

  /** The last item adds one occurrence of its subject, under its own tag. */
  lemma WhereLast(subjects: seq<string>, statuses: seq<Status>, tag: Tag, x: string)
    requires |subjects| == |statuses| && subjects != []
    ensures var n := |subjects| - 1;
            Occurrences(Where(subjects, statuses, tag), x) ==
              Occurrences(Where(subjects[..n], statuses[..n], tag), x) + if TagOf(statuses[n]) == tag && subjects[n] == x then 1 else 0
  {
    var n := |subjects| - 1;
    var w := Where(subjects[..n], statuses[..n], tag);
    if TagOf(statuses[n]) == tag {
      assert Where(subjects, statuses, tag) == w + [subjects[n]];
      OccurrencesAppended(w, subjects[n], x);
    } else {
      assert Where(subjects, statuses, tag) == w;
    }
  }

  lemma {:induction false} WhereOccurrences(subjects: seq<string>, statuses: seq<Status>, x: string)
    requires |subjects| == |statuses|
    ensures Occurrences(Where(subjects, statuses, TApplied), x) + Occurrences(Where(subjects, statuses, TFailed), x)
            + Occurrences(Where(subjects, statuses, TSkipped), x) == Occurrences(subjects, x)
  {
    if subjects != [] {
      var n := |subjects| - 1;
      WhereOccurrences(subjects[..n], statuses[..n], x);
      WhereLast(subjects, statuses, TApplied, x);
      WhereLast(subjects, statuses, TFailed, x);
      WhereLast(subjects, statuses, TSkipped, x);
    }
  }

  lemma WhereMultisets(subjects: seq<string>, statuses: seq<Status>)
    requires |subjects| == |statuses|
    ensures multiset(Where(subjects, statuses, TApplied)) + multiset(Where(subjects, statuses, TFailed))
            + multiset(Where(subjects, statuses, TSkipped)) == multiset(subjects)
  {
    var a, f, s := Where(subjects, statuses, TApplied), Where(subjects, statuses, TFailed), Where(subjects, statuses, TSkipped);
    forall x ensures (multiset(a) + multiset(f) + multiset(s))[x] == multiset(subjects)[x] {
      WhereOccurrences(subjects, statuses, x);
      OccurrencesCounted(a, x);
      OccurrencesCounted(f, x);
      OccurrencesCounted(s, x);
      OccurrencesCounted(subjects, x);
    }
  }

  lemma {:induction false} WhereCounts(subjects: seq<string>, statuses: seq<Status>)
    requires |subjects| == |statuses|
    ensures |Attempted(subjects, statuses)| ==
              |Where(subjects, statuses, TApplied)| + |Where(subjects, statuses, TFailed)|
    ensures |Attempted(subjects, statuses)| + |Where(subjects, statuses, TSkipped)| == |subjects|
  {
    if subjects != [] {
      var n := |subjects| - 1;
      WhereCounts(subjects[..n], statuses[..n]);
    }
  }

  ghost predicate Disjoint(a: seq<string>, b: seq<string>)
  {
    forall s :: s in a ==> s !in b
  }

  lemma WhereDisjoint(specs: seq<Spec>, statuses: seq<Status>, tag: Tag, tag': Tag)
    requires |specs| == |statuses| && DistinctSubjects(specs) && tag != tag'
    ensures Disjoint(Where(Subjects(specs), statuses, tag), Where(Subjects(specs), statuses, tag'))
  {
    WhereMembers(Subjects(specs), statuses, tag);
    WhereMembers(Subjects(specs), statuses, tag');
  }

  /**
   Whatever the calls return, every subject of the batch ends in exactly one of registered,
   failed and skipped, artifacts follow registered, and the summary's counts add up to the total.
   */
  lemma Conservation(specs: seq<Spec>, items: seq<PlanItem<ChangeNote>>, statuses: seq<Status>, r: ApplyResult)
    requires |specs| == |items| == |statuses| && DistinctSubjects(specs) && Reflects(specs, items, statuses, r)
    ensures multiset(r.registered) + multiset(FailedSubjects(r.failed)) + multiset(r.skipped) == multiset(Subjects(specs))
    ensures Disjoint(r.registered, FailedSubjects(r.failed)) && Disjoint(r.registered, r.skipped)
    ensures Disjoint(FailedSubjects(r.failed), r.skipped)
    ensures |r.registered| + |r.failed| + r.SkippedCount() == r.requestedTotal == |specs|
    ensures r.SkippedCount() == |r.skipped|
  {
    WhereMultisets(Subjects(specs), statuses);
    WhereCounts(Subjects(specs), statuses);
    WhereDisjoint(specs, statuses, TApplied, TFailed);
    WhereDisjoint(specs, statuses, TApplied, TSkipped);
    WhereDisjoint(specs, statuses, TFailed, TSkipped);
  }

  // ---------- what catching the subscribers' exceptions is for ----------

  /** A publish that lets the first raising subscriber's exception through. */
  function FirstRaised(handlers: seq<Handler>): Result<()>
  {
    if handlers == [] then Ok(())
    else match Call(handlers[0]) case Err(e) => Err(e) case Ok(_) => FirstRaised(handlers[1..])
  }

  lemma {:induction false} FirstRaisedMeaning(handlers: seq<Handler>)
    ensures FirstRaised(handlers).Err? <==> exists i :: 0 <= i < |handlers| && handlers[i].raises.Some?
  {
    if handlers != [] && handlers[0].raises.None? {
      FirstRaisedMeaning(handlers[1..]);
      if i :| 0 <= i < |handlers| && handlers[i].raises.Some? {
        assert handlers[1..][i - 1] == handlers[i];
      }
    }
  }

  ghost predicate Failing(status: Status, published: Result<()>)
  {
    status.Failed? || (status.Applied? && published.Err?)
  }

  lemma {:induction false} RunMembers(subjects: seq<string>, statuses: seq<Status>, published: Result<()>, s: string)
    requires |subjects| == |statuses|
    ensures s in RunItems(subjects, statuses, published).registered
       <==> exists i :: 0 <= i < |subjects| && subjects[i] == s && statuses[i].Applied?
    ensures s in FailedSubjects(RunItems(subjects, statuses, published).failed)
       <==> exists i :: 0 <= i < |subjects| && subjects[i] == s && Failing(statuses[i], published)
  {
    if subjects != [] {
      var n := |subjects| - 1;
      RunMembers(subjects[..n], statuses[..n], published, s);
      var l := RunItems(subjects[..n], statuses[..n], published);
      var l' := RunItems(subjects, statuses, published);
      assert l'.failed == l.failed || FailedSubjects(l'.failed) == FailedSubjects(l.failed) + [subjects[n]];
      assert forall i :: 0 <= i < n ==> subjects[..n][i] == subjects[i] && statuses[..n][i] == statuses[i];
    }
  }

  lemma OverlapNeedsRaise(specs: seq<Spec>, statuses: seq<Status>, published: Result<()>, s: string)
    requires |specs| == |statuses| && DistinctSubjects(specs)
    requires s in RunItems(Subjects(specs), statuses, published).registered
    ensures exists i :: 0 <= i < |specs| && statuses[i].Applied?
    ensures s in FailedSubjects(RunItems(Subjects(specs), statuses, published).failed) <==> published.Err?
  {
    var subjects := Subjects(specs);
    RunMembers(subjects, statuses, published, s);
    var i :| 0 <= i < |subjects| && subjects[i] == s && statuses[i].Applied?;
    assert forall j :: 0 <= j < |subjects| && subjects[j] == s ==> specs[j].subject == specs[i].subject;
  }

  /**
   If publishing raised the first subscriber's exception, a subject would be both registered and
   failed exactly when some item is applied and some subscriber raises.
   */
  lemma EscapingPublishOverlapsExactly(specs: seq<Spec>, statuses: seq<Status>, handlers: seq<Handler>)
    requires |specs| == |statuses| && DistinctSubjects(specs)
    ensures Overlaps(RunItems(Subjects(specs), statuses, FirstRaised(handlers)))
       <==> && (exists i :: 0 <= i < |specs| && statuses[i].Applied?)
            && (exists i :: 0 <= i < |handlers| && handlers[i].raises.Some?)
  {
    var published := FirstRaised(handlers);
    var l := RunItems(Subjects(specs), statuses, published);
    FirstRaisedMeaning(handlers);
    if i :| 0 <= i < |specs| && statuses[i].Applied? {
      RunMembers(Subjects(specs), statuses, published, Subjects(specs)[i]);
      OverlapNeedsRaise(specs, statuses, published, Subjects(specs)[i]);
    }
    if s :| s in l.registered && s in FailedSubjects(l.failed) {
      OverlapNeedsRaise(specs, statuses, published, s);
    }
  }

  ghost predicate Overlaps(l: Lists)
  {
    exists s :: s in l.registered && s in FailedSubjects(l.failed)
  }

  // ---------- details ----------

  /** `failed_by_subject.get(subject)`: the last error recorded for the subject. */
  function ErrorFor(failed: seq<Failure>, subject: string): Option<string>
  {
    if failed == [] then None
    else if failed[|failed| - 1].subject == subject then Some(failed[|failed| - 1].error)
    else ErrorFor(failed[..|failed| - 1], subject)
  }

  lemma {:induction false} ErrorForFound(failed: seq<Failure>, subject: string)
    ensures ErrorFor(failed, subject).Some? <==> subject in FailedSubjects(failed)
    ensures ErrorFor(failed, subject).Some? ==> Failure(subject, ErrorFor(failed, subject).value) in failed
  {
    if failed != [] {
      var front, last := failed[..|failed| - 1], failed[|failed| - 1];
      ErrorForFound(front, subject);
      assert FailedSubjects(failed) == FailedSubjects(front) + [last.subject];
    }
  }

  function DetailFor(spec: Spec, item: PlanItem<ChangeNote>, registered: seq<string>, failed: seq<Failure>): Detail
  {
    var error := ErrorFor(failed, spec.subject);
    Detail(spec.subject, item.action,
           if spec.subject in registered then "applied" else if error.Some? then "failed" else "skipped",
           spec.reason, error)
  }

  lemma DetailAgrees(specs: seq<Spec>, items: seq<PlanItem<ChangeNote>>, statuses: seq<Status>, n: nat,
                     registered: seq<string>, failed: seq<Failure>, artifacts: seq<Artifact>, calls: seq<string>)
    requires |specs| == |items| == |statuses| && n < |specs| && DistinctSubjects(specs)
    requires Progress(Subjects(specs), statuses, |specs|, registered, failed, artifacts, calls)
    ensures DetailFor(specs[n], items[n], registered, failed) ==
              Detail(specs[n].subject, items[n].action, StatusWord(statuses[n]), specs[n].reason, ErrorOf(statuses[n]))
  {
    var subjects := Subjects(specs);
    assert subjects[..|specs|] == subjects && statuses[..|specs|] == statuses;
    WhereAt(specs, statuses, TApplied, n);
    WhereAt(specs, statuses, TFailed, n);
    ErrorForFound(failed, specs[n].subject);
    if ErrorFor(failed, specs[n].subject).Some? {
      ErrorAt(specs, statuses, n, failed, ErrorFor(failed, specs[n].subject).value);
    }
  }

  /** Subjects are distinct, so a subject is listed under a tag exactly when its own status has that tag. */
  lemma WhereAt(specs: seq<Spec>, statuses: seq<Status>, tag: Tag, n: nat)
    requires n < |specs| == |statuses| && DistinctSubjects(specs)
    ensures specs[n].subject in Where(Subjects(specs), statuses, tag) <==> TagOf(statuses[n]) == tag
  {
    WhereMembers(Subjects(specs), statuses, tag);
    assert Subjects(specs)[n] == specs[n].subject;
  }

  lemma ErrorAt(specs: seq<Spec>, statuses: seq<Status>, n: nat, failed: seq<Failure>, error: string)
    requires n < |specs| == |statuses| && DistinctSubjects(specs)
    requires Failure(specs[n].subject, error) in failed
    requires forall k :: 0 <= k < |failed| ==>
               exists i :: 0 <= i < |specs| && Subjects(specs)[i] == failed[k].subject && statuses[i] == Failed(failed[k].error)
    ensures statuses[n] == Failed(error)
  {
  }

  /** `_build_result_details` */
  method BuildDetails(specs: seq<Spec>, items: seq<PlanItem<ChangeNote>>, registered: seq<string>, failed: seq<Failure>)
    returns (details: seq<Detail>)
    requires |specs| == |items|
    ensures |details| == |specs|
    ensures forall i :: 0 <= i < |specs| ==> details[i] == DetailFor(specs[i], items[i], registered, failed)
  {
    details := [];
    for n := 0 to |specs|
      invariant |details| == n
      invariant forall i :: 0 <= i < n ==> details[i] == DetailFor(specs[i], items[i], registered, failed)
    {
      details := details + [DetailFor(specs[n], items[n], registered, failed)];
    }
  }

  // ---------- execute ----------

  /**
   Which of the calls around the plan raise: the audit log's three writes, the connection, the two
   writes to the metadata store, and the approval request made when an override is missing.
   */
  datatype Faults = Faults(auditStarted: bool, connect: bool, savePlan: bool, saveResult: bool,
                           auditCompleted: bool, request: bool, auditFailed: bool)

  datatype Error =
    | AuditFailed | Unreachable | PlanFailed | PackFailed | StoreFailed
    | PolicyBlocked | ApprovalMissing | RequestFailed | CannotApply

  datatype Outcome = Done(result: ApplyResult) | Raised(error: Error)

  /** The plan that is stored and judged: the planner's draft with the policy pack's verdict. */
  datatype JudgedPlan = JudgedPlan(draft: PolicyPack.Draft, violations: seq<Violation>, rules: seq<PolicyPack.Rule>)

  /** The plan is one the planner makes for the batch, judged by the policy pack. */
  ghost predicate IsJudged(batch: Batch, world: World, plan: JudgedPlan)
  {
    && IsDraft(batch, world, plan.draft)
    && PolicyPack.Evaluate(batch.env, batch.specs, plan.draft) == Some(PolicyPack.PackResult(plan.violations, plan.rules))
  }

  /** What must hold before anything is registered. */
  ghost predicate Cleared(plan: JudgedPlan, overridden: bool)
  {
    && PolicyPack.AllCompatible(plan.draft.reports)
    && !PolicyPack.Blocking(plan.rules)
    && (PolicyPack.HasApprovalRule(plan.rules) ==> overridden)
  }

  /**
   A batch is cleared exactly when every report is compatible, no violation is an error, no item is
   forbidden, and an override is there if some item is delicate.
   */
  lemma ClearedExactly(batch: Batch, world: World, plan: JudgedPlan, overridden: bool)
    requires IsJudged(batch, world, plan)
    ensures Cleared(plan, overridden) <==>
              && (forall i :: 0 <= i < |plan.draft.reports| ==> plan.draft.reports[i].isCompatible)
              && (forall i :: 0 <= i < |plan.draft.violations| ==> Lower(plan.draft.violations[i].severity) != "error")
              && (forall i :: 0 <= i < |batch.specs| ==> !PolicyPack.Forbidden(batch.env, batch.specs[i], plan.draft.items[i]))
              && ((exists i :: 0 <= i < |batch.specs| && PolicyPack.Delicate(batch.env, batch.specs[i], plan.draft.items[i])) ==> overridden)
  {
    PolicyPack.BlockingMeaning(batch.env, batch.specs, plan.draft);
    PolicyPack.ApprovalMeaning(batch.env, batch.specs, plan.draft);
    PolicyPack.CustomRulesMeaning(batch.env, batch.specs, plan.draft.items);
  }

  method Judge(batch: Batch, draft: PolicyPack.Draft) returns (r: Option<JudgedPlan>)
    requires |batch.specs| == |draft.items|
    ensures r.None? <==> PolicyPack.Evaluate(batch.env, batch.specs, draft).None?
    ensures r.Some? ==> r.value.draft == draft
    ensures r.Some? ==>
              PolicyPack.Evaluate(batch.env, batch.specs, draft) == Some(PolicyPack.PackResult(r.value.violations, r.value.rules))
  {
    var custom := PolicyPack.BuildCustomRules(batch.env, batch.specs, draft.items);
    if custom.None? { return None; }
    var added := PolicyPack.CompatibilityRules(draft.reports) + custom.value;
    return Some(JudgedPlan(draft,
                           draft.violations + PolicyPack.Generated(added, PolicyPack.Codes(draft.violations)),
                           PolicyPack.RulesFromViolations(draft.violations) + added));
  }

  /** The batch is planned and judged: nothing raises before the plan is stored. */
  ghost predicate Judgeable(batch: Batch, world: World, faults: Faults)
  {
    && !faults.auditStarted && !faults.connect && Plannable(batch, world)
    && forall i :: 0 <= i < |batch.specs| ==> !Unreadable(world, batch.specs[i])
  }

  /** The plan is judged and stored, and nothing in it stops the run. */
  ghost predicate Goes(plan: Option<JudgedPlan>, overridden: bool, faults: Faults)
  {
    plan.Some? && !faults.savePlan && Cleared(plan.value, overridden)
  }

  /** The `except` clauses: asking for approval and logging the failure may raise in place of the error. */
  function Escaping(e: Error, faults: Faults): Error
  {
    if e == ApprovalMissing && faults.request then RequestFailed
    else if faults.auditFailed then AuditFailed
    else e
  }

  /**
   `SchemaBatchApplyUseCase.execute`. `plan` is the judged plan, once there is one; `calls` logs the
   subjects `register_schema` is called for.
   */
  method Execute(bus: EventBus, batch: Batch, world: World, overridden: bool, faults: Faults, outcomes: Outcomes)
    returns (outcome: Outcome, plan: Option<JudgedPlan>, calls: seq<string>)
    requires DistinctSubjects(batch.specs)
    ensures plan.Some? <==> Judgeable(batch, world, faults)
    ensures plan.Some? ==> IsJudged(batch, world, plan.value) && PlanTold(batch, world, plan.value.draft)
    ensures calls != [] ==> AllAnswered(batch, world)
    ensures calls == if Goes(plan, overridden, faults)
                     then Attempted(Subjects(batch.specs), Statuses(batch.specs, plan.value.draft.items, outcomes))
                     else []
    ensures if Goes(plan, overridden, faults) then CallsTold(batch.specs, plan.value.draft.items, calls) else calls == []
    ensures outcome.Done? <==> Goes(plan, overridden, faults) && !faults.saveResult && !faults.auditCompleted
    ensures outcome.Done? ==>
              Reflects(batch.specs, plan.value.draft.items, Statuses(batch.specs, plan.value.draft.items, outcomes), outcome.result)
    ensures outcome.Done? ==> ResultTold(batch.specs, plan.value.draft.items, outcomes, outcome.result)
    ensures outcome != Raised(CannotApply)
    ensures outcome == Raised(PolicyBlocked) <==>
              plan.Some? && !faults.savePlan && PolicyPack.Blocking(plan.value.rules) && !faults.auditFailed
    ensures outcome == Raised(ApprovalMissing) <==>
              && plan.Some? && !faults.savePlan && PolicyPack.NeedsApproval(plan.value.rules) && !overridden
              && !faults.request && !faults.auditFailed
  {
    if faults.auditStarted { return Raised(AuditFailed), None, []; }
    outcome, plan, calls := TryApply(bus, batch, world, overridden, faults, outcomes);
    match outcome {
      case Done(_) =>
      case Raised(e) => outcome := Raised(Escaping(e, faults));
    }
  }

  /** The registry finds every schema of the batch compatible. */
  ghost predicate AllAnswered(batch: Batch, world: World)
  {
    forall i :: 0 <= i < |batch.specs| ==> world.answers(batch.specs[i].subject) == Answered(true)
  }

  lemma CompatibleIsAnswered(batch: Batch, world: World, draft: PolicyPack.Draft)
    requires PlanTold(batch, world, draft) && PolicyPack.AllCompatible(draft.reports)
    ensures AllAnswered(batch, world)
  {
    forall i | 0 <= i < |batch.specs| ensures world.answers(batch.specs[i].subject) == Answered(true) {
      assert ReportTold(world, batch.specs[i], draft.reports[i]);
    }
  }

  /** The `try` block of `execute`. */
  method TryApply(bus: EventBus, batch: Batch, world: World, overridden: bool, faults: Faults, outcomes: Outcomes)
    returns (outcome: Outcome, plan: Option<JudgedPlan>, calls: seq<string>)
    requires DistinctSubjects(batch.specs) && !faults.auditStarted
    ensures plan.Some? <==> Judgeable(batch, world, faults)
    ensures plan.Some? ==> IsJudged(batch, world, plan.value) && PlanTold(batch, world, plan.value.draft)
    ensures calls != [] ==> AllAnswered(batch, world)
    ensures calls == if Goes(plan, overridden, faults)
                     then Attempted(Subjects(batch.specs), Statuses(batch.specs, plan.value.draft.items, outcomes))
                     else []
    ensures if Goes(plan, overridden, faults) then CallsTold(batch.specs, plan.value.draft.items, calls) else calls == []
    ensures outcome.Done? <==> Goes(plan, overridden, faults) && !faults.saveResult && !faults.auditCompleted
    ensures outcome.Done? ==>
              Reflects(batch.specs, plan.value.draft.items, Statuses(batch.specs, plan.value.draft.items, outcomes), outcome.result)
    ensures outcome.Done? ==> ResultTold(batch.specs, plan.value.draft.items, outcomes, outcome.result)
    ensures outcome != Raised(CannotApply) && outcome != Raised(RequestFailed)
    ensures outcome == Raised(PolicyBlocked) <==> plan.Some? && !faults.savePlan && PolicyPack.Blocking(plan.value.rules)
    ensures outcome == Raised(ApprovalMissing) <==>
              plan.Some? && !faults.savePlan && PolicyPack.NeedsApproval(plan.value.rules) && !overridden
  {
    calls := [];
    var error;
    plan, error := Prepare(batch, world, faults);
    if plan.None? { return Raised(error), plan, []; }
    if faults.savePlan { return Raised(StoreFailed), plan, []; }
    outcome, calls := RunPlan(bus, batch, world, plan.value, overridden, faults, outcomes);
  }

  /** Its beginning: the connection, the planner and the policy pack. */
  method Prepare(batch: Batch, world: World, faults: Faults) returns (plan: Option<JudgedPlan>, error: Error)
    requires !faults.auditStarted
    ensures plan.Some? <==> Judgeable(batch, world, faults)
    ensures plan.Some? ==> IsJudged(batch, world, plan.value) && PlanTold(batch, world, plan.value.draft)
    ensures error in {Unreachable, PlanFailed, PackFailed}
  {
    if faults.connect { return None, Unreachable; }
    var draft := CreatePlan(batch, world);
    if draft.None? { return None, PlanFailed; }
    PackRaisesExactly(batch, world, draft.value);
    plan := Judge(batch, draft.value);
    return plan, PackFailed;
  }

  /** Its end, once the plan is stored: both gates, the items, and storing the result. */
  method RunPlan(bus: EventBus, batch: Batch, world: World, judged: JudgedPlan, overridden: bool, faults: Faults, outcomes: Outcomes)
    returns (outcome: Outcome, calls: seq<string>)
    requires DistinctSubjects(batch.specs) && IsJudged(batch, world, judged)
    ensures calls == if Cleared(judged, overridden)
                     then Attempted(Subjects(batch.specs), Statuses(batch.specs, judged.draft.items, outcomes))
                     else []
    ensures if Cleared(judged, overridden) then CallsTold(batch.specs, judged.draft.items, calls) else calls == []
    ensures calls != [] ==> AllAnswered(batch, world)
    ensures outcome.Done? <==> Cleared(judged, overridden) && !faults.saveResult && !faults.auditCompleted
    ensures outcome.Done? ==>
              Reflects(batch.specs, judged.draft.items, Statuses(batch.specs, judged.draft.items, outcomes), outcome.result)
    ensures outcome.Done? ==> ResultTold(batch.specs, judged.draft.items, outcomes, outcome.result)
    ensures outcome.Raised? ==> outcome.error in {PolicyBlocked, ApprovalMissing, StoreFailed, AuditFailed}
    ensures outcome == Raised(PolicyBlocked) <==> PolicyPack.Blocking(judged.rules)
    ensures outcome == Raised(ApprovalMissing) <==> PolicyPack.NeedsApproval(judged.rules) && !overridden
  {
    PolicyPack.BlockingMeaning(batch.env, batch.specs, judged.draft);
    GatesAgreeOnDrafts(batch, world, judged.draft);
    match PolicyPack.EnsureApproval(judged.rules, overridden) {
      case Blocked => return Raised(PolicyBlocked), [];
      case NeedsOverride => return Raised(ApprovalMissing), [];
      case Passed =>
    }
    if !PolicyPack.CanApply(judged.draft.reports, judged.violations) { return Raised(CannotApply), []; }

    var result;
    result, calls := ApplyJudged(bus, batch.specs, judged.draft.items, outcomes);
    DraftMeaning(batch, world, judged.draft);
    CompatibleIsAnswered(batch, world, judged.draft);
    if faults.saveResult { return Raised(StoreFailed), calls; }
    if faults.auditCompleted { return Raised(AuditFailed), calls; }
    return Done(result), calls;
  }

  /** The part of `execute` after both gates. */
  method ApplyJudged(bus: EventBus, specs: seq<Spec>, items: seq<PlanItem<ChangeNote>>, outcomes: Outcomes)
    returns (result: ApplyResult, calls: seq<string>)
    requires |specs| == |items| && DistinctSubjects(specs)
    ensures Reflects(specs, items, Statuses(specs, items, outcomes), result)
    ensures ResultTold(specs, items, outcomes, result) && CallsTold(specs, items, calls)
    ensures calls == Attempted(Subjects(specs), Statuses(specs, items, outcomes))
  {
    var skipped := SkippedSubjects(specs, items, outcomes);
    var registered, failed, artifacts, attempted := ApplyItems(bus, specs, items, outcomes);
    var details := BuildDetails(specs, items, registered, failed);
    ghost var statuses := Statuses(specs, items, outcomes);
    RunArtifacts(Subjects(specs), statuses, Ok(()));
    assert Subjects(specs)[..|specs|] == Subjects(specs) && statuses[..|specs|] == statuses;
    forall n | 0 <= n < |specs|
      ensures details[n] == Detail(specs[n].subject, items[n].action, StatusWord(statuses[n]), specs[n].reason, ErrorOf(statuses[n]))
    {
      DetailAgrees(specs, items, statuses, n, registered, failed, artifacts, attempted);
    }
    forall n | 0 <= n < |specs| ensures DetailTold(specs[n], items[n], outcomes(specs[n].subject), details[n]) {
      DetailFollows(specs, items, outcomes, n);
    }
    return ApplyResult(registered, skipped, failed, artifacts, |specs|, |attempted|, details), attempted;
  }

  // ---------- applying again ----------

  /** Afterwards the registry holds what was sent for an applied item, and is as before for a skipped one. */
  ghost predicate Settled(spec: Spec, status: Status, before: World, after: World)
  {
    match status
    case Failed(_) => false
    case Skipped => InfoOf(after, spec.subject) == InfoOf(before, spec.subject)
    case Applied(_) =>
      && spec.schema.Some? && spec.schema.value.Cons? && spec.schema.value.head != CanonicalText.BOM
      && spec.subject in after.view && HoldsRegistered(spec, after.view[spec.subject])
  }

  /** A second run skips every settled subject, whatever became of the rest of the batch. */
  lemma ReapplySkips(batch: Batch, before: World, draft: PolicyPack.Draft, outcomes: Outcomes,
                     after: World, draft': PolicyPack.Draft, outcomes': Outcomes, i: nat)
    requires IsDraft(batch, before, draft) && IsDraft(batch, after, draft') && i < |batch.specs|
    requires Settled(batch.specs[i], StatusOf(batch.specs[i], draft.items[i], outcomes), before, after)
    ensures StatusOf(batch.specs[i], draft'.items[i], outcomes') == Skipped
  {
    var spec := batch.specs[i];
    assert IsPlanItem(InfoOf(before, spec.subject), spec, draft.items[i]);
    assert IsPlanItem(InfoOf(after, spec.subject), spec, draft'.items[i]);
    SettledIsSkipped(spec, draft.items[i], outcomes, before, draft'.items[i], outcomes', after);
  }

  lemma SettledIsSkipped(spec: Spec, item: PlanItem<ChangeNote>, outcomes: Outcomes, before: World,
                         item': PlanItem<ChangeNote>, outcomes': Outcomes, after: World)
    requires item.action == DeterminePlanAction(InfoOf(before, spec.subject), spec)
    requires item'.action == DeterminePlanAction(InfoOf(after, spec.subject), spec)
    requires Settled(spec, StatusOf(spec, item, outcomes), before, after)
    ensures StatusOf(spec, item', outcomes') == Skipped
  {
    if StatusOf(spec, item, outcomes).Applied? {
      ReplanIsNoActionExactly(spec, after.view[spec.subject]);
    }
  }

  /** Applying the same batch again makes register calls only for subjects the first run left unsettled. */
  lemma ReapplyRegistersOnlyUnsettled(batch: Batch, before: World, draft: PolicyPack.Draft, outcomes: Outcomes,
                                      after: World, draft': PolicyPack.Draft, outcomes': Outcomes, s: string)
    requires IsDraft(batch, before, draft) && IsDraft(batch, after, draft')
    requires s in Attempted(Subjects(batch.specs), Statuses(batch.specs, draft'.items, outcomes'))
    ensures exists i :: 0 <= i < |batch.specs| && batch.specs[i].subject == s
                        && !Settled(batch.specs[i], StatusOf(batch.specs[i], draft.items[i], outcomes), before, after)
  {
    var second := Statuses(batch.specs, draft'.items, outcomes');
    AttemptedMembers(Subjects(batch.specs), second, s);
    var i :| 0 <= i < |batch.specs| && Subjects(batch.specs)[i] == s && !second[i].Skipped?;
    if Settled(batch.specs[i], StatusOf(batch.specs[i], draft.items[i], outcomes), before, after) {
      ReapplySkips(batch, before, draft, outcomes, after, draft', outcomes', i);
    }
  }

  /** So after a run that settled every subject, the second run registers nothing. */
  lemma ReapplyRegistersNothing(batch: Batch, before: World, draft: PolicyPack.Draft, outcomes: Outcomes,
                                after: World, draft': PolicyPack.Draft, outcomes': Outcomes)
    requires IsDraft(batch, before, draft) && IsDraft(batch, after, draft')
    requires forall i :: 0 <= i < |batch.specs| ==>
               Settled(batch.specs[i], StatusOf(batch.specs[i], draft.items[i], outcomes), before, after)
    ensures Attempted(Subjects(batch.specs), Statuses(batch.specs, draft'.items, outcomes')) == []
  {
    var attempted := Attempted(Subjects(batch.specs), Statuses(batch.specs, draft'.items, outcomes'));
    if attempted != [] {
      ReapplyRegistersOnlyUnsettled(batch, before, draft, outcomes, after, draft', outcomes', attempted[0]);
    }
  }
}
