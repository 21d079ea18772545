/** Plans in the database: the JSON column a plan is written to, and the plan read back from it. */
module PlanStore {
  import opened Prelude
  import opened Models
  import CanonicalText
  import PolicyPack

  /** The Python data of a JSON column. */
  datatype Data =
    | DNone
    | DBool(b: bool)
    | DInt(n: int)
    | DText(s: string)
    | DList(items: seq<Data>)
    | DDict(entries: map<string, Data>)

  /** `DomainSchemaPlan`; change lines are texts here. */
  datatype Plan = Plan(
    changeId: string,
    env: Environment,
    items: seq<PlanItem<string>>,
    reports: seq<Report>,
    impacts: seq<Impact>,
    violations: seq<Violation>,
    risk: Option<map<string, string>>,
    approval: Option<map<string, string>>,
    evaluation: Option<seq<PolicyPack.Rule>>,
    requestedTotal: Option<int>,
    actorContext: Option<map<string, string>>)

  // ---------- serialising ----------

  function OfText(s: Option<string>): Data
  {
    match s case None => DNone case Some(t) => DText(t)
  }

  function OfInt(n: Option<int>): Data
  {
    match n case None => DNone case Some(i) => DInt(i)
  }

  function OfContext(c: Option<map<string, string>>): Data
  {
    match c
    case None => DNone
    case Some(m) => DDict(map k | k in m :: DText(m[k]))
  }

  function KindValue(k: DiffKind): string
  {
    match k
    case NewRegistrationDiff => "new_registration"
    case UpdateDiff => "update"
    case NoChangeDiff => "no_change"
  }

  function Map<A, B>(f: A -> B, s: seq<A>): (r: seq<B>)
    ensures |r| == |s| && forall i :: 0 <= i < |s| ==> r[i] == f(s[i])
  {
    if s == [] then [] else [f(s[0])] + Map(f, s[1..])
  }

  function OfDiff(d: Diff<string>): Data
  {
    DDict(map[
      "type" := DText(KindValue(d.kind)),
      "changes" := DList(Map((c: string) => DText(c), d.changes)),
      "current_version" := OfInt(d.currentVersion),
      "target_compatibility" := DText(ModeValue(d.targetCompatibility)),
      "schema_type" := OfText(if d.schemaType.None? then None else Some(TypeValue(d.schemaType.value)))])
  }

  function OfItem(item: PlanItem<string>): Data
  {
    DDict(map[
      "subject" := DText(item.subject),
      "action" := DText(ActionValue(item.action)),
      "current_version" := OfInt(item.currentVersion),
      "target_version" := OfInt(item.targetVersion),
      "reason" := OfText(item.reason),
      "diff" := OfDiff(item.diff)])
  }

  function OfIssue(i: Issue): Data
  {
    DDict(map["path" := DText(i.path), "message" := DText(i.message), "issue_type" := DText(i.issueType)])
  }

  function OfReport(r: Report): Data
  {
    DDict(map[
      "subject" := DText(r.subject),
      "mode" := DText(ModeValue(r.mode)),
      "is_compatible" := DBool(r.isCompatible),
      "issues" := DList(Map((i: Issue) => OfIssue(i), r.issues))])
  }

  function OfImpact(i: Impact): Data
  {
    DDict(map["subject" := DText(i.subject), "status" := DText(i.status), "error_message" := OfText(i.errorMessage)])
  }

  /** The `plan_data` column. */
  function Encode(p: Plan): Data
  {
    DDict(map[
      "change_id" := DText(p.changeId),
      "env" := DText(EnvValue(p.env)),
      "items" := DList(Map((i: PlanItem<string>) => OfItem(i), p.items)),
      "compatibility_reports" := DList(Map((r: Report) => OfReport(r), p.reports)),
      "impacts" := DList(Map((i: Impact) => OfImpact(i), p.impacts)),
      "actor_context" := OfContext(p.actorContext)])
  }

  // ---------- deserialising; None is an exception ----------

  /** `d[key]`. */
  function At(d: Data, key: string): Option<Data>
  {
    if d.DDict? && key in d.entries then Some(d.entries[key]) else None
  }

  /** `d.get(key, otherwise)`. */
  function AtOr(d: Data, key: string, otherwise: Data): Option<Data>
  {
    if !d.DDict? then None else if key in d.entries then Some(d.entries[key]) else Some(otherwise)
  }

  function ToText(d: Data): Option<string> { if d.DText? then Some(d.s) else None }

  function ToBool(d: Data): Option<bool> { if d.DBool? then Some(d.b) else None }

  function ToList(d: Data): Option<seq<Data>> { if d.DList? then Some(d.items) else None }

  function ToOptText(d: Data): Option<Option<string>>
  {
    if d.DNone? then Some(None) else if d.DText? then Some(Some(d.s)) else None
  }

  function ToOptInt(d: Data): Option<Option<int>>
  {
    if d.DNone? then Some(None) else if d.DInt? then Some(Some(d.n)) else None
  }

  function ToContext(d: Data): Option<Option<map<string, string>>>
  {
    if d.DNone? then Some(None)
    else if d.DDict? && forall k :: k in d.entries ==> d.entries[k].DText?
    then Some(Some(map k | k in d.entries :: d.entries[k].s))
    else None
  }

  function ToKind(s: string): (r: Option<DiffKind>)
    ensures forall k :: r == Some(k) <==> KindValue(k) == s
  {
    if s == "new_registration" then Some(NewRegistrationDiff)
    else if s == "update" then Some(UpdateDiff)
    else if s == "no_change" then Some(NoChangeDiff)
    else None
  }

  function ToType(s: Option<string>): (r: Option<Option<CanonicalText.SchemaType>>)
    ensures s.None? ==> r == Some(None)
    ensures s.Some? ==> forall t :: r == Some(Some(t)) <==> TypeValue(t) == s.value
  {
    match s
    case None => Some(None)
    case Some(t) =>
      if t == "AVRO" then Some(Some(CanonicalText.AVRO))
      else if t == "JSON" then Some(Some(CanonicalText.JSON))
      else if t == "PROTOBUF" then Some(Some(CanonicalText.PROTOBUF))
      else None
  }

  function All<A, B>(f: A -> Option<B>, s: seq<A>): Option<seq<B>>
  {
    if s == [] then Some([])
    else
      var x :- f(s[0]);
      var rest :- All(f, s[1..]);
      Some([x] + rest)
  }

  function ToDiff(d: Data): Option<Diff<string>>
  {
    var kindData :- At(d, "type");
    var kindText :- ToText(kindData);
    var kind :- ToKind(kindText);
    var changesData :- At(d, "changes");
    var changesList :- ToList(changesData);
    var changes :- All((c: Data) => ToText(c), changesList);
    var versionData :- At(d, "current_version");
    var version :- ToOptInt(versionData);
    var modeData :- At(d, "target_compatibility");
    var modeText :- ToText(modeData);
    var mode :- ModeOf(modeText);
    var typeData :- AtOr(d, "schema_type", DNone);
    var typeText :- ToOptText(typeData);
    var schemaType :- ToType(typeText);
    Some(Diff(kind, changes, version, mode, schemaType))
  }

  /** A plan item without its schema texts, which are not stored. */
  function ToItem(d: Data): Option<PlanItem<string>>
  {
    var subjectData :- At(d, "subject");
    var subject :- ToText(subjectData);
    var actionData :- At(d, "action");
    var actionText :- ToText(actionData);
    var action :- ActionOf(actionText);
    var currentData :- At(d, "current_version");
    var current :- ToOptInt(currentData);
    var targetData :- At(d, "target_version");
    var target :- ToOptInt(targetData);
    var diffData :- At(d, "diff");
    var diff :- ToDiff(diffData);
    var reasonData :- AtOr(d, "reason", DNone);
    var reason :- ToOptText(reasonData);
    Some(PlanItem(subject, action, current, target, diff, None, None, reason))
  }

  function ToIssue(d: Data): Option<Issue>
  {
    var pathData :- At(d, "path");
    var path :- ToText(pathData);
    var messageData :- At(d, "message");
    var message :- ToText(messageData);
    var typeData :- At(d, "issue_type");
    var issueType :- ToText(typeData);
    Some(Issue(path, message, issueType))
  }

  function ToReport(d: Data): Option<Report>
  {
    var subjectData :- At(d, "subject");
    var subject :- ToText(subjectData);
    var modeData :- At(d, "mode");
    var modeText :- ToText(modeData);
    var mode :- ModeOf(modeText);
    var compatibleData :- At(d, "is_compatible");
    var compatible :- ToBool(compatibleData);
    var issuesData :- At(d, "issues");
    var issuesList :- ToList(issuesData);
    var issues :- All((i: Data) => ToIssue(i), issuesList);
    Some(Report(subject, mode, compatible, issues))
  }

  function ToImpact(d: Data): Option<Impact>
  {
    var subjectData :- At(d, "subject");
    var subject :- ToText(subjectData);
    var statusData :- AtOr(d, "status", DText("success"));
    var status :- ToText(statusData);
    var errorData :- AtOr(d, "error_message", DNone);
    var error :- ToOptText(errorData);
    Some(Impact(subject, status, error))
  }

  /** `get_plan`, from the `plan_data` column on. */
  function Decode(d: Data): Option<Plan>
  {
    var itemsData :- At(d, "items");
    var itemsList :- ToList(itemsData);
    var items :- All((i: Data) => ToItem(i), itemsList);
    var reportsData :- AtOr(d, "compatibility_reports", DList([]));
    var reportsList :- ToList(reportsData);
    var reports :- All((r: Data) => ToReport(r), reportsList);
    var impactsData :- AtOr(d, "impacts", DList([]));
    var impactsList :- ToList(impactsData);
    var impacts :- All((i: Data) => ToImpact(i), impactsList);
    var envData :- At(d, "env");
    var envText :- ToText(envData);
    var env :- EnvOf(envText);
    var idData :- At(d, "change_id");
    var changeId :- ToText(idData);
    var contextData :- AtOr(d, "actor_context", DNone);
    var context :- ToContext(contextData);
    Some(Plan(changeId, env, items, reports, impacts, [], None, None, None, None, context))
  }

  // ---------- the round trip ----------

  function ErasedItem(item: PlanItem<string>): PlanItem<string>
  {
    item.(schema := None, currentSchema := None)
  }

  /** What a plan loses by being stored. */
  function Erased(p: Plan): Plan
  {
    p.(items := Map((i: PlanItem<string>) => ErasedItem(i), p.items),
       violations := [], risk := None, approval := None, evaluation := None, requestedTotal := None)
  }

  lemma {:induction false} AllOfMap<A(!new), D(!new), B(!new)>(encode: A -> D, decode: D -> Option<B>, erase: A -> B, s: seq<A>)
    requires forall x :: decode(encode(x)) == Some(erase(x))
    ensures All(decode, Map(encode, s)) == Some(Map(erase, s))
  {
    if s != [] { AllOfMap(encode, decode, erase, s[1..]); }
  }

  lemma {:induction false} MapSame<A>(f: A -> A, s: seq<A>)
    requires forall x :: x in s ==> f(x) == x
    ensures Map(f, s) == s
  {
  }

  lemma DiffFields(d: Diff<string>)
    ensures var e := OfDiff(d);
            && At(e, "type") == Some(DText(KindValue(d.kind)))
            && At(e, "changes") == Some(DList(Map((c: string) => DText(c), d.changes)))
            && At(e, "current_version") == Some(OfInt(d.currentVersion))
            && At(e, "target_compatibility") == Some(DText(ModeValue(d.targetCompatibility)))
            && AtOr(e, "schema_type", DNone) == Some(OfText(if d.schemaType.None? then None else Some(TypeValue(d.schemaType.value))))
  {
  }

  lemma DiffRoundTrip(d: Diff<string>)
    ensures ToDiff(OfDiff(d)) == Some(d)
  {
    DiffFields(d);
    PartsRoundTrip(d.currentVersion, if d.schemaType.None? then None else Some(TypeValue(d.schemaType.value)));
    assert ToKind(KindValue(d.kind)) == Some(d.kind) && ModeOf(ModeValue(d.targetCompatibility)) == Some(d.targetCompatibility);
    var same := (c: string) => c;
    AllOfMap((c: string) => DText(c), (c: Data) => ToText(c), same, d.changes);
    MapSame(same, d.changes);
  }

  lemma ItemFields(item: PlanItem<string>)
    ensures var e := OfItem(item);
            && At(e, "subject") == Some(DText(item.subject))
            && At(e, "action") == Some(DText(ActionValue(item.action)))
            && At(e, "current_version") == Some(OfInt(item.currentVersion))
            && At(e, "target_version") == Some(OfInt(item.targetVersion))
            && At(e, "diff") == Some(OfDiff(item.diff))
            && AtOr(e, "reason", DNone) == Some(OfText(item.reason))
  {
  }

  lemma PartsRoundTrip(n: Option<int>, s: Option<string>)
    ensures ToOptInt(OfInt(n)) == Some(n) && ToOptText(OfText(s)) == Some(s)
  {
  }

  lemma ItemRoundTrip(item: PlanItem<string>)
    ensures ToItem(OfItem(item)) == Some(ErasedItem(item))
  {
    ItemFields(item);
    DiffRoundTrip(item.diff);
    PartsRoundTrip(item.currentVersion, item.reason);
    PartsRoundTrip(item.targetVersion, item.reason);
    assert ActionOf(ActionValue(item.action)) == Some(item.action);
  }

  lemma ReportRoundTrip(r: Report)
    ensures ToReport(OfReport(r)) == Some(r)
  {
    var same := (i: Issue) => i;
    AllOfMap((i: Issue) => OfIssue(i), (i: Data) => ToIssue(i), same, r.issues);
    MapSame(same, r.issues);
  }

  lemma ContextRoundTrip(c: Option<map<string, string>>)
    ensures ToContext(OfContext(c)) == Some(c)
  {
    if c.Some? {
      var d := OfContext(c);
      assert (map k | k in d.entries :: d.entries[k].s) == c.value;
    }
  }

  lemma ItemsRoundTrip(items: seq<PlanItem<string>>)
    ensures All((i: Data) => ToItem(i), Map((i: PlanItem<string>) => OfItem(i), items))
         == Some(Map((i: PlanItem<string>) => ErasedItem(i), items))
  {
    forall i: PlanItem<string> ensures ToItem(OfItem(i)) == Some(ErasedItem(i)) { ItemRoundTrip(i); }
    AllOfMap((i: PlanItem<string>) => OfItem(i), (i: Data) => ToItem(i), (i: PlanItem<string>) => ErasedItem(i), items);
  }

  lemma ReportsRoundTrip(reports: seq<Report>)
    ensures All((r: Data) => ToReport(r), Map((r: Report) => OfReport(r), reports)) == Some(reports)
  {
    forall r: Report ensures ToReport(OfReport(r)) == Some(r) { ReportRoundTrip(r); }
    var same := (r: Report) => r;
    AllOfMap((r: Report) => OfReport(r), (r: Data) => ToReport(r), same, reports);
    MapSame(same, reports);
  }

  lemma ImpactRoundTrip(i: Impact)
    ensures ToImpact(OfImpact(i)) == Some(i)
  {
  }

  lemma ImpactsRoundTrip(impacts: seq<Impact>)
    ensures All((i: Data) => ToImpact(i), Map((i: Impact) => OfImpact(i), impacts)) == Some(impacts)
  {
    forall i: Impact ensures ToImpact(OfImpact(i)) == Some(i) { ImpactRoundTrip(i); }
    var same := (i: Impact) => i;
    AllOfMap((i: Impact) => OfImpact(i), (i: Data) => ToImpact(i), same, impacts);
    MapSame(same, impacts);
  }

  lemma PlanFields(p: Plan)
    ensures var e := Encode(p);
            && At(e, "items") == Some(DList(Map((i: PlanItem<string>) => OfItem(i), p.items)))
            && AtOr(e, "compatibility_reports", DList([])) == Some(DList(Map((r: Report) => OfReport(r), p.reports)))
            && AtOr(e, "impacts", DList([])) == Some(DList(Map((i: Impact) => OfImpact(i), p.impacts)))
            && At(e, "env") == Some(DText(EnvValue(p.env)))
            && At(e, "change_id") == Some(DText(p.changeId))
            && AtOr(e, "actor_context", DNone) == Some(OfContext(p.actorContext))
  {
  }

  /** Reading a stored plan gives it back with exactly the unstored parts erased. */
  lemma RoundTrip(p: Plan)
    ensures Decode(Encode(p)) == Some(Erased(p))
  {
    PlanFields(p);
    ItemsRoundTrip(p.items);
    ReportsRoundTrip(p.reports);
    ImpactsRoundTrip(p.impacts);
    ContextRoundTrip(p.actorContext);
  }

  lemma {:induction false} ErasedItemsSame(items: seq<PlanItem<string>>)
    ensures Map((i: PlanItem<string>) => ErasedItem(i), items) == items
       <==> forall i :: 0 <= i < |items| ==> items[i].schema.None? && items[i].currentSchema.None?
  {
  }

  /** A plan survives storage unchanged exactly when it carries none of the unstored parts. */
  lemma KeptExactly(p: Plan)
    ensures Decode(Encode(p)) == Some(p)
       <==> && (forall i :: 0 <= i < |p.items| ==> p.items[i].schema.None? && p.items[i].currentSchema.None?)
            && p.violations == [] && p.risk.None? && p.approval.None? && p.evaluation.None? && p.requestedTotal.None?
  {
    RoundTrip(p);
    ErasedItemsSame(p.items);
  }

  // ---------- the table ----------

  /** One row of `schema_plans`. */
  datatype PlanRow = PlanRow(env: Environment, planData: Data, canApply: bool, status: string, createdBy: string, updatedBy: Option<string>)

  predicate CanApply(p: Plan)
  {
    PolicyPack.CanApply(p.reports, p.violations)
  }

  class PlanRepository {
    var rows: map<string, PlanRow>

    constructor ()
      ensures rows == map[]
    {
      rows := map[];
    }

    /** `save_plan`: an upsert by change id. */
    method SavePlan(p: Plan, createdBy: string)
      modifies this
      ensures rows == Saved(old(rows), p, createdBy)
    {
      if p.changeId in rows {
        rows := rows[p.changeId := rows[p.changeId].(env := p.env, planData := Encode(p), canApply := CanApply(p),
          status := "pending", updatedBy := Some(createdBy))];
      } else {
        rows := rows[p.changeId := PlanRow(p.env, Encode(p), CanApply(p), "pending", createdBy, None)];
      }
    }

    /** `get_plan`; None is a missing row, Err a row that cannot be read. */
    method GetPlan(changeId: string) returns (r: Result<Option<Plan>>)
      ensures r == Ok(None) <==> changeId !in rows
      ensures r.Err? <==> changeId in rows && Decode(rows[changeId].planData).None?
      ensures changeId in rows ==> forall p :: rows[changeId].planData == Encode(p) ==> r == Ok(Some(Erased(p)))
      ensures r == Read(rows, changeId)
    {
      forall p ensures Decode(Encode(p)) == Some(Erased(p)) {
        RoundTrip(p);
      }
      if changeId !in rows {
        return Ok(None);
      }
      var p := Decode(rows[changeId].planData);
      return if p.None? then Err("Failed to get schema plan") else Ok(p);
    }
  }

  function Saved(rows: map<string, PlanRow>, p: Plan, author: string): map<string, PlanRow>
  {
    var creator := if p.changeId in rows then rows[p.changeId].createdBy else author;
    var updater := if p.changeId in rows then Some(author) else None;
    rows[p.changeId := PlanRow(p.env, Encode(p), CanApply(p), "pending", creator, updater)]
  }

  function Read(rows: map<string, PlanRow>, changeId: string): Result<Option<Plan>>
  {
    if changeId !in rows then Ok(None)
    else
      match Decode(rows[changeId].planData)
      case None => Err("Failed to get schema plan")
      case Some(p) => Ok(Some(p))
  }

  function SavedAll(saves: seq<(Plan, string)>): map<string, PlanRow>
  {
    if saves == [] then map[] else Saved(SavedAll(saves[..|saves| - 1]), saves[|saves| - 1].0, saves[|saves| - 1].1)
  }

  /** The last plan saved under a change id. */
  function LastSaved(saves: seq<(Plan, string)>, changeId: string): (r: Option<Plan>)
    ensures r.None? <==> forall i :: 0 <= i < |saves| ==> saves[i].0.changeId != changeId
    ensures r.Some? ==> exists i :: 0 <= i < |saves| && saves[i].0 == r.value && r.value.changeId == changeId
                             && forall j :: i < j < |saves| ==> saves[j].0.changeId != changeId
  {
    if saves == [] then None
    else if saves[|saves| - 1].0.changeId == changeId then Some(saves[|saves| - 1].0)
    else LastSaved(saves[..|saves| - 1], changeId)
  }

  /** After any sequence of saves, a plan read back is the last one saved under its id, erased. */
  lemma {:induction false} LastSaveWins(saves: seq<(Plan, string)>, changeId: string)
    ensures var last := LastSaved(saves, changeId);
            && Read(SavedAll(saves), changeId) == Ok(if last.None? then None else Some(Erased(last.value)))
            && (last.Some? ==> SavedAll(saves)[changeId].canApply == CanApply(last.value))
  {
    if saves != [] {
      var p := saves[|saves| - 1].0;
      if p.changeId == changeId {
        RoundTrip(p);
      } else {
        LastSaveWins(saves[..|saves| - 1], changeId);
      }
    }
  }

  // ---------- what a reader of the stored plan sees ----------

  datatype Summary = Summary(total: int, planned: int, registers: nat, updates: nat, deletes: nat, noneCount: int,
    incompatible: nat, violations: nat, warnings: nat)

  function CountAction(items: seq<PlanItem<string>>, a: PlanAction): nat
  {
    if items == [] then 0 else CountAction(items[..|items| - 1], a) + if items[|items| - 1].action == a then 1 else 0
  }

  function CountIncompatible(reports: seq<Report>): nat
  {
    if reports == [] then 0 else (if reports[0].isCompatible then 0 else 1) + CountIncompatible(reports[1..])
  }

  function CountWarnings(rules: seq<PolicyPack.Rule>): nat
  {
    if rules == [] then 0 else (if rules[0].decision.Warn? then 1 else 0) + CountWarnings(rules[1..])
  }

  function CountMild(vs: seq<Violation>): nat
  {
    if vs == [] then 0 else (if vs[0].IsError() then 0 else 1) + CountMild(vs[1..])
  }

  function PlannedTotal(p: Plan): nat
  {
    CountAction(p.items, REGISTER) + CountAction(p.items, UPDATE) + CountAction(p.items, DELETE)
  }

  function SummaryOf(p: Plan): Summary
  {
    var total := if p.requestedTotal.Some? then p.requestedTotal.value else |p.items|;
    var noneCount :=
      if p.requestedTotal.None? then CountAction(p.items, NO_ACTION)
      else if total - PlannedTotal(p) > 0 then total - PlannedTotal(p) else 0;
    Summary(total, PlannedTotal(p), CountAction(p.items, REGISTER), CountAction(p.items, UPDATE), CountAction(p.items, DELETE),
      noneCount, CountIncompatible(p.reports), |p.violations|,
      if p.evaluation.Some? then CountWarnings(p.evaluation.value) else CountMild(p.violations))
  }

  lemma {:induction false} ActionsCount(items: seq<PlanItem<string>>)
    ensures CountAction(items, REGISTER) + CountAction(items, UPDATE) + CountAction(items, DELETE) + CountAction(items, NO_ACTION) == |items|
  {
    if items != [] { ActionsCount(items[..|items| - 1]); }
  }

  /** How many positions of a sequence satisfy a condition. */
  ghost function HowMany<T(!new)>(s: seq<T>, good: T -> bool): nat
  {
    |set i | 0 <= i < |s| && good(s[i])|
  }

  lemma HowManyLast<T(!new)>(s: seq<T>, good: T -> bool)
    requires s != []
    ensures HowMany(s, good) == HowMany(s[..|s| - 1], good) + if good(s[|s| - 1]) then 1 else 0
  {
    var n := |s| - 1;
    var all, front := set i | 0 <= i < |s| && good(s[i]), set i | 0 <= i < n && good(s[..n][i]);
    assert all == front + if good(s[n]) then {n} else {};
  }

  lemma HowManyFirst<T(!new)>(s: seq<T>, good: T -> bool)
    requires s != []
    ensures HowMany(s, good) == (if good(s[0]) then 1 else 0) + HowMany(s[1..], good)
    decreases |s|
  {
    HowManyLast(s, good);
    if |s| > 1 {
      var front, tail := s[..|s| - 1], s[1..];
      HowManyFirst(front, good);
      HowManyLast(tail, good);
      assert front[1..] == tail[..|tail| - 1];
    } else {
      assert s[..0] == [] && s[1..] == [];
    }
  }

  lemma {:induction false} ActionsCounted(items: seq<PlanItem<string>>, a: PlanAction)
    ensures CountAction(items, a) == HowMany(items, (i: PlanItem<string>) => i.action == a)
  {
    if items != [] {
      ActionsCounted(items[..|items| - 1], a);
      HowManyLast(items, (i: PlanItem<string>) => i.action == a);
    }
  }

  lemma {:induction false} IncompatibleCounted(reports: seq<Report>)
    ensures CountIncompatible(reports) == HowMany(reports, (r: Report) => !r.isCompatible)
  {
    if reports != [] {
      IncompatibleCounted(reports[1..]);
      HowManyFirst(reports, (r: Report) => !r.isCompatible);
    }
  }

  lemma {:induction false} WarningsCounted(rules: seq<PolicyPack.Rule>)
    ensures CountWarnings(rules) == HowMany(rules, (r: PolicyPack.Rule) => r.decision == PolicyPack.Warn)
  {
    if rules != [] {
      WarningsCounted(rules[1..]);
      HowManyFirst(rules, (r: PolicyPack.Rule) => r.decision == PolicyPack.Warn);
    }
  }

  lemma {:induction false} MildCounted(vs: seq<Violation>)
    ensures CountMild(vs) == HowMany(vs, (v: Violation) => v.severity != "error")
  {
    if vs != [] {
      MildCounted(vs[1..]);
      HowManyFirst(vs, (v: Violation) => v.severity != "error");
    }
  }

  /** Each count of a summary as a number of positions. */
  ghost predicate SummaryTold(p: Plan, s: Summary)
  {
    && s.registers == HowMany(p.items, (i: PlanItem<string>) => i.action == REGISTER)
    && s.updates == HowMany(p.items, (i: PlanItem<string>) => i.action == UPDATE)
    && s.deletes == HowMany(p.items, (i: PlanItem<string>) => i.action == DELETE)
    && s.planned == HowMany(p.items, (i: PlanItem<string>) => i.action != NO_ACTION)
    && s.incompatible == HowMany(p.reports, (r: Report) => !r.isCompatible)
    && s.violations == |p.violations|
    && s.warnings == (match p.evaluation
                      case Some(rules) => HowMany(rules, (r: PolicyPack.Rule) => r.decision == PolicyPack.Warn)
                      case None => HowMany(p.violations, (v: Violation) => v.severity != "error"))
    && (p.requestedTotal.None? ==>
          s.total == |p.items| && s.noneCount == HowMany(p.items, (i: PlanItem<string>) => i.action == NO_ACTION))
    && (p.requestedTotal.Some? ==>
          s.total == p.requestedTotal.value && s.noneCount >= 0
          && (s.noneCount == s.total - s.planned || (s.noneCount == 0 && s.total < s.planned)))
  }

  lemma {:induction false} PlannedCounted(items: seq<PlanItem<string>>)
    ensures CountAction(items, REGISTER) + CountAction(items, UPDATE) + CountAction(items, DELETE)
         == HowMany(items, (i: PlanItem<string>) => i.action != NO_ACTION)
  {
    if items != [] {
      PlannedCounted(items[..|items| - 1]);
      HowManyLast(items, (i: PlanItem<string>) => i.action != NO_ACTION);
    }
  }

  lemma SummaryMeaning(p: Plan)
    ensures SummaryTold(p, SummaryOf(p))
  {
    ActionsCounted(p.items, REGISTER);
    ActionsCounted(p.items, UPDATE);
    ActionsCounted(p.items, DELETE);
    ActionsCounted(p.items, NO_ACTION);
    PlannedCounted(p.items);
    IncompatibleCounted(p.reports);
    if p.evaluation.Some? { WarningsCounted(p.evaluation.value); }
    MildCounted(p.violations);
  }

  /** `summary`: the counting dictionary and the derived totals. */
  method ComputeSummary(p: Plan) returns (s: Summary)
    ensures s == SummaryOf(p) && SummaryTold(p, s)
  {
    SummaryMeaning(p);
    var counts := map[REGISTER := 0, UPDATE := 0, DELETE := 0, NO_ACTION := 0];
    var planned := 0;
    forall a: PlanAction ensures a in counts && counts[a] == 0 {
      match a case REGISTER => case UPDATE => case DELETE => case NO_ACTION =>
    }
    for n := 0 to |p.items|
      invariant forall a :: a in counts && counts[a] == CountAction(p.items[..n], a)
      invariant planned == counts[REGISTER] + counts[UPDATE] + counts[DELETE]
    {
      assert p.items[..n + 1][..n] == p.items[..n];
      var a := p.items[n].action;
      counts := counts[a := counts[a] + 1];
      if a != NO_ACTION {
        planned := planned + 1;
      }
    }
    assert p.items[..|p.items|] == p.items;
    var total := if p.requestedTotal.Some? then p.requestedTotal.value else |p.items|;
    var noneCount :=
      if p.requestedTotal.None? then counts[NO_ACTION] else if total - planned > 0 then total - planned else 0;
    s := Summary(total, planned, counts[REGISTER], counts[UPDATE], counts[DELETE], noneCount, CountIncompatible(p.reports),
      |p.violations|, if p.evaluation.Some? then CountWarnings(p.evaluation.value) else CountMild(p.violations));
  }

  lemma {:induction false} ErasedActions(items: seq<PlanItem<string>>, a: PlanAction)
    ensures CountAction(Map((i: PlanItem<string>) => ErasedItem(i), items), a) == CountAction(items, a)
  {
    if items != [] {
      var n := |items| - 1;
      var f := (i: PlanItem<string>) => ErasedItem(i);
      ErasedActions(items[..n], a);
      assert Map(f, items)[..n] == Map(f, items[..n]);
    }
  }

  /**
   A reader of the stored plan sees the same action, total and incompatible counts exactly when the
   requested total was absent or equal to the number of items.
   */
  lemma SummaryKeptExactly(p: Plan)
    ensures var s, t := SummaryOf(p), SummaryOf(Erased(p));
            t == s.(violations := t.violations, warnings := t.warnings) <==> p.requestedTotal in {None, Some(|p.items|)}
    ensures SummaryOf(Erased(p)).violations == SummaryOf(Erased(p)).warnings == 0
  {
    ActionsCount(p.items);
    ErasedActions(p.items, REGISTER);
    ErasedActions(p.items, UPDATE);
    ErasedActions(p.items, DELETE);
    ErasedActions(p.items, NO_ACTION);
  }

  /**
   The stored `can_apply` column is the plan's own verdict, but the verdict recomputed from the plan
   read back is weaker: the two differ exactly when only the erased violations stood in the way.
   */
  lemma CanApplyKeptExactly(p: Plan)
    ensures CanApply(p) ==> CanApply(Erased(p))
    ensures CanApply(Erased(p)) == CanApply(p)
       <==> !PolicyPack.AllCompatible(p.reports) || forall i :: 0 <= i < |p.violations| ==> !p.violations[i].IsError()
  {
  }
}
