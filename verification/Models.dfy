/** The schema domain's value objects: specs, batches, plans, reports and violations. */
module Models {
  import opened Prelude
  import opened Json
  import opened CanonicalText
  import FieldDiff

  datatype Environment = DEV | STG | PROD

  datatype CompatibilityMode =
    | NONE | BACKWARD | BACKWARD_TRANSITIVE | FORWARD | FORWARD_TRANSITIVE | FULL | FULL_TRANSITIVE

  datatype PlanAction = REGISTER | UPDATE | DELETE | NO_ACTION

  datatype Metadata = Metadata(owner: string, doc: Option<string>)

  datatype Source = Inline(text: Text) | Yaml(text: Text) | File(path: string)

  datatype Spec = Spec(
    subject: string,
    schemaType: SchemaType,
    compatibility: CompatibilityMode,
    schema: Option<Text>,
    source: Option<Source>,
    metadata: Option<Metadata>,
    reason: Option<string>,
    dryRunOnly: bool)

  datatype Batch = Batch(changeId: string, env: Environment, specs: seq<Spec>)

  /** The check of `DomainSchemaBatch.__post_init__` that later steps rely on. */
  predicate DistinctSubjects(specs: seq<Spec>)
  {
    forall i, j :: 0 <= i < j < |specs| ==> specs[i].subject != specs[j].subject
  }

  function Subjects(specs: seq<Spec>): seq<string>
  {
    seq(|specs|, i requires 0 <= i < |specs| => specs[i].subject)
  }

  datatype Violation = Violation(subject: string, rule: string, message: string, severity: string, field: Option<string>)
  {
    predicate IsError() { severity == "error" }
  }

  datatype Issue = Issue(path: string, message: string, issueType: string)

  datatype Report = Report(subject: string, mode: CompatibilityMode, isCompatible: bool, issues: seq<Issue>)

  datatype Impact = Impact(subject: string, status: string, errorMessage: Option<string>)

  /** One line of a schema diff, before it is rendered to text. */
  datatype ChangeNote =
    | NewRegistration
    | NoSchemaChange
    | TypeChangedNote(before: SchemaType, after: SchemaType)
    | FieldNote(change: FieldDiff.Change)
    | StructureChanged
    | DefinitionUpdated
    | SchemaUpdated
    | NoChangesDetected

  datatype DiffKind = NewRegistrationDiff | UpdateDiff | NoChangeDiff

  /** `N` is the type of a change line: a note, or its rendered text once the plan is stored. */
  datatype Diff<+N> = Diff(
    kind: DiffKind,
    changes: seq<N>,
    currentVersion: Option<int>,
    targetCompatibility: CompatibilityMode,
    schemaType: Option<SchemaType>)

  datatype PlanItem<+N> = PlanItem(
    subject: string,
    action: PlanAction,
    currentVersion: Option<int>,
    targetVersion: Option<int>,
    diff: Diff<N>,
    schema: Option<Text>,
    currentSchema: Option<Text>,
    reason: Option<string>)

  /** `str.lower`, on the ASCII letters. */
  function Lower(s: string): (r: string)
    ensures |r| == |s|
  {
    if s == [] then []
    else [if 'A' <= s[0] <= 'Z' then ((s[0] as int) + 32) as char else s[0]] + Lower(s[1..])
  }

  /** `Lower` turns each capital into its small letter and nothing else. */
  lemma {:induction false} LowerAt(s: string, i: nat)
    requires i < |s|
    ensures if 'A' <= s[i] <= 'Z' then Lower(s)[i] as int - 'a' as int == s[i] as int - 'A' as int else Lower(s)[i] == s[i]
  {
    if i > 0 { LowerAt(s[1..], i - 1); }
  }

  lemma {:induction false} LowerIdempotent(s: string)
    ensures Lower(Lower(s)) == Lower(s)
  {
    if s != [] { LowerIdempotent(s[1..]); }
  }

  function ModeValue(mode: CompatibilityMode): string
  {
    match mode
    case NONE => "NONE"
    case BACKWARD => "BACKWARD"
    case BACKWARD_TRANSITIVE => "BACKWARD_TRANSITIVE"
    case FORWARD => "FORWARD"
    case FORWARD_TRANSITIVE => "FORWARD_TRANSITIVE"
    case FULL => "FULL"
    case FULL_TRANSITIVE => "FULL_TRANSITIVE"
  }

  /** `DomainCompatibilityMode(value)`; None stands for `ValueError`. */
  function ModeOf(value: string): (r: Option<CompatibilityMode>)
    ensures forall m :: r == Some(m) <==> ModeValue(m) == value
  {
    if value == "NONE" then Some(NONE)
    else if value == "BACKWARD" then Some(BACKWARD)
    else if value == "BACKWARD_TRANSITIVE" then Some(BACKWARD_TRANSITIVE)
    else if value == "FORWARD" then Some(FORWARD)
    else if value == "FORWARD_TRANSITIVE" then Some(FORWARD_TRANSITIVE)
    else if value == "FULL" then Some(FULL)
    else if value == "FULL_TRANSITIVE" then Some(FULL_TRANSITIVE)
    else None
  }

  function TypeValue(t: SchemaType): string
  {
    match t
    case AVRO => "AVRO"
    case JSON => "JSON"
    case PROTOBUF => "PROTOBUF"
  }

  function ActionValue(a: PlanAction): string
  {
    match a
    case REGISTER => "REGISTER"
    case UPDATE => "UPDATE"
    case DELETE => "DELETE"
    case NO_ACTION => "NONE"
  }

  function ActionOf(value: string): (r: Option<PlanAction>)
    ensures forall a :: r == Some(a) <==> ActionValue(a) == value
  {
    if value == "REGISTER" then Some(REGISTER)
    else if value == "UPDATE" then Some(UPDATE)
    else if value == "DELETE" then Some(DELETE)
    else if value == "NONE" then Some(NO_ACTION)
    else None
  }

  /** The texts the enumerations are stored and compared as. */
  lemma StoredTexts()
    ensures ModeValue(NONE) == "NONE" && ModeValue(BACKWARD) == "BACKWARD" && ModeValue(BACKWARD_TRANSITIVE) == "BACKWARD_TRANSITIVE"
    ensures ModeValue(FORWARD) == "FORWARD" && ModeValue(FORWARD_TRANSITIVE) == "FORWARD_TRANSITIVE"
    ensures ModeValue(FULL) == "FULL" && ModeValue(FULL_TRANSITIVE) == "FULL_TRANSITIVE"
    ensures TypeValue(AVRO) == "AVRO" && TypeValue(JSON) == "JSON" && TypeValue(PROTOBUF) == "PROTOBUF"
    ensures ActionValue(REGISTER) == "REGISTER" && ActionValue(UPDATE) == "UPDATE" && ActionValue(DELETE) == "DELETE"
    ensures ActionValue(NO_ACTION) == "NONE"
    ensures EnvValue(DEV) == "dev" && EnvValue(STG) == "stg" && EnvValue(PROD) == "prod"
  {
  }

  function EnvValue(e: Environment): string
  {
    match e
    case DEV => "dev"
    case STG => "stg"
    case PROD => "prod"
  }

  function EnvOf(value: string): (r: Option<Environment>)
    ensures forall e :: r == Some(e) <==> EnvValue(e) == value
  {
    if value == "dev" then Some(DEV)
    else if value == "stg" then Some(STG)
    else if value == "prod" then Some(PROD)
    else None
  }
}
