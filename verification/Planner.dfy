/** The planner: what a batch would do to the registry, and every policy violation it finds. */
module Planner {
  import opened Prelude
  import opened Json
  import opened CanonicalText
  import opened Models
  import FieldDiff
  import Evolution
  import PolicyPack

  /** The newest version of a subject, as `describe_subjects` returns it. */
  datatype VersionInfo = VersionInfo(version: Option<int>, schema: Text, schemaType: Option<SchemaType>)

  // ---------- actions ----------

  /** `_schema_matches_current` */
  predicate SchemaMatchesCurrent(info: VersionInfo, spec: Spec)
  {
    (info.schemaType.Some? ==> info.schemaType.value == spec.schemaType)
    && Normalize(Some(info.schema), spec.schemaType) == Normalize(spec.schema, spec.schemaType)
  }

  /** `_determine_plan_action` */
  function DeterminePlanAction(info: Option<VersionInfo>, spec: Spec): PlanAction
  {
    if info.None? then REGISTER
    else if SchemaMatchesCurrent(info.value, spec) then NO_ACTION
    else UPDATE
  }

  function TargetVersion(info: Option<VersionInfo>, action: PlanAction): Option<int>
  {
    if action == NO_ACTION then (if info.Some? then info.value.version else None)
    else if info.Some? && info.value.version.Some? then Some(info.value.version.value + 1)
    else Some(1)
  }

  // ---------- the schema diff of an item ----------

  const EMPTY_OBJECT: Text := Cons(LBrace, Cons(RBrace, End))

  function OrEmptyObject(t: Option<Text>): Text
  {
    if t.None? || t.value.End? then EMPTY_OBJECT else t.value
  }

  function TypeNotes(info: VersionInfo, spec: Spec): seq<ChangeNote>
  {
    if info.schemaType.Some? && info.schemaType.value != spec.schemaType
    then [TypeChangedNote(info.schemaType.value, spec.schemaType)]
    else []
  }

  /** The lines are the field changes of the structural diff, each path once. */
  ghost predicate AreFieldNotes(before: Value, after: Value, notes: seq<ChangeNote>)
  {
    && (forall i :: 0 <= i < |notes| ==> notes[i].FieldNote?)
    && (forall i, j :: 0 <= i < j < |notes| ==> notes[i].FieldNote? && notes[j].FieldNote? && notes[i].change.path != notes[j].change.path)
    && (forall c: FieldDiff.Change :: FieldNote(c) in notes <==> FieldDiff.Reports(before, after, c.path, c.kind))
  }

  /** The change lines for two JSON texts. */
  ghost predicate AreJsonChanges(oldRaw: Text, newRaw: Text, types: seq<ChangeNote>, changes: seq<ChangeNote>)
  {
    match (Loads(oldRaw), Loads(newRaw))
    case (Some(x), Some(y)) =>
      var before, after := ToValue(x), ToValue(y);
      if oldRaw == newRaw then changes == if types == [] then [NoChangesDetected] else types
      else if !FieldDiff.Diffable(before, after) then changes == types + [DefinitionUpdated]
      else if FieldDiff.Silent(before, after) then changes == [StructureChanged]
      else AreFieldNotes(before, after, changes)
    case _ => changes == types + [DefinitionUpdated]
  }

  /** The change lines `_calculate_schema_diff` may return for a subject that exists. */
  ghost predicate AreChanges(info: VersionInfo, spec: Spec, changes: seq<ChangeNote>)
  {
    var types := if info.schemaType == None || info.schemaType == Some(spec.schemaType) then []
                 else [TypeChangedNote(info.schemaType.value, spec.schemaType)];
    var braces := Cons(LBrace, Cons(RBrace, End));
    var before := if info.schema == End then braces else info.schema;
    var after := if spec.schema == None || spec.schema == Some(End) then braces else spec.schema.value;
    if spec.schemaType == PROTOBUF then changes == types + [SchemaUpdated]
    else AreJsonChanges(before, after, types, changes)
  }

  ghost predicate IsSchemaDiff(info: Option<VersionInfo>, spec: Spec, diff: Diff<ChangeNote>)
  {
    match info
    case None =>
      diff == Diff(NewRegistrationDiff, [NewRegistration], None, spec.compatibility, Some(spec.schemaType))
    case Some(i) =>
      && diff.kind == UpdateDiff && diff.currentVersion == i.version && diff.targetCompatibility == spec.compatibility
      && diff.schemaType == (if i.schemaType.Some? then i.schemaType else Some(spec.schemaType))
      && AreChanges(i, spec, diff.changes)
  }

  method FieldNotes(before: Value, after: Value) returns (ok: bool, notes: seq<ChangeNote>)
    ensures ok <==> FieldDiff.Diffable(before, after)
    ensures ok ==> AreFieldNotes(before, after, notes)
  {
    var diffs: seq<FieldDiff.Change>;
    ok, diffs := FieldDiff.GetFieldDiff(before, after, []);
    notes := seq(|diffs|, i requires 0 <= i < |diffs| => FieldNote(diffs[i]));
    if ok {
      forall c: FieldDiff.Change ensures FieldNote(c) in notes <==> FieldDiff.Reports(before, after, c.path, c.kind) {
        assert c.path[0..] == c.path;
        assert c in diffs <==> FieldDiff.Reports(before, after, c.path, c.kind);
        if c in diffs {
          var i :| 0 <= i < |diffs| && diffs[i] == c;
          assert notes[i] == FieldNote(c);
        }
      }
    }
  }

  /** `_calculate_schema_diff` */
  method CalculateSchemaDiff(info: Option<VersionInfo>, spec: Spec) returns (diff: Diff<ChangeNote>)
    ensures IsSchemaDiff(info, spec, diff)
  {
    if info.None? {
      return Diff(NewRegistrationDiff, [NewRegistration], None, spec.compatibility, Some(spec.schemaType));
    }
    var current := info.value;
    var changes := TypeNotes(current, spec);
    if spec.schemaType == PROTOBUF {
      changes := changes + [SchemaUpdated];
    } else {
      changes := JsonChanges(OrEmptyObject(Some(current.schema)), OrEmptyObject(spec.schema), changes);
    }
    return Diff(UpdateDiff, changes, current.version, spec.compatibility,
                if current.schemaType.Some? then current.schemaType else Some(spec.schemaType));
  }

  /** The `try` block: a field diff replaces the lines collected so far, an exception adds one line. */
  method JsonChanges(oldRaw: Text, newRaw: Text, types: seq<ChangeNote>) returns (changes: seq<ChangeNote>)
    ensures AreJsonChanges(oldRaw, newRaw, types, changes)
  {
    var x, y := Loads(oldRaw), Loads(newRaw);
    if x.None? || y.None? { return types + [DefinitionUpdated]; }
    if oldRaw == newRaw { return if types == [] then [NoChangesDetected] else types; }
    var before, after := ToValue(x.value), ToValue(y.value);
    var ok, notes := FieldNotes(before, after);
    if !ok { return types + [DefinitionUpdated]; }
    NoNotes(before, after, notes);
    return if notes == [] then [StructureChanged] else notes;
  }

  lemma NoNotes(before: Value, after: Value, notes: seq<ChangeNote>)
    requires AreFieldNotes(before, after, notes)
    ensures notes == [] <==> FieldDiff.Silent(before, after)
  {
    if notes == [] {
      forall path, kind ensures !FieldDiff.Reports(before, after, path, kind) {
        assert FieldNote(FieldDiff.Change(path, kind)) !in notes;
      }
    } else {
      var c := notes[0].change;
      assert notes[0] == FieldNote(c);
      assert FieldNote(c) in notes;
      assert FieldDiff.Reports(before, after, c.path, c.kind);
    }
  }

  ghost predicate IsPlanItem(info: Option<VersionInfo>, spec: Spec, item: PlanItem<ChangeNote>)
  {
    && item.subject == spec.subject
    && item.action == DeterminePlanAction(info, spec)
    && item.currentVersion == (if info.Some? then info.value.version else None)
    && item.targetVersion == TargetVersion(info, item.action)
    && item.schema == spec.schema && item.reason == spec.reason
    && item.currentSchema == (if info.Some? then Some(info.value.schema) else None)
    && if item.action == NO_ACTION
       then item.diff == Diff(NoChangeDiff, [NoSchemaChange], item.currentVersion, spec.compatibility, Some(spec.schemaType))
       else IsSchemaDiff(info, spec, item.diff)
  }

  // ---------- compatibility ----------

  /** What the registry answers to a compatibility check; its error becomes an issue of the report. */
  datatype CompatAnswer = Answered(ok: bool) | RegistryError(message: string)

  /** `_extract_schema_string`; None when the spec has no text to send, which raises. */
  function SchemaText(spec: Spec): Option<Text>
  {
    if spec.schema.Some? && spec.schema.value.Cons? then spec.schema
    else if spec.source.None? || spec.source.value.File? || spec.source.value.text.End? then None
    else Some(spec.source.value.text)
  }

  /** `check_compatibility` */
  function ReportFor(spec: Spec, answer: CompatAnswer): Report
  {
    match answer
    case Answered(ok) => Report(spec.subject, spec.compatibility, ok, [])
    case RegistryError(message) =>
      Report(spec.subject, spec.compatibility, false, [Issue("$", message, "SCHEMA_REGISTRY_ERROR")])
  }

  // ---------- violations ----------

  datatype LintConfig = LintConfig(enabled: bool, severity: Option<string>)

  datatype PolicyBody =
    | Lint(rules: seq<(string, LintConfig)>)
    | Guardrail(requiredCompatibility: Option<string>, severity: Option<string>)

  datatype Policy = Policy(targetEnvironment: string, body: PolicyBody)

  datatype Finding = Finding(isError: bool, message: string)

  /** What the built-in lint checks found in the schema of one spec, by rule code. */
  type Findings = map<string, seq<Finding>>

  predicate LintCode(code: string)
  {
    code == "MISSING_DOC" || code == "NULLABLE_DEFAULT_MISSING" || code == "NAMESPACE_NOT_STANDARD" || code == "NAMING_INCONSISTENT"
  }

  function ProdViolation(spec: Spec): Violation
  {
    Violation(spec.subject, "PROD_COMPAT_RESTRICTION", "FULL or FULL_TRANSITIVE is required in prod", "error", None)
  }

  function StgViolation(spec: Spec): Violation
  {
    Violation(spec.subject, "STG_COMPAT_RECOMMENDATION", "at least BACKWARD is recommended in stg", "warning", None)
  }

  /** The built-in compatibility guardrail. */
  function GuardrailViolations(spec: Spec, env: Environment): (r: seq<Violation>)
  {
    if env == PROD && spec.compatibility != FULL && spec.compatibility != FULL_TRANSITIVE then [ProdViolation(spec)]
    else if env == STG && spec.compatibility == NONE then [StgViolation(spec)]
    else []
  }

  function SeverityOf(config: LintConfig, finding: Finding): string
  {
    if config.severity.Some? then config.severity.value else if finding.isError then "error" else "warning"
  }

  function FindingViolations(subject: string, code: string, config: LintConfig, found: seq<Finding>): (r: seq<Violation>)
    ensures |r| == |found|
    ensures forall i :: 0 <= i < |r| ==> r[i].rule == code && r[i].severity == Lower(SeverityOf(config, found[i]))
  {
    seq(|found|, i requires 0 <= i < |found| =>
      Violation(subject, code, found[i].message, Lower(SeverityOf(config, found[i])), None))
  }

  function RuleViolations(subject: string, rule: (string, LintConfig), findings: Findings): seq<Violation>
  {
    if !rule.1.enabled || !LintCode(rule.0) || rule.0 !in findings then []
    else FindingViolations(subject, rule.0, rule.1, findings[rule.0])
  }

  function LintViolations(subject: string, rules: seq<(string, LintConfig)>, findings: Findings): seq<Violation>
  {
    if rules == [] then []
    else LintViolations(subject, rules[..|rules| - 1], findings) + RuleViolations(subject, rules[|rules| - 1], findings)
  }

  function PolicyViolations(policy: Policy, spec: Spec, env: Environment, findings: Findings): seq<Violation>
  {
    if policy.targetEnvironment != "total" && policy.targetEnvironment != EnvValue(env) then []
    else
      match policy.body
      case Lint(rules) => LintViolations(spec.subject, rules, findings)
      case Guardrail(required, severity) =>
        if required.None? || required.value == "" || required.value == ModeValue(spec.compatibility) then []
        else [Violation(spec.subject, "GUARDRAIL_COMPATIBILITY", "compatibility " + required.value + " is required",
                        Lower(if severity.Some? then severity.value else "error"), None)]
  }

  function AllPolicyViolations(policies: seq<Policy>, spec: Spec, env: Environment, findings: Findings): seq<Violation>
  {
    if policies == [] then []
    else AllPolicyViolations(policies[..|policies| - 1], spec, env, findings)
         + PolicyViolations(policies[|policies| - 1], spec, env, findings)
  }

  /** `DynamicSchemaPolicyEngine.evaluate`: nothing is checked on a schema that is absent or is not JSON. */
  function EngineViolations(policies: seq<Policy>, spec: Spec, env: Environment, findings: Findings): seq<Violation>
  {
    if spec.schema.None? || spec.schema.value.End? || Loads(spec.schema.value).None? then []
    else AllPolicyViolations(policies, spec, env, findings)
  }

  lemma LintStep(subject: string, rules: seq<(string, LintConfig)>, findings: Findings, i: nat)
    requires i < |rules|
    ensures LintViolations(subject, rules[..i + 1], findings)
         == LintViolations(subject, rules[..i], findings) + RuleViolations(subject, rules[i], findings)
  {
    assert rules[..i + 1][..i] == rules[..i];
  }

  method EvaluateLint(subject: string, rules: seq<(string, LintConfig)>, findings: Findings) returns (r: seq<Violation>)
    ensures r == LintViolations(subject, rules, findings)
  {
    r := [];
    for i := 0 to |rules|
      invariant r == LintViolations(subject, rules[..i], findings)
    {
      LintStep(subject, rules, findings, i);
      r := r + RuleViolations(subject, rules[i], findings);
    }
    assert rules[..|rules|] == rules;
  }

  /** The policy is meant for the environment. */
  predicate Targets(policy: Policy, env: Environment)
  {
    policy.targetEnvironment == "total" || policy.targetEnvironment == EnvValue(env)
  }

  /** Some enabled rule of a known code has a finding that reads like `v`. */
  ghost predicate LintFinds(subject: string, rules: seq<(string, LintConfig)>, findings: Findings, v: Violation)
  {
    exists i :: 0 <= i < |rules| && RuleFinds(subject, rules[i], findings, v)
  }

  ghost predicate RuleFinds(subject: string, rule: (string, LintConfig), findings: Findings, v: Violation)
  {
    && rule.1.enabled && rule.0 in findings
    && rule.0 in {"MISSING_DOC", "NULLABLE_DEFAULT_MISSING", "NAMESPACE_NOT_STANDARD", "NAMING_INCONSISTENT"}
    && exists k :: 0 <= k < |findings[rule.0]| && ReadsLike(subject, rule, findings[rule.0][k], v)
  }

  /** The violation of one finding: the configured severity in lower case, or else the finding's own. */
  ghost predicate ReadsLike(subject: string, rule: (string, LintConfig), finding: Finding, v: Violation)
  {
    && v.subject == subject && v.rule == rule.0 && v.message == finding.message && v.field == None
    && (rule.1.severity.Some? ==> v.severity == Lower(rule.1.severity.value))
    && (rule.1.severity.None? ==> v.severity == if finding.isError then "error" else "warning")
  }

  /** What a policy has against a spec: lint findings, or a compatibility mode other than the one it requires. */
  ghost predicate PolicyFinds(policy: Policy, spec: Spec, env: Environment, findings: Findings, v: Violation)
  {
    && Targets(policy, env)
    && match policy.body
       case Lint(rules) => LintFinds(spec.subject, rules, findings, v)
       case Guardrail(required, severity) =>
         && required.Some? && required.value != "" && ModeValue(spec.compatibility) != required.value
         && v.subject == spec.subject && v.rule == "GUARDRAIL_COMPATIBILITY" && v.field.None?
         && v.severity == Lower(if severity.Some? then severity.value else "error")
         && v.message == "compatibility " + required.value + " is required"
  }

  lemma RuleViolationsMeaning(subject: string, rule: (string, LintConfig), findings: Findings, v: Violation)
    ensures v in RuleViolations(subject, rule, findings) <==> RuleFinds(subject, rule, findings, v)
  {
    var vs := RuleViolations(subject, rule, findings);
    if rule.0 in findings {
      forall k | 0 <= k < |findings[rule.0]|
        ensures ReadsLike(subject, rule, findings[rule.0][k], v)
           <==> v == Violation(subject, rule.0, findings[rule.0][k].message, Lower(SeverityOf(rule.1, findings[rule.0][k])), None)
      {
        ReadsLikeExactly(subject, rule, findings[rule.0][k], v);
      }
    }
    if RuleFinds(subject, rule, findings, v) {
      var k :| 0 <= k < |findings[rule.0]| && ReadsLike(subject, rule, findings[rule.0][k], v);
      assert vs[k] == v;
    }
  }

  lemma ReadsLikeExactly(subject: string, rule: (string, LintConfig), finding: Finding, v: Violation)
    ensures ReadsLike(subject, rule, finding, v)
       <==> v == Violation(subject, rule.0, finding.message, Lower(SeverityOf(rule.1, finding)), None)
  {
    LowerWords();
  }

  lemma LintFindsStep(subject: string, rules: seq<(string, LintConfig)>, findings: Findings, v: Violation)
    requires rules != []
    ensures var n := |rules| - 1;
            LintFinds(subject, rules, findings, v) <==>
              LintFinds(subject, rules[..n], findings, v) || RuleFinds(subject, rules[n], findings, v)
  {
    var n := |rules| - 1;
    if i :| 0 <= i < n && RuleFinds(subject, rules[..n][i], findings, v) {
      assert rules[..n][i] == rules[i];
    }
    if i :| 0 <= i < n && RuleFinds(subject, rules[i], findings, v) {
      assert rules[..n][i] == rules[i];
    }
  }

  lemma {:induction false} LintViolationsMeaning(subject: string, rules: seq<(string, LintConfig)>, findings: Findings, v: Violation)
    ensures v in LintViolations(subject, rules, findings) <==> LintFinds(subject, rules, findings, v)
  {
    if rules != [] {
      var n := |rules| - 1;
      LintViolationsMeaning(subject, rules[..n], findings, v);
      RuleViolationsMeaning(subject, rules[n], findings, v);
      LintFindsStep(subject, rules, findings, v);
    }
  }

  lemma PolicyViolationsMeaning(policy: Policy, spec: Spec, env: Environment, findings: Findings, v: Violation)
    ensures v in PolicyViolations(policy, spec, env, findings) <==> PolicyFinds(policy, spec, env, findings, v)
  {
    if policy.body.Lint? { LintViolationsMeaning(spec.subject, policy.body.rules, findings, v); }
  }

  /** One policy of the engine: it reports exactly what the policy finds. */
  method EvaluateOne(policy: Policy, spec: Spec, env: Environment, findings: Findings) returns (r: seq<Violation>)
    ensures r == PolicyViolations(policy, spec, env, findings)
    ensures forall v :: v in r <==> PolicyFinds(policy, spec, env, findings, v)
  {
    r := [];
    if policy.targetEnvironment == "total" || policy.targetEnvironment == EnvValue(env) {
      match policy.body {
        case Lint(rules) => r := EvaluateLint(spec.subject, rules, findings);
        case Guardrail(required, severity) =>
          if required.Some? && required.value != "" && ModeValue(spec.compatibility) != required.value {
            var level := Lower(if severity.Some? then severity.value else "error");
            r := [Violation(spec.subject, "GUARDRAIL_COMPATIBILITY", "compatibility " + required.value + " is required", level, None)];
          }
      }
    }
    forall v ensures v in r <==> PolicyFinds(policy, spec, env, findings, v) {
      PolicyViolationsMeaning(policy, spec, env, findings, v);
    }
  }

  /** The loop of the engine over the active policies. */
  method EvaluatePolicies(policies: seq<Policy>, spec: Spec, env: Environment, findings: Findings)
    returns (all: seq<Violation>)
    ensures all == EngineViolations(policies, spec, env, findings)
  {
    all := [];
    if spec.schema.None? || spec.schema.value.End? || Loads(spec.schema.value).None? { return; }
    for p := 0 to |policies|
      invariant all == AllPolicyViolations(policies[..p], spec, env, findings)
    {
      assert policies[..p + 1][..p] == policies[..p];
      var own := EvaluateOne(policies[p], spec, env, findings);
      all := all + own;
    }
    assert policies[..|policies|] == policies;
  }

  lemma {:induction false} AllPolicyViolationsMeaning(policies: seq<Policy>, spec: Spec, env: Environment, findings: Findings, v: Violation)
    ensures v in AllPolicyViolations(policies, spec, env, findings)
       <==> exists p :: 0 <= p < |policies| && PolicyFinds(policies[p], spec, env, findings, v)
  {
    if policies != [] {
      var n := |policies| - 1;
      AllPolicyViolationsMeaning(policies[..n], spec, env, findings, v);
      PolicyViolationsMeaning(policies[n], spec, env, findings, v);
      assert forall p :: 0 <= p < n ==> policies[..n][p] == policies[p];
    }
  }

  /** The engine reports exactly what some active policy finds, and only on a schema text that loads. */
  lemma EngineViolationsMeaning(policies: seq<Policy>, spec: Spec, env: Environment, findings: Findings, v: Violation)
    ensures v in EngineViolations(policies, spec, env, findings)
       <==> && spec.schema.Some? && spec.schema.value.Cons? && Loads(spec.schema.value).Some?
            && exists p :: 0 <= p < |policies| && PolicyFinds(policies[p], spec, env, findings, v)
  {
    AllPolicyViolationsMeaning(policies, spec, env, findings, v);
  }

  function SpecViolations(policies: seq<Policy>, spec: Spec, env: Environment, findings: Findings): seq<Violation>
  {
    GuardrailViolations(spec, env) + EngineViolations(policies, spec, env, findings)
  }

  function BatchViolations(policies: seq<Policy>, specs: seq<Spec>, env: Environment, findings: string -> Findings): seq<Violation>
  {
    if specs == [] then []
    else
      var spec := specs[|specs| - 1];
      BatchViolations(policies, specs[..|specs| - 1], env, findings)
      + SpecViolations(policies, spec, env, findings(spec.subject))
  }

  ghost predicate AllPlanner(vs: seq<Violation>)
  {
    forall i :: 0 <= i < |vs| ==> PolicyPack.PlannerViolation(vs[i])
  }

  lemma {:induction false} LintViolationsFit(subject: string, rules: seq<(string, LintConfig)>, findings: Findings)
    ensures AllPlanner(LintViolations(subject, rules, findings))
  {
    if rules != [] {
      LintViolationsFit(subject, rules[..|rules| - 1], findings);
      RuleViolationsFit(subject, rules[|rules| - 1], findings);
    }
  }

  lemma RuleViolationsFit(subject: string, rule: (string, LintConfig), findings: Findings)
    ensures AllPlanner(RuleViolations(subject, rule, findings))
  {
    var vs := RuleViolations(subject, rule, findings);
    forall i | 0 <= i < |vs| ensures PolicyPack.PlannerViolation(vs[i]) {
      LowerIdempotent(SeverityOf(rule.1, findings[rule.0][i]));
    }
  }

  lemma PolicyViolationsFit(policy: Policy, spec: Spec, env: Environment, findings: Findings)
    ensures AllPlanner(PolicyViolations(policy, spec, env, findings))
  {
    if policy.body.Lint? {
      LintViolationsFit(spec.subject, policy.body.rules, findings);
    } else {
      LowerIdempotent(if policy.body.severity.Some? then policy.body.severity.value else "error");
    }
  }

  lemma {:induction false} AllPolicyViolationsFit(policies: seq<Policy>, spec: Spec, env: Environment, findings: Findings)
    ensures AllPlanner(AllPolicyViolations(policies, spec, env, findings))
  {
    if policies != [] {
      AllPolicyViolationsFit(policies[..|policies| - 1], spec, env, findings);
      PolicyViolationsFit(policies[|policies| - 1], spec, env, findings);
    }
  }

  /** Whatever policies are active, the planner's violations are lower-case and outside the policy pack's codes. */
  lemma {:induction false} BatchViolationsFit(policies: seq<Policy>, specs: seq<Spec>, env: Environment, findings: string -> Findings)
    ensures AllPlanner(BatchViolations(policies, specs, env, findings))
  {
    if specs != [] {
      var spec := specs[|specs| - 1];
      BatchViolationsFit(policies, specs[..|specs| - 1], env, findings);
      AllPolicyViolationsFit(policies, spec, env, findings(spec.subject));
      GuardrailFits(spec, env);
    }
  }

  lemma GuardrailFits(spec: Spec, env: Environment)
    ensures AllPlanner(GuardrailViolations(spec, env))
  {
    BuiltInFit(spec);
    var vs := GuardrailViolations(spec, env);
    assert forall i :: 0 <= i < |vs| ==> vs[i] == ProdViolation(spec) || vs[i] == StgViolation(spec);
  }

  lemma BuiltInFit(spec: Spec)
    ensures PolicyPack.PlannerViolation(ProdViolation(spec)) && PolicyPack.PlannerViolation(StgViolation(spec))
  {
    GuardrailOne(ProdViolation(spec));
    GuardrailOne(StgViolation(spec));
  }

  lemma PackCodesStart(code: string)
    requires code != [] && code[0] != 's'
    ensures !PolicyPack.PackCode(code)
  {
    assert PolicyPack.NONE_FORBIDDEN[0] == PolicyPack.NONE_APPROVAL[0] == PolicyPack.METADATA_MISSING[0] == 's';
    assert PolicyPack.DOC_MISSING[0] == PolicyPack.REQUIRED_FIELD[0] == PolicyPack.TYPE_CHANGE[0] == 's';
    assert PolicyPack.ENUM_NARROWING[0] == PolicyPack.INCOMPATIBLE[0] == 's';
  }

  lemma GuardrailOne(v: Violation)
    requires v.severity == "error" || v.severity == "warning"
    requires v.rule != [] && v.rule[0] != 's'
    ensures PolicyPack.PlannerViolation(v)
  {
    LowerWords();
    PackCodesStart(v.rule);
  }

  lemma LowerWords()
    ensures Lower("error") == "error" && Lower("warning") == "warning"
  {
  }

  // ---------- create_plan ----------

  /**
   Everything the planner learns from outside while it plans one batch. `readable` is false when
   describing the subjects or listing the policies raises; `raising` are the subjects whose
   compatibility call, lint checks or impact analysis raise something that is not turned into a report.
   */
  datatype World = World(
    readable: bool,
    raising: set<string>,
    view: map<string, VersionInfo>,
    answers: string -> CompatAnswer,
    policies: seq<Policy>,
    findings: string -> Findings)

  /** The text the adapter sends for a spec: its `schema`, or else its inline or YAML source. */
  ghost predicate IsSent(spec: Spec, t: Text)
  {
    && t != End
    && (spec.schema == Some(t)
        || ((spec.schema == None || spec.schema == Some(End)) && (spec.source == Some(Inline(t)) || spec.source == Some(Yaml(t)))))
  }

  lemma SchemaTextExactly(spec: Spec, t: Text)
    ensures SchemaText(spec) == Some(t) <==> IsSent(spec, t)
  {
  }

  /** The planner gets through: its reads succeed, and every spec has a schema text and calls that do not raise. */
  ghost predicate Plannable(batch: Batch, world: World)
  {
    world.readable && forall i :: 0 <= i < |batch.specs| ==> GetsThrough(world, batch.specs[i])
  }

  ghost predicate GetsThrough(world: World, spec: Spec)
  {
    (exists t :: IsSent(spec, t)) && spec.subject !in world.raising
  }

  lemma CheckableExactly(world: World, spec: Spec)
    ensures Checkable(world, spec) <==> GetsThrough(world, spec)
  {
    if SchemaText(spec).Some? { SchemaTextExactly(spec, SchemaText(spec).value); }
    if t :| IsSent(spec, t) {
      SchemaTextExactly(spec, t);
    }
  }

  lemma PlannableExactly(batch: Batch, world: World)
    ensures Plannable(batch, world) <==> world.readable && forall i :: 0 <= i < |batch.specs| ==> Checkable(world, batch.specs[i])
  {
    forall i | 0 <= i < |batch.specs| ensures Checkable(world, batch.specs[i]) <==> GetsThrough(world, batch.specs[i]) {
      CheckableExactly(world, batch.specs[i]);
    }
  }

  predicate Checkable(world: World, spec: Spec)
  {
    SchemaText(spec).Some? && spec.subject !in world.raising
  }

  function InfoOf(world: World, subject: string): Option<VersionInfo>
  {
    if subject in world.view then Some(world.view[subject]) else None
  }

  ghost predicate PlannedUpTo(specs: seq<Spec>, world: World, items: seq<PlanItem<ChangeNote>>, reports: seq<Report>, n: nat)
  {
    && n <= |specs| && n == |items| == |reports|
    && forall i :: 0 <= i < n ==>
         && IsPlanItem(InfoOf(world, specs[i].subject), specs[i], items[i])
         && reports[i] == ReportFor(specs[i], world.answers(specs[i].subject))
  }

  lemma PlannedStep(specs: seq<Spec>, world: World, items: seq<PlanItem<ChangeNote>>, reports: seq<Report>, n: nat,
                    item: PlanItem<ChangeNote>)
    requires n < |specs| && PlannedUpTo(specs, world, items, reports, n)
    requires IsPlanItem(InfoOf(world, specs[n].subject), specs[n], item)
    ensures PlannedUpTo(specs, world, items + [item],
                        reports + [ReportFor(specs[n], world.answers(specs[n].subject))], n + 1)
  {
  }

  /** The draft after the first `n` specs. */
  ghost predicate DraftedUpTo(batch: Batch, world: World, draft: PolicyPack.Draft, n: nat)
  {
    && PlannedUpTo(batch.specs, world, draft.items, draft.reports, n)
    && draft.violations == BatchViolations(world.policies, batch.specs[..n], batch.env, world.findings)
  }

  /** The plan `create_plan` may return for the batch. */
  ghost predicate IsDraft(batch: Batch, world: World, draft: PolicyPack.Draft)
  {
    && |draft.items| == |draft.reports| == |batch.specs|
    && PlannedUpTo(batch.specs, world, draft.items, draft.reports, |batch.specs|)
    && draft.violations == BatchViolations(world.policies, batch.specs, batch.env, world.findings)
  }

  lemma DraftedStep(batch: Batch, world: World, draft: PolicyPack.Draft, n: nat, item: PlanItem<ChangeNote>,
                    found: seq<Violation>, draft': PolicyPack.Draft)
    requires n < |batch.specs| && DraftedUpTo(batch, world, draft, n)
    requires IsPlanItem(InfoOf(world, batch.specs[n].subject), batch.specs[n], item)
    requires found == SpecViolations(world.policies, batch.specs[n], batch.env, world.findings(batch.specs[n].subject))
    requires draft' == PolicyPack.Draft(
                         draft.items + [item],
                         draft.reports + [ReportFor(batch.specs[n], world.answers(batch.specs[n].subject))],
                         draft.violations + found)
    ensures DraftedUpTo(batch, world, draft', n + 1)
  {
    PlannedStep(batch.specs, world, draft.items, draft.reports, n, item);
    assert batch.specs[..n + 1][..n] == batch.specs[..n];
  }

  // ---------- the plan, from the batch and the world alone ----------

  /** The registry has the subject, the stored type agrees if there is one, and both texts say the same. */
  ghost predicate UpToDate(world: World, spec: Spec)
  {
    && spec.subject in world.view
    && (world.view[spec.subject].schemaType.None? || world.view[spec.subject].schemaType == Some(spec.schemaType))
    && spec.schema.Some? && SameSchemaText(world.view[spec.subject].schema, spec.schema.value, spec.schemaType)
  }

  /** A new subject is registered, an up-to-date one is left alone, any other is updated. */
  ghost predicate ItemTold(world: World, spec: Spec, item: PlanItem<ChangeNote>)
  {
    && item.subject == spec.subject && item.schema == spec.schema && item.reason == spec.reason
    && (item.action == REGISTER <==> spec.subject !in world.view)
    && (item.action == NO_ACTION <==> UpToDate(world, spec))
    && (item.action == UPDATE <==> spec.subject in world.view && !UpToDate(world, spec))
    && (spec.subject !in world.view ==>
          item.currentVersion == None && item.targetVersion == Some(1) && item.currentSchema == None)
    && (spec.subject in world.view ==>
          var info := world.view[spec.subject];
          && item.currentVersion == info.version && item.currentSchema == Some(info.schema)
          && (UpToDate(world, spec) ==> item.targetVersion == info.version)
          && (!UpToDate(world, spec) ==> item.targetVersion == Some(if info.version.Some? then info.version.value + 1 else 1)))
  }

  ghost predicate ReportTold(world: World, spec: Spec, report: Report)
  {
    && report.subject == spec.subject && report.mode == spec.compatibility
    && (report.isCompatible <==> world.answers(spec.subject) == Answered(true))
    && (forall i :: i in report.issues <==>
          world.answers(spec.subject).RegistryError?
          && i == Issue("$", world.answers(spec.subject).message, "SCHEMA_REGISTRY_ERROR"))
  }

  /** The built-in guardrail's objection: an error in prod without FULL or FULL_TRANSITIVE, a warning in stg with NONE. */
  ghost predicate GuardrailFinds(spec: Spec, env: Environment, v: Violation)
  {
    && v.subject == spec.subject && v.field == None
    && ((env == PROD && spec.compatibility !in {FULL, FULL_TRANSITIVE}
         && v.rule == "PROD_COMPAT_RESTRICTION" && v.severity == "error"
         && v.message == "FULL or FULL_TRANSITIVE is required in prod")
        || (env == STG && spec.compatibility == NONE
            && v.rule == "STG_COMPAT_RECOMMENDATION" && v.severity == "warning"
            && v.message == "at least BACKWARD is recommended in stg"))
  }

  /** The guardrail objects to the spec, or its text loads and some active policy finds something. */
  ghost predicate SpecFinds(world: World, spec: Spec, env: Environment, v: Violation)
  {
    || GuardrailFinds(spec, env, v)
    || (&& spec.schema.Some? && spec.schema.value.Cons? && Loads(spec.schema.value).Some?
        && exists p :: 0 <= p < |world.policies| && PolicyFinds(world.policies[p], spec, env, world.findings(spec.subject), v))
  }

  ghost predicate BatchFinds(world: World, specs: seq<Spec>, env: Environment, v: Violation)
  {
    exists i :: 0 <= i < |specs| && SpecFinds(world, specs[i], env, v)
  }

  /** Everything a plan must say. */
  ghost predicate PlanTold(batch: Batch, world: World, draft: PolicyPack.Draft)
  {
    && |draft.items| == |draft.reports| == |batch.specs|
    && (forall i :: 0 <= i < |batch.specs| ==>
          ItemTold(world, batch.specs[i], draft.items[i]) && ReportTold(world, batch.specs[i], draft.reports[i]))
    && (forall v :: v in draft.violations <==> BatchFinds(world, batch.specs, batch.env, v))
  }

  lemma ItemMeaning(world: World, spec: Spec, item: PlanItem<ChangeNote>)
    requires IsPlanItem(InfoOf(world, spec.subject), spec, item)
    ensures ItemTold(world, spec, item)
  {
    if spec.subject in world.view && spec.schema.Some? {
      NormalizeDecides(world.view[spec.subject].schema, spec.schema.value, spec.schemaType);
    }
  }

  lemma SpecViolationsMeaning(world: World, spec: Spec, env: Environment, v: Violation)
    ensures v in SpecViolations(world.policies, spec, env, world.findings(spec.subject)) <==> SpecFinds(world, spec, env, v)
  {
    EngineViolationsMeaning(world.policies, spec, env, world.findings(spec.subject), v);
    GuardrailMeaning(spec, env, v);
  }

  lemma GuardrailMeaning(spec: Spec, env: Environment, v: Violation)
    ensures v in GuardrailViolations(spec, env) <==> GuardrailFinds(spec, env, v)
  {
  }

  lemma BatchFindsStep(world: World, specs: seq<Spec>, env: Environment, v: Violation)
    requires specs != []
    ensures var n := |specs| - 1;
            BatchFinds(world, specs, env, v) <==> BatchFinds(world, specs[..n], env, v) || SpecFinds(world, specs[n], env, v)
  {
    var n := |specs| - 1;
    if i :| 0 <= i < n && SpecFinds(world, specs[..n][i], env, v) {
      assert specs[..n][i] == specs[i];
    }
    if i :| 0 <= i < n && SpecFinds(world, specs[i], env, v) {
      assert specs[..n][i] == specs[i];
    }
  }

  lemma {:induction false} BatchViolationsMeaning(world: World, specs: seq<Spec>, env: Environment, v: Violation)
    ensures v in BatchViolations(world.policies, specs, env, world.findings) <==> BatchFinds(world, specs, env, v)
  {
    if specs != [] {
      var n := |specs| - 1;
      BatchViolationsMeaning(world, specs[..n], env, v);
      SpecViolationsMeaning(world, specs[n], env, v);
      BatchFindsStep(world, specs, env, v);
    }
  }

  lemma ReportMeaning(world: World, spec: Spec)
    ensures ReportTold(world, spec, ReportFor(spec, world.answers(spec.subject)))
  {
  }

  /** What every draft of the planner says, without the planner's own functions. */
  lemma DraftMeaning(batch: Batch, world: World, draft: PolicyPack.Draft)
    requires IsDraft(batch, world, draft)
    ensures PlanTold(batch, world, draft)
  {
    forall i | 0 <= i < |batch.specs|
      ensures ItemTold(world, batch.specs[i], draft.items[i]) && ReportTold(world, batch.specs[i], draft.reports[i])
    {
      ItemMeaning(world, batch.specs[i], draft.items[i]);
      ReportMeaning(world, batch.specs[i]);
    }
    forall v ensures v in draft.violations <==> BatchFinds(world, batch.specs, batch.env, v) {
      BatchViolationsMeaning(world, batch.specs, batch.env, v);
    }
  }

  /** On every plan the planner makes `can_apply` holds exactly when the policy pack's evaluation is not blocking. */
  lemma GatesAgreeOnDrafts(batch: Batch, world: World, draft: PolicyPack.Draft)
    requires IsDraft(batch, world, draft) && PolicyPack.Evaluate(batch.env, batch.specs, draft).Some?
    ensures var result := PolicyPack.Evaluate(batch.env, batch.specs, draft).value;
            PolicyPack.CanApply(draft.reports, result.violations) <==> !PolicyPack.Blocking(result.rules)
  {
    BatchViolationsFit(world.policies, batch.specs, batch.env, world.findings);
    PolicyPack.GatesAgreeOnPlannerPlans(batch.env, batch.specs, draft);
  }

  /** Registering the spec would update a subject with a schema the policy pack cannot compare it to. */
  predicate Unreadable(world: World, spec: Spec)
  {
    && spec.subject in world.view && spec.schema.Some?
    && DeterminePlanAction(Some(world.view[spec.subject]), spec) == UPDATE
    && match (PolicyPack.ParseSchema(world.view[spec.subject].schema), PolicyPack.ParseSchema(spec.schema.value))
       case (Some(before), Some(after)) => !Evolution.CommonReadable(Evolution.FieldMap(before), Evolution.FieldMap(after))
       case _ => false
  }

  /** Whether the policy pack raises is settled by the batch and the registry alone. */
  lemma PackRaisesExactly(batch: Batch, world: World, draft: PolicyPack.Draft)
    requires IsDraft(batch, world, draft)
    ensures PolicyPack.Evaluate(batch.env, batch.specs, draft).None?
       <==> exists i :: 0 <= i < |batch.specs| && Unreadable(world, batch.specs[i])
  {
    PolicyPack.EvaluateRaisesExactly(batch.env, batch.specs, draft);
    forall i | 0 <= i < |batch.specs| ensures PolicyPack.UnreadableUpdate(draft.items[i]) <==> Unreadable(world, batch.specs[i]) {
      UnreadableItem(world, batch.specs[i], draft.items[i]);
    }
  }

  lemma UnreadableItem(world: World, spec: Spec, item: PlanItem<ChangeNote>)
    requires IsPlanItem(InfoOf(world, spec.subject), spec, item)
    ensures PolicyPack.UnreadableUpdate(item) <==> Unreadable(world, spec)
  {
  }

  /** `create_plan`; None when it raises. */
  method CreatePlan(batch: Batch, world: World) returns (r: Option<PolicyPack.Draft>)
    ensures r.Some? <==> Plannable(batch, world)
    ensures r.Some? ==> IsDraft(batch, world, r.value) && PlanTold(batch, world, r.value)
  {
    var specs := batch.specs;
    PlannableExactly(batch, world);
    var draft := PolicyPack.Draft([], [], []);
    if !world.readable { return None; }
    for i := 0 to |specs|
      invariant forall k :: 0 <= k < i ==> Checkable(world, specs[k])
      invariant DraftedUpTo(batch, world, draft, i)
    {
      var spec := specs[i];
      var item := PlanOne(InfoOf(world, spec.subject), spec);
      if !Checkable(world, spec) { return None; }
      var dynamic := EvaluatePolicies(world.policies, spec, batch.env, world.findings(spec.subject));
      var found := GuardrailViolations(spec, batch.env) + dynamic;
      var draft' := PolicyPack.Draft(draft.items + [item],
                                     draft.reports + [ReportFor(spec, world.answers(spec.subject))],
                                     draft.violations + found);
      DraftedStep(batch, world, draft, i, item, found, draft');
      draft := draft';
    }
    assert specs[..|specs|] == specs;
    DraftMeaning(batch, world, draft);
    return Some(draft);
  }

  method PlanOne(info: Option<VersionInfo>, spec: Spec) returns (item: PlanItem<ChangeNote>)
    ensures IsPlanItem(info, spec, item)
  {
    var action := DeterminePlanAction(info, spec);
    var currentVersion := if info.Some? then info.value.version else None;
    var diff := Diff(NoChangeDiff, [NoSchemaChange], currentVersion, spec.compatibility, Some(spec.schemaType));
    if action != NO_ACTION { diff := CalculateSchemaDiff(info, spec); }
    return PlanItem(spec.subject, action, currentVersion, TargetVersion(info, action), diff, spec.schema,
                    if info.Some? then Some(info.value.schema) else None, spec.reason);
  }

  // ---------- planning again after registering ----------

  /** The registry holds a text that is JSON-equal to what the adapter sent for the spec. */
  ghost predicate HoldsRegistered(spec: Spec, info: VersionInfo)
  {
    && spec.schemaType != PROTOBUF
    && (info.schemaType.Some? ==> info.schemaType.value == spec.schemaType)
    && SchemaText(spec).Some?
    && Loads(info.schema).Some?
    && var sent := RegistryText(SchemaText(spec).value);
       sent.Some? && Loads(sent.value).Some? && ToValue(Loads(info.schema).value) == ToValue(Loads(sent.value).value)
  }

  /**
   Once the spec is registered, planning it again finds nothing to do exactly when its text is in
   the `schema` field and does not start with a byte order mark.
   */
  lemma ReplanIsNoActionExactly(spec: Spec, info: VersionInfo)
    requires HoldsRegistered(spec, info)
    ensures DeterminePlanAction(Some(info), spec) == NO_ACTION <==>
              spec.schema.Some? && spec.schema.value.Cons? && !StartsWithBom(spec.schema.value)
  {
    LoadsStrip(info.schema);
    NormalForm(info.schema, spec.schemaType);
    var t := SchemaText(spec).value;
    RegistryTextMeaning(t);
    if spec.schema.Some? {
      NormalizeDecides(info.schema, spec.schema.value, spec.schemaType);
    }
  }

  /**
   Two registered specs that are planned as UPDATE every time: one whose text starts with a byte
   order mark, and one that gives its text as an inline source.
   */
  lemma RegisteredAndStillUpdated(subject: string, schemaType: SchemaType)
    requires schemaType != PROTOBUF
    ensures var braces := EMPTY_OBJECT;
            var info := VersionInfo(Some(1), braces, Some(schemaType));
            var marked := Spec(subject, schemaType, FULL, Some(Cons(BOM, braces)), None, None, None, false);
            var inlined := Spec(subject, schemaType, FULL, None, Some(Inline(braces)), None, None, false);
            && HoldsRegistered(marked, info) && DeterminePlanAction(Some(info), marked) == UPDATE
            && HoldsRegistered(inlined, info) && DeterminePlanAction(Some(info), inlined) == UPDATE
  {
    var braces := EMPTY_OBJECT;
    var info := VersionInfo(Some(1), braces, Some(schemaType));
    var marked := Spec(subject, schemaType, FULL, Some(Cons(BOM, braces)), None, None, None, false);
    var inlined := Spec(subject, schemaType, FULL, None, Some(Inline(braces)), None, None, false);
    EmptyObjectSent();
    assert Newlines(Cons(BOM, braces).tail) == Newlines(braces);
    ReplanIsNoActionExactly(marked, info);
    ReplanIsNoActionExactly(inlined, info);
  }

  lemma EmptyObjectSent()
    ensures Loads(EMPTY_OBJECT) == Some(DObj([])) && RegistryText(EMPTY_OBJECT) == Some(EMPTY_OBJECT)
    ensures RegistryText(Cons(BOM, EMPTY_OBJECT)) == Some(EMPTY_OBJECT)
  {
    assert Print(DObj([])) == EMPTY_OBJECT;
    LoadsPrint(DObj([]));
    LoadsNewlines(EMPTY_OBJECT);
    StripPrint(DObj([]));
    assert DropBom(EMPTY_OBJECT) == EMPTY_OBJECT && DropBom(Cons(BOM, EMPTY_OBJECT)) == EMPTY_OBJECT;
  }

  /** In that case the plan item keeps the version and says that nothing changed. */
  lemma ReplannedItem(spec: Spec, info: VersionInfo, item: PlanItem<ChangeNote>)
    requires HoldsRegistered(spec, info) && IsPlanItem(Some(info), spec, item)
    requires spec.schema.Some? && spec.schema.value.Cons? && !StartsWithBom(spec.schema.value)
    ensures item.action == NO_ACTION && item.targetVersion == item.currentVersion == info.version
    ensures item.diff.kind == NoChangeDiff && item.diff.changes == [NoSchemaChange]
  {
    ReplanIsNoActionExactly(spec, info);
  }
}
