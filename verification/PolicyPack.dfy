/** The default policy pack, the evaluation it returns and the two gates that judge a plan. */
module PolicyPack {
  import opened Prelude
  import opened Json
  import opened Models
  import opened Evolution
  import CanonicalText

  datatype RiskLevel = NoRisk | Low | Medium | High | Critical

  datatype Decision = Allow | Warn | ApprovalRequired | Reject

  datatype Rule = Rule(
    code: string,
    severity: string,
    risk: RiskLevel,
    decision: Decision,
    reason: string,
    resourceName: string,
    field: Option<string>)

  /** The parts of a plan the policy pack reads. */
  datatype Draft = Draft(items: seq<PlanItem<ChangeNote>>, reports: seq<Report>, violations: seq<Violation>)

  const NONE_FORBIDDEN := "schema.compatibility.none.forbidden"
  const NONE_APPROVAL := "schema.compatibility.none.requires_approval"
  const METADATA_MISSING := "schema.metadata.missing"
  const DOC_MISSING := "schema.metadata.doc.missing"
  const REQUIRED_FIELD := "schema.field.required_without_default.forbidden"
  const TYPE_CHANGE := "schema.field.type_change.forbidden"
  const ENUM_NARROWING := "schema.enum_narrowing.requires_approval"
  const INCOMPATIBLE := "schema.compatibility.backward_incompatible"

  predicate PackCode(code: string)
  {
    || code == NONE_FORBIDDEN || code == NONE_APPROVAL || code == METADATA_MISSING || code == DOC_MISSING
    || code == REQUIRED_FIELD || code == TYPE_CHANGE || code == ENUM_NARROWING || code == INCOMPATIBLE
  }

  ghost predicate PackCodesOnly(rules: seq<Rule>)
  {
    forall i :: 0 <= i < |rules| ==> PackCode(rules[i].code)
  }

  // ---------- rules ----------

  function CompatibilityNoneRules(env: Environment, spec: Spec): (r: seq<Rule>)
    ensures PackCodesOnly(r)
  {
    if spec.compatibility != NONE then []
    else if env == PROD then
      [Rule(NONE_FORBIDDEN, "error", Critical, Reject,
            "schema '" + spec.subject + "' cannot use compatibility NONE in prod", spec.subject, Some("compatibility"))]
    else
      [Rule(NONE_APPROVAL, "warning", High, ApprovalRequired,
            "schema '" + spec.subject + "' uses compatibility NONE", spec.subject, Some("compatibility"))]
  }

  function MetadataRules(env: Environment, spec: Spec): (r: seq<Rule>)
    ensures PackCodesOnly(r)
  {
    var severity := if env == PROD then "error" else "warning";
    var guarded := env == STG || env == PROD;
    var decision := if guarded then ApprovalRequired else Warn;
    if spec.metadata.None? then
      [Rule(METADATA_MISSING, severity, if guarded then High else Low, decision,
            "schema '" + spec.subject + "' is missing metadata.owner/doc context", spec.subject, Some("metadata"))]
    else if spec.metadata.value.doc.None? || spec.metadata.value.doc.value == "" then
      [Rule(DOC_MISSING, severity, if guarded then Medium else Low, decision,
            "schema '" + spec.subject + "' is missing metadata.doc", spec.subject, Some("metadata.doc"))]
    else []
  }

  /** `_parse_schema`: the dictionary the text loads to, if it loads to one. */
  function ParseSchema(t: Text): Option<Value>
  {
    match Loads(t)
    case Some(d) => if ToValue(d).VObj? then Some(ToValue(d)) else None
    case None => None
  }

  function FieldRules(subject: string, code: string, severity: string, risk: RiskLevel, decision: Decision,
                      verb: string, tail: string, names: seq<string>): (r: seq<Rule>)
    ensures |r| == |names| && forall i :: 0 <= i < |r| ==> r[i].code == code && r[i].decision == decision
    ensures PackCode(code) ==> PackCodesOnly(r)
  {
    seq(|names|, i requires 0 <= i < |names| =>
      Rule(code, severity, risk, decision, "schema '" + subject + "' " + verb + " '" + names[i] + "'" + tail, subject,
           Some("schema.fields." + names[i])))
  }

  /** The rules about how the fields evolve; None when reading the enum symbols raises. */
  function EvolutionRules(subject: string, before: Value, after: Value): (r: Option<seq<Rule>>)
    ensures r.Some? ==> PackCodesOnly(r.value)
  {
    var o, a := FieldMap(before), FieldMap(after);
    match (ChangedFieldTypes(o, a), EnumNarrowingFields(o, a))
    case (Some(changed), Some(narrowed)) =>
      Some(FieldRules(subject, REQUIRED_FIELD, "error", Critical, Reject,
                      "adds required field", " without a default", AddedRequired(o, a))
           + FieldRules(subject, TYPE_CHANGE, "error", Critical, Reject, "changes field type for", "", changed)
           + FieldRules(subject, ENUM_NARROWING, "warning", High, ApprovalRequired, "narrows enum symbols for", "", narrowed))
    case _ => None
  }

  function ItemRules(env: Environment, spec: Spec, item: PlanItem<ChangeNote>): (r: Option<seq<Rule>>)
    ensures r.Some? ==> PackCodesOnly(r.value)
  {
    var rules := CompatibilityNoneRules(env, spec) + MetadataRules(env, spec);
    if item.action != UPDATE || item.currentSchema.None? || item.schema.None? then Some(rules)
    else
      match (ParseSchema(item.currentSchema.value), ParseSchema(item.schema.value))
      case (Some(before), Some(after)) =>
        (match EvolutionRules(spec.subject, before, after)
         case Some(more) => Some(rules + more)
         case None => None)
      case _ => Some(rules)
  }

  /** Runs of rules in order; None as soon as one of them raised. */
  function Concat(parts: seq<Option<seq<Rule>>>): Option<seq<Rule>>
  {
    if parts == [] then Some([])
    else
      match (Concat(parts[..|parts| - 1]), parts[|parts| - 1])
      case (Some(rules), Some(more)) => Some(rules + more)
      case _ => None
  }

  lemma {:induction false} ConcatCodes(parts: seq<Option<seq<Rule>>>)
    requires forall i :: 0 <= i < |parts| && parts[i].Some? ==> PackCodesOnly(parts[i].value)
    ensures Concat(parts).Some? ==> PackCodesOnly(Concat(parts).value)
  {
    if parts != [] { ConcatCodes(parts[..|parts| - 1]); }
  }

  lemma {:induction false} ConcatFails(parts: seq<Option<seq<Rule>>>, n: nat)
    requires n <= |parts| && Concat(parts[..n]).None?
    ensures Concat(parts).None?
  {
    if n < |parts| {
      var k := |parts| - 1;
      assert parts[..k][..n] == parts[..n];
      ConcatFails(parts[..k], n);
    } else {
      assert parts[..n] == parts;
    }
  }

  lemma ConcatStep(parts: seq<Option<seq<Rule>>>, n: nat, rules: seq<Rule>)
    requires n < |parts| && Concat(parts[..n]) == Some(rules)
    ensures parts[n].Some? ==> Concat(parts[..n + 1]) == Some(rules + parts[n].value)
    ensures parts[n].None? ==> Concat(parts).None?
  {
    var upTo := parts[..n + 1];
    assert upTo[..n] == parts[..n] && upTo[n] == parts[n];
    if parts[n].None? { ConcatFails(parts, n + 1); }
  }

  lemma {:induction false} ConcatRaises(parts: seq<Option<seq<Rule>>>)
    ensures Concat(parts).None? <==> exists i :: 0 <= i < |parts| && parts[i].None?
  {
    if parts != [] {
      var n := |parts| - 1;
      ConcatRaises(parts[..n]);
      assert forall i :: 0 <= i < n ==> parts[..n][i] == parts[i];
    }
  }

  /** Both texts of an update are JSON objects, and some common field has enum symbols that cannot be read. */
  predicate UnreadableUpdate(item: PlanItem<ChangeNote>)
  {
    && item.action == UPDATE && item.currentSchema.Some? && item.schema.Some?
    && match (ParseSchema(item.currentSchema.value), ParseSchema(item.schema.value))
       case (Some(before), Some(after)) => !CommonReadable(FieldMap(before), FieldMap(after))
       case _ => false
  }

  lemma ItemRaisesExactly(env: Environment, spec: Spec, item: PlanItem<ChangeNote>)
    ensures ItemRules(env, spec, item).None? <==> UnreadableUpdate(item)
  {
  }

  /** The policy pack raises exactly when some item is an update with unreadable enum symbols. */
  lemma EvaluateRaisesExactly(env: Environment, specs: seq<Spec>, draft: Draft)
    requires |specs| == |draft.items|
    ensures Evaluate(env, specs, draft).None? <==> exists i :: 0 <= i < |specs| && UnreadableUpdate(draft.items[i])
  {
    var parts := RulesPerItem(env, specs, draft.items);
    ConcatRaises(parts);
    forall i | 0 <= i < |specs| ensures parts[i].None? <==> UnreadableUpdate(draft.items[i]) {
      ItemRaisesExactly(env, specs[i], draft.items[i]);
    }
  }

  function RulesPerItem(env: Environment, specs: seq<Spec>, items: seq<PlanItem<ChangeNote>>): (r: seq<Option<seq<Rule>>>)
    requires |specs| == |items|
    ensures |r| == |specs| && forall i :: 0 <= i < |r| && r[i].Some? ==> PackCodesOnly(r[i].value)
  {
    seq(|specs|, i requires 0 <= i < |specs| => ItemRules(env, specs[i], items[i]))
  }

  function CustomRules(env: Environment, specs: seq<Spec>, items: seq<PlanItem<ChangeNote>>): (r: Option<seq<Rule>>)
    requires |specs| == |items|
    ensures r.Some? ==> PackCodesOnly(r.value)
  {
    ConcatCodes(RulesPerItem(env, specs, items));
    Concat(RulesPerItem(env, specs, items))
  }

  /** The part of the loop of `_build_custom_rules` that looks at one spec. */
  method BuildItemRules(env: Environment, spec: Spec, item: PlanItem<ChangeNote>) returns (r: Option<seq<Rule>>)
    ensures r == ItemRules(env, spec, item)
  {
    var own := CompatibilityNoneRules(env, spec) + MetadataRules(env, spec);
    if item.action != UPDATE || item.currentSchema.None? || item.schema.None? { return Some(own); }
    var before, after := ParseSchema(item.currentSchema.value), ParseSchema(item.schema.value);
    if before.None? || after.None? { return Some(own); }
    var required := AddedRequired(FieldMap(before.value), FieldMap(after.value));
    var changed := ComputeChangedFieldTypes(before.value, after.value);
    var narrowed := ComputeEnumNarrowingFields(before.value, after.value);
    if changed.None? || narrowed.None? { return None; }
    return Some(own
                + (FieldRules(spec.subject, REQUIRED_FIELD, "error", Critical, Reject,
                              "adds required field", " without a default", required)
                   + FieldRules(spec.subject, TYPE_CHANGE, "error", Critical, Reject,
                                "changes field type for", "", changed.value)
                   + FieldRules(spec.subject, ENUM_NARROWING, "warning", High, ApprovalRequired,
                                "narrows enum symbols for", "", narrowed.value)));
  }

  /** `_build_custom_rules` */
  method BuildCustomRules(env: Environment, specs: seq<Spec>, items: seq<PlanItem<ChangeNote>>)
    returns (r: Option<seq<Rule>>)
    requires |specs| == |items|
    ensures r == CustomRules(env, specs, items)
  {
    var rules: seq<Rule> := [];
    ghost var parts := RulesPerItem(env, specs, items);
    for i := 0 to |specs|
      invariant Concat(parts[..i]) == Some(rules)
    {
      ConcatStep(parts, i, rules);
      var own := BuildItemRules(env, specs[i], items[i]);
      if own.None? { return None; }
      rules := rules + own.value;
    }
    assert parts[..|specs|] == parts;
    return Some(rules);
  }

  function CompatibilityRule(report: Report): Rule
  {
    var suffix := if report.issues != [] then ": " + report.issues[0].message else "";
    Rule(INCOMPATIBLE, "error", Critical, Reject,
         "schema '" + report.subject + "' is incompatible under " + ModeValue(report.mode) + suffix,
         report.subject, Some("compatibility"))
  }

  /** `_rules_from_compatibility_reports` */
  function CompatibilityRules(reports: seq<Report>): (r: seq<Rule>)
    ensures r == [] <==> forall i :: 0 <= i < |reports| ==> reports[i].isCompatible
    ensures forall rule :: rule in r ==> rule.code == INCOMPATIBLE && rule.decision == Reject
  {
    if reports == [] then []
    else (if reports[0].isCompatible then [] else [CompatibilityRule(reports[0])]) + CompatibilityRules(reports[1..])
  }

  function RuleFromViolation(v: Violation): Rule
  {
    var severity := Lower(v.severity);
    var isError := severity == "error";
    Rule(v.rule, severity, if isError then High else Low, if isError then Reject else Warn, v.message, v.subject, v.field)
  }

  function ViolationFromRule(r: Rule): Violation
  {
    Violation(r.resourceName, r.code, r.reason, if r.decision == Reject then "error" else "warning", r.field)
  }

  function RulesFromViolations(vs: seq<Violation>): (r: seq<Rule>)
    ensures |r| == |vs| && forall i :: 0 <= i < |r| ==> r[i] == RuleFromViolation(vs[i])
  {
    seq(|vs|, i requires 0 <= i < |vs| => RuleFromViolation(vs[i]))
  }

  /** The violations generated for the rules whose code no plan violation carries. */
  function Generated(rules: seq<Rule>, codes: set<string>): (r: seq<Violation>)
    ensures forall v :: v in r <==> exists i :: 0 <= i < |rules| && rules[i].code !in codes && v == ViolationFromRule(rules[i])
  {
    if rules == [] then []
    else
      var rest := Generated(rules[1..], codes);
      HeadTail(rules);
      (if rules[0].code in codes then [] else [ViolationFromRule(rules[0])]) + rest
  }

  function Codes(vs: seq<Violation>): set<string>
  {
    set v | v in vs :: v.rule
  }

  datatype PackResult = PackResult(violations: seq<Violation>, rules: seq<Rule>)

  /** `DefaultSchemaPolicyPackV1.evaluate`; None when it raises. */
  function Evaluate(env: Environment, specs: seq<Spec>, draft: Draft): Option<PackResult>
    requires |specs| == |draft.items|
  {
    match CustomRules(env, specs, draft.items)
    case None => None
    case Some(custom) =>
      var added := CompatibilityRules(draft.reports) + custom;
      Some(PackResult(draft.violations + Generated(added, Codes(draft.violations)),
                      RulesFromViolations(draft.violations) + added))
  }

  // ---------- the evaluation ----------

  predicate Blocking(rules: seq<Rule>)
  {
    exists i :: 0 <= i < |rules| && rules[i].decision == Reject
  }

  predicate HasApprovalRule(rules: seq<Rule>)
  {
    exists i :: 0 <= i < |rules| && rules[i].decision == ApprovalRequired
  }

  predicate NeedsApproval(rules: seq<Rule>)
  {
    HasApprovalRule(rules) && !Blocking(rules)
  }

  function Rank(r: RiskLevel): nat
  {
    match r case NoRisk => 0 case Low => 1 case Medium => 2 case High => 3 case Critical => 4
  }

  /** The highest risk of any rule, NoRisk without rules. */
  function RiskOf(rules: seq<Rule>): (r: RiskLevel)
    ensures forall i :: 0 <= i < |rules| ==> Rank(rules[i].risk) <= Rank(r)
    ensures if rules == [] then r == NoRisk else exists i :: 0 <= i < |rules| && rules[i].risk == r
  {
    if rules == [] then NoRisk
    else
      var rest := RiskOf(rules[1..]);
      HeadTail(rules);
      assert rules[0] in rules;
      if |rules| == 1 || Rank(rules[0].risk) >= Rank(rest) then rules[0].risk
      else
        assert exists i :: 0 <= i < |rules[1..]| && rules[1..][i].risk == rest;
        rest
  }

  /** The same, without the ranks: the highest level that occurs. */
  lemma RiskMeaning(rules: seq<Rule>)
    ensures RiskOf(rules) == Critical <==> HasRisk(rules, Critical)
    ensures RiskOf(rules) == High <==> HasRisk(rules, High) && !HasRisk(rules, Critical)
    ensures RiskOf(rules) == Medium <==> HasRisk(rules, Medium) && !HasRisk(rules, High) && !HasRisk(rules, Critical)
    ensures RiskOf(rules) == Low <==>
              HasRisk(rules, Low) && !HasRisk(rules, Medium) && !HasRisk(rules, High) && !HasRisk(rules, Critical)
  {
    if i :| 0 <= i < |rules| && rules[i].risk == RiskOf(rules) {
      assert HasRisk(rules, RiskOf(rules));
    }
  }

  ghost predicate HasRisk(rules: seq<Rule>, level: RiskLevel)
  {
    exists i :: 0 <= i < |rules| && rules[i].risk == level
  }

  datatype Gate = Blocked | NeedsOverride | Passed

  /** `ensure_approval` on an evaluation: it raises `PolicyBlockedError` or `ApprovalRequiredError`, or returns. */
  function EnsureApproval(rules: seq<Rule>, overridden: bool): Gate
  {
    if Blocking(rules) then Blocked
    else if NeedsApproval(rules) && !overridden then NeedsOverride
    else Passed
  }

  /** `DomainSchemaPlan.can_apply` */
  predicate CanApply(reports: seq<Report>, violations: seq<Violation>)
  {
    && (forall i :: 0 <= i < |reports| ==> reports[i].isCompatible)
    && (forall i :: 0 <= i < |violations| ==> !violations[i].IsError())
  }

  // ---------- the rules of an evaluation, one by one ----------

  /** The text loads to a dictionary. */
  ghost predicate LoadsTo(t: Option<Text>, v: Value)
  {
    t.Some? && Loads(t.value).Some? && ToValue(Loads(t.value).value) == v && v.VObj?
  }

  /** Compatibility NONE: forbidden in prod, to be approved elsewhere. */
  ghost predicate IsModeRule(env: Environment, spec: Spec, r: Rule)
  {
    && spec.compatibility == NONE && r.resourceName == spec.subject && r.field == Some("compatibility")
    && if env == PROD
       then && (r.code, r.severity, r.risk, r.decision) == ("schema.compatibility.none.forbidden", "error", Critical, Reject)
            && r.reason == "schema '" + spec.subject + "' cannot use compatibility NONE in prod"
       else && (r.code, r.severity, r.risk, r.decision)
                 == ("schema.compatibility.none.requires_approval", "warning", High, ApprovalRequired)
            && r.reason == "schema '" + spec.subject + "' uses compatibility NONE"
  }

  /** Missing documentation: an error in prod, to be approved in stg and prod, a low risk elsewhere. */
  ghost predicate IsDocRule(env: Environment, spec: Spec, r: Rule)
  {
    && r.resourceName == spec.subject
    && (r.severity == if env == PROD then "error" else "warning")
    && (r.decision == if env == DEV then Warn else ApprovalRequired)
    && ((&& spec.metadata == None && r.code == "schema.metadata.missing" && r.field == Some("metadata")
         && r.risk == (if env == DEV then Low else High)
         && r.reason == "schema '" + spec.subject + "' is missing metadata.owner/doc context")
        || (&& spec.metadata.Some? && (spec.metadata.value.doc.None? || |spec.metadata.value.doc.value| == 0)
            && r.code == "schema.metadata.doc.missing" && r.field == Some("metadata.doc")
            && r.risk == (if env == DEV then Low else Medium)
            && r.reason == "schema '" + spec.subject + "' is missing metadata.doc"))
  }

  /** A rule about the field `n`, in words that quote its name. */
  ghost predicate IsNamedRule(subject: string, code: string, severity: string, risk: RiskLevel, decision: Decision,
                              verb: string, tail: string, n: string, r: Rule)
  {
    && r.code == code && r.severity == severity && r.risk == risk && r.decision == decision
    && r.reason == "schema '" + subject + "' " + verb + " '" + n + "'" + tail
    && r.resourceName == subject && r.field == Some("schema.fields." + n)
  }

  /** A new field `n` without a default. */
  ghost predicate IsRequiredRule(spec: Spec, before: Value, after: Value, n: string, r: Rule)
  {
    && n in AddedRequired(FieldMap(before), FieldMap(after))
    && IsNamedRule(spec.subject, "schema.field.required_without_default.forbidden", "error", Critical, Reject,
                   "adds required field", " without a default", n, r)
  }

  /** A changed type of the field `n`. */
  ghost predicate IsTypeRule(spec: Spec, before: Value, after: Value, n: string, r: Rule)
  {
    var changed := ChangedFieldTypes(FieldMap(before), FieldMap(after));
    && changed.Some? && n in changed.value
    && IsNamedRule(spec.subject, "schema.field.type_change.forbidden", "error", Critical, Reject,
                   "changes field type for", "", n, r)
  }

  /** A narrowed enum of the field `n`. */
  ghost predicate IsEnumRule(spec: Spec, before: Value, after: Value, n: string, r: Rule)
  {
    var narrowed := EnumNarrowingFields(FieldMap(before), FieldMap(after));
    && narrowed.Some? && n in narrowed.value
    && IsNamedRule(spec.subject, "schema.enum_narrowing.requires_approval", "warning", High, ApprovalRequired,
                   "narrows enum symbols for", "", n, r)
  }

  /** One of the three ways the fields of an update can evolve badly. */
  ghost predicate IsEvolutionRule(spec: Spec, before: Value, after: Value, r: Rule)
  {
    || (exists n :: IsRequiredRule(spec, before, after, n, r))
    || (exists n :: IsTypeRule(spec, before, after, n, r))
    || (exists n :: IsEnumRule(spec, before, after, n, r))
  }

  /** An update of one dictionary by another, with a field that evolves badly. */
  ghost predicate IsUpdateRule(spec: Spec, item: PlanItem<ChangeNote>, r: Rule)
  {
    && item.action == UPDATE
    && exists before, after :: LoadsTo(item.currentSchema, before) && LoadsTo(item.schema, after) && IsEvolutionRule(spec, before, after, r)
  }

  /** A rule the policy pack adds for one item. */
  ghost predicate IsItemRule(env: Environment, spec: Spec, item: PlanItem<ChangeNote>, r: Rule)
  {
    IsModeRule(env, spec, r) || IsDocRule(env, spec, r) || IsUpdateRule(spec, item, r)
  }

  /** A violation of the plan as a rule: an error in any spelling rejects with high risk, anything else warns. */
  ghost predicate IsViolationRule(v: Violation, r: Rule)
  {
    && (r.code, r.reason, r.resourceName, r.field) == (v.rule, v.message, v.subject, v.field) && r.severity == Lower(v.severity)
    && ((r.severity == "error" && r.risk == High && r.decision == Reject)
        || (r.severity != "error" && r.risk == Low && r.decision == Warn))
  }

  /** An incompatible report as a rule; its reason ends with the first issue, if there is one. */
  ghost predicate IsReportRule(report: Report, r: Rule)
  {
    && !report.isCompatible && r.resourceName == report.subject && r.field == Some("compatibility")
    && (r.code, r.severity, r.risk, r.decision) == ("schema.compatibility.backward_incompatible", "error", Critical, Reject)
    && r.reason == "schema '" + report.subject + "' is incompatible under " + ModeValue(report.mode)
                   + if |report.issues| > 0 then ": " + report.issues[0].message else ""
  }

  lemma ModeRulesExactly(env: Environment, spec: Spec, r: Rule)
    ensures r in CompatibilityNoneRules(env, spec) <==> IsModeRule(env, spec, r)
  {
  }

  lemma DocRulesExactly(env: Environment, spec: Spec, r: Rule)
    ensures r in MetadataRules(env, spec) <==> IsDocRule(env, spec, r)
  {
    assert METADATA_MISSING == "schema.metadata.missing" && DOC_MISSING == "schema.metadata.doc.missing";
    var rules := MetadataRules(env, spec);
    if rules != [] {
      assert rules == [rules[0]];
      assert IsDocRule(env, spec, rules[0]);
      if IsDocRule(env, spec, r) {
        assert r.code == rules[0].code && r.reason == rules[0].reason && r.field == rules[0].field;
      }
    }
  }

  lemma FieldRulesExactly(subject: string, code: string, severity: string, risk: RiskLevel, decision: Decision,
                          verb: string, tail: string, names: seq<string>, r: Rule)
    ensures r in FieldRules(subject, code, severity, risk, decision, verb, tail, names)
       <==> exists n :: n in names && IsNamedRule(subject, code, severity, risk, decision, verb, tail, n, r)
  {
    var rules := FieldRules(subject, code, severity, risk, decision, verb, tail, names);
    if n :| n in names && IsNamedRule(subject, code, severity, risk, decision, verb, tail, n, r) {
      var i :| 0 <= i < |names| && names[i] == n;
      assert rules[i] == r;
    }
    if r in rules {
      var i :| 0 <= i < |names| && rules[i] == r;
      assert IsNamedRule(subject, code, severity, risk, decision, verb, tail, names[i], r);
    }
  }

  lemma RequiredRulesExactly(spec: Spec, before: Value, after: Value, names: seq<string>, r: Rule)
    requires names == AddedRequired(FieldMap(before), FieldMap(after))
    ensures r in FieldRules(spec.subject, REQUIRED_FIELD, "error", Critical, Reject, "adds required field", " without a default", names)
       <==> exists n :: IsRequiredRule(spec, before, after, n, r)
  {
    FieldRulesExactly(spec.subject, REQUIRED_FIELD, "error", Critical, Reject, "adds required field", " without a default", names, r);
    if n :| IsRequiredRule(spec, before, after, n, r) {
      assert n in names && IsNamedRule(spec.subject, REQUIRED_FIELD, "error", Critical, Reject, "adds required field", " without a default", n, r);
    }
    if n :| n in names && IsNamedRule(spec.subject, REQUIRED_FIELD, "error", Critical, Reject, "adds required field", " without a default", n, r) {
      assert IsRequiredRule(spec, before, after, n, r);
    }
  }

  lemma TypeRulesExactly(spec: Spec, before: Value, after: Value, names: seq<string>, r: Rule)
    requires ChangedFieldTypes(FieldMap(before), FieldMap(after)) == Some(names)
    ensures r in FieldRules(spec.subject, TYPE_CHANGE, "error", Critical, Reject, "changes field type for", "", names)
       <==> exists n :: IsTypeRule(spec, before, after, n, r)
  {
    FieldRulesExactly(spec.subject, TYPE_CHANGE, "error", Critical, Reject, "changes field type for", "", names, r);
    if n :| IsTypeRule(spec, before, after, n, r) {
      assert n in names && IsNamedRule(spec.subject, TYPE_CHANGE, "error", Critical, Reject, "changes field type for", "", n, r);
    }
    if n :| n in names && IsNamedRule(spec.subject, TYPE_CHANGE, "error", Critical, Reject, "changes field type for", "", n, r) {
      assert IsTypeRule(spec, before, after, n, r);
    }
  }

  lemma EnumRulesExactly(spec: Spec, before: Value, after: Value, names: seq<string>, r: Rule)
    requires EnumNarrowingFields(FieldMap(before), FieldMap(after)) == Some(names)
    ensures r in FieldRules(spec.subject, ENUM_NARROWING, "warning", High, ApprovalRequired, "narrows enum symbols for", "", names)
       <==> exists n :: IsEnumRule(spec, before, after, n, r)
  {
    FieldRulesExactly(spec.subject, ENUM_NARROWING, "warning", High, ApprovalRequired, "narrows enum symbols for", "", names, r);
    if n :| IsEnumRule(spec, before, after, n, r) {
      assert n in names && IsNamedRule(spec.subject, ENUM_NARROWING, "warning", High, ApprovalRequired, "narrows enum symbols for", "", n, r);
    }
    if n :| n in names && IsNamedRule(spec.subject, ENUM_NARROWING, "warning", High, ApprovalRequired, "narrows enum symbols for", "", n, r) {
      assert IsEnumRule(spec, before, after, n, r);
    }
  }

  lemma EvolutionRulesExactly(spec: Spec, before: Value, after: Value, r: Rule)
    requires EvolutionRules(spec.subject, before, after).Some?
    ensures r in EvolutionRules(spec.subject, before, after).value <==> IsEvolutionRule(spec, before, after, r)
  {
    RequiredRulesExactly(spec, before, after, AddedRequired(FieldMap(before), FieldMap(after)), r);
    TypeRulesExactly(spec, before, after, ChangedFieldTypes(FieldMap(before), FieldMap(after)).value, r);
    EnumRulesExactly(spec, before, after, EnumNarrowingFields(FieldMap(before), FieldMap(after)).value, r);
  }

  lemma ParsedExactly(t: Text, v: Value)
    ensures ParseSchema(t) == Some(v) <==> LoadsTo(Some(t), v)
  {
  }

  /** The rules of one item are exactly those. */
  lemma ItemRulesExactly(env: Environment, spec: Spec, item: PlanItem<ChangeNote>, r: Rule)
    requires ItemRules(env, spec, item).Some?
    ensures r in ItemRules(env, spec, item).value <==> IsItemRule(env, spec, item, r)
  {
    ModeRulesExactly(env, spec, r);
    DocRulesExactly(env, spec, r);
    if item.action == UPDATE && item.currentSchema.Some? && item.schema.Some? {
      forall v ensures ParseSchema(item.currentSchema.value) == Some(v) <==> LoadsTo(item.currentSchema, v) {
        ParsedExactly(item.currentSchema.value, v);
      }
      forall v ensures ParseSchema(item.schema.value) == Some(v) <==> LoadsTo(item.schema, v) {
        ParsedExactly(item.schema.value, v);
      }
      var before, after := ParseSchema(item.currentSchema.value), ParseSchema(item.schema.value);
      if before.Some? && after.Some? { EvolutionRulesExactly(spec, before.value, after.value, r); }
    }
  }

  lemma {:induction false} ConcatMembers(parts: seq<Option<seq<Rule>>>, r: Rule)
    requires Concat(parts).Some?
    ensures r in Concat(parts).value <==> exists i :: 0 <= i < |parts| && parts[i].Some? && r in parts[i].value
  {
    if parts != [] {
      var n := |parts| - 1;
      ConcatMembers(parts[..n], r);
      assert forall i :: 0 <= i < n ==> parts[..n][i] == parts[i];
    }
  }

  lemma {:induction false} ReportRulesExactly(reports: seq<Report>, r: Rule)
    ensures r in CompatibilityRules(reports) <==> exists i :: 0 <= i < |reports| && IsReportRule(reports[i], r)
  {
    if reports != [] {
      ReportRulesExactly(reports[1..], r);
      if !reports[0].isCompatible { ReportRuleExactly(reports[0], r); }
      assert forall i :: 0 < i < |reports| ==> reports[1..][i - 1] == reports[i];
    }
  }

  lemma ReportRuleExactly(report: Report, r: Rule)
    requires !report.isCompatible
    ensures r == CompatibilityRule(report) <==> IsReportRule(report, r)
  {
  }

  lemma ViolationRulesExactly(vs: seq<Violation>, r: Rule)
    ensures r in RulesFromViolations(vs) <==> exists i :: 0 <= i < |vs| && IsViolationRule(vs[i], r)
  {
    forall i | 0 <= i < |vs| ensures r == RuleFromViolation(vs[i]) <==> IsViolationRule(vs[i], r) {
      ViolationRuleExactly(vs[i], r);
    }
    if i :| 0 <= i < |vs| && IsViolationRule(vs[i], r) {
      assert RulesFromViolations(vs)[i] == r;
    }
  }

  lemma ViolationRuleExactly(v: Violation, r: Rule)
    ensures r == RuleFromViolation(v) <==> IsViolationRule(v, r)
  {
  }

  lemma CustomRulesExactly(env: Environment, specs: seq<Spec>, items: seq<PlanItem<ChangeNote>>, r: Rule)
    requires |specs| == |items| && CustomRules(env, specs, items).Some?
    ensures r in CustomRules(env, specs, items).value <==> exists i :: 0 <= i < |specs| && IsItemRule(env, specs[i], items[i], r)
  {
    var parts := RulesPerItem(env, specs, items);
    ConcatMembers(parts, r);
    ConcatRaises(parts);
    forall i | 0 <= i < |specs| ensures parts[i].Some? && (r in parts[i].value <==> IsItemRule(env, specs[i], items[i], r)) {
      assert !parts[i].None?;
      ItemRulesExactly(env, specs[i], items[i], r);
    }
  }

  /** A rule of the policy pack's own: about a report or about an item. */
  ghost predicate IsAddedRule(env: Environment, specs: seq<Spec>, draft: Draft, r: Rule)
    requires |specs| == |draft.items|
  {
    || (exists i :: 0 <= i < |draft.reports| && IsReportRule(draft.reports[i], r))
    || (exists i :: 0 <= i < |specs| && IsItemRule(env, specs[i], draft.items[i], r))
  }

  /** Such a rule as a violation, unless the plan has one of its code already. */
  ghost predicate IsAddedViolation(env: Environment, specs: seq<Spec>, draft: Draft, v: Violation)
    requires |specs| == |draft.items|
  {
    && (forall i :: 0 <= i < |draft.violations| ==> draft.violations[i].rule != v.rule)
    && (v.severity == "error" || v.severity == "warning")
    && exists r :: IsAddedRule(env, specs, draft, r) && (r.resourceName, r.code, r.reason, r.field) == (v.subject, v.rule, v.message, v.field)
                   && (r.decision == Reject <==> v.severity == "error")
  }

  /** Every rule and every violation of an evaluation, from the batch and the plan alone. */
  lemma EvaluationExactly(env: Environment, specs: seq<Spec>, draft: Draft)
    requires |specs| == |draft.items| && Evaluate(env, specs, draft).Some?
    ensures var result := Evaluate(env, specs, draft).value;
            && (forall r :: r in result.rules <==>
                  (exists i :: 0 <= i < |draft.violations| && IsViolationRule(draft.violations[i], r)) || IsAddedRule(env, specs, draft, r))
            && (forall v :: v in result.violations <==> v in draft.violations || IsAddedViolation(env, specs, draft, v))
  {
    var result := Evaluate(env, specs, draft).value;
    var added := CompatibilityRules(draft.reports) + CustomRules(env, specs, draft.items).value;
    forall r ensures r in added <==> IsAddedRule(env, specs, draft, r) {
      ReportRulesExactly(draft.reports, r);
      CustomRulesExactly(env, specs, draft.items, r);
    }
    forall r ensures r in result.rules <==>
      (exists i :: 0 <= i < |draft.violations| && IsViolationRule(draft.violations[i], r)) || IsAddedRule(env, specs, draft, r)
    {
      ViolationRulesExactly(draft.violations, r);
    }
    forall v ensures v in result.violations <==> v in draft.violations || IsAddedViolation(env, specs, draft, v) {
      AddedViolationsExactly(env, specs, draft, added, v);
    }
  }

  lemma AddedViolationsExactly(env: Environment, specs: seq<Spec>, draft: Draft, added: seq<Rule>, v: Violation)
    requires |specs| == |draft.items| && forall r :: r in added <==> IsAddedRule(env, specs, draft, r)
    ensures v in Generated(added, Codes(draft.violations)) <==> IsAddedViolation(env, specs, draft, v)
  {
    if i :| 0 <= i < |added| && added[i].code !in Codes(draft.violations) && v == ViolationFromRule(added[i]) {
      assert IsAddedRule(env, specs, draft, added[i]);
    }
    if IsAddedViolation(env, specs, draft, v) {
      var r :| IsAddedRule(env, specs, draft, r) && (r.resourceName, r.code, r.reason, r.field) == (v.subject, v.rule, v.message, v.field)
               && (r.decision == Reject <==> v.severity == "error");
      assert r in added;
      assert v == ViolationFromRule(r);
    }
  }

  // ---------- the two gates ----------

  predicate AllCompatible(reports: seq<Report>)
  {
    forall i :: 0 <= i < |reports| ==> reports[i].isCompatible
  }

  /** Some plan violation spells its error severity with capitals. */
  predicate CapitalisedError(vs: seq<Violation>)
  {
    exists i :: 0 <= i < |vs| && Lower(vs[i].severity) == "error" && vs[i].severity != "error"
  }

  /**
   The plans on which the gates disagree: every report is compatible and no violation says exactly
   "error", yet one says it in capitals, or a rejecting custom rule is hidden because a plan
   violation already carries its code; and no rejecting custom rule is left to generate an error.
   */
  predicate GatesDisagree(draft: Draft, custom: seq<Rule>)
  {
    && AllCompatible(draft.reports)
    && (forall i :: 0 <= i < |draft.violations| ==> !draft.violations[i].IsError())
    && (forall i :: 0 <= i < |custom| && custom[i].decision == Reject ==> custom[i].code in Codes(draft.violations))
    && (CapitalisedError(draft.violations) || Blocking(custom))
  }

  lemma BlockingParts(a: seq<Rule>, b: seq<Rule>)
    ensures Blocking(a + b) <==> Blocking(a) || Blocking(b)
  {
    if Blocking(a) {
      var i :| 0 <= i < |a| && a[i].decision == Reject;
      assert (a + b)[i].decision == Reject;
    }
    if Blocking(b) {
      var i :| 0 <= i < |b| && b[i].decision == Reject;
      assert (a + b)[|a| + i].decision == Reject;
    }
  }

  lemma BlockingViolations(vs: seq<Violation>)
    ensures Blocking(RulesFromViolations(vs)) <==> exists i :: 0 <= i < |vs| && Lower(vs[i].severity) == "error"
  {
  }

  lemma ApprovalParts(a: seq<Rule>, b: seq<Rule>)
    ensures HasApprovalRule(a + b) <==> HasApprovalRule(a) || HasApprovalRule(b)
  {
    var r := a + b;
    if HasApprovalRule(a) {
      var i :| 0 <= i < |a| && a[i].decision == ApprovalRequired;
      assert r[i] == a[i];
    }
    if HasApprovalRule(b) {
      var i :| 0 <= i < |b| && b[i].decision == ApprovalRequired;
      assert r[|a| + i] == b[i];
    }
  }

  lemma JoinedMeaning(a: seq<Rule>, b: seq<Rule>)
    ensures Blocking(a + b) <==> Blocking(a) || Blocking(b)
    ensures HasApprovalRule(a + b) <==> HasApprovalRule(a) || HasApprovalRule(b)
  {
    BlockingParts(a, b);
    ApprovalParts(a, b);
  }

  // ---------- what the custom rules mean ----------

  /** The two schemas whose fields are compared, when any are. */
  function Compared(item: PlanItem<ChangeNote>): Option<(Value, Value)>
  {
    if item.action != UPDATE || item.currentSchema.None? || item.schema.None? then None
    else
      match (ParseSchema(item.currentSchema.value), ParseSchema(item.schema.value))
      case (Some(before), Some(after)) => Some((before, after))
      case _ => None
  }

  ghost predicate AddsRequiredField(before: Value, after: Value)
  {
    exists n :: FlaggedRequired(FieldMap(before), FieldMap(after), n)
  }

  ghost predicate ChangesFieldType(before: Value, after: Value)
  {
    exists n :: FlaggedType(FieldMap(before), FieldMap(after), n)
  }

  ghost predicate NarrowsEnum(before: Value, after: Value)
  {
    exists n :: FlaggedEnum(FieldMap(before), FieldMap(after), n)
  }

  predicate Undocumented(spec: Spec)
  {
    spec.metadata.None? || spec.metadata.value.doc.None? || spec.metadata.value.doc.value == ""
  }

  /** Compatibility NONE in prod, a required field added without default, or a changed field type. */
  ghost predicate Forbidden(env: Environment, spec: Spec, item: PlanItem<ChangeNote>)
  {
    || (spec.compatibility == NONE && env == PROD)
    || (match Compared(item)
        case None => false
        case Some((before, after)) => AddsRequiredField(before, after) || ChangesFieldType(before, after))
  }

  /** Compatibility NONE outside prod, undocumented metadata in stg or prod, or an enum that lost a symbol. */
  ghost predicate Delicate(env: Environment, spec: Spec, item: PlanItem<ChangeNote>)
  {
    || (spec.compatibility == NONE && env != PROD)
    || (env != DEV && Undocumented(spec))
    || (match Compared(item) case None => false case Some((before, after)) => NarrowsEnum(before, after))
  }

  lemma OwnRulesMeaning(env: Environment, spec: Spec)
    ensures var own := CompatibilityNoneRules(env, spec) + MetadataRules(env, spec);
            && (Blocking(own) <==> spec.compatibility == NONE && env == PROD)
            && (HasApprovalRule(own) <==> (spec.compatibility == NONE && env != PROD) || (env != DEV && Undocumented(spec)))
  {
    NoneRulesMeaning(env, spec);
    MetadataRulesMeaning(env, spec);
    JoinedMeaning(CompatibilityNoneRules(env, spec), MetadataRules(env, spec));
  }

  lemma NoneRulesMeaning(env: Environment, spec: Spec)
    ensures Blocking(CompatibilityNoneRules(env, spec)) <==> spec.compatibility == NONE && env == PROD
    ensures HasApprovalRule(CompatibilityNoneRules(env, spec)) <==> spec.compatibility == NONE && env != PROD
  {
    var none := CompatibilityNoneRules(env, spec);
    assert none != [] ==> none[0].decision == if env == PROD then Reject else ApprovalRequired;
  }

  lemma MetadataRulesMeaning(env: Environment, spec: Spec)
    ensures !Blocking(MetadataRules(env, spec))
    ensures HasApprovalRule(MetadataRules(env, spec)) <==> env != DEV && Undocumented(spec)
  {
    var meta := MetadataRules(env, spec);
    assert meta != [] ==> meta[0].decision == if env == DEV then Warn else ApprovalRequired;
  }

  lemma FieldRulesMeaning(rules: seq<Rule>, names: seq<string>, decision: Decision)
    requires |rules| == |names| && forall i :: 0 <= i < |rules| ==> rules[i].decision == decision
    ensures Blocking(rules) <==> decision == Reject && names != []
    ensures HasApprovalRule(rules) <==> decision == ApprovalRequired && names != []
  {
    if names != [] { assert rules[0].decision == decision; }
  }

  lemma EvolutionRulesMeaning(subject: string, before: Value, after: Value)
    requires EvolutionRules(subject, before, after).Some?
    ensures var rules := EvolutionRules(subject, before, after).value;
            && (Blocking(rules) <==> AddsRequiredField(before, after) || ChangesFieldType(before, after))
            && (HasApprovalRule(rules) <==> NarrowsEnum(before, after))
  {
    var o, a := FieldMap(before), FieldMap(after);
    var required, changed, narrowed := AddedRequired(o, a), ChangedFieldTypes(o, a).value, EnumNarrowingFields(o, a).value;
    var r1 := FieldRules(subject, REQUIRED_FIELD, "error", Critical, Reject, "adds required field", " without a default", required);
    var r2 := FieldRules(subject, TYPE_CHANGE, "error", Critical, Reject, "changes field type for", "", changed);
    var r3 := FieldRules(subject, ENUM_NARROWING, "warning", High, ApprovalRequired, "narrows enum symbols for", "", narrowed);
    FieldRulesMeaning(r1, required, Reject);
    FieldRulesMeaning(r2, changed, Reject);
    FieldRulesMeaning(r3, narrowed, ApprovalRequired);
    JoinedMeaning(r1, r2);
    JoinedMeaning(r1 + r2, r3);
    ListedFields(before, after);
  }

  lemma ListedFields(before: Value, after: Value)
    requires CommonReadable(FieldMap(before), FieldMap(after))
    ensures var o, a := FieldMap(before), FieldMap(after);
            && (AddedRequired(o, a) != [] <==> AddsRequiredField(before, after))
            && (ChangedFieldTypes(o, a).value != [] <==> ChangesFieldType(before, after))
            && (EnumNarrowingFields(o, a).value != [] <==> NarrowsEnum(before, after))
  {
    var o, a := FieldMap(before), FieldMap(after);
    var required, changed, narrowed := AddedRequired(o, a), ChangedFieldTypes(o, a).value, EnumNarrowingFields(o, a).value;
    if required != [] { assert required[0] in required; }
    if changed != [] { assert changed[0] in changed; }
    if narrowed != [] { assert narrowed[0] in narrowed; }
  }

  lemma ItemRulesParts(env: Environment, spec: Spec, item: PlanItem<ChangeNote>)
    requires ItemRules(env, spec, item).Some?
    ensures var own := CompatibilityNoneRules(env, spec) + MetadataRules(env, spec);
            match Compared(item)
            case None => ItemRules(env, spec, item) == Some(own)
            case Some((before, after)) =>
              EvolutionRules(spec.subject, before, after).Some?
              && ItemRules(env, spec, item) == Some(own + EvolutionRules(spec.subject, before, after).value)
  {
  }

  /** One item's rules reject exactly when it is forbidden, and ask for approval exactly when it is delicate. */
  lemma ItemRulesMeaning(env: Environment, spec: Spec, item: PlanItem<ChangeNote>)
    requires ItemRules(env, spec, item).Some?
    ensures var rules := ItemRules(env, spec, item).value;
            (Blocking(rules) <==> Forbidden(env, spec, item)) && (HasApprovalRule(rules) <==> Delicate(env, spec, item))
  {
    OwnRulesMeaning(env, spec);
    ItemRulesParts(env, spec, item);
    match Compared(item) {
      case None =>
      case Some((before, after)) =>
        var own, more := CompatibilityNoneRules(env, spec) + MetadataRules(env, spec), EvolutionRules(spec.subject, before, after).value;
        EvolutionRulesMeaning(spec.subject, before, after);
        JoinedMeaning(own, more);
    }
  }

  lemma {:induction false} ConcatMeaning(parts: seq<Option<seq<Rule>>>)
    requires Concat(parts).Some?
    ensures forall i :: 0 <= i < |parts| ==> parts[i].Some?
    ensures Blocking(Concat(parts).value) <==> exists i :: 0 <= i < |parts| && Blocking(parts[i].value)
    ensures HasApprovalRule(Concat(parts).value) <==> exists i :: 0 <= i < |parts| && HasApprovalRule(parts[i].value)
  {
    if parts != [] {
      var n := |parts| - 1;
      var front := parts[..n];
      ConcatMeaning(front);
      BlockingParts(Concat(front).value, parts[n].value);
      ApprovalParts(Concat(front).value, parts[n].value);
      assert forall i :: 0 <= i < n ==> front[i] == parts[i];
    }
  }

  /** The policy pack rejects a batch for a forbidden item and asks for approval for a delicate one, and for nothing else of its own. */
  lemma CustomRulesMeaning(env: Environment, specs: seq<Spec>, items: seq<PlanItem<ChangeNote>>)
    requires |specs| == |items| && CustomRules(env, specs, items).Some?
    ensures var rules := CustomRules(env, specs, items).value;
            && (Blocking(rules) <==> exists i :: 0 <= i < |specs| && Forbidden(env, specs[i], items[i]))
            && (HasApprovalRule(rules) <==> exists i :: 0 <= i < |specs| && Delicate(env, specs[i], items[i]))
  {
    var parts := RulesPerItem(env, specs, items);
    ConcatMeaning(parts);
    forall i | 0 <= i < |specs|
      ensures Blocking(parts[i].value) <==> Forbidden(env, specs[i], items[i])
      ensures HasApprovalRule(parts[i].value) <==> Delicate(env, specs[i], items[i])
    {
      assert parts[i] == ItemRules(env, specs[i], items[i]);
      ItemRulesMeaning(env, specs[i], items[i]);
    }
  }

  /** Approval is asked for by custom rules only. */
  lemma ApprovalMeaning(env: Environment, specs: seq<Spec>, draft: Draft)
    requires |specs| == |draft.items| && Evaluate(env, specs, draft).Some?
    ensures HasApprovalRule(Evaluate(env, specs, draft).value.rules) <==> HasApprovalRule(CustomRules(env, specs, draft.items).value)
  {
    var base, compat := RulesFromViolations(draft.violations), CompatibilityRules(draft.reports);
    var custom := CustomRules(env, specs, draft.items).value;
    ApprovalParts(base, compat + custom);
    ApprovalParts(compat, custom);
    assert forall i :: 0 <= i < |compat| ==> compat[i] in compat;
  }

  /** The policy pack blocks exactly when some violation is an error in any spelling, a report is incompatible, or a custom rule rejects. */
  lemma BlockingMeaning(env: Environment, specs: seq<Spec>, draft: Draft)
    requires |specs| == |draft.items| && Evaluate(env, specs, draft).Some?
    ensures Blocking(Evaluate(env, specs, draft).value.rules) <==>
              || (exists i :: 0 <= i < |draft.violations| && Lower(draft.violations[i].severity) == "error")
              || !AllCompatible(draft.reports)
              || Blocking(CustomRules(env, specs, draft.items).value)
  {
    var custom := CustomRules(env, specs, draft.items).value;
    var compat := CompatibilityRules(draft.reports);
    BlockingParts(RulesFromViolations(draft.violations), compat + custom);
    BlockingParts(compat, custom);
    BlockingViolations(draft.violations);
    if compat != [] { assert compat[0] in compat; }
  }

  /** `can_apply` on the rebuilt plan, read off the plan the planner made. */
  lemma CanApplyMeaning(env: Environment, specs: seq<Spec>, draft: Draft)
    requires |specs| == |draft.items| && Evaluate(env, specs, draft).Some?
    ensures CanApply(draft.reports, Evaluate(env, specs, draft).value.violations) <==>
              && AllCompatible(draft.reports)
              && (forall i :: 0 <= i < |draft.violations| ==> !draft.violations[i].IsError())
              && (forall i :: 0 <= i < |CustomRules(env, specs, draft.items).value| ==>
                    var r := CustomRules(env, specs, draft.items).value[i];
                    r.decision == Reject ==> r.code in Codes(draft.violations))
  {
    var custom := CustomRules(env, specs, draft.items).value;
    var codes := Codes(draft.violations);
    var compat := CompatibilityRules(draft.reports);
    var generated := Generated(compat + custom, codes);
    var all := draft.violations + generated;
    GeneratedErrors(compat + custom, codes);
    if AllCompatible(draft.reports) {
      assert compat + custom == custom;
      ErrorParts(draft.violations, generated);
    }
  }

  ghost predicate AnyError(vs: seq<Violation>)
  {
    exists i :: 0 <= i < |vs| && vs[i].IsError()
  }

  lemma ErrorParts(a: seq<Violation>, b: seq<Violation>)
    ensures AnyError(a + b) <==> AnyError(a) || AnyError(b)
  {
    if AnyError(a) {
      var i :| 0 <= i < |a| && a[i].IsError();
      assert (a + b)[i].IsError();
    }
    if AnyError(b) {
      var i :| 0 <= i < |b| && b[i].IsError();
      assert (a + b)[|a| + i].IsError();
    }
  }

  lemma GeneratedErrors(rules: seq<Rule>, codes: set<string>)
    ensures AnyError(Generated(rules, codes)) <==>
              exists i :: 0 <= i < |rules| && rules[i].decision == Reject && rules[i].code !in codes
  {
    var generated := Generated(rules, codes);
    if AnyError(generated) {
      var k :| 0 <= k < |generated| && generated[k].IsError();
      assert generated[k] in generated;
    }
    if i :| 0 <= i < |rules| && rules[i].decision == Reject && rules[i].code !in codes {
      assert ViolationFromRule(rules[i]) in generated;
    }
  }

  lemma LowerError()
    ensures Lower("error") == "error"
  {
  }

  /** Over all plans: a plan that is not blocked can be applied, and the gates disagree exactly on `GatesDisagree`. */
  lemma GatesAgreeExactly(env: Environment, specs: seq<Spec>, draft: Draft)
    requires |specs| == |draft.items| && Evaluate(env, specs, draft).Some?
    ensures var result := Evaluate(env, specs, draft).value;
            && (!Blocking(result.rules) ==> CanApply(draft.reports, result.violations))
            && ((CanApply(draft.reports, result.violations) <==> !Blocking(result.rules)) <==>
                !GatesDisagree(draft, CustomRules(env, specs, draft.items).value))
  {
    BlockingMeaning(env, specs, draft);
    CanApplyMeaning(env, specs, draft);
    var result := Evaluate(env, specs, draft).value;
    GatesCompared(draft, CustomRules(env, specs, draft.items).value, Blocking(result.rules), CanApply(draft.reports, result.violations));
  }

  /** The two gates, from what each of them means. */
  lemma GatesCompared(draft: Draft, custom: seq<Rule>, blocking: bool, applicable: bool)
    requires blocking <==>
               || (exists i :: 0 <= i < |draft.violations| && Lower(draft.violations[i].severity) == "error")
               || !AllCompatible(draft.reports)
               || Blocking(custom)
    requires applicable <==>
               && AllCompatible(draft.reports)
               && (forall i :: 0 <= i < |draft.violations| ==> !draft.violations[i].IsError())
               && (forall i :: 0 <= i < |custom| ==> custom[i].decision == Reject ==> custom[i].code in Codes(draft.violations))
    ensures !blocking ==> applicable
    ensures (applicable <==> !blocking) <==> !GatesDisagree(draft, custom)
  {
    LowerError();
    assert forall i :: 0 <= i < |draft.violations| && draft.violations[i].IsError() ==>
      Lower(draft.violations[i].severity) == "error";
  }

  // ---------- plans the planner can make ----------

  /** What every violation the planner collects satisfies: lower-case severity, and a code outside the policy pack. */
  predicate PlannerViolation(v: Violation)
  {
    Lower(v.severity) == v.severity && !PackCode(v.rule)
  }

  lemma PlannerPlansAgree(draft: Draft, custom: seq<Rule>)
    requires PackCodesOnly(custom)
    requires forall i :: 0 <= i < |draft.violations| ==> PlannerViolation(draft.violations[i])
    ensures !GatesDisagree(draft, custom)
  {
  }

  /** On a plan made by the planner, `can_apply` holds exactly when the evaluation is not blocking. */
  lemma GatesAgreeOnPlannerPlans(env: Environment, specs: seq<Spec>, draft: Draft)
    requires |specs| == |draft.items| && Evaluate(env, specs, draft).Some?
    requires forall i :: 0 <= i < |draft.violations| ==> PlannerViolation(draft.violations[i])
    ensures var result := Evaluate(env, specs, draft).value;
            CanApply(draft.reports, result.violations) <==> !Blocking(result.rules)
  {
    GatesAgreeExactly(env, specs, draft);
    PlannerPlansAgree(draft, CustomRules(env, specs, draft.items).value);
  }

  lemma NoneInProdRules(spec: Spec, item: PlanItem<ChangeNote>)
    requires spec.compatibility == NONE && item.action != UPDATE && MetadataRules(PROD, spec) == []
    ensures CustomRules(PROD, [spec], [item]) == Some(CompatibilityNoneRules(PROD, spec))
  {
    var own := CompatibilityNoneRules(PROD, spec);
    var parts := RulesPerItem(PROD, [spec], [item]);
    assert own + [] == own;
    assert parts == [Some(own)] && parts[..0] == [];
    ConcatStep(parts, 0, []);
    assert parts[..1] == parts && [] + own == own;
  }

  /** A plan violation that merely warns under a pack code makes a blocked plan look applicable. */
  lemma GatesDisagreeSomewhere(spec: Spec, item: PlanItem<ChangeNote>, draft: Draft)
    requires spec.compatibility == NONE && item.action != UPDATE && MetadataRules(PROD, spec) == []
    requires draft == Draft([item], [], [Violation(spec.subject, NONE_FORBIDDEN, "m", "warning", Option.None)])
    ensures Evaluate(PROD, [spec], draft).Some?
    ensures Blocking(Evaluate(PROD, [spec], draft).value.rules)
    ensures CanApply(draft.reports, Evaluate(PROD, [spec], draft).value.violations)
  {
    NoneInProdRules(spec, item);
    var own := CompatibilityNoneRules(PROD, spec);
    HidingViolation(draft, own);
    GatesAgreeExactly(PROD, [spec], draft);
  }

  lemma HidingViolation(draft: Draft, own: seq<Rule>)
    requires draft.reports == [] && |draft.violations| == 1 && !draft.violations[0].IsError()
    requires |own| == 1 && own[0].decision == Reject && own[0].code == draft.violations[0].rule
    ensures GatesDisagree(draft, own)
  {
  }
}
