# Schema governance service: a verified model

This project models the decision logic of a schema-governance service and proves properties of it in
Dafny 4.11: how schema texts are normalised and compared, how a batch is planned, judged and applied,
how policies judge the evolution of fields, how the local catalog follows the registry, how registry
clients are cached under concurrency, and what the stored rows keep. `dafny verify dfyconfig.toml`
checks all of it.

## How the service is modelled

A registry is a map from subject to versions to text, a table is a map or a sequence of rows, and
every remote or database call that can fail takes its outcome as a parameter, so a theorem over all
parameters covers every pattern of failures. Code that works step by step is a method over
variables, or a class with fields, proved against a specification. Concurrent code is a state machine
whose steps run from one await point to the next, with theorems over all runs.

| file | models |
|---|---|
| `Prelude.dfy` | optional values, results, string order, `sorted` and `max` of a set |
| `Json.dfy` | JSON texts as token lists, `json.loads`, `json.dumps`, dictionaries with and without key order |
| `CanonicalText.dfy` | the planner's and the adapter's text normalisers, the text that is hashed |
| `FieldDiff.dfy` | the recursive field diff |
| `Evolution.dfy` | the policy pack's three field rules and chains of versions |
| `AvroResolution.dfy` | schema resolution of Apache Avro 1.11, and what an unflagged evolution is worth |
| `Models.dfy` | specs, batches, plans, reports, violations |
| `PolicyPack.dfy` | the policy pack, `ensure_approval`, `can_apply` |
| `Planner.dfy` | planning a batch, the dynamic policy engine |
| `Apply.dfy` | the event bus, the apply pipeline, applying twice |
| `CatalogSync.dfy` | the incremental catalog sync |
| `SyncConcurrency.dfy` | the gathered sync tasks under the semaphore |
| `SyncHistory.dfy` | histories of registry changes and syncs, against a rebuild |
| `Drift.dfy` | the drift report |
| `Rollback.dfy` | executing a rollback, and what it does to the catalog |
| `Connection.dfy` | the client cache, the connection table and its use cases |
| `ConnectionProtocol.dfy` | concurrent gets, invalidations and commits |
| `PlanStore.dfy` | storing and reading plans, plan summaries |
| `MetadataStore.dfy` | the tags payload and the metadata rows |
| `PolicyStore.dfy` | the policy version life cycle |

## What the proofs say about the code

Most promises hold on all the inputs they are made for. Where one does not, a lemma states the exact
condition under which it does.

- **Gates.** `can_apply` and `ensure_approval` agree on every plan the planner can make. Over
  arbitrary plans they disagree exactly on `PolicyPack.GatesDisagree`: an error severity spelled with
  capitals, or a rejecting rule hidden by a plan violation with the same code. So in the apply use case
  the check of `can_apply` after `ensure_approval` never fires.
- **Planning again.** A registered AVRO or JSON spec is planned as NONE exactly when its text is in
  the `schema` field, is not empty and has no leading byte order mark. The adapter drops the mark and
  the planner does not, and the planner does not read `source`.
- **Diff.** Each field path is reported exactly as promised, but two record-typed fields of the same
  name count as the same whatever default or documentation they carry, so the diff of unequal schemas
  can be empty.
- **Evolution and Avro.** An unflagged evolution is readable exactly when the record kept its name and
  the new type reads the old one for every shared field with enum symbols or with a union of named
  types that differ in their namespaces only; where the enums are plain, keeping their names is enough
  for them. The rules do not look at a renamed enum, nor at a branch lost from a union that holds an
  enum, nor at a union of a.X and b.X, which resolution cannot tell apart even when nothing changed.
- **Apply.** Whatever the calls return, every subject ends in exactly one of registered, failed and
  skipped. This rests on the event bus catching what subscribers raise: a subject is listed as
  registered before its event is published.
- **Catalog sync.** Incremental sync equals a rebuild exactly when the watermark is not ahead of the
  registry, no row lacks its registry version, and the rows at or below the watermark are the
  registry's. A swallowed fetch failure is never made up for, a catalog ahead of the registry is
  skipped for good, and version rows without a subject row outlive their subject. Histories without
  failures keep this condition with two exceptions: a subject removed and registered again before a
  sync has forgotten it meets its old watermark, which hides its new versions; and deleting versions
  the catalog has seen leaves it ahead. A second sync adds nothing whatever the catalog was.
- **Rollback.** Deletion is newest-first safe at every prefix. When no version is newer than the
  target the use case returns early, and artifacts newer than the target stay. A rollback that removes
  the latest version leaves the catalog ahead, so the drift report keeps its flags after every sync.
- **Client cache.** Locks are stored under `schema_<id>` and deleted under `schema_registry_<id>`.
  Every run keeps one task at a time per id and accounts for every client exactly when no invalidated
  id `X` comes with an id `registry_X` in use. A create over an active row is not followed by an
  invalidation, so the cached client agrees exactly when it had the settings written.
- **Stored plans.** A plan read back has lost its schema texts, violations, risk, approval, evaluation
  and requested total. Its `can_apply` is weaker than the stored column exactly when only erased
  violations stood in the way.
- **Policies.** Each policy has at most one ACTIVE version even when an activation is cut short. A
  deleted newest version number is given out again exactly when its predecessor lives.

## Model

| member | source | states |
|---|---|---|
| Json.LoadsPrint | app/infra/kafka/schema_registry_adapter.py:283-284 | What `json.dumps` writes compactly loads back to the same document, key order included |
| Json.TrailingTokenRefused | app/schema/domain/services.py:372 | A document followed by one more token other than whitespace is not loaded |
| Json.DictOf | app/schema/domain/services.py:372 | A loaded object has each key once, however often the text repeats it |
| Json.ParsedWellFormed | app/schema/domain/services.py:372 | Every parsed document has distinct keys at every level, so it can be printed and loaded again |
| Json.LoadsDumpsSorted | app/schema/domain/services.py:372 | The sorted-key printing of a value loads, and to that value |
| Json.DumpsSortedInjective | app/schema/domain/policies/policy_pack.py:309-310 | Two sorted-key printings are equal exactly when the values are equal up to key order |
| CanonicalText.NormalForm | app/schema/domain/services.py:365-376 | A normalised text is its own strip, loads exactly when the input did, and to the same value |
| CanonicalText.NormalizeDecides | app/schema/domain/services.py:365-376 | Two normalised texts are equal exactly when both load to the same value or neither loads and the stripped texts are equal |
| CanonicalText.NormalizeIdempotent | app/schema/domain/services.py:365-376 | Normalising twice is normalising once, for every type and for a missing text |
| CanonicalText.StripExactly | app/schema/domain/services.py:369 | `strip` takes off the Python whitespace at both ends, all of it and nothing else |
| CanonicalText.SurroundingSpaceIgnored | app/schema/domain/services.py:365-376 | Texts that differ in the whitespace around them only normalise alike, whatever their type |
| CanonicalText.LoadsIgnoresSpace | app/schema/domain/services.py:371-374 | Removing the whitespace outside literals changes neither whether a text loads nor what it loads to |
| CanonicalText.LoadsStrip | app/schema/domain/services.py:369-372 | A text that loads does so unchanged after `strip`, although `strip` removes more characters than JSON allows |
| CanonicalText.LoadsNewlines | app/infra/kafka/schema_registry_adapter.py:279-280 | Rewriting line ends never changes what a text loads to |
| CanonicalText.RegistryTextMeaning | app/infra/kafka/schema_registry_adapter.py:273-288 | The adapter's text loads to what the planner sees, except that only the adapter drops a byte order mark |
| CanonicalText.DropBomExactly | app/infra/kafka/schema_registry_adapter.py:276-277 | One byte order mark at the front is dropped, and nothing else |
| CanonicalText.NewlinesAt | app/infra/kafka/schema_registry_adapter.py:279 | Wherever they stand, a CR LF and a lone CR become an LF, and a text without CR stays as it is |
| CanonicalText.CanonicalForHashDecides | app/schema/application/services/catalog_sync.py:352-364 | The hashed texts of two schemas are equal exactly when they load to the same value or neither loads and they are equal |
| FieldDiff.GetFieldDiff | app/schema/domain/services.py:306-340 | It terminates in any set order, raises exactly on undiffable schemas, and lists each reported path once |
| FieldDiff.OneSided | app/schema/domain/services.py:311-316 | The loops over added and removed names: exactly their paths join the list, none twice |
| FieldDiff.CommonFields | app/schema/domain/services.py:318-339 | The recursive loop over common names adds exactly what is reported at or below them, and raises exactly when a level it enters does |
| FieldDiff.DiffExact | app/schema/domain/services.py:306-340 | A path is reported with a kind exactly when its ancestors are records on both sides and that field is new, missing, differently typed or otherwise unequal |
| FieldDiff.FieldsOfExactly | app/schema/domain/services.py:308-309 | The table of a schema holds the last dictionary of each name, and building it raises exactly on an entry that is no dictionary with a hashable name or on a `fields` value that cannot be read |
| FieldDiff.DiffDual | app/schema/domain/services.py:311-316 | Swapping the arguments swaps Added with Removed and keeps the other two kinds |
| FieldDiff.DiffFunctional | app/schema/domain/services.py:315-339 | A path is reported with one kind at most |
| FieldDiff.DiffSame | app/schema/domain/services.py:318-321 | The diff of a schema with itself is empty, and raises only if its fields cannot be tabled |
| FieldDiff.SilentExactly | app/schema/domain/services.py:306-344 | The diff is empty exactly when both schemas have the same fields at every level, record-typed fields compared by their inner fields only |
| FieldDiff.EmptyDiffOfUnequalSchemas | app/schema/domain/services.py:321-333 | Two unequal schemas with an empty diff: only the documentation of a record-typed field differs |
| Evolution.RequiredExactly | app/schema/domain/policies/policy_pack.py:260-280 | A field is flagged exactly when the new schema's last dictionary of that name has no default and the old schema has none of that name |
| Evolution.ComputeChangedFieldTypes | app/schema/domain/policies/policy_pack.py:283-294 | The loop lists, sorted, exactly the common fields whose type changed outside the enum family, or raises on unreadable symbols |
| Evolution.ComputeEnumNarrowingFields | app/schema/domain/policies/policy_pack.py:297-306 | The loop lists, sorted, exactly the common enum fields that lost a symbol, or raises on unreadable symbols |
| Evolution.FlagsExactly | app/schema/domain/policies/policy_pack.py:283-330 | From the two schemas alone: a common field is flagged as changed exactly when its types differ and not both have enum symbols, and as narrowed exactly when both have symbols and one is lost |
| Evolution.RulesRaiseExactly | app/schema/domain/policies/policy_pack.py:313-330 | Both rules raise exactly when the symbols of some common field cannot be read in one of the schemas |
| Evolution.StepVerdict | app/schema/domain/policies/policy_pack.py:283-330 | No field is flagged by both rules, and it is flagged by neither exactly when its enum symbols grew or its type is unchanged |
| Evolution.ChainPreserves | app/schema/domain/policies/policy_pack.py:283-330 | Along any clean chain of versions the enum symbols of a field only grow, and a field that starts without any keeps its normalised type |
| AvroResolution.ReadsOwn | app/schema/domain/policies/policy_pack.py:292-293 | Under Avro's resolution rules every value written with a well-formed type can be read with it, unless a union in it has two named branches that differ in their namespaces only |
| AvroResolution.DeclarationParsed | app/schema/domain/policies/policy_pack.py:260-268 | Every Avro type can be written as JSON and is read back from it |
| AvroResolution.PrimitiveReadsExactly | app/schema/domain/policies/policy_pack.py:292-293 | A primitive reads another exactly when it is the same, a wider number, or the other one of string and bytes |
| AvroResolution.NamedReads | app/schema/domain/policies/policy_pack.py:292-293 | Named types are matched by the part of their names after the last dot, and fixed types by their size, too |
| AvroResolution.AmbiguousUnionFailsOwn | app/schema/domain/policies/policy_pack.py:292-293 | A union of that kind that cannot read its own data: the second branch is read with the first |
| AvroResolution.CanReadExactly | app/schema/domain/policies/policy_pack.py:271-306 | A check of the two schemas alone decides whether all data written with one can be read with the other, such unions included |
| AvroResolution.SchemaDeclares | app/schema/domain/policies/policy_pack.py:260-268 | The policy pack's field table names exactly the fields of the parsed record, with their types and defaults |
| AvroResolution.UnflaggedReadsExactly | app/schema/domain/policies/policy_pack.py:271-306 | If the policy pack flags nothing, the new schema reads every old record exactly when the record name is kept and each shared field with enum symbols or an ambiguous union reads its old data |
| AvroResolution.PlainEnumReadsExactly | app/schema/domain/policies/policy_pack.py:297-306 | For plain enums on both sides an unflagged field reads its old data exactly when the enum name is kept |
| AvroResolution.UnflaggedPlainReadsExactly | app/schema/domain/policies/policy_pack.py:271-330 | Where all shared enums are plain ones: exactly when the record and each shared enum kept their names and each unchanged ambiguous union reads its own data |
| AvroResolution.UnionLosesBranchUnflagged | app/schema/domain/policies/policy_pack.py:313-330 | Dropping null from a union with an enum is flagged by no rule and makes old nulls unreadable |
| AvroResolution.AmbiguousUnionUnflagged | app/schema/domain/policies/policy_pack.py:283-330 | An unchanged union of a.X and b.X, given as JSON, is flagged by no rule and cannot always read its own data |
| PolicyPack.BuildItemRules | app/schema/domain/policies/policy_pack.py:56-171 | The rules appended for one item, or an exception when enum symbols cannot be read |
| PolicyPack.BuildCustomRules | app/schema/domain/policies/policy_pack.py:49-173 | The loop gives the items' rules in order, and raises exactly when one item's rules raise |
| PolicyPack.ConcatFails | app/schema/domain/policies/policy_pack.py:56-173 | One raising item makes the whole rule list raise |
| PolicyPack.EvaluateRaisesExactly | app/schema/domain/policies/policy_pack.py:91-173 | The policy pack raises exactly when some update of one JSON object by another has a common field with unreadable enum symbols |
| PolicyPack.RiskOf | app/schema/governance_support/preflight_policy.py:88-100 | The risk level is some rule's and none is higher; it is NONE without rules |
| PolicyPack.RiskMeaning | app/schema/governance_support/preflight_policy.py:88-100 | It is the highest of low, medium, high and critical that occurs |
| PolicyPack.EvaluationExactly | app/schema/domain/policies/policy_pack.py:28-258 | Every rule and every violation of an evaluation, with code, severity, risk, decision, reason and field, from the batch and the plan alone |
| PolicyPack.ItemRulesMeaning | app/schema/domain/policies/policy_pack.py:56-171 | One item is rejected exactly for compatibility NONE in prod, an added required field or a changed field type, and needs approval exactly for NONE elsewhere, missing documentation in stg or prod, or a narrowed enum |
| PolicyPack.CustomRulesMeaning | app/schema/domain/policies/policy_pack.py:49-173 | A batch is rejected or needs approval by the custom rules exactly when one of its items does |
| PolicyPack.ApprovalMeaning | app/schema/domain/policies/policy_pack.py:175-217 | Violations and incompatible reports never ask for approval |
| PolicyPack.BlockingMeaning | app/schema/domain/policies/policy_pack.py:28-47 | The evaluation blocks exactly when some violation is an error in any spelling, a report is incompatible or a custom rule rejects |
| PolicyPack.CanApplyMeaning | app/schema/domain/models/plan_result.py:110-116 | `can_apply` on the rebuilt plan, in terms of the planner's plan and the custom rules |
| PolicyPack.GatesAgreeExactly | app/schema/governance_support/approval.py:97-121 | Over all plans an unblocked plan can be applied, and the two gates disagree exactly on the stated family |
| PolicyPack.GatesAgreeOnPlannerPlans | app/schema/application/use_cases/batch/apply.py:94-125 | The gates agree on every plan whose violations are lower-case and outside the policy pack's codes |
| PolicyPack.GatesDisagreeSomewhere | app/schema/domain/policies/policy_pack.py:34-38 | A plan outside the planner's reach that is blocked and yet `can_apply` |
| Planner.FieldNotes | app/schema/domain/services.py:306-342 | One line per path the field diff reports and no other; it raises exactly on undiffable schemas |
| Planner.JsonChanges | app/schema/domain/services.py:298-346 | The change lines for AVRO and JSON: no diff for equal texts, the field diff's lines in place of a type line, the structure line when it is empty, one more line when loading or diffing raises |
| Planner.CalculateSchemaDiff | app/schema/domain/services.py:267-362 | The diff's kind, lines, version and type in every branch, the failing parse included |
| Planner.FindingViolations | app/schema/domain/policies/dynamic_engine.py:76-90 | One violation per finding with the rule's code and the lower-cased configured or default severity |
| Planner.EvaluateLint | app/schema/domain/policies/dynamic_engine.py:58-92 | The rule loop gives the findings of enabled, known rules in order |
| Planner.EvaluateOne | app/schema/domain/policies/dynamic_engine.py:42-119 | One policy reports exactly what it finds: findings of its enabled, known rules with their severity, or a compatibility mode other than the required one, and nothing outside its environment |
| Planner.EvaluatePolicies | app/schema/domain/policies/dynamic_engine.py:29-56 | The policy loop gives all policies' violations in order, none when the spec's text is empty or does not load |
| Planner.EngineViolationsMeaning | app/schema/domain/policies/dynamic_engine.py:29-56 | A violation is reported exactly when the text loads and some active policy finds it |
| Planner.BatchViolationsFit | app/schema/domain/policies/dynamic_engine.py:58-119 | Whatever policies are active, the planner's violations are lower-case and outside the policy pack's codes |
| Planner.GuardrailFits | app/schema/domain/policies/compatibility.py:10-42 | The same for the built-in compatibility guardrail |
| Planner.GuardrailMeaning | app/schema/domain/policies/compatibility.py:17-40 | The guardrail objects exactly to a mode other than FULL or FULL_TRANSITIVE in prod, as an error, and to NONE in stg, as a warning |
| Planner.GatesAgreeOnDrafts | app/schema/application/use_cases/batch/apply.py:94-125 | On every plan the planner makes, with any policies and registry, `can_apply` holds exactly when the evaluation is not blocking |
| Planner.PlanOne | app/schema/domain/services.py:167-204 | One plan item: action, both versions, diff, texts and reason |
| Planner.SchemaTextExactly | app/infra/kafka/schema_registry_adapter.py:246-262 | The text sent is the spec's `schema` if there is one, or else its inline or YAML source |
| Planner.DraftMeaning | app/schema/domain/services.py:145-265 | In every plan a new subject is registered as version 1, an up-to-date one is left alone and any other updated to the next version; each report repeats the registry's answer; a violation is listed exactly when the built-in guardrail objects or an active policy finds it |
| Planner.CreatePlan | app/schema/domain/services.py:145-234 | The plan, told from the batch and the registry alone: action and versions of each item, report and violations; raises exactly when the reads fail, some spec has no schema text or one of its calls raises |
| Planner.PackRaisesExactly | app/schema/application/use_cases/batch/apply.py:94-95 | Whether the policy pack raises on a plan of the batch is settled by the batch and the registry alone |
| Planner.ReplanIsNoActionExactly | app/schema/domain/services.py:236-265 | Once registered, a spec is planned as NONE exactly when its text is in `schema`, not empty and without byte order mark |
| Planner.RegisteredAndStillUpdated | app/schema/domain/services.py:236-265 | Two registered specs planned as UPDATE again: a text with a byte order mark, and an inline source |
| Planner.ReplannedItem | app/schema/domain/services.py:164-193 | In that case target and current version are equal and the diff is `no_change` |
| Apply.EventBus.Subscribe | app/schema/governance_support/event_bus.py:19-26 | The handler is last for its event type and other types are unchanged |
| Apply.EventBus.Publish | app/schema/governance_support/event_bus.py:28-53 | Every handler is called in order, the errors of those that raise are logged in order, and none reaches the publisher |
| Apply.ApplyItems | app/schema/application/use_cases/batch/apply.py:146-167 | The register call is made exactly for items that change something and are no dry run; the subject is registered, with the version the registry gave, exactly when no call raises, and failed with the first exception's text exactly when one does, whatever the subscribers raise |
| Apply.StatusMeaning | app/schema/application/use_cases/batch/apply.py:132-167 | The same for one item |
| Apply.EscapingPublishOverlapsExactly | app/schema/application/use_cases/batch/apply.py:146-167 | If a subscriber's exception did escape, a subject would be both registered and failed exactly when some item is applied and some subscriber raises |
| Apply.SkippedSubjects | app/schema/application/use_cases/batch/apply.py:139-144 | Exactly the subjects with nothing to change or a dry run, in batch order |
| Apply.BuildDetails | app/schema/application/use_cases/batch/apply.py:291-327 | One entry per spec in batch order |
| Apply.DetailAgrees | app/schema/application/use_cases/batch/apply.py:300-324 | Each entry names the status and error of its own item, found again by subject |
| Apply.Conservation | app/schema/domain/models/plan_result.py:157-183 | Registered, skipped and failed are disjoint and together the batch, artifacts follow registered, the summary's counts add up |
| Apply.Judge | app/schema/application/use_cases/batch/apply.py:95-111 | The plan rebuilt with the policy pack's violations and rules, or the policy pack's exception |
| Apply.ClearedExactly | app/schema/application/use_cases/batch/apply.py:94-125 | What lets a batch through, in words of its items: all reports compatible, no error, nothing forbidden, an override for anything delicate |
| Apply.Execute | app/schema/application/use_cases/batch/apply.py:58-252 | A plan is judged exactly when no read fails, each spec has text and no update has unreadable enum symbols; `register_schema` is called exactly for the items that change something and are no dry run, of a stored plan with all reports compatible, no rejecting rule and an override for approval rules, so only if the registry answered ok for every spec; the result tells each item's fate from its calls; when the run succeeds, is blocked or lacks approval under any failing call; the second gate never fires |
| Apply.TryApply | app/schema/application/use_cases/batch/apply.py:85-220 | The same for the `try` block, before the handlers that may raise in their turn |
| Apply.ApplyJudged | app/schema/application/use_cases/batch/apply.py:127-191 | The lists, the details and the calls made, told from the calls' outcomes alone |
| Apply.ReapplySkips | app/schema/application/use_cases/batch/apply.py:132-144 | A second run skips every subject the first skipped or registered from its `schema` field, whatever became of the others |
| Apply.ReapplyRegistersOnlyUnsettled | app/schema/application/use_cases/batch/apply.py:127-150 | A second run makes register calls for no other subjects |
| Apply.ReapplyRegistersNothing | app/schema/application/use_cases/batch/apply.py:127-150 | After a run that settled every subject in that sense a second run makes no register call at all |
| CatalogSync.RetryMeaning | app/schema/application/services/catalog_sync.py:224-238 | The answer is the first reply that is not a timeout, or none once the attempts are used up |
| CatalogSync.FetchedMeaning | app/schema/application/services/catalog_sync.py:205-215 | Under any failures: the versions done before the first that cannot be rolled back, or the whole range and then the watermark, whatever became of its versions |
| CatalogSync.SyncTold | app/schema/application/services/catalog_sync.py:178-222 | Under any failures, from the calls and the rows before: each version fetched and saved has a row with the delivered text and its digest, every other row is as before, and the watermark moves exactly when the task gets past the last version and saves it |
| CatalogSync.CountersTold | app/schema/application/services/catalog_sync.py:209-222 | What a task counts: each version fetched without getting stuck, a new subject without a watermark, and one error exactly when the task raises |
| CatalogSync.CatalogSyncService.GetLatestVersionWithRetry | app/schema/application/services/catalog_sync.py:224-238 | The retry loop computes that answer |
| CatalogSync.CatalogSyncService.SyncVersion | app/schema/application/services/catalog_sync.py:240-300 | A version delivered and saved has a row with its text and the text's digest, nothing else changes, and it raises only when the rollback fails |
| CatalogSync.CatalogSyncService.UpdateSubjectMeta | app/schema/application/services/catalog_sync.py:302-350 | Writes the watermark or nothing, and raises only when the rollback fails |
| CatalogSync.CatalogSyncService.SyncSubject | app/schema/application/services/catalog_sync.py:178-222 | The subject's rows and the shared counters after its sync task; no other subject's rows change |
| CatalogSync.CatalogSyncService.FetchAndMark | app/schema/application/services/catalog_sync.py:186-218 | The body of the `try`, with its exception as a result |
| CatalogSync.CatalogSyncService.FetchVersions | app/schema/application/services/catalog_sync.py:205-218 | The version range and the watermark, with the counters of the part done before an exception |
| CatalogSync.CatalogSyncService.RemoveStale | app/schema/application/services/catalog_sync.py:98-153 | The stale subjects' rows leave all four tables and the counters say how many |
| CatalogSync.CatalogSyncService.SyncListed | app/schema/application/services/catalog_sync.py:95-157 | Everything after a successful listing |
| CatalogSync.CatalogSyncService.SyncSubjects | app/schema/application/services/catalog_sync.py:155-157 | Each listed subject is synced on its own rows and the counters add up |
| CatalogSync.CatalogSyncService.SyncAll | app/schema/application/services/catalog_sync.py:79-176 | The catalog after a whole sync, told from the calls and the tables before, and every counter, the total and the removals included; nothing changes after a failed listing |
| CatalogSync.RemovalMeaning | app/schema/application/services/catalog_sync.py:99-153 | The subjects removed are exactly those some table other than the version table tells of and the registry does not list, and the counters are the rows that named them |
| CatalogSync.WithoutStaleMeaning | app/schema/application/services/catalog_sync.py:98-153 | Afterwards only live subjects are known and their rows are untouched |
| CatalogSync.OrphanRowsSurviveExactly | app/schema/application/services/catalog_sync.py:99-110 | Version rows of a removed subject survive exactly when no subject row, artifact or metadata tells of it |
| CatalogSync.SubjectShifts | app/schema/application/services/catalog_sync.py:209-222 | The shared counters never influence a task, which adds the same amount to whatever they hold |
| SyncConcurrency.MoveKeepsRest | app/schema/application/services/catalog_sync.py:178-222 | Each step from one await point to the next keeps what a sync task still has to do |
| SyncConcurrency.StepKeepsGoal | app/schema/application/services/catalog_sync.py:155-157 | Whichever task moves, the final rows of every subject and the final counters stay the same |
| SyncConcurrency.RunKeeps | app/schema/application/services/catalog_sync.py:155-222 | So they stay along every run, whose length is the number of steps used up |
| SyncConcurrency.RunsAreConfluent | app/schema/application/services/catalog_sync.py:155-222 | Every complete interleaving ends with the rows and counters of running the tasks one after another, after equally many steps |
| SyncConcurrency.SemaphoreHolds | app/schema/application/services/catalog_sync.py:75-185 | No reachable state has more than `max_concurrent` tasks inside the semaphore |
| SyncConcurrency.CanComplete | app/schema/application/services/catalog_sync.py:155-157 | With a permit every state can be run to completion: no deadlock |
| SyncConcurrency.CompletesExactlyWithPermits | app/schema/application/services/catalog_sync.py:75-185 | A sync can complete exactly when it has a permit or no subject |
| SyncHistory.SyncedRows | app/schema/application/services/catalog_sync.py:187-215 | A failure-free sync skips an old latest and otherwise copies every version above the watermark |
| SyncHistory.SyncedCounters | app/schema/application/services/catalog_sync.py:209-218 | A failure-free sync counts one new subject without a watermark, every version number of its range, and no error |
| SyncHistory.SyncEqualsRebuildExactly | app/schema/application/services/catalog_sync.py:187-215 | It equals a rebuild exactly when the rows are those of an earlier moment of the registry |
| SyncHistory.AheadIsSkipped | app/schema/application/services/catalog_sync.py:200-203 | A watermark above the registry's latest version is never brought back |
| SyncHistory.MissedVersionStaysMissing | app/schema/application/services/catalog_sync.py:298-300 | A version whose fetch failed once below the watermark is never fetched again |
| SyncHistory.SyncRebuildsExactly | app/schema/application/services/catalog_sync.py:98-218 | The failure-free sync of any moment leaves a rebuilt catalog exactly when every live subject's rows are an earlier moment of its registry history and no dead subject's version rows are alone |
| SyncHistory.SyncHoldsTexts | app/schema/application/services/catalog_sync.py:187-300 | After the failure-free sync of a moment whose live subjects are behind, each live version has a row with the registry's text and its digest, and the watermark is the latest version |
| SyncHistory.PublishKeepsExactly | app/schema/application/services/catalog_sync.py:187-215 | A new version keeps every live subject behind its registry exactly when it does not bring back a subject with other rows of its former life |
| SyncHistory.TruncateKeepsExactly | app/schema/application/services/catalog_sync.py:187-215 | Deleting the newest versions of a subject keeps every live subject behind its registry exactly when the catalog has seen none of them |
| SyncHistory.HappensKeepsBehind | app/schema/application/services/catalog_sync.py:98-218 | Any event keeps every live subject behind its registry exactly when it takes back nothing the catalog has seen |
| SyncHistory.EarlyReturnIsNotRebuilt | app/schema/application/services/catalog_sync.py:200-203 | An up-to-date subject that is removed and comes back with version 1 before a sync keeps its old rows |
| SyncHistory.HistoryEqualsRebuildExactly | app/schema/application/services/catalog_sync.py:98-218 | After any history from an empty catalog a sync leaves a rebuilt catalog exactly when every live subject is behind its registry |
| SyncHistory.HistoryEqualsRebuild | app/schema/application/services/catalog_sync.py:98-218 | After every history of growth, removals, deletions and failure-free syncs in which nothing the catalog had seen was taken back, a sync leaves the rows and watermarks of a rebuild |
| SyncHistory.TimelyHistoryEqualsRebuild | app/schema/application/services/catalog_sync.py:98-218 | So it does when a sync comes between every removal and return of a subject and no sync came while a version to be deleted was there, told without looking at the catalog |
| SyncHistory.SecondSyncAddsNothing | app/schema/application/services/catalog_sync.py:98-218 | Of two syncs of an unchanged registry, from any catalog, the second changes no row, artifact or metadata, removes nothing and counts nothing |
| Drift.DriftFlags | app/schema/application/use_cases/governance/drift.py:71-90 | The flags appended are exactly those that apply, each once |
| Drift.SnapshotFlags | app/schema/application/use_cases/governance/drift.py:77-87 | The flags about the newest snapshot, in their place in the list |
| Drift.FlagsMeaning | app/schema/application/use_cases/governance/drift.py:71-90 | No flag exactly when watermark, newest snapshot, hashes and observed version agree; no catalog flag exactly when the first three do |
| Drift.Execute | app/schema/application/use_cases/governance/drift.py:38-104 | The report's fields, and that it raises exactly on a failing read, an unknown subject or a reply without a version |
| Drift.NoCatalogDriftAfterSyncExactly | app/schema/application/use_cases/governance/drift.py:71-87 | After a failure-free sync there is no catalog flag exactly when the catalog was not ahead and a caught-up row had the right hash |
| Drift.NoCatalogDriftAfterHistory | app/schema/application/use_cases/governance/drift.py:71-90 | After every history that took back nothing the catalog had seen and ends in a sync, no live subject has a catalog flag |
| Rollback.PrefixSurvives | app/schema/application/use_cases/governance/rollback.py:125-154 | After any number of deletions the versions left are the original ones up to a bound at or above the target |
| Rollback.DeleteNewer | app/schema/application/use_cases/governance/rollback.py:153-154 | The loop stops at the newest version whose deletion fails, and says what is left |
| Rollback.Registry.DeleteVersion | app/infra/kafka/schema_registry_adapter.py:190-197 | One version of one subject leaves the registry, or nothing changes |
| Rollback.ArtifactStore.DeleteNewerThan | app/schema/infrastructure/repository/mysql_repository.py:522-547 | Exactly the subject's artifacts above the version are gone |
| Rollback.Execute | app/schema/application/use_cases/governance/rollback.py:95-192 | On every path: the subject's versions left, the artifacts left, other subjects untouched, and when it succeeds; then the target is the latest version, and a newer artifact remains exactly when there was one and no newer version |
| Rollback.DeletionsAreTruncation | app/schema/application/use_cases/governance/rollback.py:125-156 | Complete or stopped half-way, the deletions keep the catalog behind the registry exactly when it has seen no deleted version |
| Rollback.RollbackOutdatesCatalog | app/schema/application/use_cases/governance/rollback.py:153-156 | After removing the latest version the up-to-date catalog stays ahead through every sync and keeps a catalog flag |
| Connection.KeysMeetExactly | app/infra/kafka/connection_manager.py:48-93 | The key an invalidation deletes is a lock's key exactly when that id is `registry_` and the invalidated id |
| Connection.ConnectionManager.GetLoopScopedLock | app/infra/kafka/connection_manager.py:102-112 | The stored lock, or a fresh one that is then stored |
| Connection.ConnectionManager.GetSchemaRegistryClient | app/infra/kafka/connection_manager.py:43-64 | Uninterrupted: a hit, a new client for an active row, or an exception that caches nothing |
| Connection.ConnectionManager.InvalidateCache | app/infra/kafka/connection_manager.py:88-95 | The id's client goes for this resource type only, and the lock under the composed key goes |
| Connection.RegistryRepository.Create | app/registry_connections/infrastructure/repositories.py:25-67 | The row is written, and an existing one comes back active |
| Connection.RegistryRepository.Update | app/registry_connections/infrastructure/repositories.py:85-109 | An existing row is replaced, a missing one is refused |
| Connection.RegistryRepository.Delete | app/registry_connections/infrastructure/repositories.py:111-122 | The row becomes inactive and keeps its settings |
| Connection.Get | app/infra/kafka/connection_manager.py:43-64 | From an agreeing cache a get answers as the table would, and the cache still agrees |
| Connection.Update | app/registry_connections/application/use_cases/registry.py:98-139 | Write, then invalidate: the cache agrees with the table afterwards |
| Connection.Delete | app/registry_connections/application/use_cases/registry.py:153-159 | The cache agrees afterwards and the id can no longer be served |
| Connection.Create | app/registry_connections/application/use_cases/registry.py:27-62 | The cache agrees afterwards exactly when it held no client for the id or one with the settings written |
| Connection.CreateKeepsAgreementExactly | app/registry_connections/infrastructure/repositories.py:34-48 | The same as a statement about tables; an absent or inactive id is always safe |
| ConnectionProtocol.NextKeepsSafe | app/infra/kafka/connection_manager.py:43-95 | Every step keeps lock ownership, one task between recheck and store per id, and the client accounts |
| ConnectionProtocol.RunKeepsSafe | app/infra/kafka/connection_manager.py:43-112 | So does every run whose invalidations delete no lock in use |
| ConnectionProtocol.IntrusionRuns | app/infra/kafka/connection_manager.py:88-95 | A run in which invalidating `X` lets two tasks of `registry_X` past the recheck |
| ConnectionProtocol.AlwaysSafeExactly | app/infra/kafka/connection_manager.py:43-112 | All runs are exclusive and account for every client exactly when no invalidated `X` has `registry_X` in use |
| ConnectionProtocol.NextKeepsAgreement | app/registry_connections/application/use_cases/registry.py:136-157 | Every orderly step keeps the cache in agreement with the table outside commit windows |
| ConnectionProtocol.CacheAlwaysAgrees | app/registry_connections/infrastructure/repositories.py:25-122 | In every orderly run each cached client is the current, active row's once its commits are invalidated |
| ConnectionProtocol.CommitCreateExactly | app/registry_connections/infrastructure/repositories.py:34-63 | The commit of a create writes the settings given, leaves an existing row active and touches no other row |
| ConnectionProtocol.LateStoreAgreesExactly | app/infra/kafka/connection_manager.py:55-63 | A store of a row read before a commit agrees exactly when the commit did not change the row's client |
| ConnectionProtocol.LateStoreRuns | app/infra/kafka/connection_manager.py:55-63 | A run in which an update is written and invalidated between a read and its store: nothing is pending and the cached client is stale exactly when the update changed it |
| ConnectionProtocol.CreateOverActiveAgreesExactly | app/registry_connections/infrastructure/repositories.py:34-48 | A create over an active row leaves a stale client unless the settings are the same |
| PlanStore.RoundTrip | app/schema/infrastructure/repository/mysql_repository.py:127-297 | A stored plan is read back with exactly its unstored parts erased |
| PlanStore.KeptExactly | app/schema/infrastructure/repository/mysql_repository.py:131-297 | A plan survives storage unchanged exactly when it carries none of those parts |
| PlanStore.PlanRepository.SavePlan | app/schema/infrastructure/repository/mysql_repository.py:127-218 | The upsert: all columns, the creator kept and the updater set on conflict |
| PlanStore.PlanRepository.GetPlan | app/schema/infrastructure/repository/mysql_repository.py:226-301 | Nothing for a missing row, an exception exactly for an unreadable one, and for a row written from a plan that plan without its unstored parts |
| PlanStore.LastSaveWins | app/schema/infrastructure/repository/mysql_repository.py:183-297 | After any sequence of saves the plan read is the last one saved under its id, erased, and the column is that plan's own `can_apply` |
| PlanStore.ComputeSummary | app/schema/domain/models/plan_result.py:63-108 | Each count of the summary is the number of items, reports, violations or rules it is about |
| PlanStore.ActionsCount | app/schema/domain/models/plan_result.py:87-94 | The four action counts add up to the number of items |
| PlanStore.SummaryKeptExactly | app/schema/domain/models/plan_result.py:68-108 | Action, total and incompatible counts survive storage exactly when the requested total was absent or the number of items |
| PlanStore.CanApplyKeptExactly | app/schema/domain/models/plan_result.py:110-116 | The verdict recomputed from a stored plan is weaker, and different exactly when only erased violations stood in the way |
| MetadataStore.NormalOwnerExactly | app/schema/infrastructure/repository/mysql_repository.py:43-51 | The owner stored is the given text without surrounding whitespace, exactly when that is not empty and "placeholder" does not occur in it in any spelling |
| MetadataStore.NormalOwnerIdempotent | app/schema/infrastructure/repository/mysql_repository.py:43-51 | Normalising an owner twice is normalising it once |
| MetadataStore.StripExactly | app/schema/infrastructure/repository/mysql_repository.py:46 | `strip` takes off the whitespace at both ends, all of it and nothing else |
| MetadataStore.NormalModeExactly | app/schema/infrastructure/repository/mysql_repository.py:54-63 | A text names a mode exactly when it is the mode's value up to surrounding whitespace |
| MetadataStore.SetMode | app/schema/infrastructure/repository/mysql_repository.py:92-108 | The payload says the mode given, or none, and the rest as before |
| MetadataStore.SetItems | app/schema/infrastructure/repository/mysql_repository.py:98-101 | The payload says the tags given, or those it had, and the rest as before |
| MetadataStore.BuildTagsPayload | app/schema/infrastructure/repository/mysql_repository.py:86-112 | What can be extracted from the new payload, in terms of the old one; other keys stay; a payload kept has tags or a mode |
| MetadataStore.StripAllOfClean | app/schema/infrastructure/repository/mysql_repository.py:77-83 | Extracted tags are stripped, without blanks, and extracting again changes nothing |
| MetadataStore.MetadataRepository.SaveSchemaMetadata | app/schema/infrastructure/repository/mysql_repository.py:549-610 | Each save acts on the subject's stored row as on a plain record of tags, mode, owner and doc, and on no other row; the owner stored is the trimmed text given, or the one there was |
| MetadataStore.RunFolds | app/schema/infrastructure/repository/mysql_repository.py:549-610 | After any calls on an empty repository each row stands for the fold of the saves made for its subject |
| MetadataStore.LastGivenWins | app/schema/infrastructure/repository/mysql_repository.py:549-610 | After any calls on an empty repository each subject has the trimmed, non-blank texts of its last tag list given, the last mode named, the last owner given that is no placeholder, and the last doc given |
| PolicyStore.PolicyRepository.Save | app/schema/infrastructure/repository/policy_repository.py:29-47 | The row is appended unless the unique constraint refuses it |
| PolicyStore.PolicyRepository.GetNewest | app/schema/infrastructure/repository/policy_repository.py:49-66 | The row with the highest version of the policy, or nothing |
| PolicyStore.PolicyRepository.ListActive | app/schema/infrastructure/repository/policy_repository.py:68-86 | Exactly the ACTIVE rows |
| PolicyStore.PolicyRepository.UpdateStatus | app/schema/infrastructure/repository/policy_repository.py:120-133 | Only the status of the version changes, so the active versions gain or lose it at most; a missing version changes nothing |
| PolicyStore.PolicyRepository.DeletePolicy | app/schema/infrastructure/repository/policy_repository.py:135-140 | No version of the policy is left and every other row stays as often and in the same order; an unknown policy changes nothing |
| PolicyStore.PolicyRepository.DeleteVersion | app/schema/infrastructure/repository/policy_repository.py:142-149 | The policy loses this version only, active or not, and every other row stays in the same order; a missing version changes nothing |
| PolicyStore.CreatePolicy | app/schema/application/use_cases/policy/management.py:22-48 | A fresh policy starts as draft version 1 |
| PolicyStore.UpdatePolicy | app/schema/application/use_cases/policy/management.py:50-80 | A draft one above the newest version with its type, never hitting the unique constraint; an unknown policy raises |
| PolicyStore.ActivatePolicy | app/schema/application/use_cases/policy/management.py:99-110 | The loop's whole effect; cut short anywhere it has archived other active versions of this policy and changed nothing else |
| PolicyStore.ActivatedKeepsSound | app/schema/application/use_cases/policy/management.py:99-110 | Afterwards the active versions are the one asked for if it exists and none otherwise |
| PolicyStore.NextKeepsSound | app/schema/interface/routers/policy_router.py:83-110 | Every create, update, activate, activation cut short, archive and delete keeps uniqueness and one active version |
| PolicyStore.RunsKeepSound | app/schema/application/use_cases/policy/management.py:22-118 | In every table reachable by completed and cut-short operations each policy has at most one ACTIVE version and versions are unique |
| PolicyStore.DeletedNewestIsReusedExactly | app/schema/application/use_cases/policy/management.py:61-79 | The next update reuses a deleted newest number exactly when its predecessor lives |

## Left out

- Lexing of JSON literals: escapes, number syntax and NaN; a literal is a token with its value and its spelling.
- The adapter's branch for texts that are not JSON, which escapes non-ASCII characters before sending.
- `str.lower` beyond the ASCII letters; the words compared are ASCII.
- SHA-256: an uninterpreted function of the canonical text; the catalog and the adapter use the same one.
- Python's `True == 1` for dictionary keys, which could merge two field names that are not strings.
- The text of change lines; two field paths whose names contain dots can render to the same line.
- The environment check and the fingerprint of a batch; subjects are distinct by construction.
- The content of lint checks, which are parameters; policy contents are taken to be well typed.
- Server-side normalisation by the registry: the stored text is taken to be JSON-equal to what was sent.
- Apply.ReapplySkips: promises nothing for a subject registered with PROTOBUF, whose stored text is the registry's own rendering; other subjects of the batch are covered.
- CatalogSync.CatalogSyncService.SyncAll: runs its tasks one after another; `SyncConcurrency` covers all interleavings of the same tasks.
- SyncConcurrency.RunsAreConfluent: takes each merge-and-commit as one step and a rollback as discarding only its own task's row, because one database session shared by all tasks gives no other defined meaning.
- Columns of the catalog that no decision reads: references, rule sets, field metadata, compatibility level, environment.
- A database error in the middle of deleting stale subjects, which the sync counts as one error.
- The waiting order of the semaphore and of locks: any waiter may go next, which allows every order the event loop could take.
- Several event loops and `clear_all_caches`: the cache claims nothing there.
- Concurrent activation of policies, which the code does not protect.
- AvroResolution.UnflaggedReadsExactly: covers self-contained types; references to types named elsewhere and field aliases are not part of this model, and a reader's default is taken as given.
- PlanStore.RoundTrip: unknown diff kinds, modes and types in a stored plan are exceptions here, while the code passes diff texts through.
- The content of audit entries and approval requests; whether writing them raises is a parameter of `Apply.Execute`.
- Impact analysis of a plan, apart from its raising.
- The time stamps of policies; `update_status` also sets `activated_at`.
- Notifications, dashboards, routers, encryption, middleware and the frontend.
