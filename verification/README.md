# Evidence, verdicts and publication in webconf-audit

webconf-audit inspects web server configurations and reports, control by control, what its rules found and what
that is worth as evidence. This project models the part of it that has to be right for a report to be trusted, and
proves what it promises.

The central pipeline:

1. Rule runners call rules and tell a recorder what became of them (`RuleRunner`, `ExecutionManifest`). The
   recorder reduces competing events of a rule to one: a failure outweighs a completion, a completion outweighs a
   skip, and among skips the alphabetically first reason stands.
2. A manifest sorts the selected rules into completed, skipped and failed, after the rules that the audit policy
   requires but the run never selected have been added as skipped (`AuditPolicy`).
3. For one control of one target, findings, suppressed findings, analyzer records, the manifest, the ledger item and
   the policy become one of seven statuses (`Assessment`, `AssessmentEngine`, `AssessmentTheorems`,
   `OrderTheorems`). `Readings` and `VerdictTheorems` say what each status and each list means in terms of the inputs.
4. Assessments of all targets are merged per ledger item into a report (`AssessmentReport`, `ReportTheorems`).

`EndToEnd` closes the chain: pass, fail and indeterminate are characterised by the calls the rules actually made, the
suppressions and the analyzer records. `CoverageLedger` supplies what a validated ledger guarantees, `RuleRegistry`
what registered rule metadata guarantees, `Suppressions` and `Baselines` how findings are split, `CoverageSummary` how
coverage is counted and rounded.

Around the pipeline: the declared TLS inventory, whose verdict enters the assessment as an analyzer record
(`TlsInventory`, `InventoryTheorems`); publishing several files as one unit with rollback (`Publish`); the
Content-Security-Policy parser (`CspSplit`, `CspParser`, `CspIssues`, `CspTheorems`; section 2.2.1 of W3C Content Security
Policy Level 3); replacing a generated section of a document (`GeneratedSection`); and normalising sample URIs
(`UriNormalizer`; compare section 5.2.4 of RFC 3986). `Prelude`, `Lists`, `Ordering`, `Decimal` and `Texts` hold
what several of these share.

Code that updates state in place is modelled by classes and loops: the recorder, the issue log, the rule registry,
an analysis result, and a file store whose operations may fail. Loops are proved against specification functions
or predicates, and the properties are proved about those.

## What is not as one might expect

Some promises hold only under a condition. In these cases the code is modelled as it is, a lemma shows the input that
fails, and the condition is proved.

- Suppressing a finding leaves a control's status alone, and a further finding never makes it less severe, as long as
  all findings of a rule that the ledger item does not define carry the same mapping onto the item. Otherwise the
  first finding of the rule decides, and active findings come before suppressed ones. `SuppressionFlips` and
  `FurtherFindingSoftens` show both on one item with two verified findings. `OrderIrrelevantExactly` says which
  mappings leave the order nothing to decide, `SuppressionInvariantExactly` carries this over to suppressions, and
  `AddedFindingExactly` says which further findings may soften a status. Findings whose payloads agree with the
  registry are on the safe side when no registered rule maps onto the item in two ways (`VerifiedMeansConsistent`).
- docs/control-assessment.md describes `pass` as free of contradictory evidence. A failing analyzer record whose
  mapping is partial, related or derived leaves a pass standing (`PassBesideFailingRecord` shows one); it is removed
  exactly by a declared direct mapping (`AnalyzerFailureAgainstPass`).
- `duplicate_of` of a Content-Security-Policy directive counts the members of the policy, empty ones included; it
  is not a position in the list of directives (`DuplicateOfIsNoPosition`). It is one exactly when no empty member
  stands before the effective directive (`DuplicateOfIsPositionExactly`); all indices are positions exactly when no
  empty member stands before one that is not (`IndicesArePositionsExactly`).
- A policy is split at separators outside quotes, where Content Security Policy Level 3 splits at all of them; the
  results agree exactly when no separator stands inside quotes (`PlainExactlyUnquoted`).
- Replacing a generated section is idempotent exactly when neither the begin marker nor the replacement contains the
  end marker (`ReplacingIsIdempotentExactly`; `EndMarkerInReplacement` shows a text that grows).
- Normalising a URI is idempotent exactly when decoding leaves the first result alone
  (`NormalizingIsIdempotentExactly`); `/%252e` takes two rounds (`EscapedEscapeIsNot`).
- A source with 2000 applicable items of which one is not full would show 100.0 percent; the limit of 512 items
  rules this out (`EndsBlurBeyondTheLimit`, `EndsAreExact`).
- When only the removal of the temporary directory fails, publishing reports an issue although every document has its
  new content (`WriteReconciliation`).

## Model

| member | source | states |
|---|---|---|
| ExecutionManifest.RuleExecutionRecorder.Select | src/webconf_audit/execution_manifest.py:160-163 | a rule is selected once, at the end; nothing else changes |
| ExecutionManifest.RuleExecutionRecorder.SelectMany | src/webconf_audit/execution_manifest.py:165-167 | the new rules are appended in order, without repetition |
| ExecutionManifest.RuleExecutionRecorder.RecordTerminal | src/webconf_audit/execution_manifest.py:196-216 | the history grows by the event, the rule is selected, and (through the invariant) the stored event of every rule is what its whole history settles to |
| ExecutionManifest.SettlesIsUnique | src/webconf_audit/execution_manifest.py:196-216 | a history settles each rule to one event only |
| ExecutionManifest.SettledStateIgnoresOrder | src/webconf_audit/execution_manifest.py:196-216 | reordering the events of a run changes neither a rule's terminal state nor its skip reason; only which of several failure payloads stands |
| ExecutionManifest.StoredSettles | src/webconf_audit/execution_manifest.py:196-216 | weighing one more event against the stored one keeps the stored events settled |
| ExecutionManifest.SettlesExactly | src/webconf_audit/execution_manifest.py:196-216 | a rule settles to failed if any event failed it, else to completed if any completed it, else to skipped for the first of its reasons in a fixed order |
| ExecutionManifest.SelectionGrows | src/webconf_audit/execution_manifest.py:160-167 | selecting one more rule appends it unless it was selected before |
| Ordering.LessExactly | src/webconf_audit/execution_manifest.py:210-216 | texts compare at their first difference, a proper prefix comes first |
| ExecutionManifest.RuleExecutionRecorder.Events | src/webconf_audit/execution_manifest.py:187-194 | the stored events in selection order |
| ExecutionManifest.BuildRuleExecutionManifest | src/webconf_audit/execution_manifest.py:219-303 | a manifest is built exactly when there is no repeated selection, no stray or repeated event and no missing rule; otherwise the first such defect is reported |
| ExecutionManifest.PartitionIsValid | src/webconf_audit/execution_manifest.py:61-96 | the model validator accepts every manifest the builder makes |
| ExecutionManifest.BuiltManifestPartitions | src/webconf_audit/execution_manifest.py:219-303 | completed, skipped and failed rules partition the selection as multisets, each in selection order |
| ExecutionManifest.KeptInOrder | src/webconf_audit/execution_manifest.py:219-303 | each list of the manifest goes through the selection in order |
| ExecutionManifest.ClosedRecorderIsBuildable | src/webconf_audit/execution_manifest.py:187-303 | the events of a recorder build a manifest exactly when every selected rule has one; nothing else can go wrong |
| RuleRunner.ExecutableRuleEntries | src/webconf_audit/local/rule_runner_utils.py:12-33 | an entry without the tag "policy-review" is always returned, one with it exactly when the tag was requested, and otherwise it leaves an opt-in skip and nothing else does; all rules of the pack are selected |
| RuleRunner.GateKeepsOrder | src/webconf_audit/local/rule_runner_utils.py:20-33 | entries and skips come in pack order |
| RuleRunner.RunRuleEntry | src/webconf_audit/local/rule_runner_utils.py:36-59 | a returning rule is completed with its findings, a raising one is failed and logged, or re-raised when there is no issue list |
| RuleRunner.RunRules | src/webconf_audit/local/universal_rules.py:37-49 | by the tags, prerequisites and outcomes of the entries alone: which events, findings and issues a pass leaves and when it ends in a crash; with an issue list a closed recorder stays closed |
| RuleRunner.PassMentions | src/webconf_audit/local/universal_rules.py:37-49 | every rule of the pack leaves a terminal event |
| RuleRunner.RunStops | src/webconf_audit/local/rule_runner_utils.py:46-49 | after a crash that nothing catches no further event is recorded |
| AuditPolicy.ResolveSourcePolicy | src/webconf_audit/audit_policy.py:1462-1510 | every counted item of a source gets the policy of its override or the default, in ledger order |
| AuditPolicy.ResolvesExactly | src/webconf_audit/audit_policy.py:1462-1510 | the last override for the item as written, or else the source's default disposition or the policy's, the default expectation and no required rules |
| AuditPolicy.ExceptionsAreExplicit | src/webconf_audit/audit_policy.py:1462-1510 | a control is out of scope or up for review only through an explicit override or default |
| AuditPolicy.AddRequiredRules | src/webconf_audit/audit_policy.py:410-431 | exactly the required rules the run did not select are added, sorted, each skipped for the reason its metadata gives |
| AuditPolicy.BuildAnalysisManifest | src/webconf_audit/audit_policy.py:410-437 | the manifest exists exactly when the run left no selected rule open; it partitions the selection, selects every required rule, reports what the recorder's history settles to, and lists every required rule the run never selected as skipped for the reason its metadata gives |
| AuditPolicy.ReasonExactly | src/webconf_audit/audit_policy.py:1655-1676 | the reason: unknown rule, rule of the other mode, rule of another server, or else unavailable input |
| AuditPolicy.RequiredRuleIds | src/webconf_audit/audit_policy.py:376-387 | exactly the rules some control of the policy requires |
| CoverageLedger.ValidateAssessmentRules | src/webconf_audit/coverage_ledger.py:1608-1723 | no issue exactly when the rules are distinct, listed, backed by a claim of the item and disciplined: pass semantics only for declared unrelated mappings, control-pass only for direct ones |
| CoverageLedger.ValidateAssessmentControls | src/webconf_audit/coverage_ledger.py:1724-1788 | the same for analyzer controls |
| CoverageLedger.ValidateItemEvidence | src/webconf_audit/coverage_ledger.py:1448-1790 | no issue exactly when the item meets the hypotheses of the assessment theorems |
| CoverageLedger.ValidateLedgerIds | src/webconf_audit/coverage_ledger.py:366-391 | no issue exactly when source and item ids are unique |
| Assessment.Decide | src/webconf_audit/assessment.py:1145-1186 | the status is supported by the evidence and is the most severe one that is |
| AssessmentEngine.RuleDefinitions | src/webconf_audit/assessment.py:1336-1373 | the dictionary holds exactly the ledger's definitions |
| AssessmentEngine.MapFindings | src/webconf_audit/assessment.py:1376-1392 | each finding is mapped through its first matching reference |
| AssessmentEngine.MapSuppressed | src/webconf_audit/assessment.py:1395-1421 | the same for suppressed findings |
| AssessmentEngine.MapAnalyzerEvidence | src/webconf_audit/assessment.py:1267-1333 | analyzer records that the item maps, sorted |
| AssessmentEngine.AssessSingleControl | src/webconf_audit/assessment.py:829-1206 | the method computes what `IsAssessment` demands of status, evidence, analyzer evidence, missing evidence, issues and retained findings; the following rows read this off the inputs |
| VerdictTheorems.StatusExactly | src/webconf_audit/assessment.py:884-1185 | each of the seven statuses as an if-and-only-if over findings, records, manifest, ledger item and policy: fail exactly with a finding of a declared direct rule or a declared direct failing record; indeterminate exactly without these and with a declared direct record that is undecided or passes incompletely, or a required rule that failed or was skipped; and so on down to not-assessed |
| VerdictTheorems.ConflictAndRecordsExactly | src/webconf_audit/assessment.py:1136-1143 | a conflict is reported exactly where direct negative evidence meets evidence for a pass; analyzer evidence is one entry per mapped record, with the fields of record and mapping |
| VerdictTheorems.MissingExactly | src/webconf_audit/assessment.py:1064-1134 | an entry of missing evidence is there exactly when the ledger leaves the control uncovered, a required rule owes it for that reason, or the operator's judgment is expected |
| VerdictTheorems.EvidenceExactly | src/webconf_audit/assessment.py:922-1003 | one evidence entry per rule that is defined for the item and has ended, in the order of rule ids, with its definition, the name of its state, its fingerprints, and its facets where it was silent |
| VerdictTheorems.RetainedExactly | src/webconf_audit/assessment.py:1015-1048 | findings are retained exactly on controls that policy puts out of scope |
| Readings.LedgerSaysExactly | src/webconf_audit/assessment.py:1336-1373 | a listed rule is defined by its last assessment entry, or else by its first claim on a counted reference |
| Readings.SaysExactly | src/webconf_audit/assessment.py:837-860 | another rule is defined by the first of its findings, active before suppressed, through the first reference that is counted |
| Readings.FoundExactly | src/webconf_audit/assessment.py:1376-1421 | a rule has a mapped finding exactly when some finding of it has a counted reference |
| AssessmentTheorems.PassExactlyWhenEarned | src/webconf_audit/assessment.py:1005-1185 | with a built manifest and a validated item, pass if and only if the item is full and in scope, every required rule completed, no finding maps directly, partially or as derived, no direct analyzer record speaks against it, and there is positive declared direct evidence |
| AssessmentTheorems.UnblockedMeansCompleted | src/webconf_audit/assessment.py:1074-1125 | with a built manifest nothing blocks a conclusion exactly when every required rule completed |
| AssessmentTheorems.PassTracesToRun | src/webconf_audit/assessment.py:1005-1185 | behind a pass every required rule has a completion and no failure in the recorder's history |
| AssessmentTheorems.UnfinishedRequiredRule | src/webconf_audit/assessment.py:1074-1160 | a required rule that did not complete leaves an in-scope control failed or indeterminate, and the missing evidence names it |
| AssessmentTheorems.SilenceIsNotPass | README.md:193-195 | without control-pass semantics in the ledger no run passes, whatever it finds or does not find |
| AssessmentTheorems.AnalyzerFailureAgainstPass | docs/control-assessment.md:38-41 | one more failing analyzer record removes a pass exactly when it is mapped declared-direct |
| AssessmentTheorems.PassBesideFailingRecord | docs/control-assessment.md:38-41 | a valid item and a completed run where a control passes beside a failing analyzer record that is mapped partially |
| AssessmentTheorems.SameStatusExactly | src/webconf_audit/assessment.py:837-1185 | two populations of findings over the same rules get the same status in every run exactly when they agree on direct negative evidence and, where it matters, on partial negative evidence |
| AssessmentTheorems.SuppressionChangesNothing | src/webconf_audit/assessment.py:837-1185 | with consistent mappings, moving or reordering findings changes neither status nor missing evidence |
| OrderTheorems.OrderIrrelevantExactly | src/webconf_audit/assessment.py:837-860 | every reordering of the findings keeps the status in every run exactly when direct negative evidence is there in any order, or cannot be there and the item is up for review or the same holds of partial evidence; told by the ledger definitions and the mappings alone |
| OrderTheorems.SuppressionInvariantExactly | src/webconf_audit/assessment.py:837-860 | every suppression of findings that were all active keeps the status in every run exactly under that condition |
| OrderTheorems.SuppressionIsHarmless | src/webconf_audit/assessment.py:837-860 | under that condition any suppression keeps the status, whatever was suppressed before |
| OrderTheorems.AddedFindingExactly | src/webconf_audit/assessment.py:54-62 | one more finding at any place softens the status in some run exactly when it takes over the definition of a rule the item does not define and is less severe there than what it replaces |
| OrderTheorems.WitnessIsVerified | src/webconf_audit/assessment.py:779-826 | the two findings of the witness item agree with the registry and list the same references in either order |
| OrderTheorems.SuppressionFlips | src/webconf_audit/assessment.py:838-860 | suppressing one of two verified findings turns fail into not-assessed |
| OrderTheorems.FurtherFindingSoftens | src/webconf_audit/assessment.py:838-860 | a second verified finding turns fail into not-assessed |
| AssessmentTheorems.MonotoneExactly | src/webconf_audit/assessment.py:54-62 | a larger population never moves the status to a less severe rank exactly when it keeps the negative evidence |
| AssessmentTheorems.MoreFindingsNeverHelp | src/webconf_audit/assessment.py:54-62 | with consistent mappings they never do |
| Suppressions.Match | src/webconf_audit/suppressions.py:46-78 | the first entry that hits the finding |
| Suppressions.SuppressedExactly | src/webconf_audit/suppressions.py:46-78 | a finding is hit exactly by an entry for its rule with its fingerprint, or without a fingerprint and with criteria that all hold |
| Suppressions.AnalysisResult.ApplySuppressions | src/webconf_audit/suppressions.py:143-173 | the findings no entry covers stay, the covered ones move to the suppressed list with their rule and fingerprint, both in order |
| Suppressions.SplitConserves | src/webconf_audit/suppressions.py:143-173 | active and newly suppressed findings together are the findings there were |
| Suppressions.SplitIsStable | src/webconf_audit/suppressions.py:143-173 | applying the same suppressions again moves nothing |
| Suppressions.SplitKeepsMapped | src/webconf_audit/assessment.py:1376-1421 | suppressing keeps the multiset of findings mapped onto an item |
| Suppressions.SuppressionsKeepVerdict | src/webconf_audit/assessment.py:837-1185 | applying suppressions keeps status and missing evidence of every consistent control |
| Suppressions.VerifiedFindingsAgree | src/webconf_audit/assessment.py:779-826 | verified findings of one rule agree on their mapping when the registered rule maps onto the item in one way |
| Suppressions.VerifiedMeansConsistent | src/webconf_audit/assessment.py:779-826 | so verified inputs meet the hypothesis of the suppression and monotonicity theorems |
| EndToEnd.RunPasses | src/webconf_audit/local/universal_rules.py:22-52 | any number of passes over one recorder leave it closed, with the history and findings of all of them |
| EndToEnd.FindingsTell | src/webconf_audit/local/universal_rules.py:37-49 | the findings of an analysis are those that calls returned |
| EndToEnd.RunAndAssess | src/webconf_audit/assessment.py:829-1206 | from rule calls, suppressions and analyzer records to verdict: the manifest always exists and says of every rule what its calls did; a control passes, fails or is indeterminate if and only if the calls, the suppressed and active findings and the records give the grounds for it |
| EndToEnd.MissedByCalls | src/webconf_audit/assessment.py:1074-1125 | a required rule counts as failed or skipped exactly when it was not called to an end |
| EndToEnd.HistoryTells | src/webconf_audit/execution_manifest.py:196-216 | the recorder's history has a completion or failure of a rule exactly when one of its calls returned or crashed |
| AssessmentReport.WorstIsLeast | src/webconf_audit/assessment.py:1209-1264 | the merged status is the most severe one among the targets |
| AssessmentReport.MergedStatusIgnoresOrder | src/webconf_audit/assessment.py:1209-1264 | and does not depend on their order |
| AssessmentReport.MergedStatusExactly | src/webconf_audit/assessment.py:54-62 | one failing target makes the control fail, and so on in the order indeterminate, review, partial, pass, not-assessed; not-applicable only if all are |
| AssessmentReport.MergeRegroups | src/webconf_audit/assessment.py:1209-1264 | merging in groups and merging the results is merging everything at once, evidence lists included |
| AssessmentReport.SummaryTotalsAreValid | src/webconf_audit/assessment_models.py:265-278 | the totals validator accepts every summary that is computed |
| AssessmentReport.SummaryTallies | src/webconf_audit/assessment.py:1457-1468 | each field of a summary is the number of controls with that very status |
| AssessmentReport.SummaryAdds | src/webconf_audit/assessment.py:1457-1468 | the summary of a concatenation is the sum of the summaries |
| AssessmentReport.BuildControlAssessment | src/webconf_audit/assessment.py:434-549 | the report groups the assessments of all jobs by ledger item; it fails exactly on a fatal input issue, without results or when a policy names an unknown item; every field of every summary is the number of controls with that very status |
| ReportTheorems.ReportConservesEvidence | src/webconf_audit/assessment.py:464-549 | with unique ids the multisets of evidence, analyzer evidence and missing evidence in the report are those of the single assessments |
| ReportTheorems.DuplicateItemsDuplicateEvidence | src/webconf_audit/coverage_ledger.py:366-391 | an item listed twice would report its evidence twice |
| ReportTheorems.JobsExactly | src/webconf_audit/assessment.py:464-470 | every control of every source of every target's policy is assessed |
| ReportTheorems.EntryIsLast | src/webconf_audit/assessment.py:456-472 | against the last ledger item with its source and item id |
| ReportTheorems.ReportedInOrder | src/webconf_audit/assessment.py:505-515 | an item is reported exactly when an assessment of it was made, in ledger order, with the worst status among them |
| ReportTheorems.SourcesInOrder | src/webconf_audit/assessment.py:505-540 | a source is reported exactly when one of its items is, in ledger order |
| ReportTheorems.MergedFields | src/webconf_audit/assessment.py:1218-1263 | the other fields are those of the first target, the issues those of all |
| ReportTheorems.MergedIsSorted | src/webconf_audit/assessment.py:1218-1263 | merged evidence is sorted by target, rule and state, analyzer evidence by control, target and status, missing evidence by rule and reason |
| ReportTheorems.ReportedSummaries | src/webconf_audit/assessment.py:505-549 | each source carries the summary of its own controls |
| ReportTheorems.SummariesAddUp | src/webconf_audit/assessment.py:505-549 | source summaries add up to the report summary |
| RuleRegistry.MergeStandardReferences | src/webconf_audit/rule_registry.py:499-519 | the first reference of each key, in order |
| RuleRegistry.FreshKeepsFirsts | src/webconf_audit/rule_registry.py:499-519 | every key that occurs is kept once, with its first reference |
| RuleRegistry.AugmentRuleMeta | src/webconf_audit/rule_registry.py:452-530 | primary references are the rule's own and the tables', the first of each kind; secondary ones likewise, and one derived reference, of the same coverage, origin derived and with its provenance, for every primary "OWASP Top 10" reference with a 2025 category, and no others; an error exactly when a reference is primary and secondary at once |
| RuleRegistry.FreshInOrder | src/webconf_audit/rule_registry.py:499-519 | merging goes through the references in order |
| RuleRegistry.OverlapExactly | src/webconf_audit/rule_registry.py:522-530 | the overlap check finds exactly the references of both tiers with the same standard and reference |
| RuleRegistry.AugmentationIsIdempotent | src/webconf_audit/rule_registry.py:452-519 | augmenting augmented metadata changes nothing, derived references (rule_standards.py) included |
| RuleRegistry.Registry.Register | src/webconf_audit/rule_registry.py:191-208 | registers exactly new, non-overlapping rules; executable rules stay catalogued with equal, augmented metadata |
| TlsInventory.EntryObservations | src/webconf_audit/external/tls_inventory.py:567-613 | one observation per required dimension, in order |
| TlsInventory.ObservationTells | src/webconf_audit/external/tls_inventory.py:616-778 | an observation is observed or not applicable exactly when the dimension is declared so or the TLS facts of a completed handshake bear it out |
| TlsInventory.StateExactly | src/webconf_audit/external/tls_inventory.py:616-778 | when an observation is observed, failed, unavailable, not requested or not applicable |
| TlsInventory.MetExactly | src/webconf_audit/external/tls_inventory.py:637-786 | what bears out each dimension; certificates are matched against the expected names or else the name that was sent |
| TlsInventory.ObservationRests | src/webconf_audit/external/tls_inventory.py:616-778 | the references of an observation are exactly the TLS facts it rests on |
| TlsInventory.ShiftNumbered | src/webconf_audit/external/tls_inventory.py:1065-1075 | a numbered reference gets its number raised by the offset and keeps the rest |
| TlsInventory.OtherTextsStay | src/webconf_audit/external/tls_inventory.py:1065-1075 | every other text is left alone |
| TlsInventory.ShiftsAdd | src/webconf_audit/external/tls_inventory.py:1065-1075 | shifting a reference by a and then b is shifting it by a + b, for every text |
| TlsInventory.OffsetsAdd | src/webconf_audit/external/tls_inventory.py:1039-1062 | the same for rebasing a whole analysis |
| TlsInventory.AttemptRefIsUnique | src/webconf_audit/external/tls_inventory.py:1065-1075 | a reference names one attempt only |
| TlsInventory.AnalyzeEntries | src/webconf_audit/external/tls_inventory.py:181-198 | after the loop every reference of the k-th entry points at the k-th probe attempt |
| TlsInventory.ObservationCompleteness | src/webconf_audit/external/tls_inventory.py:789-803 | complete exactly when no required observation is lacking; the missing labels are sorted, distinct and exactly those lacking |
| TlsInventory.InventoryControlAssessment | src/webconf_audit/external/tls_inventory.py:836-1000 | the verdict per findings, attestation and missing evidence, with truthful completeness flags and sorted references |
| TlsInventory.AnalyzeInventory | src/webconf_audit/external/tls_inventory.py:140-228 | from probes to record: pass exactly when the inventory is declared complete, every required dimension of every entry is settled, not all are waived and no finding is contrary or unmapped; the references are exactly the facts of the attempts that the required dimensions rest on |
| InventoryTheorems.InventoryPassIsComplete | src/webconf_audit/assessment.py:884-913 | an inventory pass never triggers the incomplete-pass branch of the assessment |
| InventoryTheorems.PassWithInventory | src/webconf_audit/assessment.py:884-1185 | the same for any rules and any further analyzer records before and behind the inventory: the record must be sound, and rules, records or an inventory that is not waived must be positive evidence |
| InventoryTheorems.PassRestsOnInventory | src/webconf_audit/assessment.py:884-1185 | where nothing else passes the control, it passes on an inventory record exactly when item, policy, completed required rules, findings and the other analyzer records allow it and the probes verify the inventory |
| InventoryTheorems.InventoryFindingFails | src/webconf_audit/external/tls_inventory.py:848-872 | a finding against a required dimension fails every control in scope that takes the inventory directly |
| Publish.FileStore.Replace | src/webconf_audit/coverage_ledger.py:775-777 | a move takes effect or fails without effect |
| Publish.NamesNeverCollide | src/webconf_audit/coverage_ledger.py:762-776 | staged and backup names determine number and document and never coincide |
| Publish.BuildOutputs | src/webconf_audit/coverage_ledger.py:747-749 | one output per path, the last artifact wins, in insertion order |
| Publish.OutputsExactly | src/webconf_audit/coverage_ledger.py:747-749 | there is an output for every path with an artifact, with the content of the last one |
| Publish.AppliedExactly | src/webconf_audit/coverage_ledger.py:771-778 | after a success every path carries the content of its last artifact and no other path is touched |
| Publish.StageAll | src/webconf_audit/coverage_ledger.py:762-769 | all contents staged under distinct names exactly when no write failed; published paths untouched |
| Publish.ReplaceOne | src/webconf_audit/coverage_ledger.py:772-778 | one document moved into its backup and replaced, or stopped in a state the rollback can undo |
| Publish.Rollback | src/webconf_audit/coverage_ledger.py:779-790 | restores every document unless one of its own operations fails, and then says which kind of damage is left |
| Publish.ReplaceAll | src/webconf_audit/coverage_ledger.py:771-801 | the replace loop with its rollback: all in place, or all restored, or a second fault |
| Publish.WriteReconciliation | src/webconf_audit/coverage_ledger.py:754-810 | all or nothing for every set of outputs and every fault point; one fault restores exactly the old files, and after every single operation each document holds its old content, its new content or nothing while it is moved |
| CspSplit.SplitTopLevel | src/webconf_audit/csp_ast.py:299-319 | the character loop computes the recursive quote-aware split |
| CspSplit.JoinSplits | src/webconf_audit/csp_ast.py:299-319 | joining the parts gives every text back |
| CspSplit.RoundTripExactly | src/webconf_audit/csp_ast.py:299-319 | a list of parts survives joining and splitting exactly when no part has an unquoted separator and all but the last end outside quotes |
| CspSplit.QuotedExactly | src/webconf_audit/csp_ast.py:299-319 | a text ends inside quotes exactly when a quote character that stood outside quotes has not come again |
| CspSplit.TwoLevelsAreOnePass | src/webconf_audit/csp_ast.py:166-185 | splitting at commas and then at semicolons is one quote-aware pass cutting at both |
| CspSplit.PlainExactlyUnquoted | src/webconf_audit/csp_ast.py:299-319 | the quote-aware split is the split at every separator exactly when no separator stands inside quotes |
| CspParser.ContainsDynamicStructure | src/webconf_audit/csp_ast.py:287-296 | true exactly when some member's name holds a variable |
| CspParser.ParsePolicy | src/webconf_audit/csp_ast.py:180-276 | directives and issues of a policy; the dictionary of seen names answers as the first directive of a name does, and both issue lists grow alike; the next rows read them off the members |
| CspParser.ParseCspHeaderValue | src/webconf_audit/csp_ast.py:148-284 | policies and issues of a header value |
| CspIssues.IssuesExactly | src/webconf_audit/csp_ast.py:148-284 | an issue is raised exactly for what it says: a variable in a directive name, an empty policy, an empty member, an invalid, unknown or repeated name, or a token with an issue, at its policy, directive and token, fatal or not |
| CspIssues.IssuesInOrder | src/webconf_audit/csp_ast.py:148-284 | issues come in the order of the text and none twice |
| CspIssues.PoliciesExactly | src/webconf_audit/csp_ast.py:167-284 | the policies are those of the non-empty parts, each with one directive per non-empty member, its name, value and tokens, in force unless an earlier member has its name, and then referring to the first that has |
| Texts.StripTells | src/webconf_audit/csp_ast.py:168-187 | stripping takes away white space on both sides and leaves none there |
| CspTheorems.MemberReads | src/webconf_audit/csp_ast.py:186-203 | a stripped member is its name, white space and its stripped value; without white space there is no value |
| CspTheorems.MemberReadsBack | src/webconf_audit/csp_ast.py:200-203 | a name and a value written with white space between them are read back |
| CspTheorems.WordsOfJoin | src/webconf_audit/csp_ast.py:322-325 | words joined by white space are split back into the same words |
| CspTheorems.DirectivesFirstWins | src/webconf_audit/csp_ast.py:221-240 | a directive is effective exactly when no earlier one has its name; every other refers to the effective one |
| CspTheorems.OneEffectivePerName | src/webconf_audit/csp_ast.py:221-262 | every name that occurs has exactly one effective directive, not later than the occurrence |
| CspTheorems.DuplicateOfIsNoPosition | src/webconf_audit/csp_ast.py:224-262 | in `;a;a` the duplicate refers to index 1, its own position in the list |
| CspTheorems.DuplicateOfIsPositionExactly | src/webconf_audit/csp_ast.py:224-262 | a duplicate refers to the position of the effective directive exactly when no empty member stands before that one |
| CspTheorems.IndicesArePositionsExactly | src/webconf_audit/csp_ast.py:186-262 | every directive index is a position exactly when no empty member stands before a member that is not |
| CspTheorems.FirstDirective | src/webconf_audit/csp_ast.py:69-74 | the lookup of an effective directive by lower-cased name |
| CspTheorems.LookupTells | src/webconf_audit/csp_ast.py:69-74 | the lookup finds the first effective directive of the name, and none exactly when there is none |
| CspTheorems.ContentSecurityPolicyDirectives | src/webconf_audit/csp.py:17-31 | the compatibility view answers for every name as the lookup in the first policy does |
| CspTheorems.PolicyIssuesAreHeaderIssues | src/webconf_audit/csp_ast.py:167-284 | each policy's issues are the header's issues about it, in the same order |
| CspTheorems.MembersOfStripped | src/webconf_audit/csp_ast.py:168-186 | stripping a policy before splitting changes none of its stripped members |
| CspTheorems.DynamicMeansParsed | src/webconf_audit/csp_ast.py:153-164 | the dynamic-structure issue is raised exactly when a parsed directive has a variable in its name |
| GeneratedSection.BeginStays | src/webconf_audit/coverage_ledger.py:1044-1058 | the begin marker is found at the same place after a replacement |
| GeneratedSection.Reassembled | src/webconf_audit/coverage_ledger.py:1056-1058 | replacing fails exactly without both markers in order; otherwise everything before and after the section is preserved |
| GeneratedSection.SecondReplacementWins | src/webconf_audit/coverage_ledger.py:1044-1058 | a second replacement acts as if it were the only one exactly when the end marker is found where the first new section ends |
| GeneratedSection.LastReplacementWinsExactly | src/webconf_audit/coverage_ledger.py:1044-1058 | for a single-line end marker that is the case exactly when neither begin marker nor first replacement contains it |
| GeneratedSection.ReplacingIsIdempotentExactly | src/webconf_audit/coverage_ledger.py:1044-1058 | generating the same section again changes nothing exactly under that condition |
| GeneratedSection.EndMarkerInReplacement | src/webconf_audit/coverage_ledger.py:1044-1058 | a text that grows when the same section is generated twice |
| UriNormalizer.Normalize | src/webconf_audit/policy_models.py:1491-1506 | the loop with its stack computes the directory walk, and the final substitution changes nothing |
| UriNormalizer.ResultIsClean | src/webconf_audit/policy_models.py:1491-1506 | every result is an absolute path without dot segments or repeated slashes |
| UriNormalizer.WalkIsLookback | src/webconf_audit/policy_models.py:1493-1501 | the stack keeps exactly the names that no later `..` takes back, as read from the end of the path; steps above the root are ignored |
| UriNormalizer.WalkConcat | src/webconf_audit/policy_models.py:1493-1501 | walking a path in two parts is walking it at once |
| UriNormalizer.StepLaws | src/webconf_audit/policy_models.py:1493-1501 | a name goes down, two dots take back the last name or nothing, a dot or an empty segment does nothing |
| UriNormalizer.NormalizingIsIdempotentExactly | src/webconf_audit/policy_models.py:1491-1506 | normalising the result again changes nothing exactly when decoding leaves the result alone, for any decoding that leaves a text alone or shortens it and keeps outer slashes |
| UriNormalizer.UnescapedIsIdempotent | src/webconf_audit/policy_models.py:1491-1506 | so it is idempotent when decoding leaves no percent sign |
| UriNormalizer.EscapedEscapeIsNot | src/webconf_audit/policy_models.py:1491-1506 | not idempotent on an escaped escape |
| UriNormalizer.FixpointsExactly | src/webconf_audit/policy_models.py:1468-1478 | an input is accepted as normalised exactly when it is an absolute path of plain names that decoding leaves alone |
| CoverageSummary.RoundsHalfUp | src/webconf_audit/coverage_ledger.py:2070-2081 | the rounding error of 28-digit division never reaches the decimal place that is kept |
| CoverageSummary.SummarizeSource | src/webconf_audit/coverage_ledger.py:2070-2091 | every item is counted once, applicable plus excluded is all of them, and the percentage is the exact half-up rounding |
| CoverageSummary.CountIsPlaces | src/webconf_audit/coverage_ledger.py:2070-2072 | a count is the number of items with that very status |
| CoverageSummary.PercentIsMonotone | src/webconf_audit/coverage_ledger.py:2073-2081 | more full items never lower the percentage |
| CoverageSummary.EndsAreExact | src/webconf_audit/coverage_models.py:229 | up to 512 items 100.0 means all applicable items and 0.0 means none |
| Baselines.ApplyBaselineDiff | src/webconf_audit/baselines.py:121-154 | new and unchanged entries in order; resolved ones once per fingerprint, in baseline order, each the last baseline entry with it |
| Baselines.SplitConserves | src/webconf_audit/baselines.py:130-139 | every current entry is in exactly one of new and unchanged |
| Baselines.BaselineIsPartitioned | src/webconf_audit/baselines.py:121-144 | every baseline fingerprint is exactly one of current, suppressed only, resolved |
| Baselines.ResolvedIsNewBackwards | src/webconf_audit/baselines.py:121-144 | without suppressions, resolved in one direction is new in the other |

## Left out

- Message texts, rationales, reasons, notes, timestamps, severities and display fields: codes, statuses and references only.
- Network and TLS probing, OpenSSL and sockets: a probe's outcome is an arbitrary value; so is a rule's outcome.
- YAML and JSON loading, schema checks by pydantic, rendering, command line and exit codes.
- Digests and fingerprints are uninterpreted strings; a fingerprint mismatch of a finding payload is not modelled.
- `verify_assessment_inputs` beyond the payload check of findings and the lookup of ledger items.
- AssessmentReport.BuildControlAssessment: whether an input check found a fatal issue is a parameter; the checks themselves are not modelled here, and non-fatal issues are not carried into the report.
- AssessmentEngine.MapAnalyzerEvidence: inventory id, references, related rules and limitations of a record are not carried; no decision reads them.
- AssessmentEngine.AssessSingleControl: severities, suppression references and notes of evidence entries are not carried; no decision reads them.
- CoverageLedger.ValidateItemEvidence: models the checks on assessment rules, assessment controls, listed rules and uncovered items; the checks on references, registry claims against live metadata, subclaims and status-specific evidence kinds are not part of it, because no theorem rests on them.
- RuleRegistry.Registry.Register: the callable of a rule, package loading and the catalogue queries are not part of the model; the tables of extra references are parameters.
- Suppressions.Match: expiry dates and path comparison are one predicate of entry and finding.
- OrderTheorems.SuppressionInvariantExactly: speaks of results in which nothing was suppressed before; for others `SuppressionIsHarmless` gives the safe direction only.
- TlsInventory.ShiftProbeReference: reads digits as ASCII, where `str.isdigit` also accepts other digits, which `int` then reads or rejects; probe references are written with ASCII digits only.
- TlsInventory.OtherTextsStay: for the same reason says of a bracket with other digits that it stays.
- TlsInventory.ShiftsAdd: holds for the ASCII reading.
- TlsInventory.InventoryControlAssessment: limitations, summaries, evidence entries, related rule ids and the table from rule ids to dimensions are not part of it; the table is a parameter.
- Publish.WriteReconciliation: the preflight checks, creation of parent directories, symbolic links and different names of one file are not modelled; paths are sorted as text, which no property depends on; a removal of the temporary directory that fails leaves all of it.
- CspParser.ParseCspHeaderValue: classifying a token (keywords, nonces, hashes, hosts) is a function that gives at most one issue; the disposition is passed through unchanged.
- UriNormalizer.Normalize: percent decoding is a parameter; the theorems suppose only that decoding leaves a text alone or shortens it and keeps a leading and a final slash.
- The severity calibration, the safe-probe catalogue and the rule catalogues: data.
- HSTS, cookie, cipher-string and OpenSSL-option helpers: single loops that would add only easy members.
