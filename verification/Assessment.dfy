/** The assessment of one control for one target: evidence in, one of seven statuses out. */
module Assessment {
  import opened Prelude
  import opened Ordering
  import opened RuleRegistry
  import opened CoverageLedger
  import opened AuditPolicy
  import Exec = ExecutionManifest

  // ---------------------------------------------------------------- inputs

  datatype Finding = Finding(
    ruleId: string, fingerprint: string, standards: seq<StandardReference>, secondary: seq<StandardReference>)

  datatype SuppressedRecord = SuppressedRecord(ruleId: string, fingerprint: string, finding: Finding)

  /** Metadata values of analyzer records, as far as they are read here. */
  datatype Json = JNull | JBool(flag: bool) | JText(text: string) | JList(entries: seq<Json>)

  datatype AnalyzerStatus = NativePass | NativeFail | NativeNotApplicable | NativeIndeterminate

  datatype ControlRecord = ControlRecord(controlId: string, status: AnalyzerStatus, metadata: map<string, Json>)

  datatype Observations = Observations(
    findings: seq<Finding>,
    suppressed: seq<SuppressedRecord>,
    records: seq<ControlRecord>,
    manifest: Exec.Manifest)

  // ---------------------------------------------------------------- definitions and mapped findings

  datatype Definition = Definition(strength: Strength, origin: Origin, absence: Absence, facets: seq<string>)

  /** The last explicit entry wins, as in a dictionary. */
  function Explicit(rules: seq<AssessableRule>, ruleId: string): Option<AssessableRule> {
    if rules == [] then None
    else
      var later := Explicit(rules[1..], ruleId);
      if later.Some? then later else if rules[0].ruleId == ruleId then Some(rules[0]) else None
  }

  function FirstClaim(claims: seq<Claim>, item: Item, ruleId: string): Option<Claim> {
    if claims == [] then None
    else if claims[0].ruleId == ruleId && Matches(item, claims[0].standard, claims[0].reference) then Some(claims[0])
    else FirstClaim(claims[1..], item, ruleId)
  }

  /** How the ledger item defines a rule, if at all. */
  function LedgerDefinition(item: Item, ruleId: string): Option<Definition> {
    if ruleId !in item.ruleIds then None
    else
      var entry := Explicit(item.assessmentRules, ruleId);
      if entry.Some? then Some(Definition(entry.value.strength, entry.value.origin, entry.value.absence, entry.value.facets))
      else
        var claim := FirstClaim(item.claims, item, ruleId);
        if claim.Some? then Some(Definition(claim.value.strength, claim.value.origin, NoSemantics, [])) else None
  }

  /** A finding mapped onto the item through one of its standard references. */
  datatype Mapped = Mapped(ruleId: string, fingerprint: string, strength: Strength, origin: Origin)

  function MatchedReference(refs: seq<StandardReference>, item: Item): Option<StandardReference> {
    if refs == [] then None
    else if Matches(item, refs[0].standard, refs[0].reference) then Some(refs[0])
    else MatchedReference(refs[1..], item)
  }

  function MappedFinding(ruleId: string, fingerprint: string, finding: Finding, item: Item): seq<Mapped> {
    var matched := MatchedReference(finding.standards + finding.secondary, item);
    if matched.None? then [] else [Mapped(ruleId, fingerprint, matched.value.coverage, matched.value.origin)]
  }

  function MappedFindings(findings: seq<Finding>, item: Item): seq<Mapped> {
    if findings == [] then []
    else MappedFinding(findings[0].ruleId, findings[0].fingerprint, findings[0], item) + MappedFindings(findings[1..], item)
  }

  function MappedSuppressed(records: seq<SuppressedRecord>, item: Item): seq<Mapped> {
    if records == [] then []
    else
      MappedFinding(records[0].ruleId, records[0].fingerprint, records[0].finding, item)
      + MappedSuppressed(records[1..], item)
  }

  predicate HasFinding(mapped: seq<Mapped>, ruleId: string) {
    exists m :: m in mapped && m.ruleId == ruleId
  }

  function FirstMapped(mapped: seq<Mapped>, ruleId: string): Option<Mapped> {
    if mapped == [] then None
    else if mapped[0].ruleId == ruleId then Some(mapped[0])
    else FirstMapped(mapped[1..], ruleId)
  }

  /** The ledger's definition, or else the mapping of the first finding of the rule. */
  function DefinitionOf(item: Item, mapped: seq<Mapped>, ruleId: string): Option<Definition> {
    var known := LedgerDefinition(item, ruleId);
    if known.Some? then known
    else
      var first := FirstMapped(mapped, ruleId);
      if first.Some? then Some(Definition(first.value.strength, first.value.origin, NoSemantics, [])) else None
  }

  // ---------------------------------------------------------------- analyzer evidence

  datatype AnalyzerEvidence = AnalyzerEvidence(
    controlId: string, targetId: string, strength: Strength, origin: Origin, absence: Absence,
    status: AnalyzerStatus, inventoryComplete: Option<bool>, observationsComplete: Option<bool>)

  function OptionalBool(metadata: map<string, Json>, key: string): Option<bool> {
    if key in metadata && metadata[key].JBool? then Some(metadata[key].flag) else None
  }

  function ControlMapping(controls: seq<AssessableControl>, controlId: string): Option<AssessableControl> {
    if controls == [] then None
    else
      var later := ControlMapping(controls[1..], controlId);
      if later.Some? then later else if controls[0].controlId == controlId then Some(controls[0]) else None
  }

  function NativeEvidence(record: ControlRecord, targetId: string, item: Item): seq<AnalyzerEvidence> {
    var mapping := ControlMapping(item.assessmentControls, record.controlId);
    if mapping.None? then []
    else [AnalyzerEvidence(record.controlId, targetId, mapping.value.strength, mapping.value.origin,
                           mapping.value.absence, record.status,
                           OptionalBool(record.metadata, "inventory_complete"),
                           OptionalBool(record.metadata, "observations_complete"))]
  }

  function AllNativeEvidence(records: seq<ControlRecord>, targetId: string, item: Item): seq<AnalyzerEvidence> {
    if records == [] then []
    else NativeEvidence(records[0], targetId, item) + AllNativeEvidence(records[1..], targetId, item)
  }

  function NativeText(status: AnalyzerStatus): string {
    match status
    case NativePass => "pass"
    case NativeFail => "fail"
    case NativeNotApplicable => "not-applicable"
    case NativeIndeterminate => "indeterminate"
  }

  function NativeKey(e: AnalyzerEvidence): seq<string> {
    [e.controlId, e.targetId, NativeText(e.status)]
  }

  predicate DirectlyMapped(e: AnalyzerEvidence) {
    e.strength == Direct && e.origin == Declared
  }

  /** A pass record that does not attest a complete inventory and complete observations. */
  predicate IncompletePass(e: AnalyzerEvidence) {
    e.status.NativePass? && !(e.inventoryComplete == Some(true) && e.observationsComplete == Some(true))
  }

  predicate NativeDirectFail(native: seq<AnalyzerEvidence>) {
    exists e :: e in native && DirectlyMapped(e) && e.status.NativeFail?
  }

  predicate NativeDirectIndeterminate(native: seq<AnalyzerEvidence>) {
    exists e :: e in native && DirectlyMapped(e) && (e.status.NativeIndeterminate? || IncompletePass(e))
  }

  predicate NativeControlPass(native: seq<AnalyzerEvidence>) {
    exists e :: e in native && DirectlyMapped(e) && e.absence == ControlPass && e.status.NativePass? && !IncompletePass(e)
  }

  predicate NativeFacetPass(native: seq<AnalyzerEvidence>) {
    exists e :: e in native && DirectlyMapped(e) && e.absence == FacetPass && e.status.NativePass?
  }

  // ---------------------------------------------------------------- what the findings say

  predicate IsDirect(d: Definition) {
    d.strength == Direct && d.origin == Declared
  }

  predicate IsPartial(d: Definition) {
    !IsDirect(d) && (d.strength == Partial || d.origin == Derived)
  }

  ghost predicate DirectNegative(item: Item, mapped: seq<Mapped>) {
    exists m :: m in mapped && DefinitionOf(item, mapped, m.ruleId).Some? && IsDirect(DefinitionOf(item, mapped, m.ruleId).value)
  }

  ghost predicate PartialNegative(item: Item, mapped: seq<Mapped>) {
    exists m :: m in mapped && DefinitionOf(item, mapped, m.ruleId).Some? && IsPartial(DefinitionOf(item, mapped, m.ruleId).value)
  }

  /** A rule defined with these semantics that completed without any finding. */
  predicate Clean(item: Item, mapped: seq<Mapped>, manifest: Exec.Manifest, ruleId: string, absence: Absence) {
    && DefinitionOf(item, mapped, ruleId).Some?
    && DefinitionOf(item, mapped, ruleId).value.absence == absence
    && ruleId in manifest.completed
    && !HasFinding(mapped, ruleId)
  }

  predicate SomeClean(item: Item, mapped: seq<Mapped>, manifest: Exec.Manifest, absence: Absence) {
    exists r :: r in item.ruleIds && Clean(item, mapped, manifest, r, absence)
  }

  ghost predicate ControlPassRule(item: Item, ruleId: string) {
    ruleId in item.ruleIds && LedgerDefinition(item, ruleId).Some? && LedgerDefinition(item, ruleId).value.absence == ControlPass
  }

  /** The rules whose clean completion can make the control pass. */
  ghost predicate PositiveRule(item: Item, policy: ControlPolicy, ruleId: string) {
    if policy.requiredRuleIds != [] then ruleId in policy.requiredRuleIds else ControlPassRule(item, ruleId)
  }

  ghost predicate PassCandidate(item: Item, mapped: seq<Mapped>, manifest: Exec.Manifest, policy: ControlPolicy) {
    && (exists r :: PositiveRule(item, policy, r))
    && (forall r :: PositiveRule(item, policy, r) ==> Clean(item, mapped, manifest, r, ControlPass))
  }

  // ---------------------------------------------------------------- missing evidence

  datatype MissingReason =
    | NotSelected | RuleSkipped | ExecutionFailed | ModeUnavailable | ServerUnavailable
    | LedgerUncovered | NoPassSemantics | OperatorEvidenceRequired

  datatype MissingEvidence = MissingEvidence(ruleId: Option<string>, expectation: Expectation, reason: MissingReason)

  function ReasonText(reason: MissingReason): string {
    match reason
    case NotSelected => "not-selected"
    case RuleSkipped => "skipped"
    case ExecutionFailed => "execution-failed"
    case ModeUnavailable => "mode-unavailable"
    case ServerUnavailable => "server-unavailable"
    case LedgerUncovered => "ledger-uncovered"
    case NoPassSemantics => "no-pass-semantics"
    case OperatorEvidenceRequired => "operator-evidence-required"
  }

  function MissingKey(m: MissingEvidence): seq<string> {
    [if m.ruleId.Some? then m.ruleId.value else "", ReasonText(m.reason)]
  }

  function SkipAsMissing(reason: Exec.SkipReason): MissingReason {
    match reason
    case ModeIncompatible => ModeUnavailable
    case ServerIncompatible => ServerUnavailable
    case _ => RuleSkipped
  }

  function SkipReasonOf(skipped: seq<Exec.SkippedRule>, ruleId: string): Option<Exec.SkipReason> {
    if skipped == [] then None
    else
      var later := SkipReasonOf(skipped[1..], ruleId);
      if later.Some? then later else if skipped[0].ruleId == ruleId then Some(skipped[0].reason) else None
  }

  /** What a required rule still owes. */
  ghost function Owed(item: Item, mapped: seq<Mapped>, manifest: Exec.Manifest, ruleId: string): Option<MissingReason> {
    if ruleId in Exec.FailedIds(manifest.failed) then Some(ExecutionFailed)
    else if SkipReasonOf(manifest.skipped, ruleId).Some? then Some(SkipAsMissing(SkipReasonOf(manifest.skipped, ruleId).value))
    else if ruleId !in manifest.selected then Some(NotSelected)
    else if ruleId in manifest.completed && !HasFinding(mapped, ruleId)
            && (LedgerDefinition(item, ruleId).Some? ==> LedgerDefinition(item, ruleId).value.absence == NoSemantics)
    then Some(NoPassSemantics)
    else None
  }

  ghost function OwedBy(item: Item, mapped: seq<Mapped>, manifest: Exec.Manifest, policy: ControlPolicy, rules: seq<string>)
    : seq<MissingEvidence>
  {
    if rules == [] then []
    else
      var owed := Owed(item, mapped, manifest, rules[0]);
      (if owed.Some? then [MissingEvidence(Some(rules[0]), policy.expectation, owed.value)] else [])
      + OwedBy(item, mapped, manifest, policy, rules[1..])
  }

  ghost function Missing(item: Item, mapped: seq<Mapped>, manifest: Exec.Manifest, policy: ControlPolicy): seq<MissingEvidence> {
    (if item.status.Uncovered? then [MissingEvidence(None, policy.expectation, LedgerUncovered)] else [])
    + OwedBy(item, mapped, manifest, policy, policy.requiredRuleIds)
    + if policy.expectation.OperatorReview?
      then [MissingEvidence(if policy.requiredRuleIds != [] then Some(policy.requiredRuleIds[0]) else None,
                            policy.expectation, OperatorEvidenceRequired)]
      else []
  }

  /** Missing evidence that blocks any conclusion. */
  predicate Blocks(reason: MissingReason) {
    reason.ExecutionFailed? || reason.RuleSkipped? || reason.ModeUnavailable? || reason.ServerUnavailable?
  }

  ghost predicate Blocked(item: Item, mapped: seq<Mapped>, manifest: Exec.Manifest, policy: ControlPolicy) {
    exists m :: m in Missing(item, mapped, manifest, policy) && Blocks(m.reason)
  }

  // ---------------------------------------------------------------- the decision

  datatype Status = Pass | Fail | PartialStatus | NeedsReview | Indeterminate | NotAssessed | OutOfScope

  function Rank(status: Status): nat {
    match status
    case Fail => 0
    case Indeterminate => 1
    case NeedsReview => 2
    case PartialStatus => 3
    case Pass => 4
    case NotAssessed => 5
    case OutOfScope => 6
  }

  datatype Signals = Signals(
    directFail: bool, blocked: bool, review: bool, partialNegative: bool, passing: bool, supporting: bool,
    ledger: CoverageStatus)

  /** The status a signal argues for. Positive evidence argues for pass only on a fully covered item;
      otherwise it argues for partial. */
  predicate Supports(s: Signals, status: Status) {
    match status
    case Fail => s.directFail
    case Indeterminate => s.blocked
    case NeedsReview => s.review
    case PartialStatus => s.partialNegative || (s.supporting && !(s.passing && s.ledger.FullCoverage?))
    case Pass => s.passing && s.ledger.FullCoverage?
    case NotAssessed => true
    case OutOfScope => false
  }

  /** The decision procedure: the most severe supported status wins. */
  function Decide(s: Signals): (status: Status)
    requires s.passing ==> s.supporting
    ensures Supports(s, status)
    ensures forall other :: Supports(s, other) ==> Rank(status) <= Rank(other)
  {
    if s.directFail then Fail
    else if s.blocked then Indeterminate
    else if s.review then NeedsReview
    else if s.partialNegative then PartialStatus
    else if s.passing && s.ledger.FullCoverage? then Pass
    else if s.passing && s.ledger.PartialCoverage? then PartialStatus
    else if s.supporting then PartialStatus
    else NotAssessed
  }

  ghost function SignalsOf(item: Item, mapped: seq<Mapped>, manifest: Exec.Manifest, native: seq<AnalyzerEvidence>,
                           policy: ControlPolicy): (s: Signals)
    ensures s.passing ==> s.supporting
  {
    var passing := PassCandidate(item, mapped, manifest, policy) || NativeControlPass(native);
    Signals(
      DirectNegative(item, mapped) || NativeDirectFail(native),
      NativeDirectIndeterminate(native) || Blocked(item, mapped, manifest, policy),
      policy.disposition.Review? || item.status.PolicyReview?,
      PartialNegative(item, mapped),
      passing,
      passing || SomeClean(item, mapped, manifest, FacetPass) || SomeClean(item, mapped, manifest, ControlPass)
        || NativeFacetPass(native),
      item.status)
  }

  ghost function StatusOf(item: Item, mapped: seq<Mapped>, manifest: Exec.Manifest, native: seq<AnalyzerEvidence>,
                          policy: ControlPolicy): Status
  {
    if policy.disposition.NotApplicable? then OutOfScope
    else Decide(SignalsOf(item, mapped, manifest, native, policy))
  }

  // ---------------------------------------------------------------- the output

  datatype AssessmentEvidence = AssessmentEvidence(
    ruleId: string, targetId: string, strength: Strength, origin: Origin, absence: Absence,
    state: string, findingIds: seq<string>, suppressed: bool, observedFacets: seq<string>)

  function EvidenceKey(e: AssessmentEvidence): seq<string> {
    [e.targetId, e.ruleId, e.state]
  }

  datatype ControlAssessment = ControlAssessment(
    sourceId: string,
    itemId: string,
    ledgerStatus: CoverageStatus,
    disposition: Disposition,
    status: Status,
    evidence: seq<AssessmentEvidence>,
    analyzerEvidence: seq<AnalyzerEvidence>,
    missing: seq<MissingEvidence>,
    issues: set<string>)

  /** A finding kept visible although the policy put its control out of scope. */
  datatype Retained = Retained(ruleId: string, fingerprint: string)

  function Fingerprints(mapped: seq<Mapped>, ruleId: string): seq<string> {
    if mapped == [] then []
    else (if mapped[0].ruleId == ruleId then [mapped[0].fingerprint] else []) + Fingerprints(mapped[1..], ruleId)
  }

  function ExecutionState(manifest: Exec.Manifest, ruleId: string): Option<string> {
    if ruleId in manifest.completed then Some("completed")
    else if ruleId in Exec.SkippedIds(manifest.skipped) then Some("skipped")
    else if ruleId in Exec.FailedIds(manifest.failed) then Some("failed")
    else None
  }

  function FindingIds(active: seq<Mapped>, suppressed: seq<Mapped>, ruleId: string): seq<string> {
    SortBy(Fingerprints(active, ruleId) + Fingerprints(suppressed, ruleId), (x: string) => [x])
  }

  /** The evidence entry of a rule with a given definition; only rules with a terminal state have one. */
  function Entry(d: Definition, active: seq<Mapped>, suppressed: seq<Mapped>, manifest: Exec.Manifest,
                 targetId: string, ruleId: string): Option<AssessmentEvidence>
  {
    var state, ids := ExecutionState(manifest, ruleId), FindingIds(active, suppressed, ruleId);
    if state.None? then None
    else Some(AssessmentEvidence(
      ruleId, targetId, d.strength, d.origin, d.absence, state.value, ids, Fingerprints(suppressed, ruleId) != [],
      if d.absence == FacetPass && ids == [] && ruleId in manifest.completed then d.facets else []))
  }

  function EvidenceFor(item: Item, active: seq<Mapped>, suppressed: seq<Mapped>, manifest: Exec.Manifest,
                       targetId: string, ruleId: string): Option<AssessmentEvidence>
  {
    var d := DefinitionOf(item, active + suppressed, ruleId);
    if d.None? then None else Entry(d.value, active, suppressed, manifest, targetId, ruleId)
  }

  /** Exactly one entry per rule that has one, in rule order. */
  ghost predicate IsEvidenceList(entries: seq<AssessmentEvidence>, item: Item, active: seq<Mapped>, suppressed: seq<Mapped>,
                                 manifest: Exec.Manifest, targetId: string)
  {
    && (forall i, j :: 0 <= i < j < |entries| ==> Less(entries[i].ruleId, entries[j].ruleId))
    && (forall e :: e in entries ==> EvidenceFor(item, active, suppressed, manifest, targetId, e.ruleId) == Some(e))
    && (forall r :: EvidenceFor(item, active, suppressed, manifest, targetId, r).Some? ==>
          EvidenceFor(item, active, suppressed, manifest, targetId, r).value in entries)
  }
}
