/** What an assessed control says, read off the inputs: findings, analyzer records, manifest, ledger item, policy. */
module VerdictTheorems {
  import opened Prelude
  import opened Ordering
  import opened RuleRegistry
  import opened CoverageLedger
  import opened AuditPolicy
  import opened Assessment
  import opened AssessmentEngine
  import opened AssessmentTheorems
  import opened Readings
  import Exec = ExecutionManifest
  import Lists

  // ---------------------------------------------------------------- what the rules say

  ghost predicate SaysDirect(d: Definition) {
    d.strength == Direct && d.origin == Declared
  }

  /** Some rule with a finding is defined as declared direct. */
  ghost predicate DirectFinding(obs: Observations, item: Item) {
    exists r, d :: Found(Notices(obs), item, r) && Says(Notices(obs), item, r, d) && SaysDirect(d)
  }

  /** Some rule with a finding is defined as partial or derived. */
  ghost predicate PartialFinding(obs: Observations, item: Item) {
    exists r, d :: Found(Notices(obs), item, r) && Says(Notices(obs), item, r, d)
                   && !SaysDirect(d) && (d.strength == Partial || d.origin == Derived)
  }

  /** The rule completed, no finding of it concerns the item, and its silence has this meaning. */
  ghost predicate Silent(obs: Observations, item: Item, r: string, absence: Absence) {
    && r in obs.manifest.completed && !Found(Notices(obs), item, r)
    && exists d :: Says(Notices(obs), item, r, d) && d.absence == absence
  }

  /** The rules whose silence is asked for: those the policy requires, or else all the ledger gives control-pass. */
  ghost predicate AskedFor(item: Item, policy: ControlPolicy, r: string) {
    if policy.requiredRuleIds != [] then r in policy.requiredRuleIds
    else exists d :: LedgerSays(item, r, d) && d.absence == ControlPass
  }

  // ---------------------------------------------------------------- what the analyzers say

  /** The i-th record speaks for the item through its k-th assessment control, which is declared direct. */
  ghost predicate DirectRecord(obs: Observations, item: Item, i: int, k: int) {
    && 0 <= i < |obs.records| && LastControl(item.assessmentControls, obs.records[i].controlId, k)
    && item.assessmentControls[k].strength == Direct && item.assessmentControls[k].origin == Declared
  }

  /** The record attests a complete inventory and complete observations. */
  ghost predicate Attested(record: ControlRecord) {
    && "inventory_complete" in record.metadata && record.metadata["inventory_complete"] == JBool(true)
    && "observations_complete" in record.metadata && record.metadata["observations_complete"] == JBool(true)
  }

  ghost predicate FailingRecord(obs: Observations, item: Item) {
    exists i, k :: DirectRecord(obs, item, i, k) && obs.records[i].status.NativeFail?
  }

  ghost predicate UndecidedRecord(obs: Observations, item: Item) {
    exists i, k :: DirectRecord(obs, item, i, k)
      && (obs.records[i].status.NativeIndeterminate? || (obs.records[i].status.NativePass? && !Attested(obs.records[i])))
  }

  ghost predicate PassingRecord(obs: Observations, item: Item) {
    exists i, k :: DirectRecord(obs, item, i, k) && item.assessmentControls[k].absence == ControlPass
      && obs.records[i].status.NativePass? && Attested(obs.records[i])
  }

  ghost predicate FacetRecord(obs: Observations, item: Item) {
    exists i, k :: DirectRecord(obs, item, i, k) && item.assessmentControls[k].absence == FacetPass
      && obs.records[i].status.NativePass?
  }

  // ---------------------------------------------------------------- the grounds of a verdict

  /** A required rule failed or was skipped. */
  ghost predicate RequiredRuleMissed(obs: Observations, policy: ControlPolicy) {
    || (exists f :: f in obs.manifest.failed && f.ruleId in policy.requiredRuleIds)
    || (exists s :: s in obs.manifest.skipped && s.ruleId in policy.requiredRuleIds)
  }

  /** Declared direct negative evidence. */
  ghost predicate Against(obs: Observations, item: Item) {
    DirectFinding(obs, item) || FailingRecord(obs, item)
  }

  /** Evidence that should be there is not. */
  ghost predicate Undecided(obs: Observations, item: Item, policy: ControlPolicy) {
    UndecidedRecord(obs, item) || RequiredRuleMissed(obs, policy)
  }

  ghost predicate UnderReview(item: Item, policy: ControlPolicy) {
    policy.disposition.Review? || item.status.PolicyReview?
  }

  /** Everything asked for was silent and something was, or an analyzer record passes. */
  ghost predicate Positive(obs: Observations, item: Item, policy: ControlPolicy) {
    || ((exists r :: AskedFor(item, policy, r)) && forall r :: AskedFor(item, policy, r) ==> Silent(obs, item, r, ControlPass))
    || PassingRecord(obs, item)
  }

  /** Some evidence speaks for the control. */
  ghost predicate Favourable(obs: Observations, item: Item) {
    || (exists r :: Silent(obs, item, r, ControlPass) || Silent(obs, item, r, FacetPass))
    || PassingRecord(obs, item) || FacetRecord(obs, item)
  }

  /** Evidence that supports a partial conclusion at most. */
  ghost predicate PartialGrounds(obs: Observations, item: Item, policy: ControlPolicy) {
    PartialFinding(obs, item) || (Favourable(obs, item) && !(Positive(obs, item, policy) && item.status.FullCoverage?))
  }

  // ---------------------------------------------------------------- reading the signals

  function AllOf(obs: Observations, item: Item): seq<Mapped> {
    MappedFindings(obs.findings, item) + MappedSuppressed(obs.suppressed, item)
  }

  lemma ReadsFindings(obs: Observations, item: Item, r: string)
    ensures HasFinding(AllOf(obs, item), r) <==> Found(Notices(obs), item, r)
    ensures forall d :: DefinitionOf(item, AllOf(obs, item), r) == Some(d) <==> Says(Notices(obs), item, r, d)
  {
    MappedAreNotices(obs, item);
    FoundExactly(Notices(obs), item, r);
    forall d ensures DefinitionOf(item, AllOf(obs, item), r) == Some(d) <==> Says(Notices(obs), item, r, d) {
      SaysExactly(Notices(obs), item, r, d);
    }
  }

  lemma NegativesAreFindings(obs: Observations, item: Item)
    ensures DirectNegative(item, AllOf(obs, item)) <==> DirectFinding(obs, item)
    ensures PartialNegative(item, AllOf(obs, item)) <==> PartialFinding(obs, item)
  {
    var mapped := AllOf(obs, item);
    forall r
      ensures HasFinding(mapped, r) <==> Found(Notices(obs), item, r)
      ensures forall d :: DefinitionOf(item, mapped, r) == Some(d) <==> Says(Notices(obs), item, r, d)
    {
      ReadsFindings(obs, item, r);
    }
    assert forall m :: m in mapped ==> HasFinding(mapped, m.ruleId);
  }

  lemma CleanIsSilent(obs: Observations, item: Item, r: string, absence: Absence)
    ensures Clean(item, AllOf(obs, item), obs.manifest, r, absence) <==> Silent(obs, item, r, absence)
  {
    ReadsFindings(obs, item, r);
  }

  lemma SilentIsListed(obs: Observations, item: Item, r: string, absence: Absence)
    requires Silent(obs, item, r, absence) && absence != NoSemantics
    ensures r in item.ruleIds
  {
  }

  lemma SomeCleanIsSilent(obs: Observations, item: Item, absence: Absence)
    requires absence != NoSemantics
    ensures SomeClean(item, AllOf(obs, item), obs.manifest, absence) <==> exists r :: Silent(obs, item, r, absence)
  {
    forall r ensures Clean(item, AllOf(obs, item), obs.manifest, r, absence) <==> Silent(obs, item, r, absence) {
      CleanIsSilent(obs, item, r, absence);
    }
    forall r | Silent(obs, item, r, absence) ensures r in item.ruleIds { SilentIsListed(obs, item, r, absence); }
  }

  lemma PositiveRuleIsAskedFor(item: Item, policy: ControlPolicy, r: string)
    ensures PositiveRule(item, policy, r) <==> AskedFor(item, policy, r)
  {
    forall d ensures LedgerDefinition(item, r) == Some(d) <==> LedgerSays(item, r, d) { LedgerSaysExactly(item, r, d); }
  }

  lemma CandidateIsAskedFor(obs: Observations, item: Item, policy: ControlPolicy)
    ensures PassCandidate(item, AllOf(obs, item), obs.manifest, policy) <==>
      (exists r :: AskedFor(item, policy, r)) && forall r :: AskedFor(item, policy, r) ==> Silent(obs, item, r, ControlPass)
  {
    forall r
      ensures PositiveRule(item, policy, r) <==> AskedFor(item, policy, r)
      ensures Clean(item, AllOf(obs, item), obs.manifest, r, ControlPass) <==> Silent(obs, item, r, ControlPass)
    {
      PositiveRuleIsAskedFor(item, policy, r);
      CleanIsSilent(obs, item, r, ControlPass);
    }
  }

  // ---------------------------------------------------------------- reading the records

  /** What the metadata says about a flag: its value, if it is a boolean. */
  ghost predicate Flag(record: ControlRecord, key: string, value: Option<bool>) {
    && (value.Some? <==> key in record.metadata && record.metadata[key].JBool?)
    && (value.Some? ==> record.metadata[key] == JBool(value.value))
  }

  /** The entry that the i-th record leaves through the k-th assessment control of the item. */
  ghost predicate EntryFor(e: AnalyzerEvidence, obs: Observations, targetId: string, item: Item, i: int, k: int) {
    && 0 <= i < |obs.records| && LastControl(item.assessmentControls, obs.records[i].controlId, k)
    && e.controlId == obs.records[i].controlId && e.targetId == targetId && e.status == obs.records[i].status
    && e.strength == item.assessmentControls[k].strength && e.origin == item.assessmentControls[k].origin
    && e.absence == item.assessmentControls[k].absence
    && Flag(obs.records[i], "inventory_complete", e.inventoryComplete)
    && Flag(obs.records[i], "observations_complete", e.observationsComplete)
  }

  lemma OneRecordReads(record: ControlRecord, targetId: string, item: Item, e: AnalyzerEvidence)
    ensures e in NativeEvidence(record, targetId, item) <==>
      exists k :: EntryFor(e, Observations([], [], [record], Exec.Manifest("", [], [], [], [])), targetId, item, 0, k)
  {
    MappingIsLast(item.assessmentControls, record.controlId);
    var own := NativeEvidence(record, targetId, item);
    var obs := Observations([], [], [record], Exec.Manifest("", [], [], [], []));
    forall k, j | LastControl(item.assessmentControls, record.controlId, k) && LastControl(item.assessmentControls, record.controlId, j)
      ensures k == j {}
    if own != [] {
      var k :| LastControl(item.assessmentControls, record.controlId, k)
               && item.assessmentControls[k] == ControlMapping(item.assessmentControls, record.controlId).value;
      assert EntryFor(own[0], obs, targetId, item, 0, k);
    }
  }

  lemma {:induction false} NativeMembers(records: seq<ControlRecord>, targetId: string, item: Item, e: AnalyzerEvidence)
    ensures e in AllNativeEvidence(records, targetId, item) <==>
      exists i :: 0 <= i < |records| && e in NativeEvidence(records[i], targetId, item)
  {
    if records != [] {
      var rest := records[1..];
      NativeMembers(rest, targetId, item, e);
      assert forall i :: 0 < i < |records| ==> records[i] == rest[i - 1];
      if e in AllNativeEvidence(rest, targetId, item) {
        var i :| 0 <= i < |rest| && e in NativeEvidence(rest[i], targetId, item);
        assert e in NativeEvidence(records[i + 1], targetId, item);
      }
    }
  }

  lemma RecordsRead(obs: Observations, targetId: string, item: Item, e: AnalyzerEvidence)
    ensures e in AllNativeEvidence(obs.records, targetId, item) <==> exists i, k :: EntryFor(e, obs, targetId, item, i, k)
  {
    NativeMembers(obs.records, targetId, item, e);
    forall i | 0 <= i < |obs.records|
      ensures e in NativeEvidence(obs.records[i], targetId, item) <==> exists k :: EntryFor(e, obs, targetId, item, i, k)
    {
      OneRecordReads(obs.records[i], targetId, item, e);
      var one := Observations([], [], [obs.records[i]], Exec.Manifest("", [], [], [], []));
      forall k ensures EntryFor(e, one, targetId, item, 0, k) <==> EntryFor(e, obs, targetId, item, i, k) {}
    }
  }

  function Sorted(obs: Observations, targetId: string, item: Item): seq<AnalyzerEvidence> {
    SortBy(AllNativeEvidence(obs.records, targetId, item), NativeKey)
  }

  lemma SortedMembers(obs: Observations, targetId: string, item: Item)
    ensures forall e :: e in Sorted(obs, targetId, item) <==> exists i, k :: EntryFor(e, obs, targetId, item, i, k)
  {
    var all := AllNativeEvidence(obs.records, targetId, item);
    SortByKeeps(all, NativeKey);
    forall e ensures e in Sorted(obs, targetId, item) <==> exists i, k :: EntryFor(e, obs, targetId, item, i, k) {
      assert e in SortBy(all, NativeKey) <==> e in multiset(SortBy(all, NativeKey));
      RecordsRead(obs, targetId, item, e);
    }
  }

  /** The entry a record leaves. */
  lemma RecordLeaves(obs: Observations, targetId: string, item: Item, i: int, k: int) returns (e: AnalyzerEvidence)
    requires 0 <= i < |obs.records| && LastControl(item.assessmentControls, obs.records[i].controlId, k)
    ensures EntryFor(e, obs, targetId, item, i, k)
  {
    var record, mapping := obs.records[i], item.assessmentControls[k];
    e := AnalyzerEvidence(record.controlId, targetId, mapping.strength, mapping.origin, mapping.absence, record.status,
                          OptionalBool(record.metadata, "inventory_complete"),
                          OptionalBool(record.metadata, "observations_complete"));
  }

  lemma EntrySpeaks(e: AnalyzerEvidence, obs: Observations, targetId: string, item: Item, i: int, k: int)
    requires EntryFor(e, obs, targetId, item, i, k)
    ensures DirectlyMapped(e) <==> DirectRecord(obs, item, i, k)
    ensures e.status == obs.records[i].status && e.absence == item.assessmentControls[k].absence
    ensures IncompletePass(e) <==> e.status.NativePass? && !Attested(obs.records[i])
  {
  }

  lemma FailsAndUndecided(obs: Observations, targetId: string, item: Item)
    ensures NativeDirectFail(Sorted(obs, targetId, item)) <==> FailingRecord(obs, item)
    ensures NativeDirectIndeterminate(Sorted(obs, targetId, item)) <==> UndecidedRecord(obs, item)
  {
    var native := Sorted(obs, targetId, item);
    SortedMembers(obs, targetId, item);
    forall e, i, k | EntryFor(e, obs, targetId, item, i, k)
      ensures DirectlyMapped(e) <==> DirectRecord(obs, item, i, k)
      ensures e.status == obs.records[i].status
      ensures IncompletePass(e) <==> e.status.NativePass? && !Attested(obs.records[i])
    {
      EntrySpeaks(e, obs, targetId, item, i, k);
    }
    if FailingRecord(obs, item) {
      var i, k :| DirectRecord(obs, item, i, k) && obs.records[i].status.NativeFail?;
      var e := RecordLeaves(obs, targetId, item, i, k);
      assert e in native;
    }
    if UndecidedRecord(obs, item) {
      var i, k :| DirectRecord(obs, item, i, k)
        && (obs.records[i].status.NativeIndeterminate? || (obs.records[i].status.NativePass? && !Attested(obs.records[i])));
      var e := RecordLeaves(obs, targetId, item, i, k);
      assert e in native;
    }
  }

  lemma Passes(obs: Observations, targetId: string, item: Item)
    ensures NativeControlPass(Sorted(obs, targetId, item)) <==> PassingRecord(obs, item)
    ensures NativeFacetPass(Sorted(obs, targetId, item)) <==> FacetRecord(obs, item)
  {
    var native := Sorted(obs, targetId, item);
    SortedMembers(obs, targetId, item);
    forall e, i, k | EntryFor(e, obs, targetId, item, i, k)
      ensures DirectlyMapped(e) <==> DirectRecord(obs, item, i, k)
      ensures e.status == obs.records[i].status && e.absence == item.assessmentControls[k].absence
      ensures IncompletePass(e) <==> e.status.NativePass? && !Attested(obs.records[i])
    {
      EntrySpeaks(e, obs, targetId, item, i, k);
    }
    if PassingRecord(obs, item) {
      var i, k :| DirectRecord(obs, item, i, k) && item.assessmentControls[k].absence == ControlPass
        && obs.records[i].status.NativePass? && Attested(obs.records[i]);
      var e := RecordLeaves(obs, targetId, item, i, k);
      assert e in native;
    }
    if FacetRecord(obs, item) {
      var i, k :| DirectRecord(obs, item, i, k) && item.assessmentControls[k].absence == FacetPass
        && obs.records[i].status.NativePass?;
      var e := RecordLeaves(obs, targetId, item, i, k);
      assert e in native;
    }
  }

  lemma BlockedIsMissed(obs: Observations, item: Item, policy: ControlPolicy)
    ensures Blocked(item, AllOf(obs, item), obs.manifest, policy) <==> RequiredRuleMissed(obs, policy)
  {
    var mapped := AllOf(obs, item);
    BlockedByRule(item, mapped, obs.manifest, policy);
    forall r | r in policy.requiredRuleIds
      ensures Owed(item, mapped, obs.manifest, r).Some? && Blocks(Owed(item, mapped, obs.manifest, r).value)
        <==> (exists f :: f in obs.manifest.failed && f.ruleId == r) || exists s :: s in obs.manifest.skipped && s.ruleId == r
    {
      Exec.FailedIdsMembership(obs.manifest.failed, r);
      Exec.SkippedIdsMembership(obs.manifest.skipped, r);
      SkipReasonTells(obs.manifest.skipped, r);
    }
  }

  // ---------------------------------------------------------------- every status

  /** Each status of a control, exactly, in terms of the inputs. */
  lemma StatusExactly(c: ControlAssessment, retained: seq<Retained>, obs: Observations, targetId: string, sourceId: string,
                      item: Item, policy: ControlPolicy)
    requires IsAssessment(c, retained, obs, targetId, sourceId, item, policy)
    ensures c.status == OutOfScope <==> policy.disposition.NotApplicable?
    ensures c.status == Fail <==> !policy.disposition.NotApplicable? && Against(obs, item)
    ensures c.status == Indeterminate <==>
      !policy.disposition.NotApplicable? && !Against(obs, item) && Undecided(obs, item, policy)
    ensures c.status == NeedsReview <==>
      && !policy.disposition.NotApplicable? && !Against(obs, item) && !Undecided(obs, item, policy)
      && UnderReview(item, policy)
    ensures c.status == PartialStatus <==>
      && !policy.disposition.NotApplicable? && !Against(obs, item) && !Undecided(obs, item, policy)
      && !UnderReview(item, policy) && PartialGrounds(obs, item, policy)
    ensures c.status == Pass <==>
      && !policy.disposition.NotApplicable? && !Against(obs, item) && !Undecided(obs, item, policy)
      && !UnderReview(item, policy) && !PartialFinding(obs, item)
      && Positive(obs, item, policy) && item.status.FullCoverage?
    ensures c.status == NotAssessed <==>
      && !policy.disposition.NotApplicable? && !Against(obs, item) && !Undecided(obs, item, policy)
      && !UnderReview(item, policy) && !PartialFinding(obs, item) && !Favourable(obs, item)
  {
    StatusReads(c, retained, obs, targetId, sourceId, item, policy);
    SignalsAre(obs, targetId, item, policy);
    SignalsRead(c.status, SignalsOf(item, AllOf(obs, item), obs.manifest, Sorted(obs, targetId, item), policy), policy, obs, item);
  }

  lemma StatusReads(c: ControlAssessment, retained: seq<Retained>, obs: Observations, targetId: string, sourceId: string,
                    item: Item, policy: ControlPolicy)
    requires IsAssessment(c, retained, obs, targetId, sourceId, item, policy)
    ensures c.status == StatusOf(item, AllOf(obs, item), obs.manifest, Sorted(obs, targetId, item), policy)
  {
  }

  lemma SignalsAre(obs: Observations, targetId: string, item: Item, policy: ControlPolicy)
    ensures var s := SignalsOf(item, AllOf(obs, item), obs.manifest, Sorted(obs, targetId, item), policy);
            && s.directFail == Against(obs, item) && s.blocked == Undecided(obs, item, policy)
            && s.review == UnderReview(item, policy) && s.partialNegative == PartialFinding(obs, item)
            && s.passing == Positive(obs, item, policy) && s.supporting == Favourable(obs, item) && s.ledger == item.status
  {
    NegativesAreFindings(obs, item);
    FailsAndUndecided(obs, targetId, item);
    BlockedIsMissed(obs, item, policy);
    PositivesAre(obs, targetId, item, policy);
  }

  lemma PositivesAre(obs: Observations, targetId: string, item: Item, policy: ControlPolicy)
    ensures (PassCandidate(item, AllOf(obs, item), obs.manifest, policy) || NativeControlPass(Sorted(obs, targetId, item)))
            == Positive(obs, item, policy)
    ensures (PassCandidate(item, AllOf(obs, item), obs.manifest, policy) || NativeControlPass(Sorted(obs, targetId, item))
             || SomeClean(item, AllOf(obs, item), obs.manifest, FacetPass)
             || SomeClean(item, AllOf(obs, item), obs.manifest, ControlPass)
             || NativeFacetPass(Sorted(obs, targetId, item)))
            == Favourable(obs, item)
  {
    CandidateIsAskedFor(obs, item, policy);
    Passes(obs, targetId, item);
    SomeCleanIsSilent(obs, item, ControlPass);
    SomeCleanIsSilent(obs, item, FacetPass);
    if PassCandidate(item, AllOf(obs, item), obs.manifest, policy) { CandidateIsSupporting(item, AllOf(obs, item), obs.manifest, policy); }
  }

  /** From the signals to the status. */
  lemma SignalsRead(status: Status, s: Signals, policy: ControlPolicy, obs: Observations, item: Item)
    requires s.passing ==> s.supporting
    requires status == if policy.disposition.NotApplicable? then OutOfScope else Decide(s)
    requires s.directFail == Against(obs, item) && s.blocked == Undecided(obs, item, policy)
    requires s.review == UnderReview(item, policy) && s.partialNegative == PartialFinding(obs, item)
    requires s.passing == Positive(obs, item, policy) && s.supporting == Favourable(obs, item) && s.ledger == item.status
    ensures status == OutOfScope <==> policy.disposition.NotApplicable?
    ensures !policy.disposition.NotApplicable? ==>
      && (status == Fail <==> s.directFail)
      && (status == Indeterminate <==> !s.directFail && s.blocked)
      && (status == NeedsReview <==> !s.directFail && !s.blocked && s.review)
      && (status == PartialStatus <==> !s.directFail && !s.blocked && !s.review && PartialGrounds(obs, item, policy))
      && (status == Pass <==> !s.directFail && !s.blocked && !s.review && !s.partialNegative && s.passing && s.ledger.FullCoverage?)
      && (status == NotAssessed <==> !s.directFail && !s.blocked && !s.review && !s.partialNegative && !s.supporting)
  {
  }

  /** The conflict is reported exactly where direct negative evidence meets evidence for a pass; and the records that
      the item maps are listed, each as it was made. */
  lemma ConflictAndRecordsExactly(c: ControlAssessment, retained: seq<Retained>, obs: Observations, targetId: string,
                                  sourceId: string, item: Item, policy: ControlPolicy)
    requires IsAssessment(c, retained, obs, targetId, sourceId, item, policy)
    ensures c.sourceId == sourceId && c.itemId == item.itemId && c.disposition == policy.disposition
    ensures forall issue :: issue in c.issues <==>
      issue == "conflicting_evidence" && !policy.disposition.NotApplicable? && Against(obs, item) && Positive(obs, item, policy)
    ensures forall e :: e in c.analyzerEvidence <==> exists i, k :: EntryFor(e, obs, targetId, item, i, k)
  {
    NegativesAreFindings(obs, item);
    CandidateIsAskedFor(obs, item, policy);
    FailsAndUndecided(obs, targetId, item);
    Passes(obs, targetId, item);
    SortedMembers(obs, targetId, item);
  }

  // ---------------------------------------------------------------- missing evidence

  /** The k-th skipped rule is the last one with this id. */
  ghost predicate LastSkip(skipped: seq<Exec.SkippedRule>, r: string, k: int) {
    0 <= k < |skipped| && skipped[k].ruleId == r && forall j :: k < j < |skipped| ==> skipped[j].ruleId != r
  }

  ghost predicate FailedRule(obs: Observations, r: string) {
    exists f :: f in obs.manifest.failed && f.ruleId == r
  }

  ghost predicate SkippedRule(obs: Observations, r: string) {
    exists s :: s in obs.manifest.skipped && s.ruleId == r
  }

  /** Why evidence of a required rule is missing. */
  ghost predicate Owes(obs: Observations, item: Item, r: string, reason: MissingReason) {
    match reason
    case ExecutionFailed => FailedRule(obs, r)
    case ModeUnavailable => !FailedRule(obs, r) &&
      exists k :: LastSkip(obs.manifest.skipped, r, k) && obs.manifest.skipped[k].reason == Exec.ModeIncompatible
    case ServerUnavailable => !FailedRule(obs, r) &&
      exists k :: LastSkip(obs.manifest.skipped, r, k) && obs.manifest.skipped[k].reason == Exec.ServerIncompatible
    case RuleSkipped => !FailedRule(obs, r) &&
      exists k :: LastSkip(obs.manifest.skipped, r, k) && obs.manifest.skipped[k].reason != Exec.ModeIncompatible
                  && obs.manifest.skipped[k].reason != Exec.ServerIncompatible
    case NotSelected => !FailedRule(obs, r) && !SkippedRule(obs, r) && r !in obs.manifest.selected
    case NoPassSemantics =>
      && !FailedRule(obs, r) && !SkippedRule(obs, r) && r in obs.manifest.selected && r in obs.manifest.completed
      && !Found(Notices(obs), item, r)
      && forall d :: Says(Notices(obs), item, r, d) ==> d.absence == NoSemantics
    case LedgerUncovered => false
    case OperatorEvidenceRequired => false
  }

  lemma {:induction false} SkipIsLast(skipped: seq<Exec.SkippedRule>, r: string)
    ensures SkipReasonOf(skipped, r).None? <==> forall s :: s in skipped ==> s.ruleId != r
    ensures SkipReasonOf(skipped, r).Some? ==>
      exists k :: LastSkip(skipped, r, k) && skipped[k].reason == SkipReasonOf(skipped, r).value
  {
    if skipped != [] {
      var rest := skipped[1..];
      SkipIsLast(rest, r);
      assert skipped == [skipped[0]] + rest;
      assert forall k :: 0 < k < |skipped| ==> skipped[k] == rest[k - 1];
      if SkipReasonOf(rest, r).Some? {
        var k :| LastSkip(rest, r, k) && rest[k].reason == SkipReasonOf(rest, r).value;
        assert LastSkip(skipped, r, k + 1);
      } else if skipped[0].ruleId == r {
        assert LastSkip(skipped, r, 0);
      }
    }
  }

  lemma OwedIsOwes(obs: Observations, item: Item, r: string, reason: MissingReason)
    ensures Owed(item, AllOf(obs, item), obs.manifest, r) == Some(reason) <==> Owes(obs, item, r, reason)
  {
    Exec.FailedIdsMembership(obs.manifest.failed, r);
    SkipIsLast(obs.manifest.skipped, r);
    forall k, j | LastSkip(obs.manifest.skipped, r, k) && LastSkip(obs.manifest.skipped, r, j) ensures k == j {}
    if SkipReasonOf(obs.manifest.skipped, r).None? && !FailedRule(obs, r) { SilenceIsUndefined(obs, item, r); }
  }

  lemma SilenceIsUndefined(obs: Observations, item: Item, r: string)
    ensures HasFinding(AllOf(obs, item), r) <==> Found(Notices(obs), item, r)
    ensures !Found(Notices(obs), item, r) ==>
      ((LedgerDefinition(item, r).Some? ==> LedgerDefinition(item, r).value.absence == NoSemantics)
       <==> forall d :: Says(Notices(obs), item, r, d) ==> d.absence == NoSemantics)
  {
    ReadsFindings(obs, item, r);
    FirstMappedTells(AllOf(obs, item), r);
    if !Found(Notices(obs), item, r) {
      assert DefinitionOf(item, AllOf(obs, item), r) == LedgerDefinition(item, r);
      if LedgerDefinition(item, r).Some? { assert Says(Notices(obs), item, r, LedgerDefinition(item, r).value); }
    }
  }

  lemma OwedMembers(obs: Observations, item: Item, policy: ControlPolicy, m: MissingEvidence)
    ensures m in OwedBy(item, AllOf(obs, item), obs.manifest, policy, policy.requiredRuleIds) <==>
      m.ruleId.Some? && m.ruleId.value in policy.requiredRuleIds && m.expectation == policy.expectation
      && Owes(obs, item, m.ruleId.value, m.reason)
  {
    OwedByMembers(item, AllOf(obs, item), obs.manifest, policy, policy.requiredRuleIds);
    if m.ruleId.Some? { OwedIsOwes(obs, item, m.ruleId.value, m.reason); }
  }

  /** What is reported missing: that the ledger leaves the control uncovered, what every required rule owes, and the
      operator's judgment, filed under the first required rule. */
  lemma MissingExactly(c: ControlAssessment, retained: seq<Retained>, obs: Observations, targetId: string, sourceId: string,
                       item: Item, policy: ControlPolicy, m: MissingEvidence)
    requires IsAssessment(c, retained, obs, targetId, sourceId, item, policy)
    ensures m in c.missing <==>
      && !policy.disposition.NotApplicable? && m.expectation == policy.expectation
      && (|| (m.ruleId.None? && m.reason == LedgerUncovered && item.status.Uncovered?)
          || (m.ruleId.Some? && m.ruleId.value in policy.requiredRuleIds && Owes(obs, item, m.ruleId.value, m.reason))
          || (m.reason == OperatorEvidenceRequired && policy.expectation.OperatorReview?
              && m.ruleId == if policy.requiredRuleIds == [] then None else Some(policy.requiredRuleIds[0])))
  {
    MissingReads(c, retained, obs, targetId, sourceId, item, policy);
    OwedMembers(obs, item, policy, m);
    MissingParts(item, AllOf(obs, item), obs.manifest, policy, m);
  }

  lemma MissingReads(c: ControlAssessment, retained: seq<Retained>, obs: Observations, targetId: string, sourceId: string,
                     item: Item, policy: ControlPolicy)
    requires IsAssessment(c, retained, obs, targetId, sourceId, item, policy)
    ensures forall m :: m in c.missing <==>
      !policy.disposition.NotApplicable? && m in Missing(item, AllOf(obs, item), obs.manifest, policy)
  {
    var all := Missing(item, AllOf(obs, item), obs.manifest, policy);
    SortByKeeps(all, MissingKey);
    forall m ensures m in SortBy(all, MissingKey) <==> m in all {
      assert m in SortBy(all, MissingKey) <==> m in multiset(SortBy(all, MissingKey));
      assert m in all <==> m in multiset(all);
    }
  }

  lemma MissingParts(item: Item, mapped: seq<Mapped>, manifest: Exec.Manifest, policy: ControlPolicy, m: MissingEvidence)
    ensures m in Missing(item, mapped, manifest, policy) <==>
      || (item.status.Uncovered? && m == MissingEvidence(None, policy.expectation, LedgerUncovered))
      || m in OwedBy(item, mapped, manifest, policy, policy.requiredRuleIds)
      || (policy.expectation.OperatorReview?
          && m == MissingEvidence(if policy.requiredRuleIds == [] then None else Some(policy.requiredRuleIds[0]),
                                  policy.expectation, OperatorEvidenceRequired))
  {
  }

  // ---------------------------------------------------------------- evidence entries

  /** A suppressed finding of the rule concerns the item. */
  ghost predicate FoundSuppressed(obs: Observations, item: Item, r: string) {
    Found(SuppressedNotices(obs.suppressed), item, r)
  }

  /** Some finding of the rule with this fingerprint concerns the item. */
  ghost predicate Reported(notices: seq<Notice>, item: Item, r: string, x: string) {
    exists i :: 0 <= i < |notices| && Of(notices[i], item, r) && notices[i].fingerprint == x
  }

  lemma ReportedConcat(a: seq<Notice>, b: seq<Notice>, item: Item, r: string, x: string)
    ensures Reported(a + b, item, r, x) <==> Reported(a, item, r, x) || Reported(b, item, r, x)
  {
    if Reported(a, item, r, x) {
      var i :| 0 <= i < |a| && Of(a[i], item, r) && a[i].fingerprint == x;
      assert (a + b)[i] == a[i];
    }
    if Reported(b, item, r, x) {
      var i :| 0 <= i < |b| && Of(b[i], item, r) && b[i].fingerprint == x;
      assert (a + b)[|a| + i] == b[i];
    }
  }

  lemma {:induction false} FingerprintsConcat(a: seq<Mapped>, b: seq<Mapped>, r: string)
    ensures Fingerprints(a + b, r) == Fingerprints(a, r) + Fingerprints(b, r)
  {
    if a == [] {
      assert a + b == b;
    } else {
      FingerprintsConcat(a[1..], b, r);
      Lists.TailOfConcat(a, b);
      Lists.Assoc(if a[0].ruleId == r then [a[0].fingerprint] else [], Fingerprints(a[1..], r), Fingerprints(b, r));
    }
  }

  lemma OneFingerprint(notice: Notice, item: Item, r: string, x: string)
    ensures x in Fingerprints(MapOne(notice, item), r) <==> Reported([notice], item, r, x)
  {
    MapOneTells(notice, item);
    if Concerns(notice, item) {
      var k :| MapsBy(notice, item, k);
      var m := MapOne(notice, item)[0];
      assert [m][1..] == [];
    }
    assert [notice][0] == notice;
  }

  lemma {:induction false} FingerprintsAre(notices: seq<Notice>, item: Item, r: string, x: string)
    ensures x in Fingerprints(MapAll(notices, item), r) <==> Reported(notices, item, r, x)
  {
    if notices != [] {
      FingerprintsAre(notices[1..], item, r, x);
      OneFingerprint(notices[0], item, r, x);
      FingerprintsConcat(MapOne(notices[0], item), MapAll(notices[1..], item), r);
      ReportedConcat([notices[0]], notices[1..], item, r, x);
      assert notices == [notices[0]] + notices[1..];
    }
  }

  lemma SortedIds(ids: seq<string>, x: string)
    ensures x in SortBy(ids, (y: string) => [y]) <==> x in ids
  {
    SortByKeeps(ids, (y: string) => [y]);
    assert x in SortBy(ids, (y: string) => [y]) <==> x in multiset(SortBy(ids, (y: string) => [y]));
    assert x in ids <==> x in multiset(ids);
  }

  lemma IdsAre(obs: Observations, item: Item, r: string, x: string)
    ensures x in FindingIds(MappedFindings(obs.findings, item), MappedSuppressed(obs.suppressed, item), r)
      <==> Reported(Notices(obs), item, r, x)
  {
    var a, b := ActiveNotices(obs.findings), SuppressedNotices(obs.suppressed);
    ActiveMapped(obs.findings, item);
    SuppressedMapped(obs.suppressed, item);
    FingerprintsAre(a, item, r, x);
    FingerprintsAre(b, item, r, x);
    ReportedConcat(a, b, item, r, x);
    SortedIds(Fingerprints(MapAll(a, item), r) + Fingerprints(MapAll(b, item), r), x);
  }

  lemma NoIdsMeansNotFound(obs: Observations, item: Item, r: string)
    ensures FindingIds(MappedFindings(obs.findings, item), MappedSuppressed(obs.suppressed, item), r) == []
      <==> !Found(Notices(obs), item, r)
    ensures Fingerprints(MappedSuppressed(obs.suppressed, item), r) != [] <==> FoundSuppressed(obs, item, r)
  {
    FindingIdsTell(MappedFindings(obs.findings, item), MappedSuppressed(obs.suppressed, item), r);
    ReadsFindings(obs, item, r);
    SuppressedMapped(obs.suppressed, item);
    FingerprintsTell(MappedSuppressed(obs.suppressed, item), r);
    FoundExactly(SuppressedNotices(obs.suppressed), item, r);
  }

  /** The rule has a terminal state, with this name in the report. */
  ghost predicate Ended(manifest: Exec.Manifest, r: string, state: string) {
    || (state == "completed" && r in manifest.completed)
    || (state == "skipped" && r !in manifest.completed && exists s :: s in manifest.skipped && s.ruleId == r)
    || (state == "failed" && r !in manifest.completed && (forall s :: s in manifest.skipped ==> s.ruleId != r)
        && exists f :: f in manifest.failed && f.ruleId == r)
  }

  lemma StateExactly(manifest: Exec.Manifest, r: string, state: string)
    ensures ExecutionState(manifest, r) == Some(state) <==> Ended(manifest, r, state)
  {
    Exec.FailedIdsMembership(manifest.failed, r);
    Exec.SkippedIdsMembership(manifest.skipped, r);
  }

  /** The entry of a rule, field by field: its definition in force, its state, the fingerprints of its findings, and
      the facets its silence shows. */
  ghost predicate EntrySays(e: AssessmentEvidence, obs: Observations, targetId: string, item: Item, d: Definition) {
    && Says(Notices(obs), item, e.ruleId, d)
    && e.targetId == targetId && e.strength == d.strength && e.origin == d.origin && e.absence == d.absence
    && Ended(obs.manifest, e.ruleId, e.state)
    && (forall x :: x in e.findingIds <==> Reported(Notices(obs), item, e.ruleId, x))
    && (e.suppressed <==> FoundSuppressed(obs, item, e.ruleId))
    && e.observedFacets ==
         if d.absence == FacetPass && e.ruleId in obs.manifest.completed && !Found(Notices(obs), item, e.ruleId) then d.facets else []
  }

  lemma EntryReads(obs: Observations, targetId: string, item: Item, r: string)
    ensures var entry := EvidenceFor(item, MappedFindings(obs.findings, item), MappedSuppressed(obs.suppressed, item),
                                     obs.manifest, targetId, r);
            && (entry.Some? ==> entry.value.ruleId == r && exists d :: EntrySays(entry.value, obs, targetId, item, d))
            && (entry.Some? <==> (exists d :: Says(Notices(obs), item, r, d)) && exists state :: Ended(obs.manifest, r, state))
  {
    var active, suppressed := MappedFindings(obs.findings, item), MappedSuppressed(obs.suppressed, item);
    ReadsFindings(obs, item, r);
    var known, state := DefinitionOf(item, AllOf(obs, item), r), ExecutionState(obs.manifest, r);
    forall text ensures state == Some(text) <==> Ended(obs.manifest, r, text) { StateExactly(obs.manifest, r, text); }
    if known.Some? { assert Says(Notices(obs), item, r, known.value); }
    if state.Some? { assert Ended(obs.manifest, r, state.value); }
    if known.Some? && state.Some? {
      var e := EvidenceFor(item, active, suppressed, obs.manifest, targetId, r).value;
      NoIdsMeansNotFound(obs, item, r);
      forall x ensures x in e.findingIds <==> Reported(Notices(obs), item, r, x) { IdsAre(obs, item, r, x); }
      assert EntrySays(e, obs, targetId, item, known.value);
    }
  }

  ghost predicate HasEntry(entries: seq<AssessmentEvidence>, r: string) {
    exists e :: e in entries && e.ruleId == r
  }

  /** One entry per rule that is defined for the item and has ended, in the order of rule ids. */
  lemma EvidenceExactly(c: ControlAssessment, retained: seq<Retained>, obs: Observations, targetId: string, sourceId: string,
                        item: Item, policy: ControlPolicy)
    requires IsAssessment(c, retained, obs, targetId, sourceId, item, policy)
    ensures forall i, j :: 0 <= i < j < |c.evidence| ==> Less(c.evidence[i].ruleId, c.evidence[j].ruleId)
    ensures forall e :: e in c.evidence ==> exists d :: EntrySays(e, obs, targetId, item, d)
    ensures forall r :: HasEntry(c.evidence, r) <==>
      (exists d :: Says(Notices(obs), item, r, d)) && exists state :: Ended(obs.manifest, r, state)
  {
    var active, suppressed := MappedFindings(obs.findings, item), MappedSuppressed(obs.suppressed, item);
    forall e | e in c.evidence ensures exists d :: EntrySays(e, obs, targetId, item, d) {
      assert EvidenceFor(item, active, suppressed, obs.manifest, targetId, e.ruleId) == Some(e);
      EntryReads(obs, targetId, item, e.ruleId);
    }
    forall r ensures HasEntry(c.evidence, r) <==>
      (exists d :: Says(Notices(obs), item, r, d)) && exists state :: Ended(obs.manifest, r, state)
    {
      EntryReads(obs, targetId, item, r);
      var entry := EvidenceFor(item, active, suppressed, obs.manifest, targetId, r);
      if entry.Some? { assert entry.value in c.evidence; }
    }
  }

  // ---------------------------------------------------------------- retained findings

  ghost predicate HasMapped(mapped: seq<Mapped>, r: string, x: string) {
    exists m :: m in mapped && m.ruleId == r && m.fingerprint == x
  }

  lemma RetainedMembers(mapped: seq<Mapped>, x: Retained)
    ensures x in RetainedOf(mapped) <==> HasMapped(mapped, x.ruleId, x.fingerprint)
  {
    if m :| m in mapped && m.ruleId == x.ruleId && m.fingerprint == x.fingerprint {
      var i :| 0 <= i < |mapped| && mapped[i] == m;
      assert RetainedOf(mapped)[i] == x;
    }
  }

  lemma {:induction false} MappedIds(notices: seq<Notice>, item: Item, r: string, x: string)
    ensures HasMapped(MapAll(notices, item), r, x) <==> Reported(notices, item, r, x)
  {
    if notices != [] {
      var rest := notices[1..];
      assert forall i :: 0 < i < |notices| ==> notices[i] == rest[i - 1];
      MappedIds(rest, item, r, x);
      MapOneTells(notices[0], item);
      if Concerns(notices[0], item) {
        var k :| MapsBy(notices[0], item, k);
      }
    }
  }

  /** Findings on a control that policy puts out of scope are kept in the open; on others nothing is. */
  lemma RetainedExactly(c: ControlAssessment, retained: seq<Retained>, obs: Observations, targetId: string, sourceId: string,
                        item: Item, policy: ControlPolicy, x: Retained)
    requires IsAssessment(c, retained, obs, targetId, sourceId, item, policy)
    ensures x in retained <==>
      policy.disposition.NotApplicable? && Reported(Notices(obs), item, x.ruleId, x.fingerprint)
  {
    MappedAreNotices(obs, item);
    MappedIds(Notices(obs), item, x.ruleId, x.fingerprint);
    RetainedMembers(AllOf(obs, item), x);
  }
}
