/** What the assessment promises: an earned pass, no benefit from more findings, no benefit from suppressing them. */
module AssessmentTheorems {
  import opened Prelude
  import opened RuleRegistry
  import opened CoverageLedger
  import opened AuditPolicy
  import opened Assessment
  import opened AssessmentEngine
  import Exec = ExecutionManifest
  import Lists

  // ---------------------------------------------------------------- a pass is earned

  lemma {:induction false} OwedByMembers(item: Item, mapped: seq<Mapped>, manifest: Exec.Manifest, policy: ControlPolicy, rules: seq<string>)
    ensures forall m :: m in OwedBy(item, mapped, manifest, policy, rules) <==>
      m.ruleId.Some? && m.ruleId.value in rules && m.expectation == policy.expectation
      && Owed(item, mapped, manifest, m.ruleId.value) == Some(m.reason)
  {
    if rules != [] {
      OwedByMembers(item, mapped, manifest, policy, rules[1..]);
      assert rules == [rules[0]] + rules[1..];
    }
  }

  lemma BlockedByRule(item: Item, mapped: seq<Mapped>, manifest: Exec.Manifest, policy: ControlPolicy)
    ensures Blocked(item, mapped, manifest, policy) <==>
      exists r :: r in policy.requiredRuleIds && Owed(item, mapped, manifest, r).Some?
                  && Blocks(Owed(item, mapped, manifest, r).value)
  {
    OwedByMembers(item, mapped, manifest, policy, policy.requiredRuleIds);
    var owed := OwedBy(item, mapped, manifest, policy, policy.requiredRuleIds);
    assert forall m :: m in owed ==> m in Missing(item, mapped, manifest, policy);
    forall r | r in policy.requiredRuleIds && Owed(item, mapped, manifest, r).Some?
      ensures MissingEvidence(Some(r), policy.expectation, Owed(item, mapped, manifest, r).value) in owed {}
    if Blocked(item, mapped, manifest, policy) {
      var m :| m in Missing(item, mapped, manifest, policy) && Blocks(m.reason);
      assert m in owed;
    }
  }

  /** A manifest built for a policy: it partitions its selection and selects every required rule. */
  ghost predicate BuiltFor(manifest: Exec.Manifest, policy: ControlPolicy) {
    Exec.Partitions(manifest) && forall r :: r in policy.requiredRuleIds ==> r in manifest.selected
  }

  /** With a built manifest nothing blocks exactly when every required rule completed. */
  lemma UnblockedMeansCompleted(item: Item, mapped: seq<Mapped>, manifest: Exec.Manifest, policy: ControlPolicy)
    requires BuiltFor(manifest, policy)
    ensures !Blocked(item, mapped, manifest, policy) <==> forall r :: r in policy.requiredRuleIds ==> r in manifest.completed
  {
    BlockedByRule(item, mapped, manifest, policy);
    forall r | r in policy.requiredRuleIds
      ensures r in manifest.completed <==>
        !(Owed(item, mapped, manifest, r).Some? && Blocks(Owed(item, mapped, manifest, r).value))
    {
      SkipReasonTells(manifest.skipped, r);
      assert r in multiset(manifest.selected);
      assert r in manifest.completed || r in Exec.SkippedIds(manifest.skipped) || r in Exec.FailedIds(manifest.failed);
    }
  }

  /** Every required rule ran to completion. */
  ghost predicate AllCompleted(manifest: Exec.Manifest, policy: ControlPolicy) {
    forall r :: r in policy.requiredRuleIds ==>
      r in manifest.completed && r !in Exec.SkippedIds(manifest.skipped) && r !in Exec.FailedIds(manifest.failed)
  }

  /** No finding, active or suppressed, of a direct, partial or derived mapping. */
  ghost predicate OnlyRelated(item: Item, mapped: seq<Mapped>) {
    forall m :: m in mapped ==>
      && DefinitionOf(item, mapped, m.ruleId).Some?
      && DefinitionOf(item, mapped, m.ruleId).value.strength == Related
      && DefinitionOf(item, mapped, m.ruleId).value.origin == Declared
  }

  /** No declared direct analyzer record that fails, is undecided, or passes on incomplete grounds. */
  ghost predicate NothingAgainst(native: seq<AnalyzerEvidence>) {
    forall e :: e in native && DirectlyMapped(e) ==>
      !e.status.NativeFail? && !e.status.NativeIndeterminate? && !IncompletePass(e)
  }

  /** The rules alone are positive declared direct evidence: there are positive rules and all completed clean. */
  ghost predicate RulesPass(item: Item, mapped: seq<Mapped>, manifest: Exec.Manifest, policy: ControlPolicy) {
    && (exists r :: PositiveRule(item, policy, r))
    && forall r :: PositiveRule(item, policy, r) ==>
         r in manifest.completed && !HasFinding(mapped, r)
         && LedgerDefinition(item, r).Some? && IsDirect(LedgerDefinition(item, r).value)
         && LedgerDefinition(item, r).value.absence == ControlPass
  }

  /** Everything a pass rests on, for an item whose evidence the validator accepted. */
  ghost predicate Earned(item: Item, mapped: seq<Mapped>, manifest: Exec.Manifest, native: seq<AnalyzerEvidence>, policy: ControlPolicy) {
    && item.status.FullCoverage?
    && (policy.disposition.Required? || policy.disposition.Advisory?)
    && AllCompleted(manifest, policy)
    && OnlyRelated(item, mapped)
    && NothingAgainst(native)
    && (RulesPass(item, mapped, manifest, policy) || NativeControlPass(native))
  }

  lemma {:induction false} ExplicitIsListed(rules: seq<AssessableRule>, ruleId: string)
    ensures Explicit(rules, ruleId).Some? ==>
      exists i :: 0 <= i < |rules| && rules[i] == Explicit(rules, ruleId).value && rules[i].ruleId == ruleId
  {
    if rules != [] && Explicit(rules[1..], ruleId).Some? {
      ExplicitIsListed(rules[1..], ruleId);
      var i :| 0 <= i < |rules[1..]| && rules[1..][i] == Explicit(rules[1..], ruleId).value;
      assert rules[i + 1] == Explicit(rules, ruleId).value;
    }
  }

  /** Validated definitions give pass semantics only to declared, unrelated mappings, and control-pass only to direct ones. */
  lemma DefinitionsDisciplined(item: Item, catalog: map<string, RuleMeta>, r: string)
    requires EvidenceValid(item, catalog) && LedgerDefinition(item, r).Some?
    ensures var d := LedgerDefinition(item, r).value; Disciplined(d.strength, d.origin, d.absence)
  {
    ExplicitIsListed(item.assessmentRules, r);
  }

  /** Clean completion only ever comes from the ledger's own definitions. */
  lemma CleanIsLedger(item: Item, mapped: seq<Mapped>, manifest: Exec.Manifest, r: string, absence: Absence)
    requires absence != NoSemantics
    ensures Clean(item, mapped, manifest, r, absence) <==>
      r in manifest.completed && !HasFinding(mapped, r)
      && LedgerDefinition(item, r).Some? && LedgerDefinition(item, r).value.absence == absence
  {
  }

  /** Status pass, exactly: the manifest was built for the policy, the item validated. */
  lemma PassExactlyWhenEarned(item: Item, catalog: map<string, RuleMeta>, mapped: seq<Mapped>, manifest: Exec.Manifest,
                              native: seq<AnalyzerEvidence>, policy: ControlPolicy)
    requires EvidenceValid(item, catalog) && BuiltFor(manifest, policy)
    ensures StatusOf(item, mapped, manifest, native, policy) == Pass <==> Earned(item, mapped, manifest, native, policy)
  {
    UnblockedMeansCompleted(item, mapped, manifest, policy);
    FindingsAreRelated(item, mapped);
    PositiveEvidence(item, catalog, mapped, manifest, policy);
    assert !NativeDirectFail(native) && !NativeDirectIndeterminate(native) <==> NothingAgainst(native);
  }

  lemma FindingsAreRelated(item: Item, mapped: seq<Mapped>)
    ensures !DirectNegative(item, mapped) && !PartialNegative(item, mapped) <==> OnlyRelated(item, mapped)
  {
    forall m | m in mapped ensures DefinitionOf(item, mapped, m.ruleId).Some? {
      FirstMappedTells(mapped, m.ruleId);
    }
  }

  lemma PositiveEvidence(item: Item, catalog: map<string, RuleMeta>, mapped: seq<Mapped>, manifest: Exec.Manifest, policy: ControlPolicy)
    requires EvidenceValid(item, catalog)
    ensures PassCandidate(item, mapped, manifest, policy) <==> RulesPass(item, mapped, manifest, policy)
  {
    forall r ensures Clean(item, mapped, manifest, r, ControlPass) <==>
      r in manifest.completed && !HasFinding(mapped, r)
      && LedgerDefinition(item, r).Some? && IsDirect(LedgerDefinition(item, r).value)
      && LedgerDefinition(item, r).value.absence == ControlPass
    {
      CleanIsLedger(item, mapped, manifest, r, ControlPass);
      if LedgerDefinition(item, r).Some? { DefinitionsDisciplined(item, catalog, r); }
    }
  }

  /** A pass, traced back to the run: no event of a required rule is a failure, and one is a completion. */
  lemma PassTracesToRun(item: Item, catalog: map<string, RuleMeta>, mapped: seq<Mapped>, manifest: Exec.Manifest,
                        native: seq<AnalyzerEvidence>, policy: ControlPolicy, history: seq<Exec.Event>, r: string)
    requires EvidenceValid(item, catalog) && BuiltFor(manifest, policy) && ReportsHistory(manifest, history)
    requires StatusOf(item, mapped, manifest, native, policy) == Pass
    requires r in policy.requiredRuleIds
    ensures Exec.HasCompletion(history, r) && !Exec.HasFailure(history, r)
  {
    PassExactlyWhenEarned(item, catalog, mapped, manifest, native, policy);
    assert Exec.Settles(history, r, Exec.Event(r, Exec.Completed));
  }

  /** A required rule that did not complete leaves nothing better than indeterminate, and the report says why. */
  lemma UnfinishedRequiredRule(item: Item, mapped: seq<Mapped>, manifest: Exec.Manifest, native: seq<AnalyzerEvidence>,
                               policy: ControlPolicy, r: string)
    requires BuiltFor(manifest, policy) && !policy.disposition.NotApplicable?
    requires r in policy.requiredRuleIds && r !in manifest.completed
    ensures StatusOf(item, mapped, manifest, native, policy) == Fail || StatusOf(item, mapped, manifest, native, policy) == Indeterminate
    ensures exists m :: m in Missing(item, mapped, manifest, policy) && m.ruleId == Some(r) && Blocks(m.reason)
  {
    UnblockedMeansCompleted(item, mapped, manifest, policy);
    SkipReasonTells(manifest.skipped, r);
    assert r in multiset(manifest.selected);
    assert r in Exec.SkippedIds(manifest.skipped) || r in Exec.FailedIds(manifest.failed);
    OwedByMembers(item, mapped, manifest, policy, policy.requiredRuleIds);
    var m := MissingEvidence(Some(r), policy.expectation, Owed(item, mapped, manifest, r).value);
    assert m in OwedBy(item, mapped, manifest, policy, policy.requiredRuleIds);
  }

  /** A run without findings is no pass unless the ledger assigns control-pass semantics to something. */
  lemma SilenceIsNotPass(item: Item, mapped: seq<Mapped>, manifest: Exec.Manifest, records: seq<ControlRecord>,
                         targetId: string, policy: ControlPolicy)
    requires forall e :: e in item.assessmentRules ==> e.absence != ControlPass
    requires forall e :: e in item.assessmentControls ==> e.absence != ControlPass
    ensures StatusOf(item, mapped, manifest, AllNativeEvidence(records, targetId, item), policy) != Pass
  {
    forall r ensures !Clean(item, mapped, manifest, r, ControlPass) {
      CleanIsLedger(item, mapped, manifest, r, ControlPass);
      ExplicitIsListed(item.assessmentRules, r);
    }
    NativeSemantics(records, targetId, item);
  }

  lemma {:induction false} MappingIsListed(controls: seq<AssessableControl>, controlId: string)
    ensures ControlMapping(controls, controlId).Some? ==> ControlMapping(controls, controlId).value in controls
  {
    if controls != [] { MappingIsListed(controls[1..], controlId); }
  }

  lemma {:induction false} NativeSemantics(records: seq<ControlRecord>, targetId: string, item: Item)
    requires forall e :: e in item.assessmentControls ==> e.absence != ControlPass
    ensures forall e :: e in AllNativeEvidence(records, targetId, item) ==> e.absence != ControlPass
  {
    if records != [] {
      MappingIsListed(item.assessmentControls, records[0].controlId);
      NativeSemantics(records[1..], targetId, item);
    }
  }

  /** Analyzer failures count against a pass exactly when they are mapped declared-direct: a failing
      record with a partial, related or derived mapping leaves a pass standing. */
  lemma AnalyzerFailureAgainstPass(item: Item, mapped: seq<Mapped>, manifest: Exec.Manifest, native: seq<AnalyzerEvidence>,
                                   policy: ControlPolicy, e: AnalyzerEvidence)
    requires e.status.NativeFail? && StatusOf(item, mapped, manifest, native, policy) == Pass
    ensures StatusOf(item, mapped, manifest, native + [e], policy) == Pass <==> !DirectlyMapped(e)
  {
    assert forall x :: x in native + [e] <==> x in native || x == e;
    assert NativeDirectFail(native + [e]) <==> NativeDirectFail(native) || DirectlyMapped(e);
    assert NativeDirectIndeterminate(native + [e]) <==> NativeDirectIndeterminate(native);
    assert NativeControlPass(native + [e]) <==> NativeControlPass(native);
    assert NativeFacetPass(native + [e]) <==> NativeFacetPass(native);
  }

  const COVERED_ITEM := Item(
    "i", [ControlReference("S", "1", [])], true, FullCoverage, ["q"], [Claim("q", "S", "1", Direct, Declared)],
    [AssessableRule("q", Direct, Declared, ControlPass, [])], [AssessableControl("c", Partial, Declared, NoSemantics)],
    {"unit-test"})
  const COVERED_CATALOG := map["q" := RuleMeta("q", Universal, None, {}, [], [])]

  lemma CoveredItemIsValid()
    ensures EvidenceValid(COVERED_ITEM, COVERED_CATALOG)
  {
    var c := Claim("q", "S", "1", Direct, Declared);
    assert COVERED_ITEM.references[0] in COVERED_ITEM.references;
    assert Matches(COVERED_ITEM, "S", "1");
    assert c in COVERED_ITEM.claims;
  }

  lemma OneRuleRun(manifest: Exec.Manifest)
    requires manifest == Exec.Manifest("", ["q"], ["q"], [], [])
    ensures BuiltFor(manifest, PLAIN_POLICY)
  {
    AllCompletedPartitions(manifest);
  }

  /** A manifest in which every selected rule completed. */
  lemma AllCompletedPartitions(m: Exec.Manifest)
    requires m.completed == m.selected && m.skipped == [] && m.failed == [] && Exec.Distinct(m.selected)
    ensures Exec.Partitions(m)
  {
    KeepAll(m.selected, set r | r in m.completed);
    KeepNone(m.selected);
    assert Exec.SkippedIds(m.skipped) == [] && Exec.FailedIds(m.failed) == [];
    assert (set r | r in Exec.SkippedIds(m.skipped)) == {};
  }

  lemma FailingRecordMaps(records: seq<ControlRecord>)
    requires records == [ControlRecord("c", NativeFail, map[])]
    ensures AllNativeEvidence(records, "t", COVERED_ITEM)
            == [AnalyzerEvidence("c", "t", Partial, Declared, NoSemantics, NativeFail, None, None)]
  {
    assert records[1..] == [];
    assert COVERED_ITEM.assessmentControls[1..] == [];
  }

  /** Such a pass exists: the one control-pass rule completed clean, and a failing record is mapped partially. */
  lemma PassBesideFailingRecord(manifest: Exec.Manifest)
    requires manifest == Exec.Manifest("", ["q"], ["q"], [], [])
    ensures var obs := Observations([], [], [ControlRecord("c", NativeFail, map[])], manifest);
            var native := AllNativeEvidence(obs.records, "t", COVERED_ITEM);
            && BuiltFor(manifest, PLAIN_POLICY)
            && (exists e :: e in native && e.status.NativeFail?)
            && StatusOf(COVERED_ITEM, MappedFindings(obs.findings, COVERED_ITEM) + MappedSuppressed(obs.suppressed, COVERED_ITEM),
                        manifest, native, PLAIN_POLICY) == Pass
  {
    var records := [ControlRecord("c", NativeFail, map[])];
    var native := AllNativeEvidence(records, "t", COVERED_ITEM);
    FailingRecordMaps(records);
    assert native[0] in native && native[0].status.NativeFail?;
    assert MappedFindings([], COVERED_ITEM) + MappedSuppressed([], COVERED_ITEM) == [];
    OneRuleRun(manifest);
    CoveredItemPasses(manifest, native);
  }

  lemma CoveredItemPasses(manifest: Exec.Manifest, native: seq<AnalyzerEvidence>)
    requires manifest == Exec.Manifest("", ["q"], ["q"], [], [])
    requires forall e :: e in native ==> !DirectlyMapped(e)
    ensures StatusOf(COVERED_ITEM, [], manifest, native, PLAIN_POLICY) == Pass
  {
    OneRuleRun(manifest);
    CoveredItemIsValid();
    PassExactlyWhenEarned(COVERED_ITEM, COVERED_CATALOG, [], manifest, native, PLAIN_POLICY);
    CoveredItemIsEarned(manifest, native);
  }

  lemma CoveredItemIsEarned(manifest: Exec.Manifest, native: seq<AnalyzerEvidence>)
    requires manifest == Exec.Manifest("", ["q"], ["q"], [], [])
    requires forall e :: e in native ==> !DirectlyMapped(e)
    ensures Earned(COVERED_ITEM, [], manifest, native, PLAIN_POLICY)
  {
    QIsPositive();
    assert RulesPass(COVERED_ITEM, [], manifest, PLAIN_POLICY);
  }

  lemma QIsPositive()
    ensures forall r :: PositiveRule(COVERED_ITEM, PLAIN_POLICY, r) <==> r == "q"
    ensures LedgerDefinition(COVERED_ITEM, "q") == Some(Definition(Direct, Declared, ControlPass, []))
  {
    var rules := COVERED_ITEM.assessmentRules;
    assert rules[1..] == [];
    assert Explicit(rules, "q") == Some(rules[0]);
  }

  // ---------------------------------------------------------------- what findings can and cannot change

  ghost predicate SameRules(a: seq<Mapped>, b: seq<Mapped>) {
    forall r :: HasFinding(a, r) <==> HasFinding(b, r)
  }

  /** Missing evidence depends only on which rules have findings. */
  lemma {:induction false} MissingDependsOnRules(item: Item, a: seq<Mapped>, b: seq<Mapped>, manifest: Exec.Manifest, policy: ControlPolicy)
    requires SameRules(a, b)
    ensures Missing(item, a, manifest, policy) == Missing(item, b, manifest, policy)
  {
    OwedDependsOnRules(item, a, b, manifest, policy, policy.requiredRuleIds);
  }

  lemma {:induction false} OwedDependsOnRules(item: Item, a: seq<Mapped>, b: seq<Mapped>, manifest: Exec.Manifest,
                                              policy: ControlPolicy, rules: seq<string>)
    requires SameRules(a, b)
    ensures OwedBy(item, a, manifest, policy, rules) == OwedBy(item, b, manifest, policy, rules)
  {
    if rules != [] {
      OwedDependsOnRules(item, a, b, manifest, policy, rules[1..]);
      assert HasFinding(a, rules[0]) <==> HasFinding(b, rules[0]);
    }
  }

  lemma CleanDependsOnRules(item: Item, a: seq<Mapped>, b: seq<Mapped>, manifest: Exec.Manifest, policy: ControlPolicy)
    requires SameRules(a, b)
    ensures PassCandidate(item, a, manifest, policy) == PassCandidate(item, b, manifest, policy)
    ensures SomeClean(item, a, manifest, ControlPass) == SomeClean(item, b, manifest, ControlPass)
    ensures SomeClean(item, a, manifest, FacetPass) == SomeClean(item, b, manifest, FacetPass)
  {
    forall r
      ensures Clean(item, a, manifest, r, ControlPass) == Clean(item, b, manifest, r, ControlPass)
      ensures Clean(item, a, manifest, r, FacetPass) == Clean(item, b, manifest, r, FacetPass)
    {
      assert HasFinding(a, r) <==> HasFinding(b, r);
      CleanIsLedger(item, a, manifest, r, ControlPass);
      CleanIsLedger(item, b, manifest, r, ControlPass);
      CleanIsLedger(item, a, manifest, r, FacetPass);
      CleanIsLedger(item, b, manifest, r, FacetPass);
    }
  }

  /** A run that could have produced these findings: a partition that selects their rules. */
  ghost predicate Admissible(manifest: Exec.Manifest, mapped: seq<Mapped>) {
    Exec.Partitions(manifest) && forall m :: m in mapped ==> m.ruleId in manifest.selected
  }

  ghost function RuleList(mapped: seq<Mapped>): (rules: seq<string>)
    ensures Exec.Distinct(rules)
    ensures forall r :: r in rules <==> HasFinding(mapped, r)
  {
    if mapped == [] then []
    else
      var rest := RuleList(mapped[1..]);
      assert mapped == [mapped[0]] + mapped[1..];
      assert forall r :: HasFinding(mapped, r) <==> r == mapped[0].ruleId || HasFinding(mapped[1..], r);
      if mapped[0].ruleId in rest then rest else rest + [mapped[0].ruleId]
  }

  /** The run in which exactly the rules with findings were selected, and all completed. */
  ghost function PlainRun(mapped: seq<Mapped>): Exec.Manifest {
    Exec.Manifest("", RuleList(mapped), RuleList(mapped), [], [])
  }

  lemma {:induction false} KeepAll(xs: seq<string>, keep: set<string>)
    requires forall x :: x in xs ==> x in keep
    ensures Exec.Kept(xs, keep) == xs
  {
    if xs != [] {
      assert forall x :: x in xs[1..] ==> x in xs;
      KeepAll(xs[1..], keep);
    }
  }

  lemma {:induction false} KeepNone(xs: seq<string>)
    ensures Exec.Kept(xs, {}) == []
  {
    if xs != [] { KeepNone(xs[1..]); }
  }

  const PLAIN_POLICY := ControlPolicy("", Required, LedgerDefault, [])

  lemma PlainRunIsAdmissible(mapped: seq<Mapped>, others: seq<Mapped>)
    requires forall m :: m in others ==> HasFinding(mapped, m.ruleId)
    ensures Admissible(PlainRun(mapped), others)
  {
    AllCompletedPartitions(PlainRun(mapped));
  }

  /** In the plain run nothing but the findings speaks. */
  lemma PlainRunSpeaks(item: Item, mapped: seq<Mapped>, others: seq<Mapped>)
    requires SameRules(mapped, others)
    ensures StatusOf(item, others, PlainRun(mapped), [], PLAIN_POLICY) ==
      if DirectNegative(item, others) then Fail
      else if item.status.PolicyReview? then NeedsReview
      else if PartialNegative(item, others) then PartialStatus
      else NotAssessed
  {
    var run := PlainRun(mapped);
    BlockedByRule(item, others, run, PLAIN_POLICY);
    forall r, absence | absence != NoSemantics ensures !Clean(item, others, run, r, absence) {
      if r in run.completed { assert HasFinding(mapped, r) && HasFinding(others, r); }
    }
    if PassCandidate(item, others, run, PLAIN_POLICY) { CandidateIsSupporting(item, others, run, PLAIN_POLICY); }
  }

  /** The same status with either population, in every run, under every policy and analyzer record. */
  ghost predicate SameInEveryRun(item: Item, a: seq<Mapped>, b: seq<Mapped>) {
    forall run, native, policy :: Admissible(run, a) ==>
      StatusOf(item, a, run, native, policy) == StatusOf(item, b, run, native, policy)
  }

  /** Agreement on direct negative evidence and, where that is absent and the item is not up for review anyway,
      on partial negative evidence. */
  ghost predicate SameNegatives(item: Item, a: seq<Mapped>, b: seq<Mapped>) {
    && DirectNegative(item, a) == DirectNegative(item, b)
    && (DirectNegative(item, a) || item.status.PolicyReview? || PartialNegative(item, a) == PartialNegative(item, b))
  }

  lemma SameStatusShows(item: Item, a: seq<Mapped>, b: seq<Mapped>)
    requires SameRules(a, b) && SameInEveryRun(item, a, b)
    ensures SameNegatives(item, a, b)
  {
    assert forall m :: m in a ==> HasFinding(a, m.ruleId);
    PlainRunIsAdmissible(a, a);
    PlainRunSpeaks(item, a, a);
    PlainRunSpeaks(item, a, b);
    assert StatusOf(item, a, PlainRun(a), [], PLAIN_POLICY) == StatusOf(item, b, PlainRun(a), [], PLAIN_POLICY);
  }

  lemma NegativesDecide(item: Item, a: seq<Mapped>, b: seq<Mapped>, run: Exec.Manifest, native: seq<AnalyzerEvidence>,
                        policy: ControlPolicy)
    requires SameRules(a, b) && SameNegatives(item, a, b)
    ensures StatusOf(item, a, run, native, policy) == StatusOf(item, b, run, native, policy)
  {
    MissingDependsOnRules(item, a, b, run, policy);
    CleanDependsOnRules(item, a, b, run, policy);
  }

  /** Two populations of findings over the same rules get the same status in every run exactly when they agree on
      the negative evidence that counts. */
  lemma SameStatusExactly(item: Item, a: seq<Mapped>, b: seq<Mapped>)
    requires SameRules(a, b)
    ensures SameInEveryRun(item, a, b) <==> SameNegatives(item, a, b)
  {
    if SameNegatives(item, a, b) {
      forall run, native, policy
        ensures StatusOf(item, a, run, native, policy) == StatusOf(item, b, run, native, policy)
      {
        NegativesDecide(item, a, b, run, native, policy);
      }
    }
    if SameInEveryRun(item, a, b) { SameStatusShows(item, a, b); }
  }

  /** All findings of a rule the ledger does not define carry the same mapping onto the item. */
  ghost predicate Consistent(item: Item, mapped: seq<Mapped>) {
    forall m, n :: m in mapped && n in mapped && m.ruleId == n.ruleId && LedgerDefinition(item, m.ruleId).None? ==>
      m.strength == n.strength && m.origin == n.origin
  }

  /** With consistent mappings the definition in force does not depend on which finding came first. */
  lemma DefinitionIgnoresOrder(item: Item, a: seq<Mapped>, b: seq<Mapped>, r: string)
    requires (forall m :: m in a ==> m in b) && Consistent(item, b) && HasFinding(a, r)
    ensures DefinitionOf(item, a, r) == DefinitionOf(item, b, r) && DefinitionOf(item, a, r).Some?
  {
    FirstMappedTells(a, r);
    FirstMappedTells(b, r);
  }

  /** Suppressing findings, or reordering them, changes neither status nor missing evidence. */
  lemma SuppressionChangesNothing(item: Item, a: seq<Mapped>, b: seq<Mapped>, run: Exec.Manifest,
                                  native: seq<AnalyzerEvidence>, policy: ControlPolicy)
    requires multiset(a) == multiset(b) && Consistent(item, a)
    ensures StatusOf(item, a, run, native, policy) == StatusOf(item, b, run, native, policy)
    ensures Missing(item, a, run, policy) == Missing(item, b, run, policy)
  {
    Lists.SameMembers(a, b);
    forall r | HasFinding(a, r) ensures DefinitionOf(item, a, r) == DefinitionOf(item, b, r) {
      DefinitionIgnoresOrder(item, a, b, r);
    }
    assert DirectNegative(item, a) == DirectNegative(item, b);
    assert PartialNegative(item, a) == PartialNegative(item, b);
    MissingDependsOnRules(item, a, b, run, policy);
    CleanDependsOnRules(item, a, b, run, policy);
  }

  // ---------------------------------------------------------------- more findings never help

  /** More findings never clear what a required rule is blocked by. */
  lemma BlockingIgnoresFindings(item: Item, a: seq<Mapped>, b: seq<Mapped>, run: Exec.Manifest, policy: ControlPolicy)
    ensures Blocked(item, a, run, policy) == Blocked(item, b, run, policy)
  {
    BlockedByRule(item, a, run, policy);
    BlockedByRule(item, b, run, policy);
    forall r ensures (Owed(item, a, run, r).Some? && Blocks(Owed(item, a, run, r).value))
                 <==> (Owed(item, b, run, r).Some? && Blocks(Owed(item, b, run, r).value)) {}
  }

  /** Short of a direct negative, further findings take away no control-pass evidence; short of a partial
      negative they take away no facet evidence either. */
  lemma PositiveEvidenceSurvives(item: Item, catalog: map<string, RuleMeta>, a: seq<Mapped>, b: seq<Mapped>,
                                 run: Exec.Manifest, policy: ControlPolicy)
    requires EvidenceValid(item, catalog)
    requires (forall m :: m in a ==> m in b) && !DirectNegative(item, b)
    ensures PassCandidate(item, a, run, policy) == PassCandidate(item, b, run, policy)
    ensures SomeClean(item, a, run, ControlPass) == SomeClean(item, b, run, ControlPass)
    ensures !PartialNegative(item, b) ==> SomeClean(item, a, run, FacetPass) == SomeClean(item, b, run, FacetPass)
  {
    forall r
      ensures Clean(item, a, run, r, ControlPass) == Clean(item, b, run, r, ControlPass)
      ensures !PartialNegative(item, b) ==> Clean(item, a, run, r, FacetPass) == Clean(item, b, run, r, FacetPass)
    {
      CleanIsLedger(item, a, run, r, ControlPass);
      CleanIsLedger(item, b, run, r, ControlPass);
      CleanIsLedger(item, a, run, r, FacetPass);
      CleanIsLedger(item, b, run, r, FacetPass);
      if HasFinding(b, r) && LedgerDefinition(item, r).Some? {
        DefinitionsDisciplined(item, catalog, r);
        var m :| m in b && m.ruleId == r;
        assert !IsDirect(DefinitionOf(item, b, m.ruleId).value);
      }
    }
  }

  /** The status with the findings `b` is at least as severe as with `a`, in every run, under every policy and
      analyzer record. */
  ghost predicate NeverSoftens(item: Item, a: seq<Mapped>, b: seq<Mapped>) {
    forall run, native, policy :: Admissible(run, b) ==>
      Rank(StatusOf(item, b, run, native, policy)) <= Rank(StatusOf(item, a, run, native, policy))
  }

  /** Direct negative evidence is kept, and partial negative evidence is kept or exceeded unless the item is up
      for review anyway. */
  ghost predicate KeepsNegatives(item: Item, a: seq<Mapped>, b: seq<Mapped>) {
    && (DirectNegative(item, a) ==> DirectNegative(item, b))
    && (PartialNegative(item, a) && !item.status.PolicyReview? ==> DirectNegative(item, b) || PartialNegative(item, b))
  }

  lemma SofterShows(item: Item, a: seq<Mapped>, b: seq<Mapped>)
    requires NeverSoftens(item, a, b)
    ensures KeepsNegatives(item, a, b)
  {
    assert forall m :: m in b ==> HasFinding(b, m.ruleId);
    PlainRunIsAdmissible(b, b);
    PlainRunSpeaks(item, b, b);
    PlainRunUpperBound(item, a, b);
    RanksShow(StatusOf(item, a, PlainRun(b), [], PLAIN_POLICY), StatusOf(item, b, PlainRun(b), [], PLAIN_POLICY),
              DirectNegative(item, a), PartialNegative(item, a), DirectNegative(item, b), PartialNegative(item, b),
              item.status.PolicyReview?);
  }

  lemma RanksShow(sa: Status, sb: Status, da: bool, pa: bool, db: bool, pb: bool, review: bool)
    requires Rank(sb) <= Rank(sa)
    requires da ==> sa == Fail
    requires pa && !da && !review ==> sa == PartialStatus
    requires sb == if db then Fail else if review then NeedsReview else if pb then PartialStatus else NotAssessed
    ensures da ==> db
    ensures pa && !review ==> db || pb
  {
  }

  /** More findings never soften the status exactly when they keep the negative evidence. */
  lemma MonotoneExactly(item: Item, catalog: map<string, RuleMeta>, a: seq<Mapped>, b: seq<Mapped>)
    requires EvidenceValid(item, catalog)
    requires forall m :: m in a ==> m in b
    ensures NeverSoftens(item, a, b) <==> KeepsNegatives(item, a, b)
  {
    if KeepsNegatives(item, a, b) {
      forall run, native, policy
        ensures Rank(StatusOf(item, b, run, native, policy)) <= Rank(StatusOf(item, a, run, native, policy))
      {
        NeverSofter(item, catalog, a, b, run, native, policy);
      }
    }
    if NeverSoftens(item, a, b) { SofterShows(item, a, b); }
  }

  /** Negative evidence bounds the status from the severe side in any run without a required rule. */
  lemma PlainRunUpperBound(item: Item, a: seq<Mapped>, b: seq<Mapped>)
    ensures DirectNegative(item, a) ==> StatusOf(item, a, PlainRun(b), [], PLAIN_POLICY) == Fail
    ensures PartialNegative(item, a) && !DirectNegative(item, a) && !item.status.PolicyReview? ==>
      StatusOf(item, a, PlainRun(b), [], PLAIN_POLICY) == PartialStatus
  {
    BlockedByRule(item, a, PlainRun(b), PLAIN_POLICY);
  }

  lemma NeverSofter(item: Item, catalog: map<string, RuleMeta>, a: seq<Mapped>, b: seq<Mapped>, run: Exec.Manifest,
                    native: seq<AnalyzerEvidence>, policy: ControlPolicy)
    requires EvidenceValid(item, catalog)
    requires forall m :: m in a ==> m in b
    requires KeepsNegatives(item, a, b)
    ensures Rank(StatusOf(item, b, run, native, policy)) <= Rank(StatusOf(item, a, run, native, policy))
  {
    BlockingIgnoresFindings(item, a, b, run, policy);
    if !DirectNegative(item, b) {
      PositiveEvidenceSurvives(item, catalog, a, b, run, policy);
    }
  }

  /** With consistent mappings, adding findings never moves the status to a less severe rank. */
  lemma MoreFindingsNeverHelp(item: Item, catalog: map<string, RuleMeta>, a: seq<Mapped>, b: seq<Mapped>, run: Exec.Manifest,
                              native: seq<AnalyzerEvidence>, policy: ControlPolicy)
    requires EvidenceValid(item, catalog)
    requires (forall m :: m in a ==> m in b) && Consistent(item, b)
    ensures Rank(StatusOf(item, b, run, native, policy)) <= Rank(StatusOf(item, a, run, native, policy))
  {
    forall m | m in a ensures DefinitionOf(item, a, m.ruleId) == DefinitionOf(item, b, m.ruleId) {
      assert HasFinding(a, m.ruleId);
      DefinitionIgnoresOrder(item, a, b, m.ruleId);
    }
    NeverSofter(item, catalog, a, b, run, native, policy);
  }
}
