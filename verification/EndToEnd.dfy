/** From rule passes to a verdict: what a pass says about the calls the rules actually made. */
module EndToEnd {
  import opened Prelude
  import opened RuleRegistry
  import opened CoverageLedger
  import opened AuditPolicy
  import opened Assessment
  import opened AssessmentEngine
  import opened AssessmentTheorems
  import opened Suppressions
  import opened VerdictTheorems
  import Exec = ExecutionManifest
  import opened RuleRunner
  import Ordering
  import Lists

  type FindingPass = RulePack<Finding>

  /** The rule was called in this pass: opted in, with its prerequisites met. */
  ghost predicate Called(p: FindingPass, k: int) {
    0 <= k < |p.entries| && Calls(p, p.entries[k])
  }

  /** Some call of the rule returned. */
  ghost predicate ReturnedOnce(passes: seq<FindingPass>, r: string) {
    exists i, k :: 0 <= i < |passes| && Called(passes[i], k) && passes[i].entries[k].ruleId == r
                   && passes[i].invoke(passes[i].entries[k]).Returned?
  }

  /** Some call of the rule crashed. */
  ghost predicate CrashedOnce(passes: seq<FindingPass>, r: string) {
    exists i, k :: 0 <= i < |passes| && Called(passes[i], k) && passes[i].entries[k].ruleId == r
                   && passes[i].invoke(passes[i].entries[k]).Raised?
  }

  ghost function PassEvents(p: FindingPass): seq<Exec.Event> {
    OptInSkips(p.entries, p.requested) + RunEvents(p, Runnable(p.entries, p.requested), true)
  }

  ghost function AllEvents(passes: seq<FindingPass>): seq<Exec.Event> {
    if passes == [] then [] else AllEvents(passes[..|passes| - 1]) + PassEvents(passes[|passes| - 1])
  }

  ghost function PassFindings(passes: seq<FindingPass>): seq<Finding> {
    if passes == [] then []
    else
      var p := passes[|passes| - 1];
      PassFindings(passes[..|passes| - 1]) + RunFindings(p, Runnable(p.entries, p.requested))
  }

  lemma PassEventMembers(p: FindingPass, x: Exec.Event)
    requires !x.state.Skipped?
    ensures x in PassEvents(p) <==> exists k :: Called(p, k) && TerminalOf(p.entries[k], p.invoke(p.entries[k])) == x
  {
    var runnable := Runnable(p.entries, p.requested);
    SkipMembers(p.entries, p.requested);
    RunnableMembers(p.entries, p.requested);
    RunMembers(p, runnable, true);
    assert x in PassEvents(p) <==> x in RunEvents(p, runnable, true);
    if e :| e in runnable && EventOf(p, e) == x {
      var k :| 0 <= k < |p.entries| && p.entries[k] == e;
      assert Called(p, k);
    }
    if k :| Called(p, k) && TerminalOf(p.entries[k], p.invoke(p.entries[k])) == x {
      assert p.entries[k] in runnable && EventOf(p, p.entries[k]) == x;
    }
  }

  ghost predicate InPass(passes: seq<FindingPass>, i: int, x: Exec.Event) {
    0 <= i < |passes| && x in PassEvents(passes[i])
  }

  lemma AllEventsStep(passes: seq<FindingPass>, x: Exec.Event)
    requires passes != []
    ensures var n := |passes| - 1;
            x in AllEvents(passes) <==> x in AllEvents(passes[..n]) || x in PassEvents(passes[n])
  {
  }

  lemma {:induction false} EventFromPass(passes: seq<FindingPass>, x: Exec.Event) returns (i: nat)
    requires x in AllEvents(passes)
    ensures InPass(passes, i, x)
  {
    var n := |passes| - 1;
    AllEventsStep(passes, x);
    if x in AllEvents(passes[..n]) { i := EventFromPass(passes[..n], x); } else { i := n; }
  }

  lemma {:induction false} PassGivesEvent(passes: seq<FindingPass>, i: nat, x: Exec.Event)
    requires InPass(passes, i, x)
    ensures x in AllEvents(passes)
  {
    var n := |passes| - 1;
    AllEventsStep(passes, x);
    if i < n { PassGivesEvent(passes[..n], i, x); }
  }

  lemma HistoryTells(passes: seq<FindingPass>, skips: seq<Exec.Event>, r: string)
    requires forall e :: e in skips ==> e.state.Skipped?
    ensures Exec.HasCompletion(AllEvents(passes) + skips, r) <==> ReturnedOnce(passes, r)
    ensures Exec.HasFailure(AllEvents(passes) + skips, r) <==> CrashedOnce(passes, r)
  {
    var h := AllEvents(passes) + skips;
    forall e | e in h && e.ruleId == r && !e.state.Skipped?
      ensures e.state.Completed? ==> ReturnedOnce(passes, r)
      ensures e.state.Failed? ==> CrashedOnce(passes, r)
    {
      var i := EventFromPass(passes, e);
      PassEventMembers(passes[i], e);
      var k :| Called(passes[i], k) && TerminalOf(passes[i].entries[k], passes[i].invoke(passes[i].entries[k])) == e;
    }
    forall i, k | 0 <= i < |passes| && Called(passes[i], k) && passes[i].entries[k].ruleId == r
      ensures passes[i].invoke(passes[i].entries[k]).Returned? ==> Exec.HasCompletion(h, r)
      ensures passes[i].invoke(passes[i].entries[k]).Raised? ==> Exec.HasFailure(h, r)
    {
      var e := TerminalOf(passes[i].entries[k], passes[i].invoke(passes[i].entries[k]));
      PassEventMembers(passes[i], e);
      PassGivesEvent(passes, i, e);
      assert e in h;
    }
  }

  /** Run the passes of one analysis with one recorder and one issue list. */
  method RunPasses(passes: seq<FindingPass>) returns (recorder: Exec.RuleExecutionRecorder, findings: seq<Finding>)
    ensures fresh(recorder) && recorder.Valid() && recorder.Closed()
    ensures recorder.history == AllEvents(passes)
    ensures findings == PassFindings(passes)
  {
    recorder := new Exec.RuleExecutionRecorder();
    var issues := new IssueLog();
    findings := [];
    for i := 0 to |passes|
      invariant recorder.Valid() && recorder.Closed() && fresh(recorder) && fresh(issues)
      invariant recorder.history == AllEvents(passes[..i])
      invariant findings == PassFindings(passes[..i])
    {
      Lists.PrefixOfPrefix(passes, i);
      ghost var h := recorder.history;
      var ran := RunRules(passes[i], issues, recorder);
      Lists.Assoc(h, OptInSkips(passes[i].entries, passes[i].requested),
                  RunEvents(passes[i], Runnable(passes[i].entries, passes[i].requested), true));
      findings := findings + ran.value;
    }
    Lists.Whole(passes);
  }

  lemma ManifestTells(m: Exec.Manifest, h: seq<Exec.Event>, r: string)
    requires Exec.Partitions(m) && ReportsHistory(m, h) && r in m.selected
    ensures r in Exec.FailedIds(m.failed) <==> Exec.HasFailure(h, r)
    ensures r in m.completed <==> Exec.HasCompletion(h, r) && !Exec.HasFailure(h, r)
  {
    assert r in multiset(m.selected);
    assert r in m.completed || r in Exec.SkippedIds(m.skipped) || r in Exec.FailedIds(m.failed);
    Exec.FailedIdsMembership(m.failed, r);
    Exec.SkippedIdsMembership(m.skipped, r);
    if r in m.completed {
      assert Exec.Settles(h, r, Exec.Event(r, Exec.Completed));
    } else if r in Exec.FailedIds(m.failed) {
      var f :| f in m.failed && f.ruleId == r;
      var e := Exec.Event(r, Exec.Failed(f.issueCode, f.stage));
      assert Exec.Settles(h, r, e) && e in h;
    } else {
      var s :| s in m.skipped && s.ruleId == r;
      assert Exec.Settles(h, r, Exec.Event(r, Exec.Skipped(s.reason)));
    }
  }

  /** The rule was called to an end: some call returned and none crashed. */
  ghost predicate Finished(passes: seq<FindingPass>, r: string) {
    ReturnedOnce(passes, r) && !CrashedOnce(passes, r)
  }

  lemma CalledMeansMentioned(passes: seq<FindingPass>, skips: seq<Exec.Event>, r: string)
    requires forall e :: e in skips ==> e.state.Skipped?
    requires ReturnedOnce(passes, r) || CrashedOnce(passes, r)
    ensures Exec.Mentions(AllEvents(passes) + skips, r)
  {
    HistoryTells(passes, skips, r);
  }

  /** What a manifest says about every rule, selected or not, in terms of the calls. */
  ghost predicate SpeaksOfCalls(manifest: Exec.Manifest, passes: seq<FindingPass>) {
    forall r ::
      && (r in Exec.FailedIds(manifest.failed) <==> CrashedOnce(passes, r))
      && (r in manifest.completed <==> Finished(passes, r))
  }

  lemma ListedIsSelected(m: Exec.Manifest, r: string)
    requires Exec.Partitions(m) && r !in m.selected
    ensures r !in m.completed && r !in Exec.SkippedIds(m.skipped) && r !in Exec.FailedIds(m.failed)
  {
    assert r !in multiset(m.selected);
    assert multiset(m.selected)[r]
        == multiset(m.completed)[r] + multiset(Exec.SkippedIds(m.skipped))[r] + multiset(Exec.FailedIds(m.failed))[r];
  }

  lemma ManifestSpeaksOfCalls(m: Exec.Manifest, passes: seq<FindingPass>, skips: seq<Exec.Event>)
    requires forall e :: e in skips ==> e.state.Skipped?
    requires Exec.Partitions(m) && ReportsHistory(m, AllEvents(passes) + skips)
    requires forall r :: Exec.Mentions(AllEvents(passes) + skips, r) ==> r in m.selected
    ensures SpeaksOfCalls(m, passes)
  {
    var h := AllEvents(passes) + skips;
    forall r
      ensures r in Exec.FailedIds(m.failed) <==> CrashedOnce(passes, r)
      ensures r in m.completed <==> Finished(passes, r)
    {
      if r in m.selected {
        HistoryTells(passes, skips, r);
        ManifestTells(m, h, r);
      } else {
        ListedIsSelected(m, r);
        if ReturnedOnce(passes, r) || CrashedOnce(passes, r) { CalledMeansMentioned(passes, skips, r); }
      }
    }
  }

  /** Run the passes and build the manifest: it always exists. */
  method RunAndBuild(passes: seq<FindingPass>, policy: ResolvedPolicy, ctx: Context, revision: string)
    returns (manifest: Exec.Manifest, findings: seq<Finding>)
    ensures Exec.Partitions(manifest) && SpeaksOfCalls(manifest, passes)
    ensures forall r :: RequiresRule(Some(policy), r) ==> r in manifest.selected
    ensures findings == PassFindings(passes)
  {
    var recorder;
    recorder, findings := RunPasses(passes);
    var built, added := BuildAnalysisManifest(recorder, Some(policy), ctx, revision);
    manifest := built.value;
    ManifestSpeaksOfCalls(manifest, passes, SkipsOf(added, ctx));
  }

  // ---------------------------------------------------------------- the verdict in terms of the calls

  /** The rules alone are positive evidence: there are positive rules, and each was called to an end without a finding. */
  ghost predicate CallsPass(item: Item, mapped: seq<Mapped>, policy: ControlPolicy, passes: seq<FindingPass>) {
    && (exists r :: PositiveRule(item, policy, r))
    && forall r :: PositiveRule(item, policy, r) ==>
         && Finished(passes, r) && !HasFinding(mapped, r)
         && LedgerDefinition(item, r).Some? && IsDirect(LedgerDefinition(item, r).value)
         && LedgerDefinition(item, r).value.absence == ControlPass
  }

  /** Everything a pass rests on, in terms of what the rules did when they were called. */
  ghost predicate EarnedByCalls(item: Item, mapped: seq<Mapped>, native: seq<AnalyzerEvidence>, policy: ControlPolicy,
                                passes: seq<FindingPass>)
  {
    && item.status.FullCoverage?
    && (policy.disposition.Required? || policy.disposition.Advisory?)
    && (forall r :: r in policy.requiredRuleIds ==> Finished(passes, r))
    && OnlyRelated(item, mapped)
    && NothingAgainst(native)
    && (CallsPass(item, mapped, policy, passes) || NativeControlPass(native))
  }

  lemma EarnedIsByCalls(item: Item, mapped: seq<Mapped>, manifest: Exec.Manifest, native: seq<AnalyzerEvidence>,
                        policy: ControlPolicy, passes: seq<FindingPass>)
    requires Exec.Partitions(manifest) && SpeaksOfCalls(manifest, passes)
    ensures Earned(item, mapped, manifest, native, policy) <==> EarnedByCalls(item, mapped, native, policy, passes)
  {
    assert RulesPass(item, mapped, manifest, policy) <==> CallsPass(item, mapped, policy, passes);
    assert AllCompleted(manifest, policy) <==> forall r :: r in policy.requiredRuleIds ==> Finished(passes, r);
  }

  lemma NativeIgnoresOrder(a: seq<AnalyzerEvidence>, b: seq<AnalyzerEvidence>)
    requires multiset(a) == multiset(b)
    ensures NothingAgainst(a) == NothingAgainst(b) && NativeControlPass(a) == NativeControlPass(b)
  {
    Lists.SameMembers(a, b);
  }

  /**
   * From rule calls to verdict: run the passes, build the manifest, apply a suppression file, assess one control of
   * the policy. The control passes if and only if the pass is earned by the calls, with the findings as the
   * suppressions leave them and the analyzer records as they came.
   */
  method RunAndAssess(passes: seq<FindingPass>, entries: seq<Suppression>, locate: Locator, records: seq<ControlRecord>,
                      policy: ResolvedPolicy, ctx: Context, revision: string, targetId: string, source: ResolvedSource,
                      control: ControlPolicy, item: Item)
    returns (c: ControlAssessment, retained: seq<Retained>, manifest: Exec.Manifest, ghost obs: Observations)
    requires source in policy.sources && control in source.controls
    requires EvidenceValid(item, ctx.catalog)
    ensures BuiltFor(manifest, control) && SpeaksOfCalls(manifest, passes)
    ensures obs == AfterSplit(Observations(PassFindings(passes), [], records, manifest), HitBy(entries, locate))
    ensures IsAssessment(c, retained, obs, targetId, source.sourceId, item, control)
    ensures c.status == Pass <==>
      EarnedByCalls(item, AllMapped(obs, item), AllNativeEvidence(records, targetId, item), control, passes)
    ensures c.status == Fail <==> !control.disposition.NotApplicable? && Against(obs, item)
    ensures c.status == Indeterminate <==>
      && !control.disposition.NotApplicable? && !Against(obs, item)
      && (UndecidedRecord(obs, item) || exists r :: r in control.requiredRuleIds && !Finished(passes, r))
  {
    var findings;
    manifest, findings := RunAndBuild(passes, policy, ctx, revision);
    forall r | r in control.requiredRuleIds ensures r in manifest.selected {
      assert RequiresRule(Some(policy), r);
    }
    var result := new AnalysisResult(findings, []);
    result.ApplySuppressions(entries, locate);
    var seen := Observations(result.findings, result.suppressed, records, manifest);
    obs := seen;
    c, retained := AssessSingleControl(seen, targetId, source.sourceId, item, control);
    PassIsEarnedByCalls(obs, targetId, item, ctx.catalog, control, passes);
    StatusExactly(c, retained, obs, targetId, source.sourceId, item, control);
    MissedByCalls(obs, control, passes);
  }

  /** A required rule failed or was skipped exactly when it was not called to an end. */
  lemma MissedByCalls(obs: Observations, policy: ControlPolicy, passes: seq<FindingPass>)
    requires BuiltFor(obs.manifest, policy) && SpeaksOfCalls(obs.manifest, passes)
    ensures RequiredRuleMissed(obs, policy) <==> exists r :: r in policy.requiredRuleIds && !Finished(passes, r)
  {
    var m := obs.manifest;
    forall r | r in policy.requiredRuleIds
      ensures !Finished(passes, r) <==> (exists f :: f in m.failed && f.ruleId == r) || exists s :: s in m.skipped && s.ruleId == r
    {
      assert r in multiset(m.selected);
      assert r in m.completed || r in Exec.SkippedIds(m.skipped) || r in Exec.FailedIds(m.failed);
      Exec.FailedIdsMembership(m.failed, r);
      Exec.SkippedIdsMembership(m.skipped, r);
    }
  }

  lemma PassYields(p: FindingPass, f: Finding)
    ensures f in RunFindings(p, Runnable(p.entries, p.requested)) <==> YieldsSome(p, f)
  {
    PassTells(p, true);
    if e :| e in p.entries && Calls(p, e) && p.invoke(e).Returned? && f in p.invoke(e).findings {
      var k :| 0 <= k < |p.entries| && p.entries[k] == e;
      assert Called(p, k) && Yields(p, k, f);
    }
    if k :| Called(p, k) && Yields(p, k, f) { assert Calls(p, p.entries[k]); }
  }

  /** The findings of an analysis are those its returning calls returned. */
  lemma {:induction false} FindingsTell(passes: seq<FindingPass>, f: Finding)
    ensures f in PassFindings(passes) <==> exists i :: 0 <= i < |passes| && YieldsSome(passes[i], f)
  {
    if passes != [] {
      var n := |passes| - 1;
      FindingsTell(passes[..n], f);
      PassYields(passes[n], f);
      assert forall i :: 0 <= i < n ==> passes[..n][i] == passes[i];
    }
  }

  ghost predicate YieldsSome(p: FindingPass, f: Finding) {
    exists k :: Called(p, k) && Yields(p, k, f)
  }

  ghost predicate Yields(p: FindingPass, k: int, f: Finding) {
    0 <= k < |p.entries| && p.invoke(p.entries[k]).Returned? && f in p.invoke(p.entries[k]).findings
  }

  lemma PassIsEarnedByCalls(obs: Observations, targetId: string, item: Item, catalog: map<string, RuleMeta>, policy: ControlPolicy,
                            passes: seq<FindingPass>)
    requires EvidenceValid(item, catalog) && BuiltFor(obs.manifest, policy) && SpeaksOfCalls(obs.manifest, passes)
    ensures var native := AllNativeEvidence(obs.records, targetId, item);
            StatusOf(item, AllMapped(obs, item), obs.manifest, Ordering.SortBy(native, NativeKey), policy) == Pass
            <==> EarnedByCalls(item, AllMapped(obs, item), native, policy, passes)
  {
    var native := AllNativeEvidence(obs.records, targetId, item);
    var sorted := Ordering.SortBy(native, NativeKey);
    Ordering.SortByKeeps(native, NativeKey);
    NativeIgnoresOrder(native, sorted);
    PassExactlyWhenEarned(item, catalog, AllMapped(obs, item), obs.manifest, sorted, policy);
    EarnedIsByCalls(item, AllMapped(obs, item), obs.manifest, sorted, policy, passes);
  }
}
