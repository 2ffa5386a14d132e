/** `_assess_single_control` step by step, proved against the declarative reading in `Assessment`. */
module AssessmentEngine {
  import opened Prelude
  import opened Ordering
  import opened RuleRegistry
  import opened CoverageLedger
  import opened AuditPolicy
  import opened Assessment
  import Exec = ExecutionManifest
  import Lists

  /** The dictionary of definitions in force for an item and the findings mapped so far. */
  ghost predicate Defines(defs: map<string, Definition>, item: Item, mapped: seq<Mapped>) {
    && (forall r :: r in defs <==> DefinitionOf(item, mapped, r).Some?)
    && (forall r :: r in defs ==> defs[r] == DefinitionOf(item, mapped, r).value)
  }

  method RuleDefinitions(item: Item) returns (defs: map<string, Definition>)
    ensures Defines(defs, item, [])
  {
    defs := map[];
    for i := 0 to |item.ruleIds|
      invariant forall r :: r in defs <==> r in item.ruleIds[..i] && LedgerDefinition(item, r).Some?
      invariant forall r :: r in defs ==> defs[r] == LedgerDefinition(item, r).value
    {
      var ruleId := item.ruleIds[i];
      assert item.ruleIds[..i + 1] == item.ruleIds[..i] + [ruleId];
      var entry := Explicit(item.assessmentRules, ruleId);
      if entry.Some? {
        defs := defs[ruleId := Definition(entry.value.strength, entry.value.origin, entry.value.absence, entry.value.facets)];
      } else {
        var claim := FirstClaim(item.claims, item, ruleId);
        if claim.Some? {
          defs := defs[ruleId := Definition(claim.value.strength, claim.value.origin, NoSemantics, [])];
        }
      }
    }
    Lists.Whole(item.ruleIds);
  }

  lemma {:induction false} FirstMappedSnoc(mapped: seq<Mapped>, m: Mapped, ruleId: string)
    ensures FirstMapped(mapped + [m], ruleId) ==
      if FirstMapped(mapped, ruleId).Some? then FirstMapped(mapped, ruleId)
      else if m.ruleId == ruleId then Some(m) else None
  {
    if mapped == [] {
      assert mapped + [m] == [m];
    } else {
      FirstMappedSnoc(mapped[1..], m, ruleId);
      Lists.TailOfConcat(mapped, [m]);
    }
  }

  /** Findings of rules the ledger does not know bring their own mapping; the first one decides. */
  method SetDefaults(defs: map<string, Definition>, mapped: seq<Mapped>, ghost item: Item, ghost done: seq<Mapped>)
    returns (defs': map<string, Definition>)
    requires Defines(defs, item, done)
    ensures Defines(defs', item, done + mapped)
  {
    defs' := defs;
    assert done + mapped[..0] == done;
    for i := 0 to |mapped|
      invariant Defines(defs', item, done + mapped[..i])
    {
      var m := mapped[i];
      Lists.PrefixSnoc(mapped, i);
      Lists.Assoc(done, mapped[..i], [m]);
      forall r ensures FirstMapped(done + mapped[..i + 1], r) ==
        if FirstMapped(done + mapped[..i], r).Some? then FirstMapped(done + mapped[..i], r)
        else if m.ruleId == r then Some(m) else None
      {
        FirstMappedSnoc(done + mapped[..i], m, r);
      }
      if m.ruleId !in defs' {
        defs' := defs'[m.ruleId := Definition(m.strength, m.origin, NoSemantics, [])];
      }
    }
    Lists.Whole(mapped);
  }

  method MapFindings(findings: seq<Finding>, item: Item) returns (mapped: seq<Mapped>)
    ensures mapped == MappedFindings(findings, item)
  {
    mapped := [];
    for i := 0 to |findings|
      invariant mapped + MappedFindings(findings[i..], item) == MappedFindings(findings, item)
    {
      Lists.DropHead(findings, i);
      var own := MappedFinding(findings[i].ruleId, findings[i].fingerprint, findings[i], item);
      Lists.Assoc(mapped, own, MappedFindings(findings[i + 1..], item));
      mapped := mapped + own;
    }
  }

  method MapSuppressed(records: seq<SuppressedRecord>, item: Item) returns (mapped: seq<Mapped>)
    ensures mapped == MappedSuppressed(records, item)
  {
    mapped := [];
    for i := 0 to |records|
      invariant mapped + MappedSuppressed(records[i..], item) == MappedSuppressed(records, item)
    {
      Lists.DropHead(records, i);
      var own := MappedFinding(records[i].ruleId, records[i].fingerprint, records[i].finding, item);
      Lists.Assoc(mapped, own, MappedSuppressed(records[i + 1..], item));
      mapped := mapped + own;
    }
  }

  method MapAnalyzerEvidence(records: seq<ControlRecord>, targetId: string, item: Item) returns (evidence: seq<AnalyzerEvidence>)
    ensures evidence == SortBy(AllNativeEvidence(records, targetId, item), NativeKey)
  {
    evidence := [];
    for i := 0 to |records|
      invariant evidence + AllNativeEvidence(records[i..], targetId, item) == AllNativeEvidence(records, targetId, item)
    {
      Lists.DropHead(records, i);
      var own := NativeEvidence(records[i], targetId, item);
      Lists.Assoc(evidence, own, AllNativeEvidence(records[i + 1..], targetId, item));
      evidence := evidence + own;
    }
    assert evidence == AllNativeEvidence(records, targetId, item);
    evidence := SortBy(evidence, NativeKey);
  }

  lemma {:induction false} FingerprintsTell(mapped: seq<Mapped>, ruleId: string)
    ensures Fingerprints(mapped, ruleId) != [] <==> HasFinding(mapped, ruleId)
  {
    if mapped != [] {
      FingerprintsTell(mapped[1..], ruleId);
      assert mapped == [mapped[0]] + mapped[1..];
      assert mapped[0] in mapped;
      if m :| m in mapped[1..] && m.ruleId == ruleId { assert m in mapped; }
    }
  }

  lemma {:induction false} FirstMappedTells(mapped: seq<Mapped>, ruleId: string)
    ensures FirstMapped(mapped, ruleId).Some? <==> HasFinding(mapped, ruleId)
    ensures FirstMapped(mapped, ruleId).Some? ==>
      FirstMapped(mapped, ruleId).value in mapped && FirstMapped(mapped, ruleId).value.ruleId == ruleId
  {
    if mapped != [] {
      FirstMappedTells(mapped[1..], ruleId);
      assert mapped == [mapped[0]] + mapped[1..];
      assert mapped[0] in mapped;
      if m :| m in mapped[1..] && m.ruleId == ruleId { assert m in mapped; }
    }
  }

  lemma FindingIdsTell(active: seq<Mapped>, suppressed: seq<Mapped>, ruleId: string)
    ensures FindingIds(active, suppressed, ruleId) != [] <==> HasFinding(active + suppressed, ruleId)
  {
    var ids := Fingerprints(active, ruleId) + Fingerprints(suppressed, ruleId);
    SortByKeeps(ids, (x: string) => [x]);
    assert |multiset(FindingIds(active, suppressed, ruleId))| == |multiset(ids)|;
    FingerprintsTell(active, ruleId);
    FingerprintsTell(suppressed, ruleId);
    assert forall m :: m in active + suppressed <==> m in active || m in suppressed;
  }

  /** The mapped findings and the run they are read against. */
  datatype Case = Case(active: seq<Mapped>, suppressed: seq<Mapped>, manifest: Exec.Manifest, targetId: string)

  /** What the walk over the definitions collects. */
  datatype Tally = Tally(
    directNegative: bool, partialNegative: bool, controlPass: set<string>, facetPass: set<string>,
    evidence: seq<AssessmentEvidence>)

  /** One turn of the walk. */
  function Step(t: Tally, ruleId: string, d: Definition, cs: Case): Tally {
    var ids := FindingIds(cs.active, cs.suppressed, ruleId);
    var clean := ruleId in cs.manifest.completed && ids == [];
    var entry := Entry(d, cs.active, cs.suppressed, cs.manifest, cs.targetId, ruleId);
    Tally(
      t.directNegative || (IsDirect(d) && ids != []),
      t.partialNegative || (!IsDirect(d) && ids != [] && (d.strength == Partial || d.origin == Derived)),
      if clean && d.absence == ControlPass then t.controlPass + {ruleId} else t.controlPass,
      if clean && d.absence == FacetPass then t.facetPass + {ruleId} else t.facetPass,
      if entry.Some? then t.evidence + [entry.value] else t.evidence)
  }

  ghost function Walk(rules: seq<string>, defs: map<string, Definition>, cs: Case): Tally
    requires forall r :: r in rules ==> r in defs
  {
    if rules == [] then Tally(false, false, {}, {}, [])
    else
      var n := |rules| - 1;
      assert rules[n] in rules && forall r :: r in rules[..n] ==> r in rules;
      Step(Walk(rules[..n], defs, cs), rules[n], defs[rules[n]], cs)
  }

  method WalkDefinitions(defs: map<string, Definition>, cs: Case) returns (t: Tally, ghost order: seq<string>)
    ensures Increasing(order) && forall r :: r in order <==> r in defs
    ensures t == Walk(order, defs, cs)
  {
    var keys := SortSet(defs.Keys);
    order := keys;
    t := Tally(false, false, {}, {}, []);
    for i := 0 to |keys|
      invariant t == Walk(keys[..i], defs, cs)
    {
      assert keys[i] in keys;
      Lists.PrefixOfPrefix(keys, i);
      t := Step(t, keys[i], defs[keys[i]], cs);
    }
    Lists.Whole(keys);
  }

  lemma {:induction false} WalkFlags(rules: seq<string>, defs: map<string, Definition>, cs: Case)
    requires forall r :: r in rules ==> r in defs
    ensures Walk(rules, defs, cs).directNegative <==>
      exists r :: r in rules && FindingIds(cs.active, cs.suppressed, r) != [] && IsDirect(defs[r])
    ensures Walk(rules, defs, cs).partialNegative <==>
      exists r :: r in rules && FindingIds(cs.active, cs.suppressed, r) != [] && IsPartial(defs[r])
  {
    if rules != [] {
      var n := |rules| - 1;
      assert rules == rules[..n] + [rules[n]];
      WalkFlags(rules[..n], defs, cs);
    }
  }

  lemma {:induction false} WalkControlPasses(rules: seq<string>, defs: map<string, Definition>, cs: Case, r: string)
    requires forall q :: q in rules ==> q in defs
    ensures r in Walk(rules, defs, cs).controlPass <==>
      r in rules && defs[r].absence == ControlPass && r in cs.manifest.completed && FindingIds(cs.active, cs.suppressed, r) == []
  {
    if rules != [] {
      var n := |rules| - 1;
      assert rules == rules[..n] + [rules[n]];
      WalkControlPasses(rules[..n], defs, cs, r);
    }
  }

  lemma {:induction false} WalkFacetPasses(rules: seq<string>, defs: map<string, Definition>, cs: Case, r: string)
    requires forall q :: q in rules ==> q in defs
    ensures r in Walk(rules, defs, cs).facetPass <==>
      r in rules && defs[r].absence == FacetPass && r in cs.manifest.completed && FindingIds(cs.active, cs.suppressed, r) == []
  {
    if rules != [] {
      var n := |rules| - 1;
      assert rules == rules[..n] + [rules[n]];
      WalkFacetPasses(rules[..n], defs, cs, r);
    }
  }

  function EntryOf(defs: map<string, Definition>, cs: Case, ruleId: string): Option<AssessmentEvidence> {
    if ruleId !in defs then None else Entry(defs[ruleId], cs.active, cs.suppressed, cs.manifest, cs.targetId, ruleId)
  }

  lemma WalkStep(rules: seq<string>, defs: map<string, Definition>, cs: Case)
    requires rules != [] && forall r :: r in rules ==> r in defs
    ensures var n := |rules| - 1;
            var before, entry := Walk(rules[..n], defs, cs).evidence, EntryOf(defs, cs, rules[n]);
            && (entry.Some? ==> entry.value.ruleId == rules[n])
            && Walk(rules, defs, cs).evidence == if entry.None? then before else before + [entry.value]
  {
  }

  lemma {:induction false} WalkEntries(rules: seq<string>, defs: map<string, Definition>, cs: Case)
    requires forall r :: r in rules ==> r in defs
    ensures forall e :: e in Walk(rules, defs, cs).evidence <==> e.ruleId in rules && EntryOf(defs, cs, e.ruleId) == Some(e)
  {
    if rules != [] {
      var n := |rules| - 1;
      assert rules == rules[..n] + [rules[n]];
      WalkEntries(rules[..n], defs, cs);
      WalkStep(rules, defs, cs);
    }
  }

  lemma {:induction false} WalkKeepsOrder(rules: seq<string>, defs: map<string, Definition>, cs: Case)
    requires Increasing(rules) && forall r :: r in rules ==> r in defs
    ensures forall i, j :: 0 <= i < j < |Walk(rules, defs, cs).evidence| ==>
      Less(Walk(rules, defs, cs).evidence[i].ruleId, Walk(rules, defs, cs).evidence[j].ruleId)
  {
    if rules != [] {
      var n := |rules| - 1;
      WalkKeepsOrder(rules[..n], defs, cs);
      WalkEntries(rules[..n], defs, cs);
      WalkStep(rules, defs, cs);
      forall e | e in Walk(rules[..n], defs, cs).evidence ensures Less(e.ruleId, rules[n]) {
        var k :| 0 <= k < n && rules[..n][k] == e.ruleId;
        assert rules[k] == e.ruleId;
      }
    }
  }

  lemma WalkReadsFlags(t: Tally, order: seq<string>, defs: map<string, Definition>, item: Item, cs: Case)
    requires Defines(defs, item, cs.active + cs.suppressed)
    requires (forall r :: r in order <==> r in defs) && t == Walk(order, defs, cs)
    ensures t.directNegative <==> DirectNegative(item, cs.active + cs.suppressed)
    ensures t.partialNegative <==> PartialNegative(item, cs.active + cs.suppressed)
  {
    var mapped := cs.active + cs.suppressed;
    WalkFlags(order, defs, cs);
    forall r ensures FindingIds(cs.active, cs.suppressed, r) != [] <==> HasFinding(mapped, r) {
      FindingIdsTell(cs.active, cs.suppressed, r);
    }
    assert forall m :: m in mapped ==> HasFinding(mapped, m.ruleId);
  }

  lemma WalkReadsPasses(t: Tally, order: seq<string>, defs: map<string, Definition>, item: Item, cs: Case)
    requires Defines(defs, item, cs.active + cs.suppressed)
    requires (forall r :: r in order <==> r in defs) && t == Walk(order, defs, cs)
    ensures forall r :: r in t.controlPass <==> Clean(item, cs.active + cs.suppressed, cs.manifest, r, ControlPass)
    ensures forall r :: r in t.facetPass <==> Clean(item, cs.active + cs.suppressed, cs.manifest, r, FacetPass)
    ensures t.controlPass != {} <==> SomeClean(item, cs.active + cs.suppressed, cs.manifest, ControlPass)
    ensures t.facetPass != {} <==> SomeClean(item, cs.active + cs.suppressed, cs.manifest, FacetPass)
  {
    var mapped := cs.active + cs.suppressed;
    forall r
      ensures r in t.controlPass <==> Clean(item, mapped, cs.manifest, r, ControlPass)
      ensures r in t.facetPass <==> Clean(item, mapped, cs.manifest, r, FacetPass)
    {
      WalkControlPasses(order, defs, cs, r);
      WalkFacetPasses(order, defs, cs, r);
      FindingIdsTell(cs.active, cs.suppressed, r);
    }
  }

  lemma WalkReadsEvidence(t: Tally, order: seq<string>, defs: map<string, Definition>, item: Item, cs: Case)
    requires Defines(defs, item, cs.active + cs.suppressed)
    requires Increasing(order) && (forall r :: r in order <==> r in defs) && t == Walk(order, defs, cs)
    ensures IsEvidenceList(t.evidence, item, cs.active, cs.suppressed, cs.manifest, cs.targetId)
  {
    WalkEntries(order, defs, cs);
    WalkKeepsOrder(order, defs, cs);
    forall r ensures EntryOf(defs, cs, r) == EvidenceFor(item, cs.active, cs.suppressed, cs.manifest, cs.targetId, r) {}
  }

  // ---------------------------------------------------------------- missing evidence

  lemma {:induction false} SkipReasonTells(skipped: seq<Exec.SkippedRule>, ruleId: string)
    ensures SkipReasonOf(skipped, ruleId).Some? <==> ruleId in Exec.SkippedIds(skipped)
  {
    if skipped != [] {
      SkipReasonTells(skipped[1..], ruleId);
      assert Exec.SkippedIds(skipped) == [skipped[0].ruleId] + Exec.SkippedIds(skipped[1..]);
    }
  }

  /** The source's reading of one required rule, by dictionary lookups. */
  method OwedRule(defs: map<string, Definition>, item: Item, cs: Case, ruleId: string) returns (owed: Option<MissingReason>)
    requires Defines(defs, item, cs.active + cs.suppressed)
    ensures owed == Owed(item, cs.active + cs.suppressed, cs.manifest, ruleId)
  {
    var manifest := cs.manifest;
    SkipReasonTells(manifest.skipped, ruleId);
    FindingIdsTell(cs.active, cs.suppressed, ruleId);
    FirstMappedTells(cs.active + cs.suppressed, ruleId);
    if ruleId in Exec.FailedIds(manifest.failed) {
      owed := Some(ExecutionFailed);
    } else if ruleId in Exec.SkippedIds(manifest.skipped) {
      owed := Some(SkipAsMissing(SkipReasonOf(manifest.skipped, ruleId).value));
    } else if ruleId !in manifest.selected {
      owed := Some(NotSelected);
    } else if ruleId in manifest.completed && FindingIds(cs.active, cs.suppressed, ruleId) == []
              && (ruleId in defs ==> defs[ruleId].absence == NoSemantics) {
      owed := Some(NoPassSemantics);
    } else {
      owed := None;
    }
  }

  lemma {:induction false} OwedBySnoc(item: Item, mapped: seq<Mapped>, manifest: Exec.Manifest, policy: ControlPolicy,
                                      rules: seq<string>, r: string)
    ensures OwedBy(item, mapped, manifest, policy, rules + [r]) == OwedBy(item, mapped, manifest, policy, rules)
      + (if Owed(item, mapped, manifest, r).Some?
         then [MissingEvidence(Some(r), policy.expectation, Owed(item, mapped, manifest, r).value)] else [])
  {
    if rules == [] {
      assert rules + [r] == [r];
    } else {
      OwedBySnoc(item, mapped, manifest, policy, rules[1..], r);
      Lists.TailOfConcat(rules, [r]);
    }
  }

  method CollectMissing(defs: map<string, Definition>, item: Item, cs: Case, policy: ControlPolicy)
    returns (missing: seq<MissingEvidence>)
    requires Defines(defs, item, cs.active + cs.suppressed)
    ensures missing == Missing(item, cs.active + cs.suppressed, cs.manifest, policy)
  {
    ghost var mapped := cs.active + cs.suppressed;
    var required := policy.requiredRuleIds;
    var owedAll: seq<MissingEvidence> := [];
    for i := 0 to |required|
      invariant owedAll == OwedBy(item, mapped, cs.manifest, policy, required[..i])
    {
      OwedBySnoc(item, mapped, cs.manifest, policy, required[..i], required[i]);
      Lists.PrefixSnoc(required, i);
      var owed := OwedRule(defs, item, cs, required[i]);
      if owed.Some? {
        owedAll := owedAll + [MissingEvidence(Some(required[i]), policy.expectation, owed.value)];
      }
    }
    Lists.Whole(required);
    missing := (if item.status.Uncovered? then [MissingEvidence(None, policy.expectation, LedgerUncovered)] else []) + owedAll;
    if policy.expectation.OperatorReview? {
      missing := missing + [MissingEvidence(if required != [] then Some(required[0]) else None,
                                            policy.expectation, OperatorEvidenceRequired)];
    }
  }

  // ---------------------------------------------------------------- the control

  function RetainedOf(mapped: seq<Mapped>): seq<Retained> {
    seq(|mapped|, i requires 0 <= i < |mapped| => Retained(mapped[i].ruleId, mapped[i].fingerprint))
  }

  /** The whole outcome for one control of one target. */
  ghost predicate IsAssessment(
      c: ControlAssessment, retained: seq<Retained>, obs: Observations, targetId: string, sourceId: string, item: Item,
      policy: ControlPolicy)
  {
    var active, suppressed := MappedFindings(obs.findings, item), MappedSuppressed(obs.suppressed, item);
    var mapped, native := active + suppressed, SortBy(AllNativeEvidence(obs.records, targetId, item), NativeKey);
    && c.sourceId == sourceId && c.itemId == item.itemId
    && c.ledgerStatus == item.status && c.disposition == policy.disposition
    && c.status == StatusOf(item, mapped, obs.manifest, native, policy)
    && IsEvidenceList(c.evidence, item, active, suppressed, obs.manifest, targetId)
    && c.analyzerEvidence == native
    && c.missing == (if policy.disposition.NotApplicable? then []
                     else SortBy(Missing(item, mapped, obs.manifest, policy), MissingKey))
    && c.issues == (if !policy.disposition.NotApplicable?
                       && (DirectNegative(item, mapped) || NativeDirectFail(native))
                       && (PassCandidate(item, mapped, obs.manifest, policy) || NativeControlPass(native))
                    then {"conflicting_evidence"} else {})
    && retained == (if policy.disposition.NotApplicable? then RetainedOf(mapped) else [])
  }

  lemma {:induction false} SortedStays(entries: seq<AssessmentEvidence>, targetId: string)
    requires forall i, j :: 0 <= i < j < |entries| ==> Less(entries[i].ruleId, entries[j].ruleId)
    requires forall e :: e in entries ==> e.targetId == targetId
    ensures SortBy(entries, EvidenceKey) == entries
  {
    forall i, j | 0 <= i < j < |entries| ensures !KeyLess(EvidenceKey(entries[j]), EvidenceKey(entries[i])) {
      LessIsTotal(targetId, targetId);
      LessIsTotal(entries[i].ruleId, entries[j].ruleId);
      assert entries[i] in entries && entries[j] in entries;
      assert EvidenceKey(entries[j])[1..][0] == entries[j].ruleId && EvidenceKey(entries[i])[1..][0] == entries[i].ruleId;
    }
    SortByKeeps(entries, EvidenceKey);
    SortedIsUnique(SortBy(entries, EvidenceKey), entries, EvidenceKey);
  }

  lemma CandidateIsSupporting(item: Item, mapped: seq<Mapped>, manifest: Exec.Manifest, policy: ControlPolicy)
    requires PassCandidate(item, mapped, manifest, policy)
    ensures SomeClean(item, mapped, manifest, ControlPass)
  {
    var r :| PositiveRule(item, policy, r);
    assert Clean(item, mapped, manifest, r, ControlPass);
  }

  method HasPassCandidate(controlPass: set<string>, defs: map<string, Definition>, item: Item, cs: Case, policy: ControlPolicy)
    returns (candidate: bool)
    requires Defines(defs, item, cs.active + cs.suppressed)
    requires forall r :: r in controlPass <==> Clean(item, cs.active + cs.suppressed, cs.manifest, r, ControlPass)
    ensures candidate <==> PassCandidate(item, cs.active + cs.suppressed, cs.manifest, policy)
  {
    var positive := if policy.requiredRuleIds != [] then set r | r in policy.requiredRuleIds
                    else set r | r in defs && defs[r].absence == ControlPass;
    assert policy.requiredRuleIds != [] ==> policy.requiredRuleIds[0] in positive;
    forall r ensures r in positive <==> PositiveRule(item, policy, r) {}
    candidate := positive != {} && positive <= controlPass;
    ghost var mapped := cs.active + cs.suppressed;
    assert positive <= controlPass <==> forall r :: PositiveRule(item, policy, r) ==> Clean(item, mapped, cs.manifest, r, ControlPass);
    assert positive != {} <==> exists r :: PositiveRule(item, policy, r) by {
      if positive != {} {
        var r :| r in positive;
        assert PositiveRule(item, policy, r);
      }
    }
  }

  /** The walk, the missing evidence and the signals of an applicable control. */
  method ReadSignals(defs: map<string, Definition>, item: Item, cs: Case, t: Tally, missing: seq<MissingEvidence>,
                     native: seq<AnalyzerEvidence>, policy: ControlPolicy, ghost order: seq<string>)
    returns (signals: Signals)
    requires Defines(defs, item, cs.active + cs.suppressed)
    requires (forall r :: r in order <==> r in defs) && t == Walk(order, defs, cs)
    requires missing == Missing(item, cs.active + cs.suppressed, cs.manifest, policy)
    ensures signals == SignalsOf(item, cs.active + cs.suppressed, cs.manifest, native, policy)
  {
    ghost var mapped := cs.active + cs.suppressed;
    WalkReadsFlags(t, order, defs, item, cs);
    WalkReadsPasses(t, order, defs, item, cs);
    var candidate := HasPassCandidate(t.controlPass, defs, item, cs, policy);
    if candidate { CandidateIsSupporting(item, mapped, cs.manifest, policy); }
    var blocked := exists m :: m in missing && Blocks(m.reason);
    signals := Signals(
      t.directNegative || NativeDirectFail(native),
      NativeDirectIndeterminate(native) || blocked,
      policy.disposition.Review? || item.status.PolicyReview?,
      t.partialNegative,
      candidate || NativeControlPass(native),
      t.facetPass != {} || t.controlPass != {} || NativeFacetPass(native) || NativeControlPass(native),
      item.status);
  }

  method AssessSingleControl(obs: Observations, targetId: string, sourceId: string, item: Item, policy: ControlPolicy)
    returns (c: ControlAssessment, retained: seq<Retained>)
    ensures IsAssessment(c, retained, obs, targetId, sourceId, item, policy)
  {
    var defs := RuleDefinitions(item);
    var active := MapFindings(obs.findings, item);
    var suppressed := MapSuppressed(obs.suppressed, item);
    defs := SetDefaults(defs, active, item, []);
    assert [] + active == active;
    defs := SetDefaults(defs, suppressed, item, active);
    var native := MapAnalyzerEvidence(obs.records, targetId, item);
    var cs := Case(active, suppressed, obs.manifest, targetId);
    var t, order := WalkDefinitions(defs, cs);
    WalkReadsEvidence(t, order, defs, item, cs);
    if policy.disposition.NotApplicable? {
      c := ControlAssessment(sourceId, item.itemId, item.status, policy.disposition, OutOfScope, t.evidence, native, [], {});
      return c, RetainedOf(active + suppressed);
    }
    var missing := CollectMissing(defs, item, cs, policy);
    var signals := ReadSignals(defs, item, cs, t, missing, native, policy, order);
    SortedStays(t.evidence, targetId);
    c := ControlAssessment(
      sourceId, item.itemId, item.status, policy.disposition, Decide(signals),
      SortBy(t.evidence, EvidenceKey), native, SortBy(missing, MissingKey),
      if signals.directFail && signals.passing then {"conflicting_evidence"} else {});
    retained := [];
  }
}
