/** What an inventory record is worth to the assessment of a control. */
module InventoryTheorems {
  import opened Prelude
  import opened RuleRegistry
  import opened CoverageLedger
  import opened AuditPolicy
  import opened Assessment
  import opened AssessmentTheorems
  import T = TlsInventory
  import Exec = ExecutionManifest

  /** The native evidence of an inventory record never passes on incomplete grounds. */
  lemma InventoryPassIsComplete(record: ControlRecord, inventory: T.Inventory, probes: seq<T.Probe>, matches: T.NameMatch,
                                dimensions: T.Dimensions, targetId: string, item: Item)
    requires |probes| == |inventory.entries| && T.RecordOf(record, inventory, probes, matches, dimensions)
    ensures forall e :: e in NativeEvidence(record, targetId, item) ==> !IncompletePass(e)
    ensures !NativeDirectIndeterminate(NativeEvidence(record, targetId, item)) || record.status.NativeIndeterminate?
  {
  }

  /** The ledger item takes the inventory as declared direct evidence with control-pass semantics. */
  predicate TakesInventory(item: Item) {
    var c := ControlMapping(item.assessmentControls, T.CONTROL_ID);
    c.Some? && c.value.strength == Direct && c.value.origin == Declared && c.value.absence == ControlPass
  }

  /**
   * A control assessed with an inventory record among any other analyzer records: it passes exactly when the item is
   * fully covered, the policy asks for it, its required rules completed, no finding and no other record speaks
   * against it, the probes bear the inventory out, and something is positive: its rules, another record, or an
   * inventory that applies.
   */
  lemma PassWithInventory(record: ControlRecord, inventory: T.Inventory, probes: seq<T.Probe>, matches: T.NameMatch,
                          dimensions: T.Dimensions, targetId: string, item: Item, catalog: map<string, RuleMeta>,
                          mapped: seq<Mapped>, manifest: Exec.Manifest, policy: ControlPolicy,
                          before: seq<AnalyzerEvidence>, after: seq<AnalyzerEvidence>)
    requires |probes| == |inventory.entries| && T.RecordOf(record, inventory, probes, matches, dimensions)
    requires TakesInventory(item) && EvidenceValid(item, catalog) && BuiltFor(manifest, policy)
    ensures StatusOf(item, mapped, manifest, before + NativeEvidence(record, targetId, item) + after, policy) == Pass <==>
              && item.status.FullCoverage?
              && (policy.disposition.Required? || policy.disposition.Advisory?)
              && AllCompleted(manifest, policy)
              && OnlyRelated(item, mapped)
              && NothingAgainst(before + after)
              && T.Sound(inventory, probes, matches, dimensions)
              && (|| RulesPass(item, mapped, manifest, policy)
                  || NativeControlPass(before + after)
                  || !T.NothingApplies(inventory))
  {
    var native := before + NativeEvidence(record, targetId, item) + after;
    var own := NativeEvidence(record, targetId, item)[0];
    PassExactlyWhenEarned(item, catalog, mapped, manifest, native, policy);
    assert forall e :: e in native <==> e in before + after || e == own;
    InventorySpeaks(record, inventory, probes, matches, dimensions, targetId, item);
    assert NothingAgainst(native) <==> NothingAgainst(before + after) && T.Sound(inventory, probes, matches, dimensions);
    assert NativeControlPass(native) <==>
      NativeControlPass(before + after) || T.Verified(inventory, probes, matches, dimensions);
  }

  /** What the evidence of an inventory record says to the assessment. */
  lemma InventorySpeaks(record: ControlRecord, inventory: T.Inventory, probes: seq<T.Probe>, matches: T.NameMatch,
                        dimensions: T.Dimensions, targetId: string, item: Item)
    requires |probes| == |inventory.entries| && T.RecordOf(record, inventory, probes, matches, dimensions)
    requires TakesInventory(item)
    ensures var own := NativeEvidence(record, targetId, item)[0];
            && NativeEvidence(record, targetId, item) == [own]
            && DirectlyMapped(own) && own.absence == ControlPass && !IncompletePass(own)
            && (own.status.NativePass? <==> T.Verified(inventory, probes, matches, dimensions))
            && (own.status.NativeFail? || own.status.NativeIndeterminate?
                <==> !T.Sound(inventory, probes, matches, dimensions))
  {
    InventoryPassIsComplete(record, inventory, probes, matches, dimensions, targetId, item);
  }

  /**
   * Where neither a rule nor another record can make the control pass, the pass rests on the inventory: everything
   * else as before, and the inventory is verified by the probes themselves.
   */
  lemma PassRestsOnInventory(record: ControlRecord, inventory: T.Inventory, probes: seq<T.Probe>, matches: T.NameMatch,
                             dimensions: T.Dimensions, targetId: string, item: Item, catalog: map<string, RuleMeta>,
                             mapped: seq<Mapped>, manifest: Exec.Manifest, policy: ControlPolicy,
                             before: seq<AnalyzerEvidence>, after: seq<AnalyzerEvidence>)
    requires |probes| == |inventory.entries| && T.RecordOf(record, inventory, probes, matches, dimensions)
    requires TakesInventory(item) && EvidenceValid(item, catalog) && BuiltFor(manifest, policy)
    requires (forall r :: !ControlPassRule(item, r)) && !NativeControlPass(before + after)
    ensures StatusOf(item, mapped, manifest, before + NativeEvidence(record, targetId, item) + after, policy) == Pass <==>
              && item.status.FullCoverage?
              && (policy.disposition.Required? || policy.disposition.Advisory?)
              && AllCompleted(manifest, policy)
              && OnlyRelated(item, mapped)
              && NothingAgainst(before + after)
              && T.Verified(inventory, probes, matches, dimensions)
  {
    PassWithInventory(record, inventory, probes, matches, dimensions, targetId, item, catalog, mapped, manifest, policy,
                      before, after);
    if r :| PositiveRule(item, policy, r) { assert !ControlPassRule(item, r); }
  }

  /** A finding against a required dimension of the inventory fails every required or advisory control that takes it directly. */
  lemma InventoryFindingFails(record: ControlRecord, inventory: T.Inventory, probes: seq<T.Probe>, matches: T.NameMatch,
                              dimensions: T.Dimensions, targetId: string, item: Item, mapped: seq<Mapped>,
                              manifest: Exec.Manifest, others: seq<AnalyzerEvidence>, policy: ControlPolicy, k: nat, f: Finding)
    requires |probes| == |inventory.entries| && T.RecordOf(record, inventory, probes, matches, dimensions)
    requires TakesInventory(item) && !policy.disposition.NotApplicable?
    requires k < |probes| && f in probes[k].findings && f.ruleId in dimensions && dimensions[f.ruleId] in inventory.required
    ensures StatusOf(item, mapped, manifest, others + NativeEvidence(record, targetId, item), policy) == Fail
  {
    var native := NativeEvidence(record, targetId, item);
    assert native[0] in others + native && DirectlyMapped(native[0]) && native[0].status.NativeFail?;
  }
}
