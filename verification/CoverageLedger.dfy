/** The coverage ledger: counted items with their declared evidence, and the validator checks that the
    assessment relies on. */
module CoverageLedger {
  import opened Prelude
  import opened RuleRegistry
  import Lists

  datatype CoverageStatus = FullCoverage | PartialCoverage | PolicyReview | Uncovered | Excluded
  datatype Absence = NoSemantics | FacetPass | ControlPass

  datatype ControlReference = ControlReference(standard: string, reference: string, grouped: seq<string>)
  datatype Claim = Claim(ruleId: string, standard: string, reference: string, strength: Strength, origin: Origin)
  datatype AssessableRule = AssessableRule(
    ruleId: string, strength: Strength, origin: Origin, absence: Absence, facets: seq<string>)
  datatype AssessableControl = AssessableControl(
    controlId: string, strength: Strength, origin: Origin, absence: Absence)

  datatype Item = Item(
    itemId: string,
    references: seq<ControlReference>,
    applicable: bool,
    status: CoverageStatus,
    ruleIds: seq<string>,
    claims: seq<Claim>,
    assessmentRules: seq<AssessableRule>,
    assessmentControls: seq<AssessableControl>,
    evidenceKinds: set<string>)

  datatype Source = Source(sourceId: string, items: seq<Item>)

  predicate Matches(item: Item, standard: string, reference: string) {
    exists c :: c in item.references && c.standard == standard && (c.reference == reference || reference in c.grouped)
  }

  // ---------------------------------------------------------------- item validation

  datatype LedgerIssue =
    | RegistryReferenceMismatch(ruleId: string)
    | RegistryReferenceMissing(missingRuleId: string)
    | AssessmentControlInvalid(controlId: string)
    | UncoveredItemHasEvidence
    | DuplicateSourceId(sourceId: string)
    | DuplicateItemId(itemId: string)

  /** Some claim of the counted item backs this rule with this strength and origin. */
  predicate Backed(item: Item, ruleId: string, strength: Strength, origin: Origin) {
    exists c :: c in item.claims && c.ruleId == ruleId && c.strength == strength && c.origin == origin
                && Matches(item, c.standard, c.reference)
  }

  predicate Claimed(item: Item, ruleId: string) {
    exists c :: c in item.claims && c.ruleId == ruleId && Matches(item, c.standard, c.reference)
  }

  function Note(defect: bool, issue: LedgerIssue): seq<LedgerIssue> {
    if defect then [issue] else []
  }

  /** The checks on one assessment rule that is not a repetition. */
  function AssessmentRuleIssues(item: Item, catalog: map<string, RuleMeta>, entry: AssessableRule): seq<LedgerIssue> {
    var issue := RegistryReferenceMismatch(entry.ruleId);
    Note(entry.ruleId !in item.ruleIds, issue) +
    if !Backed(item, entry.ruleId, entry.strength, entry.origin) then [issue]
    else
      Note(entry.origin == Derived && entry.absence != NoSemantics, issue) +
      Note(entry.strength == Related && entry.absence != NoSemantics, issue) +
      Note(entry.ruleId in catalog && "policy-review" in catalog[entry.ruleId].tags && entry.absence != NoSemantics, issue) +
      Note(entry.absence == ControlPass && !(entry.strength == Direct && entry.origin == Declared), issue)
  }

  function AssessmentControlIssues(entry: AssessableControl): seq<LedgerIssue> {
    var issue := AssessmentControlInvalid(entry.controlId);
    Note(entry.origin == Derived && entry.absence != NoSemantics, issue) +
    Note(entry.strength == Related && entry.absence != NoSemantics, issue) +
    Note(entry.absence == ControlPass && !(entry.strength == Direct && entry.origin == Declared), issue)
  }

  /** Pass semantics are only ever claimed for declared, unrelated mappings, and full pass semantics only
      for declared direct ones. */
  ghost predicate Disciplined(strength: Strength, origin: Origin, absence: Absence) {
    && (absence != NoSemantics ==> origin == Declared && strength != Related)
    && (absence == ControlPass ==> strength == Direct)
  }

  ghost predicate RuleValid(item: Item, catalog: map<string, RuleMeta>, e: AssessableRule) {
    && e.ruleId in item.ruleIds
    && Backed(item, e.ruleId, e.strength, e.origin)
    && Disciplined(e.strength, e.origin, e.absence)
    && (e.ruleId in catalog && "policy-review" in catalog[e.ruleId].tags ==> e.absence == NoSemantics)
  }

  ghost predicate RulesValid(rules: seq<AssessableRule>, item: Item, catalog: map<string, RuleMeta>) {
    && (forall i, j :: 0 <= i < j < |rules| ==> rules[i].ruleId != rules[j].ruleId)
    && (forall i :: 0 <= i < |rules| ==> RuleValid(item, catalog, rules[i]))
  }

  ghost predicate ControlsValid(controls: seq<AssessableControl>) {
    && (forall i, j :: 0 <= i < j < |controls| ==> controls[i].controlId != controls[j].controlId)
    && (forall i :: 0 <= i < |controls| ==> Disciplined(controls[i].strength, controls[i].origin, controls[i].absence))
  }

  /** What a validated item guarantees. */
  ghost predicate EvidenceValid(item: Item, catalog: map<string, RuleMeta>) {
    && RulesValid(item.assessmentRules, item, catalog)
    && ControlsValid(item.assessmentControls)
    && (forall r :: r in item.ruleIds ==> Claimed(item, r))
    && (item.status.Uncovered? || item.status.Excluded? ==>
          item.ruleIds == [] && item.claims == [] && item.evidenceKinds == {})
  }

  ghost predicate ListsRule(rules: seq<AssessableRule>, ruleId: string) {
    exists e :: e in rules && e.ruleId == ruleId
  }

  lemma RulesValidSnoc(rules: seq<AssessableRule>, entry: AssessableRule, item: Item, catalog: map<string, RuleMeta>)
    ensures RulesValid(rules + [entry], item, catalog) <==>
              RulesValid(rules, item, catalog) && RuleValid(item, catalog, entry) && !ListsRule(rules, entry.ruleId)
    ensures forall r :: ListsRule(rules + [entry], r) <==> ListsRule(rules, r) || r == entry.ruleId
  {
    var more := rules + [entry];
    assert more[|rules|] == entry && forall i :: 0 <= i < |rules| ==> more[i] == rules[i];
    forall r ensures ListsRule(more, r) <==> ListsRule(rules, r) || r == entry.ruleId {
      assert forall e :: e in more <==> e in rules || e == entry;
    }
    forall i | 0 <= i < |rules| && RulesValid(more, item, catalog) ensures rules[i].ruleId != entry.ruleId {
      assert more[i].ruleId != more[|rules|].ruleId;
    }
  }

  lemma RuleIssuesTell(item: Item, catalog: map<string, RuleMeta>, entry: AssessableRule)
    ensures AssessmentRuleIssues(item, catalog, entry) == [] <==> RuleValid(item, catalog, entry)
  {
  }

  method ValidateAssessmentRules(item: Item, catalog: map<string, RuleMeta>) returns (issues: seq<LedgerIssue>)
    ensures issues == [] <==> RulesValid(item.assessmentRules, item, catalog)
  {
    issues := [];
    var rules := item.assessmentRules;
    var seen: set<string> := {};
    for i := 0 to |rules|
      invariant forall r :: r in seen <==> ListsRule(rules[..i], r)
      invariant issues == [] <==> RulesValid(rules[..i], item, catalog)
    {
      var entry := rules[i];
      assert rules[..i + 1] == rules[..i] + [entry];
      RulesValidSnoc(rules[..i], entry, item, catalog);
      RuleIssuesTell(item, catalog, entry);
      issues := issues +
        if entry.ruleId in seen then [RegistryReferenceMismatch(entry.ruleId)]
        else AssessmentRuleIssues(item, catalog, entry);
      seen := seen + {entry.ruleId};
    }
    Lists.Whole(rules);
  }

  ghost predicate ListsControl(controls: seq<AssessableControl>, controlId: string) {
    exists e :: e in controls && e.controlId == controlId
  }

  lemma ControlsValidSnoc(controls: seq<AssessableControl>, entry: AssessableControl)
    ensures ControlsValid(controls + [entry]) <==>
              && ControlsValid(controls) && Disciplined(entry.strength, entry.origin, entry.absence)
              && !ListsControl(controls, entry.controlId)
    ensures forall c :: ListsControl(controls + [entry], c) <==> ListsControl(controls, c) || c == entry.controlId
  {
    var more := controls + [entry];
    assert more[|controls|] == entry && forall i :: 0 <= i < |controls| ==> more[i] == controls[i];
    forall c ensures ListsControl(more, c) <==> ListsControl(controls, c) || c == entry.controlId {
      assert forall e :: e in more <==> e in controls || e == entry;
    }
    forall i | 0 <= i < |controls| && ControlsValid(more) ensures controls[i].controlId != entry.controlId {
      assert more[i].controlId != more[|controls|].controlId;
    }
  }

  lemma ControlIssuesTell(entry: AssessableControl)
    ensures AssessmentControlIssues(entry) == [] <==> Disciplined(entry.strength, entry.origin, entry.absence)
  {
  }

  method ValidateAssessmentControls(item: Item) returns (issues: seq<LedgerIssue>)
    ensures issues == [] <==> ControlsValid(item.assessmentControls)
  {
    issues := [];
    var controls := item.assessmentControls;
    var seen: set<string> := {};
    for i := 0 to |controls|
      invariant forall c :: c in seen <==> ListsControl(controls[..i], c)
      invariant issues == [] <==> ControlsValid(controls[..i])
    {
      var entry := controls[i];
      assert controls[..i + 1] == controls[..i] + [entry];
      ControlsValidSnoc(controls[..i], entry);
      ControlIssuesTell(entry);
      issues := issues +
        if entry.controlId in seen then [AssessmentControlInvalid(entry.controlId)]
        else AssessmentControlIssues(entry);
      seen := seen + {entry.controlId};
    }
    Lists.Whole(controls);
  }

  /** The validator finds nothing exactly when the item's evidence is well-formed. */
  method ValidateItemEvidence(item: Item, catalog: map<string, RuleMeta>) returns (issues: seq<LedgerIssue>)
    ensures issues == [] <==> EvidenceValid(item, catalog)
  {
    issues := ValidateAssessmentRules(item, catalog);
    var controlIssues := ValidateAssessmentControls(item);
    issues := issues + controlIssues;
    ghost var fine := issues == [];
    for i := 0 to |item.ruleIds|
      invariant issues == [] <==> fine && forall k :: 0 <= k < i ==> Claimed(item, item.ruleIds[k])
    {
      if !Claimed(item, item.ruleIds[i]) {
        issues := issues + [RegistryReferenceMissing(item.ruleIds[i])];
      }
    }
    if (item.status.Uncovered? || item.status.Excluded?)
       && (item.ruleIds != [] || item.claims != [] || item.evidenceKinds != {}) {
      issues := issues + [UncoveredItemHasEvidence];
    }
  }

  // ---------------------------------------------------------------- identifiers

  function ItemIds(items: seq<Item>): seq<string> {
    if items == [] then [] else [items[0].itemId] + ItemIds(items[1..])
  }

  function AllItemIds(sources: seq<Source>): seq<string> {
    if sources == [] then [] else ItemIds(sources[0].items) + AllItemIds(sources[1..])
  }

  ghost predicate NoRepeats(xs: seq<string>) {
    forall i, j :: 0 <= i < j < |xs| ==> xs[i] != xs[j]
  }

  ghost predicate IdsUnique(sources: seq<Source>) {
    SourcesDistinct(sources) && NoRepeats(AllItemIds(sources))
  }

  ghost predicate SourcesDistinct(sources: seq<Source>) {
    forall i, j :: 0 <= i < j < |sources| ==> sources[i].sourceId != sources[j].sourceId
  }

  lemma NoRepeatsSnoc(xs: seq<string>, x: string)
    ensures NoRepeats(xs + [x]) <==> NoRepeats(xs) && x !in xs
  {
    var ys := xs + [x];
    if NoRepeats(ys) {
      forall i, j | 0 <= i < j < |xs| ensures xs[i] != xs[j] { assert ys[i] == xs[i] && ys[j] == xs[j]; }
      forall i | 0 <= i < |xs| ensures xs[i] != x { assert ys[i] == xs[i] && ys[|xs|] == x; }
    }
  }

  method ValidateItemIds(items: seq<Item>, ghost met: seq<string>, seen: set<string>)
    returns (issues: seq<LedgerIssue>, seen': set<string>)
    requires forall s :: s in seen <==> s in met
    ensures forall s :: s in seen' <==> s in met + ItemIds(items)
    ensures NoRepeats(met) ==> (issues == [] <==> NoRepeats(met + ItemIds(items)))
  {
    issues, seen' := [], seen;
    ghost var all := met;
    for j := 0 to |items|
      invariant all + ItemIds(items[j..]) == met + ItemIds(items)
      invariant forall s :: s in seen' <==> s in all
      invariant NoRepeats(met) ==> (issues == [] <==> NoRepeats(all))
    {
      Lists.DropHead(items, j);
      NoRepeatsSnoc(all, items[j].itemId);
      if items[j].itemId in seen' { issues := issues + [DuplicateItemId(items[j].itemId)]; }
      seen' := seen' + {items[j].itemId};
      Lists.Assoc(all, [items[j].itemId], ItemIds(items[j + 1..]));
      all := all + [items[j].itemId];
    }
    assert all == met + ItemIds(items);
  }

  lemma NoRepeatsPrefix(xs: seq<string>, ys: seq<string>)
    requires NoRepeats(xs + ys)
    ensures NoRepeats(xs)
  {
    forall i, j | 0 <= i < j < |xs| ensures xs[i] != xs[j] {
      assert (xs + ys)[i] == xs[i] && (xs + ys)[j] == xs[j];
    }
  }

  method ValidateSourceIds(sources: seq<Source>) returns (issues: seq<LedgerIssue>)
    ensures issues == [] <==> SourcesDistinct(sources)
  {
    issues := [];
    var seen: set<string> := {};
    for i := 0 to |sources|
      invariant forall k :: 0 <= k < i ==> sources[k].sourceId in seen
      invariant forall s :: s in seen ==> exists k :: 0 <= k < i && sources[k].sourceId == s
      invariant issues == [] <==> forall k, j :: 0 <= k < j < i ==> sources[k].sourceId != sources[j].sourceId
    {
      if sources[i].sourceId in seen { issues := issues + [DuplicateSourceId(sources[i].sourceId)]; }
      seen := seen + {sources[i].sourceId};
    }
  }

  /** Source ids must be unique, and item ids unique across the whole ledger. */
  method ValidateLedgerIds(sources: seq<Source>) returns (issues: seq<LedgerIssue>)
    ensures issues == [] <==> IdsUnique(sources)
  {
    issues := ValidateSourceIds(sources);
    ghost var fine := issues == [];
    var seen: set<string> := {};
    ghost var met: seq<string> := [];
    for i := 0 to |sources|
      invariant met + AllItemIds(sources[i..]) == AllItemIds(sources)
      invariant forall s :: s in seen <==> s in met
      invariant issues == [] <==> fine && NoRepeats(met)
    {
      Lists.DropHead(sources, i);
      var itemIssues;
      itemIssues, seen := ValidateItemIds(sources[i].items, met, seen);
      issues := issues + itemIssues;
      ghost var before := met;
      Lists.Assoc(met, ItemIds(sources[i].items), AllItemIds(sources[i + 1..]));
      met := met + ItemIds(sources[i].items);
      if NoRepeats(met) { NoRepeatsPrefix(before, ItemIds(sources[i].items)); }
    }
    assert met == AllItemIds(sources);
  }
}
