/** Ledger item, findings, records and manifest read by position: which entry speaks for a rule or a control.
    Nothing here uses the lookups of `Assessment`; the lemmas show that those lookups find these entries. */
module Readings {
  import opened Prelude
  import opened RuleRegistry
  import opened CoverageLedger
  import opened Assessment
  import opened AssessmentEngine
  import opened AssessmentTheorems
  import Exec = ExecutionManifest
  import Lists

  // ---------------------------------------------------------------- the ledger item

  /** The item counts this reference, by itself or in a group. */
  ghost predicate Counts(item: Item, standard: string, reference: string) {
    exists c :: c in item.references && c.standard == standard && (c.reference == reference || reference in c.grouped)
  }

  /** The k-th assessment rule is the last one for this rule. */
  ghost predicate LastEntry(rules: seq<AssessableRule>, r: string, k: int) {
    0 <= k < |rules| && rules[k].ruleId == r && forall j :: k < j < |rules| ==> rules[j].ruleId != r
  }

  ghost predicate Backs(c: Claim, item: Item, r: string) {
    c.ruleId == r && Counts(item, c.standard, c.reference)
  }

  /** The k-th claim is the first that ties this rule to a counted reference. */
  ghost predicate FirstBacking(claims: seq<Claim>, item: Item, r: string, k: int) {
    0 <= k < |claims| && Backs(claims[k], item, r) && forall j :: 0 <= j < k ==> !Backs(claims[j], item, r)
  }

  /** The ledger defines a listed rule by its last assessment entry, or else by its first backing claim, which gives
      no pass semantics. */
  ghost predicate LedgerSays(item: Item, r: string, d: Definition) {
    && r in item.ruleIds
    && if exists k :: LastEntry(item.assessmentRules, r, k)
       then exists k :: LastEntry(item.assessmentRules, r, k)
              && d == Definition(item.assessmentRules[k].strength, item.assessmentRules[k].origin,
                                 item.assessmentRules[k].absence, item.assessmentRules[k].facets)
       else exists k :: FirstBacking(item.claims, item, r, k)
              && d == Definition(item.claims[k].strength, item.claims[k].origin, NoSemantics, [])
  }

  /** The k-th assessment control is the last one for this control. */
  ghost predicate LastControl(controls: seq<AssessableControl>, controlId: string, k: int) {
    0 <= k < |controls| && controls[k].controlId == controlId && forall j :: k < j < |controls| ==> controls[j].controlId != controlId
  }

  lemma {:induction false} ExplicitIsLast(rules: seq<AssessableRule>, r: string)
    ensures Explicit(rules, r).None? ==> forall k :: !LastEntry(rules, r, k)
    ensures Explicit(rules, r).None? ==> forall k :: 0 <= k < |rules| ==> rules[k].ruleId != r
    ensures Explicit(rules, r).Some? ==> exists k :: LastEntry(rules, r, k) && rules[k] == Explicit(rules, r).value
  {
    if rules != [] {
      var rest := rules[1..];
      ExplicitIsLast(rest, r);
      assert forall k :: 0 < k < |rules| ==> rules[k] == rest[k - 1];
      if Explicit(rest, r).Some? {
        var k :| LastEntry(rest, r, k) && rest[k] == Explicit(rest, r).value;
        assert LastEntry(rules, r, k + 1) && rules[k + 1] == Explicit(rules, r).value;
      } else if rules[0].ruleId == r {
        assert LastEntry(rules, r, 0);
      }
    }
  }

  lemma {:induction false} MappingIsLast(controls: seq<AssessableControl>, controlId: string)
    ensures ControlMapping(controls, controlId).None? ==> forall k :: 0 <= k < |controls| ==> controls[k].controlId != controlId
    ensures ControlMapping(controls, controlId).Some? ==>
      exists k :: LastControl(controls, controlId, k) && controls[k] == ControlMapping(controls, controlId).value
  {
    if controls != [] {
      var rest := controls[1..];
      MappingIsLast(rest, controlId);
      assert forall k :: 0 < k < |controls| ==> controls[k] == rest[k - 1];
      if ControlMapping(rest, controlId).Some? {
        var k :| LastControl(rest, controlId, k) && rest[k] == ControlMapping(rest, controlId).value;
        assert LastControl(controls, controlId, k + 1);
      } else if controls[0].controlId == controlId {
        assert LastControl(controls, controlId, 0);
      }
    }
  }

  lemma {:induction false} ClaimIsFirst(claims: seq<Claim>, item: Item, r: string)
    ensures FirstClaim(claims, item, r).None? ==> forall k :: !FirstBacking(claims, item, r, k)
    ensures FirstClaim(claims, item, r).Some? ==>
      exists k :: FirstBacking(claims, item, r, k) && claims[k] == FirstClaim(claims, item, r).value
  {
    if claims != [] {
      var rest := claims[1..];
      assert forall k :: 0 < k < |claims| ==> claims[k] == rest[k - 1];
      if Backs(claims[0], item, r) {
        assert FirstBacking(claims, item, r, 0);
      } else {
        ClaimIsFirst(rest, item, r);
        if FirstClaim(rest, item, r).Some? {
          var k :| FirstBacking(rest, item, r, k) && rest[k] == FirstClaim(rest, item, r).value;
          assert FirstBacking(claims, item, r, k + 1);
        } else {
          forall k ensures !FirstBacking(claims, item, r, k) { assert !FirstBacking(rest, item, r, k - 1); }
        }
      }
    }
  }

  /** The ledger lookup finds what the ledger says. */
  lemma LedgerSaysExactly(item: Item, r: string, d: Definition)
    ensures LedgerDefinition(item, r) == Some(d) <==> LedgerSays(item, r, d)
  {
    ExplicitIsLast(item.assessmentRules, r);
    ClaimIsFirst(item.claims, item, r);
  }

  lemma LedgerSaysNothing(item: Item, r: string)
    ensures LedgerDefinition(item, r).None? <==> forall d :: !LedgerSays(item, r, d)
  {
    forall d ensures LedgerDefinition(item, r) == Some(d) <==> LedgerSays(item, r, d) { LedgerSaysExactly(item, r, d); }
    if LedgerDefinition(item, r).Some? { assert LedgerSays(item, r, LedgerDefinition(item, r).value); }
  }

  // ---------------------------------------------------------------- the findings

  /** A finding as the assessment reads it: which rule reports it, and its references in order. */
  datatype Notice = Notice(ruleId: string, fingerprint: string, references: seq<StandardReference>)

  /** All findings of a run: the active ones, then the suppressed ones under their recorded names. */
  function Notices(obs: Observations): (notices: seq<Notice>)
    ensures |notices| == |obs.findings| + |obs.suppressed|
  {
    ActiveNotices(obs.findings) + SuppressedNotices(obs.suppressed)
  }

  function ActiveNotices(findings: seq<Finding>): seq<Notice> {
    seq(|findings|, i requires 0 <= i < |findings| =>
      Notice(findings[i].ruleId, findings[i].fingerprint, findings[i].standards + findings[i].secondary))
  }

  function SuppressedNotices(records: seq<SuppressedRecord>): seq<Notice> {
    seq(|records|, i requires 0 <= i < |records| =>
      Notice(records[i].ruleId, records[i].fingerprint, records[i].finding.standards + records[i].finding.secondary))
  }

  /** The k-th reference is the first that the item counts. */
  ghost predicate MapsBy(notice: Notice, item: Item, k: int) {
    && 0 <= k < |notice.references| && Counts(item, notice.references[k].standard, notice.references[k].reference)
    && forall j :: 0 <= j < k ==> !Counts(item, notice.references[j].standard, notice.references[j].reference)
  }

  /** A finding about the item: some reference of it is counted there. */
  ghost predicate Concerns(notice: Notice, item: Item) {
    exists k :: 0 <= k < |notice.references| && Counts(item, notice.references[k].standard, notice.references[k].reference)
  }

  ghost predicate Of(notice: Notice, item: Item, r: string) {
    notice.ruleId == r && Concerns(notice, item)
  }

  /** Some finding of the rule, active or suppressed, concerns the item. */
  ghost predicate Found(notices: seq<Notice>, item: Item, r: string) {
    exists i :: 0 <= i < |notices| && Of(notices[i], item, r)
  }

  ghost predicate FirstOf(notices: seq<Notice>, item: Item, r: string, i: int) {
    0 <= i < |notices| && Of(notices[i], item, r) && forall j :: 0 <= j < i ==> !Of(notices[j], item, r)
  }

  /** The definition in force for a rule: the ledger's, or else the mapping of the rule's first finding. */
  ghost predicate Says(notices: seq<Notice>, item: Item, r: string, d: Definition) {
    if exists e :: LedgerSays(item, r, e) then LedgerSays(item, r, d)
    else exists i, k :: FirstOf(notices, item, r, i) && MapsBy(notices[i], item, k)
           && d == Definition(notices[i].references[k].coverage, notices[i].references[k].origin, NoSemantics, [])
  }

  function MapOne(notice: Notice, item: Item): seq<Mapped> {
    var matched := MatchedReference(notice.references, item);
    if matched.None? then [] else [Mapped(notice.ruleId, notice.fingerprint, matched.value.coverage, matched.value.origin)]
  }

  function MapAll(notices: seq<Notice>, item: Item): seq<Mapped> {
    if notices == [] then [] else MapOne(notices[0], item) + MapAll(notices[1..], item)
  }

  lemma {:induction false} MapAllConcat(a: seq<Notice>, b: seq<Notice>, item: Item)
    ensures MapAll(a + b, item) == MapAll(a, item) + MapAll(b, item)
  {
    if a == [] {
      assert a + b == b;
    } else {
      MapAllConcat(a[1..], b, item);
      Lists.TailOfConcat(a, b);
      Lists.Assoc(MapOne(a[0], item), MapAll(a[1..], item), MapAll(b, item));
    }
  }

  lemma {:induction false} ActiveMapped(findings: seq<Finding>, item: Item)
    ensures MappedFindings(findings, item) == MapAll(ActiveNotices(findings), item)
  {
    if findings != [] {
      ActiveMapped(findings[1..], item);
      assert ActiveNotices(findings)[1..] == ActiveNotices(findings[1..]);
    }
  }

  lemma {:induction false} SuppressedMapped(records: seq<SuppressedRecord>, item: Item)
    ensures MappedSuppressed(records, item) == MapAll(SuppressedNotices(records), item)
  {
    if records != [] {
      SuppressedMapped(records[1..], item);
      assert SuppressedNotices(records)[1..] == SuppressedNotices(records[1..]);
    }
  }

  /** The findings the assessment maps are the notices that concern the item. */
  lemma MappedAreNotices(obs: Observations, item: Item)
    ensures MappedFindings(obs.findings, item) + MappedSuppressed(obs.suppressed, item) == MapAll(Notices(obs), item)
  {
    ActiveMapped(obs.findings, item);
    SuppressedMapped(obs.suppressed, item);
    MapAllConcat(ActiveNotices(obs.findings), SuppressedNotices(obs.suppressed), item);
  }

  lemma {:induction false} MatchedIsFirst(refs: seq<StandardReference>, item: Item)
    ensures MatchedReference(refs, item).Some? <==>
      exists k :: 0 <= k < |refs| && Counts(item, refs[k].standard, refs[k].reference)
    ensures MatchedReference(refs, item).Some? ==>
      exists k :: MapsBy(Notice("", "", refs), item, k) && refs[k] == MatchedReference(refs, item).value
  {
    if refs != [] {
      var rest := refs[1..];
      assert forall k :: 0 < k < |refs| ==> refs[k] == rest[k - 1];
      if Counts(item, refs[0].standard, refs[0].reference) {
        assert MapsBy(Notice("", "", refs), item, 0);
      } else {
        MatchedIsFirst(rest, item);
        if MatchedReference(rest, item).Some? {
          var k :| MapsBy(Notice("", "", rest), item, k) && rest[k] == MatchedReference(rest, item).value;
          assert MapsBy(Notice("", "", refs), item, k + 1) && refs[k + 1] == MatchedReference(refs, item).value;
        }
      }
    }
  }

  /** What mapping one finding gives. */
  lemma MapOneTells(notice: Notice, item: Item)
    ensures MapOne(notice, item) == [] <==> !Concerns(notice, item)
    ensures Concerns(notice, item) ==> exists k :: MapsBy(notice, item, k)
    ensures forall k :: MapsBy(notice, item, k) ==>
      MapOne(notice, item)
      == [Mapped(notice.ruleId, notice.fingerprint, notice.references[k].coverage, notice.references[k].origin)]
  {
    MatchedIsFirst(notice.references, item);
    if Concerns(notice, item) {
      var k :| MapsBy(Notice("", "", notice.references), item, k)
               && notice.references[k] == MatchedReference(notice.references, item).value;
      assert MapsBy(notice, item, k);
      forall j | MapsBy(notice, item, j) ensures j == k {}
    }
  }

  lemma FirstOfPrepended(m: Mapped, rest: seq<Mapped>, r: string)
    ensures FirstMapped([m] + rest, r) == if m.ruleId == r then Some(m) else FirstMapped(rest, r)
  {
    assert ([m] + rest)[1..] == rest;
  }

  /** The first mapped finding of a rule is the mapping of its first notice. */
  lemma {:induction false} FirstMappedIsFirst(notices: seq<Notice>, item: Item, r: string)
    ensures FirstMapped(MapAll(notices, item), r).None? ==> !Found(notices, item, r)
    ensures FirstMapped(MapAll(notices, item), r).Some? ==>
      exists i, k :: FirstOf(notices, item, r, i) && MapsBy(notices[i], item, k)
        && FirstMapped(MapAll(notices, item), r).value
           == Mapped(r, notices[i].fingerprint, notices[i].references[k].coverage, notices[i].references[k].origin)
  {
    if notices != [] {
      var rest := notices[1..];
      assert forall i :: 0 < i < |notices| ==> notices[i] == rest[i - 1];
      FirstMappedIsFirst(rest, item, r);
      MapOneTells(notices[0], item);
      if Concerns(notices[0], item) {
        var k :| MapsBy(notices[0], item, k);
        FirstOfPrepended(MapOne(notices[0], item)[0], MapAll(rest, item), r);
        if notices[0].ruleId == r { assert FirstOf(notices, item, r, 0); }
      } else {
        assert MapAll(notices, item) == MapAll(rest, item);
      }
      if !Of(notices[0], item, r) && FirstMapped(MapAll(rest, item), r).Some? {
        var i, k :| FirstOf(rest, item, r, i) && MapsBy(rest[i], item, k)
          && FirstMapped(MapAll(rest, item), r).value
             == Mapped(r, rest[i].fingerprint, rest[i].references[k].coverage, rest[i].references[k].origin);
        assert FirstOf(notices, item, r, i + 1) && MapsBy(notices[i + 1], item, k);
      }
    }
  }

  lemma FoundExactly(notices: seq<Notice>, item: Item, r: string)
    ensures HasFinding(MapAll(notices, item), r) <==> Found(notices, item, r)
  {
    FirstMappedIsFirst(notices, item, r);
    FirstMappedTells(MapAll(notices, item), r);
  }

  /** The definition the assessment uses is the one in force. */
  lemma SaysExactly(notices: seq<Notice>, item: Item, r: string, d: Definition)
    ensures DefinitionOf(item, MapAll(notices, item), r) == Some(d) <==> Says(notices, item, r, d)
  {
    LedgerSaysNothing(item, r);
    LedgerSaysExactly(item, r, d);
    FirstMappedIsFirst(notices, item, r);
    if LedgerDefinition(item, r).None? {
      forall i, k, j, l | FirstOf(notices, item, r, i) && MapsBy(notices[i], item, k)
                          && FirstOf(notices, item, r, j) && MapsBy(notices[j], item, l)
        ensures i == j && k == l {}
    }
  }
}
