/** Suppression files: an order-preserving split of the findings, and why it never changes a verdict. */
module Suppressions {
  import opened Prelude
  import opened Ordering
  import opened RuleRegistry
  import opened CoverageLedger
  import opened AuditPolicy
  import opened Assessment
  import opened AssessmentTheorems
  import Exec = ExecutionManifest
  import Lists

  /** A validated entry: a rule, and either a fingerprint or the criteria that were given. */
  datatype Suppression = Suppression(ruleId: string, fingerprint: Option<string>, criteria: map<string, string>)

  /** The canonical locator fields of a finding in its result; absent fields are not in the map. */
  type Locator = Finding -> map<string, string>

  predicate Hits(entry: Suppression, finding: Finding, locate: Locator) {
    if finding.ruleId != entry.ruleId then false
    else if entry.fingerprint.Some? then finding.fingerprint == entry.fingerprint.value
    else forall field :: field in entry.criteria ==>
      field in locate(finding) && locate(finding)[field] == entry.criteria[field]
  }

  /** An entry speaks of a finding: the same rule, and the entry's fingerprint, or, where it has none, every criterion
      it gives. */
  ghost predicate Covers(entry: Suppression, f: Finding, locate: Locator) {
    && entry.ruleId == f.ruleId
    && match entry.fingerprint
       case Some(fingerprint) => fingerprint == f.fingerprint
       case None => forall field :: field in entry.criteria ==>
                      field in locate(f) && locate(f)[field] == entry.criteria[field]
  }

  lemma HitsExactly(entry: Suppression, f: Finding, locate: Locator)
    ensures Hits(entry, f, locate) <==> Covers(entry, f, locate)
  {
  }

  lemma SuppressedExactly(entries: seq<Suppression>, f: Finding, locate: Locator)
    ensures Suppressed(entries, f, locate) <==> exists entry :: entry in entries && Covers(entry, f, locate)
  {
    forall i | 0 <= i < |entries| ensures Hits(entries[i], f, locate) <==> Covers(entries[i], f, locate) {
      HitsExactly(entries[i], f, locate);
    }
  }

  /** The first entry that matches, as `SuppressionSet.match` searches. */
  method Match(entries: seq<Suppression>, finding: Finding, locate: Locator) returns (index: Option<nat>)
    ensures index.None? <==> !Suppressed(entries, finding, locate)
    ensures index.Some? ==>
      && index.value < |entries| && Hits(entries[index.value], finding, locate)
      && forall j :: 0 <= j < index.value ==> !Hits(entries[j], finding, locate)
    ensures index.None? <==> forall entry :: entry in entries ==> !Covers(entry, finding, locate)
    ensures index.Some? ==> Covers(entries[index.value], finding, locate)
  {
    SuppressedExactly(entries, finding, locate);
    for i := 0 to |entries|
      invariant forall j :: 0 <= j < i ==> !Hits(entries[j], finding, locate)
    {
      if Hits(entries[i], finding, locate) {
        HitsExactly(entries[i], finding, locate);
        return Some(i);
      }
    }
    index := None;
  }

  ghost predicate Suppressed(entries: seq<Suppression>, finding: Finding, locate: Locator) {
    exists i :: 0 <= i < |entries| && Hits(entries[i], finding, locate)
  }

  /** The question a suppression set answers about each finding. */
  type Hit = Finding -> bool

  ghost function HitBy(entries: seq<Suppression>, locate: Locator): Hit {
    finding => Suppressed(entries, finding, locate)
  }

  ghost function Active(findings: seq<Finding>, hit: Hit): seq<Finding> {
    if findings == [] then []
    else if hit(findings[0]) then Active(findings[1..], hit)
    else [findings[0]] + Active(findings[1..], hit)
  }

  ghost function Moved(findings: seq<Finding>, hit: Hit): seq<SuppressedRecord> {
    if findings == [] then []
    else if hit(findings[0]) then [RecordOf(findings[0])] + Moved(findings[1..], hit)
    else Moved(findings[1..], hit)
  }

  function RecordOf(finding: Finding): SuppressedRecord {
    SuppressedRecord(finding.ruleId, finding.fingerprint, finding)
  }

  class AnalysisResult {
    var findings: seq<Finding>
    var suppressed: seq<SuppressedRecord>

    constructor (findings: seq<Finding>, suppressed: seq<SuppressedRecord>)
      ensures this.findings == findings && this.suppressed == suppressed
    {
      this.findings, this.suppressed := findings, suppressed;
    }

    method ApplySuppressions(entries: seq<Suppression>, locate: Locator)
      modifies this
      ensures findings == Active(old(findings), HitBy(entries, locate))
      ensures suppressed == old(suppressed) + Moved(old(findings), HitBy(entries, locate))
      ensures forall f :: f in findings <==> f in old(findings) && forall entry :: entry in entries ==> !Covers(entry, f, locate)
      ensures forall x :: x in suppressed[|old(suppressed)|..] <==>
        exists f, entry :: f in old(findings) && entry in entries && Covers(entry, f, locate)
                           && x == SuppressedRecord(f.ruleId, f.fingerprint, f)
    {
      SplitTells(findings, entries, locate);
      ghost var hits := HitBy(entries, locate);
      if entries == [] { NothingHit(findings, hits); }
      if entries == [] || findings == [] { return; }
      var active: seq<Finding>, moved: seq<SuppressedRecord> := [], [];
      for i := 0 to |findings|
        invariant findings == old(findings) && suppressed == old(suppressed)
        invariant active == Active(findings[..i], hits)
        invariant moved == Moved(findings[..i], hits)
      {
        ActiveSnoc(findings[..i], findings[i], hits);
        MovedSnoc(findings[..i], findings[i], hits);
        Lists.PrefixSnoc(findings, i);
        var hit := Match(entries, findings[i], locate);
        if hit.None? {
          active := active + [findings[i]];
        } else {
          moved := moved + [RecordOf(findings[i])];
        }
      }
      Lists.Whole(findings);
      findings := active;
      suppressed := suppressed + moved;
    }
  }

  lemma {:induction false} ActiveMembers(findings: seq<Finding>, hit: Hit)
    ensures forall f :: f in Active(findings, hit) <==> f in findings && !hit(f)
  {
    if findings != [] {
      ActiveMembers(findings[1..], hit);
      assert findings == [findings[0]] + findings[1..];
    }
  }

  lemma {:induction false} MovedMembers(findings: seq<Finding>, hit: Hit, x: SuppressedRecord)
    ensures x in Moved(findings, hit) <==> exists f :: f in findings && hit(f) && x == SuppressedRecord(f.ruleId, f.fingerprint, f)
  {
    if findings != [] {
      MovedMembers(findings[1..], hit, x);
      assert findings == [findings[0]] + findings[1..];
    }
  }

  /** Which findings stay and which move, in terms of the entries. */
  lemma SplitTells(findings: seq<Finding>, entries: seq<Suppression>, locate: Locator)
    ensures forall f :: f in Active(findings, HitBy(entries, locate)) <==>
      f in findings && forall entry :: entry in entries ==> !Covers(entry, f, locate)
    ensures forall x :: x in Moved(findings, HitBy(entries, locate)) <==>
      exists f, entry :: f in findings && entry in entries && Covers(entry, f, locate)
                         && x == SuppressedRecord(f.ruleId, f.fingerprint, f)
  {
    var hit := HitBy(entries, locate);
    ActiveMembers(findings, hit);
    forall f ensures hit(f) <==> exists entry :: entry in entries && Covers(entry, f, locate) { SuppressedExactly(entries, f, locate); }
    forall x ensures x in Moved(findings, hit) <==>
      exists f, entry :: f in findings && entry in entries && Covers(entry, f, locate)
                         && x == SuppressedRecord(f.ruleId, f.fingerprint, f)
    {
      MovedMembers(findings, hit, x);
    }
  }

  lemma {:induction false} NothingHit(findings: seq<Finding>, hit: Hit)
    requires forall f :: !hit(f)
    ensures Active(findings, hit) == findings && Moved(findings, hit) == []
  {
    if findings != [] { NothingHit(findings[1..], hit); }
  }

  lemma {:induction false} ActiveSnoc(findings: seq<Finding>, f: Finding, hit: Hit)
    ensures Active(findings + [f], hit) == if hit(f) then Active(findings, hit) else Active(findings, hit) + [f]
  {
    if findings == [] {
      assert findings + [f] == [f] && [f][1..] == [];
    } else {
      Lists.TailOfConcat(findings, [f]);
      ActiveSnoc(findings[1..], f, hit);
      Lists.Assoc([findings[0]], Active(findings[1..], hit), [f]);
    }
  }

  lemma {:induction false} MovedSnoc(findings: seq<Finding>, f: Finding, hit: Hit)
    ensures Moved(findings + [f], hit) == if hit(f) then Moved(findings, hit) + [RecordOf(f)] else Moved(findings, hit)
  {
    if findings == [] {
      assert findings + [f] == [f] && [f][1..] == [];
    } else {
      Lists.TailOfConcat(findings, [f]);
      MovedSnoc(findings[1..], f, hit);
      Lists.Assoc([RecordOf(findings[0])], Moved(findings[1..], hit), [RecordOf(f)]);
    }
  }

  lemma OriginalsOfHead(f: Finding, rest: seq<SuppressedRecord>)
    ensures Originals([RecordOf(f)] + rest) == [f] + Originals(rest)
  {
  }

  lemma {:induction false} SplitCounts(findings: seq<Finding>, hit: Hit, f: Finding)
    ensures Lists.Count(findings, f) == Lists.Count(Active(findings, hit), f) + Lists.Count(Originals(Moved(findings, hit)), f)
  {
    if findings != [] {
      SplitCounts(findings[1..], hit, f);
      Lists.CountOfHeadTail(findings, f);
      if hit(findings[0]) {
        var m := Moved(findings[1..], hit);
        OriginalsOfHead(findings[0], m);
        Lists.CountOfConcat([findings[0]], Originals(m), f);
      } else {
        Lists.CountOfConcat([findings[0]], Active(findings[1..], hit), f);
      }
    }
  }

  /** The split loses and invents nothing. */
  lemma SplitConserves(findings: seq<Finding>, hit: Hit)
    ensures multiset(findings) == multiset(Active(findings, hit)) + multiset(Originals(Moved(findings, hit)))
  {
    var a, m := Active(findings, hit), Originals(Moved(findings, hit));
    forall f ensures Lists.Count(findings, f) == Lists.Count(a + m, f) {
      SplitCounts(findings, hit, f);
      Lists.CountOfConcat(a, m, f);
    }
    Lists.SameCounts(findings, a + m);
  }

  /** Splitting again moves nothing. */
  lemma {:induction false} SplitIsStable(findings: seq<Finding>, hit: Hit)
    ensures Active(Active(findings, hit), hit) == Active(findings, hit)
    ensures Moved(Active(findings, hit), hit) == []
  {
    if findings != [] {
      SplitIsStable(findings[1..], hit);
      if !hit(findings[0]) { Lists.TailOfConcat([findings[0]], Active(findings[1..], hit)); }
    }
  }

  function Originals(records: seq<SuppressedRecord>): seq<Finding> {
    seq(|records|, i requires 0 <= i < |records| => records[i].finding)
  }

  lemma {:induction false} MappedSuppressedConcat(a: seq<SuppressedRecord>, b: seq<SuppressedRecord>, item: Item)
    ensures MappedSuppressed(a + b, item) == MappedSuppressed(a, item) + MappedSuppressed(b, item)
  {
    if a == [] {
      assert a + b == b;
    } else {
      MappedSuppressedConcat(a[1..], b, item);
      Lists.TailOfConcat(a, b);
      Lists.Assoc(MappedFinding(a[0].ruleId, a[0].fingerprint, a[0].finding, item),
                  MappedSuppressed(a[1..], item), MappedSuppressed(b, item));
    }
  }

  /** Suppressing moves mapped findings from one list to the other, and nothing else. */
  lemma {:induction false} MappedFindingsMove(findings: seq<Finding>, hit: Hit, item: Item, x: Mapped)
    ensures Lists.Count(MappedFindings(findings, item), x) ==
      Lists.Count(MappedFindings(Active(findings, hit), item), x)
      + Lists.Count(MappedSuppressed(Moved(findings, hit), item), x)
  {
    if findings != [] {
      var f, rest := findings[0], findings[1..];
      var a, m := Active(rest, hit), Moved(rest, hit);
      var own := MappedFinding(f.ruleId, f.fingerprint, f, item);
      MappedFindingsMove(rest, hit, item, x);
      Lists.CountOfConcat(own, MappedFindings(rest, item), x);
      if hit(f) {
        Lists.TailOfConcat([RecordOf(f)], m);
        Lists.CountOfConcat(own, MappedSuppressed(m, item), x);
      } else {
        Lists.TailOfConcat([f], a);
        Lists.CountOfConcat(own, MappedFindings(a, item), x);
      }
    }
  }

  /** A result after its findings were split. */
  ghost function AfterSplit(obs: Observations, hit: Hit): Observations {
    obs.(findings := Active(obs.findings, hit), suppressed := obs.suppressed + Moved(obs.findings, hit))
  }

  ghost function AllMapped(obs: Observations, item: Item): seq<Mapped> {
    MappedFindings(obs.findings, item) + MappedSuppressed(obs.suppressed, item)
  }

  lemma SplitKeepsMapped(obs: Observations, hit: Hit, item: Item)
    ensures multiset(AllMapped(obs, item)) == multiset(AllMapped(AfterSplit(obs, hit), item))
  {
    var kept, moved := Active(obs.findings, hit), Moved(obs.findings, hit);
    var a, b := AllMapped(obs, item), AllMapped(AfterSplit(obs, hit), item);
    MappedSuppressedConcat(obs.suppressed, moved, item);
    forall x ensures Lists.Count(a, x) == Lists.Count(b, x) {
      MappedFindingsMove(obs.findings, hit, item, x);
      Lists.CountOfConcat(MappedFindings(obs.findings, item), MappedSuppressed(obs.suppressed, item), x);
      Lists.CountOfConcat(MappedFindings(kept, item), MappedSuppressed(obs.suppressed + moved, item), x);
      Lists.CountOfConcat(MappedSuppressed(obs.suppressed, item), MappedSuppressed(moved, item), x);
    }
    Lists.SameCounts(a, b);
  }

  /** No suppression file changes the status or the missing evidence of any control. */
  lemma SuppressionsKeepVerdict(obs: Observations, hit: Hit, item: Item, targetId: string, policy: ControlPolicy)
    requires Consistent(item, AllMapped(obs, item))
    ensures
      var after, native := AfterSplit(obs, hit), SortBy(AllNativeEvidence(obs.records, targetId, item), NativeKey);
      && StatusOf(item, AllMapped(obs, item), obs.manifest, native, policy)
         == StatusOf(item, AllMapped(after, item), after.manifest, native, policy)
      && Missing(item, AllMapped(obs, item), obs.manifest, policy)
         == Missing(item, AllMapped(after, item), after.manifest, policy)
  {
    SplitKeepsMapped(obs, hit, item);
    SuppressionChangesNothing(item, AllMapped(obs, item), AllMapped(AfterSplit(obs, hit), item), obs.manifest,
                              SortBy(AllNativeEvidence(obs.records, targetId, item), NativeKey), policy);
  }

  // ---------------------------------------------------------------- where consistency comes from

  /** What input verification compares: everything but tier and free text. */
  function PayloadKey(ref: StandardReference): StandardReference {
    ref.(tier := Primary, note := "")
  }

  function PayloadKeys(refs: seq<StandardReference>): set<StandardReference> {
    set r | r in refs :: PayloadKey(r)
  }

  /** The payload check on a reported finding. */
  predicate PayloadVerified(finding: Finding, catalog: map<string, RuleMeta>) {
    && finding.ruleId in catalog
    && PayloadKeys(finding.standards) == PayloadKeys(catalog[finding.ruleId].standards)
    && PayloadKeys(finding.secondary) == PayloadKeys(catalog[finding.ruleId].secondary)
  }

  ghost predicate Agreeing(refs: seq<StandardReference>, item: Item) {
    forall a, b :: a in refs && b in refs && Matches(item, a.standard, a.reference) && Matches(item, b.standard, b.reference) ==>
      a.coverage == b.coverage && a.origin == b.origin
  }

  ghost predicate SomeMatch(refs: seq<StandardReference>, item: Item) {
    exists a :: a in refs && Matches(item, a.standard, a.reference)
  }

  /** A rule's primary references onto the item agree; where there are none, its secondary ones do. */
  ghost predicate Unambiguous(meta: RuleMeta, item: Item) {
    if SomeMatch(meta.standards, item) then Agreeing(meta.standards, item) else Agreeing(meta.secondary, item)
  }

  lemma {:induction false} MatchedReferenceTells(refs: seq<StandardReference>, item: Item)
    ensures MatchedReference(refs, item).Some? <==> SomeMatch(refs, item)
    ensures MatchedReference(refs, item).Some? ==>
      MatchedReference(refs, item).value in refs
      && Matches(item, MatchedReference(refs, item).value.standard, MatchedReference(refs, item).value.reference)
  {
    if refs != [] {
      MatchedReferenceTells(refs[1..], item);
      assert refs == [refs[0]] + refs[1..];
    }
  }

  lemma {:induction false} MatchedReferenceConcat(a: seq<StandardReference>, b: seq<StandardReference>, item: Item)
    ensures MatchedReference(a + b, item) ==
      if SomeMatch(a, item) then MatchedReference(a, item) else MatchedReference(b, item)
  {
    MatchedReferenceTells(a, item);
    if a == [] {
      assert a + b == b;
    } else {
      Lists.TailOfConcat(a, b);
      MatchedReferenceConcat(a[1..], b, item);
      MatchedReferenceTells(a[1..], item);
    }
  }

  lemma KeysCarryMatches(refs: seq<StandardReference>, registered: seq<StandardReference>, item: Item)
    requires PayloadKeys(refs) == PayloadKeys(registered)
    ensures SomeMatch(refs, item) <==> SomeMatch(registered, item)
    ensures forall a :: a in refs ==> exists b :: b in registered && PayloadKey(a) == PayloadKey(b)
  {
    forall a | a in refs ensures exists b :: b in registered && PayloadKey(a) == PayloadKey(b) {
      assert PayloadKey(a) in PayloadKeys(registered);
    }
    forall b | b in registered ensures exists a :: a in refs && PayloadKey(a) == PayloadKey(b) {
      assert PayloadKey(b) in PayloadKeys(refs);
    }
  }

  /** Two verified findings of an unambiguous rule map onto the item alike. */
  lemma VerifiedFindingsAgree(f: Finding, g: Finding, catalog: map<string, RuleMeta>, item: Item)
    requires PayloadVerified(f, catalog) && PayloadVerified(g, catalog) && f.ruleId == g.ruleId
    requires Unambiguous(catalog[f.ruleId], item)
    ensures var p, q := MatchedReference(f.standards + f.secondary, item), MatchedReference(g.standards + g.secondary, item);
      p.Some? && q.Some? ==> p.value.coverage == q.value.coverage && p.value.origin == q.value.origin
  {
    var meta := catalog[f.ruleId];
    MatchedReferenceConcat(f.standards, f.secondary, item);
    MatchedReferenceConcat(g.standards, g.secondary, item);
    KeysCarryMatches(f.standards, meta.standards, item);
    KeysCarryMatches(g.standards, meta.standards, item);
    KeysCarryMatches(f.secondary, meta.secondary, item);
    KeysCarryMatches(g.secondary, meta.secondary, item);
    MatchedReferenceTells(f.standards, item);
    MatchedReferenceTells(g.standards, item);
    MatchedReferenceTells(f.secondary, item);
    MatchedReferenceTells(g.secondary, item);
  }

  lemma {:induction false} MappedComesFrom(findings: seq<Finding>, item: Item)
    ensures forall m :: m in MappedFindings(findings, item) ==>
      exists f :: f in findings && MappedFinding(f.ruleId, f.fingerprint, f, item) == [m]
  {
    if findings != [] {
      MappedComesFrom(findings[1..], item);
      assert findings == [findings[0]] + findings[1..];
    }
  }

  lemma {:induction false} MappedRecordsComeFrom(records: seq<SuppressedRecord>, item: Item)
    ensures forall m :: m in MappedSuppressed(records, item) ==>
      exists r :: r in records && MappedFinding(r.ruleId, r.fingerprint, r.finding, item) == [m]
  {
    if records != [] {
      MappedRecordsComeFrom(records[1..], item);
      assert records == [records[0]] + records[1..];
    }
  }

  lemma MappedReadsFinding(ruleId: string, fingerprint: string, f: Finding, item: Item, m: Mapped)
    requires MappedFinding(ruleId, fingerprint, f, item) == [m]
    ensures var p := MatchedReference(f.standards + f.secondary, item);
      p.Some? && m == Mapped(ruleId, fingerprint, p.value.coverage, p.value.origin)
  {
    assert [m][0] == m;
  }

  /** Verified findings of unambiguous rules are consistent, so suppression and order cannot matter for them. */
  lemma VerifiedMeansConsistent(obs: Observations, catalog: map<string, RuleMeta>, item: Item)
    requires forall f :: f in obs.findings ==> PayloadVerified(f, catalog)
    requires forall r :: r in obs.suppressed ==> PayloadVerified(r.finding, catalog) && r.ruleId == r.finding.ruleId
    requires forall r :: r in catalog && LedgerDefinition(item, r).None? ==> Unambiguous(catalog[r], item)
    ensures Consistent(item, AllMapped(obs, item))
  {
    var mapped := MappedFindings(obs.findings, item) + MappedSuppressed(obs.suppressed, item);
    MappedComesFrom(obs.findings, item);
    MappedRecordsComeFrom(obs.suppressed, item);
    forall m | m in mapped
      ensures exists f :: PayloadVerified(f, catalog) && MappedFinding(f.ruleId, m.fingerprint, f, item) == [m]
    {
      if m in MappedFindings(obs.findings, item) {
        var f :| f in obs.findings && MappedFinding(f.ruleId, f.fingerprint, f, item) == [m];
        MappedReadsFinding(f.ruleId, f.fingerprint, f, item, m);
      } else {
        var r :| r in obs.suppressed && MappedFinding(r.ruleId, r.fingerprint, r.finding, item) == [m];
        MappedReadsFinding(r.ruleId, r.fingerprint, r.finding, item, m);
      }
    }
    forall m, n | m in mapped && n in mapped && m.ruleId == n.ruleId && LedgerDefinition(item, m.ruleId).None?
      ensures m.strength == n.strength && m.origin == n.origin
    {
      var f :| PayloadVerified(f, catalog) && MappedFinding(f.ruleId, m.fingerprint, f, item) == [m];
      var g :| PayloadVerified(g, catalog) && MappedFinding(g.ruleId, n.fingerprint, g, item) == [n];
      MappedReadsFinding(f.ruleId, m.fingerprint, f, item, m);
      MappedReadsFinding(g.ruleId, n.fingerprint, g, item, n);
      VerifiedFindingsAgree(f, g, catalog, item);
    }
  }
}
