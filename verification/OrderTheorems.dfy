/** When the order of findings matters: the exact conditions on their mappings, and inputs that show the difference. */
module OrderTheorems {
  import opened Prelude
  import opened RuleRegistry
  import opened CoverageLedger
  import opened Assessment
  import opened AssessmentEngine
  import opened AssessmentTheorems
  import opened Suppressions
  import Exec = ExecutionManifest
  import Lists

  // ---------------------------------------------------------------- mappings as evidence

  /** A kind of negative evidence: direct or partial. */
  type Kind = Definition -> bool

  /** The definition that a finding's own mapping amounts to. */
  function Own(m: Mapped): Definition {
    Definition(m.strength, m.origin, NoSemantics, [])
  }

  /** A rule the ledger item does not define, so that its first finding does. */
  predicate Loose(item: Item, ruleId: string) {
    LedgerDefinition(item, ruleId).None?
  }

  ghost predicate Negative(item: Item, a: seq<Mapped>, kind: Kind) {
    exists m :: m in a && DefinitionOf(item, a, m.ruleId).Some? && kind(DefinitionOf(item, a, m.ruleId).value)
  }

  /** A rule the ledger defines as this kind has a finding. */
  ghost predicate LedgerNegative(item: Item, a: seq<Mapped>, kind: Kind) {
    exists m :: m in a && LedgerDefinition(item, m.ruleId).Some? && kind(LedgerDefinition(item, m.ruleId).value)
  }

  /** Some loose rule has findings of this kind only. */
  ghost predicate OnlyOf(item: Item, a: seq<Mapped>, kind: Kind) {
    exists m :: m in a && Loose(item, m.ruleId) && forall n :: n in a && n.ruleId == m.ruleId ==> kind(Own(n))
  }

  /** Some finding of a loose rule is of this kind. */
  ghost predicate SomeOf(item: Item, a: seq<Mapped>, kind: Kind) {
    exists m :: m in a && Loose(item, m.ruleId) && kind(Own(m))
  }

  /** This kind of evidence is there in every order of the findings, or in none. */
  ghost predicate Always(item: Item, a: seq<Mapped>, kind: Kind) {
    LedgerNegative(item, a, kind) || OnlyOf(item, a, kind)
  }

  ghost predicate Never(item: Item, a: seq<Mapped>, kind: Kind) {
    !LedgerNegative(item, a, kind) && !SomeOf(item, a, kind)
  }

  /** The order of the findings cannot matter: direct evidence is there anyway; or it cannot be, and either the item
      is up for review or partial evidence is there anyway or cannot be. */
  ghost predicate OrderIrrelevant(item: Item, a: seq<Mapped>) {
    || Always(item, a, IsDirect)
    || (Never(item, a, IsDirect)
        && (item.status.PolicyReview? || Always(item, a, IsPartial) || Never(item, a, IsPartial)))
  }

  lemma NegativeTells(item: Item, a: seq<Mapped>, kind: Kind)
    ensures Negative(item, a, kind) <==>
      || LedgerNegative(item, a, kind)
      || exists m :: m in a && Loose(item, m.ruleId) && FirstMapped(a, m.ruleId).Some? && kind(Own(FirstMapped(a, m.ruleId).value))
  {
    forall m | m in a ensures FirstMapped(a, m.ruleId).Some? {
      FirstMappedTells(a, m.ruleId);
    }
  }

  lemma AlwaysOrNever(item: Item, a: seq<Mapped>, b: seq<Mapped>, kind: Kind)
    requires forall m :: m in a <==> m in b
    ensures Always(item, a, kind) ==> Negative(item, b, kind)
    ensures Never(item, a, kind) ==> !Negative(item, b, kind)
  {
    NegativeTells(item, b, kind);
    forall m | m in b
      ensures FirstMapped(b, m.ruleId).Some?
      ensures FirstMapped(b, m.ruleId).value in a && FirstMapped(b, m.ruleId).value.ruleId == m.ruleId
    {
      FirstMappedTells(b, m.ruleId);
    }
  }

  // ---------------------------------------------------------------- bringing findings to the front

  function Filter(a: seq<Mapped>, q: Mapped -> bool): seq<Mapped> {
    if a == [] then [] else if q(a[0]) then [a[0]] + Filter(a[1..], q) else Filter(a[1..], q)
  }

  function Not(q: Mapped -> bool): Mapped -> bool {
    m => !q(m)
  }

  /** First the findings that satisfy `q`, then the others: what suppressing the others does. */
  function Front(a: seq<Mapped>, q: Mapped -> bool): seq<Mapped> {
    Filter(a, q) + Filter(a, Not(q))
  }

  lemma {:induction false} FilterTells(a: seq<Mapped>, q: Mapped -> bool)
    ensures forall m :: m in Filter(a, q) <==> m in a && q(m)
  {
    if a != [] {
      FilterTells(a[1..], q);
      assert a == [a[0]] + a[1..];
    }
  }

  lemma {:induction false} FilterCounts(a: seq<Mapped>, q: Mapped -> bool, m: Mapped)
    ensures Lists.Count(Filter(a, q), m) + Lists.Count(Filter(a, Not(q)), m) == Lists.Count(a, m)
  {
    if a != [] {
      FilterCounts(a[1..], q, m);
      Lists.CountOfHeadTail(a, m);
      if q(a[0]) {
        Lists.CountOfConcat([a[0]], Filter(a[1..], q), m);
      } else {
        Lists.CountOfConcat([a[0]], Filter(a[1..], Not(q)), m);
      }
    }
  }

  lemma FrontReorders(a: seq<Mapped>, q: Mapped -> bool)
    ensures multiset(Front(a, q)) == multiset(a)
  {
    forall m ensures Lists.Count(Front(a, q), m) == Lists.Count(a, m) {
      FilterCounts(a, q, m);
      Lists.CountOfConcat(Filter(a, q), Filter(a, Not(q)), m);
    }
    Lists.SameCounts(Front(a, q), a);
  }

  lemma {:induction false} FirstOfConcat(a: seq<Mapped>, b: seq<Mapped>, r: string)
    ensures FirstMapped(a + b, r) == if FirstMapped(a, r).Some? then FirstMapped(a, r) else FirstMapped(b, r)
  {
    if a == [] {
      assert a + b == b;
    } else {
      Lists.TailOfConcat(a, b);
      FirstOfConcat(a[1..], b, r);
    }
  }

  lemma FirstInFront(a: seq<Mapped>, q: Mapped -> bool, m: Mapped)
    requires m in a && q(m)
    ensures FirstMapped(Front(a, q), m.ruleId).Some? && q(FirstMapped(Front(a, q), m.ruleId).value)
  {
    FilterTells(a, q);
    FirstMappedTells(Filter(a, q), m.ruleId);
    FirstOfConcat(Filter(a, q), Filter(a, Not(q)), m.ruleId);
  }

  function OfKind(kind: Kind): Mapped -> bool {
    m => kind(Own(m))
  }

  /** Findings of this kind to the front: the evidence is there unless it can never be. */
  lemma FrontShows(item: Item, a: seq<Mapped>, kind: Kind)
    requires !Never(item, a, kind)
    ensures Negative(item, Front(a, OfKind(kind)), kind)
  {
    var b := Front(a, OfKind(kind));
    FrontReorders(a, OfKind(kind));
    Lists.SameMembers(b, a);
    NegativeTells(item, b, kind);
    if !LedgerNegative(item, a, kind) {
      var m :| m in a && Loose(item, m.ruleId) && kind(Own(m));
      FirstInFront(a, OfKind(kind), m);
      assert m in b;
    }
  }

  /** The other findings to the front: the evidence is gone unless it is always there. */
  lemma FrontHides(item: Item, a: seq<Mapped>, kind: Kind)
    requires !Always(item, a, kind)
    ensures !Negative(item, Front(a, Not(OfKind(kind))), kind)
  {
    var b := Front(a, Not(OfKind(kind)));
    FrontReorders(a, Not(OfKind(kind)));
    Lists.SameMembers(b, a);
    NegativeTells(item, b, kind);
    forall m | m in b && Loose(item, m.ruleId)
      ensures FirstMapped(b, m.ruleId).Some? && !kind(Own(FirstMapped(b, m.ruleId).value))
    {
      OtherInFront(item, a, kind, m);
    }
  }

  lemma OtherInFront(item: Item, a: seq<Mapped>, kind: Kind, m: Mapped)
    requires !OnlyOf(item, a, kind) && m in a && Loose(item, m.ruleId)
    ensures var first := FirstMapped(Front(a, Not(OfKind(kind))), m.ruleId); first.Some? && !kind(Own(first.value))
  {
    var n :| n in a && n.ruleId == m.ruleId && !kind(Own(n));
    FirstInFront(a, Not(OfKind(kind)), n);
  }

  /** Evidence that is neither always nor never there comes and goes with the order. */
  lemma FrontFlips(item: Item, a: seq<Mapped>, kind: Kind) returns (q: Mapped -> bool)
    requires !Always(item, a, kind) && !Never(item, a, kind)
    ensures Negative(item, Front(a, q), kind) != Negative(item, a, kind)
  {
    if Negative(item, a, kind) {
      q := Not(OfKind(kind));
      FrontHides(item, a, kind);
    } else {
      q := OfKind(kind);
      FrontShows(item, a, kind);
    }
  }

  lemma DirectFlips(item: Item, a: seq<Mapped>) returns (q: Mapped -> bool)
    requires !Always(item, a, IsDirect) && !Never(item, a, IsDirect)
    ensures SameNegatives(item, a, Front(a, q)) == false
  {
    q := FrontFlips(item, a, IsDirect);
    SameFlags(item, a, Front(a, q));
  }

  lemma PartialFlips(item: Item, a: seq<Mapped>) returns (q: Mapped -> bool)
    requires Never(item, a, IsDirect) && !item.status.PolicyReview?
    requires !Always(item, a, IsPartial) && !Never(item, a, IsPartial)
    ensures SameNegatives(item, a, Front(a, q)) == false
  {
    q := FrontFlips(item, a, IsPartial);
    SameFlags(item, a, Front(a, q));
    NeverStays(item, a, q, IsDirect);
  }

  lemma NeverStays(item: Item, a: seq<Mapped>, q: Mapped -> bool, kind: Kind)
    requires Never(item, a, kind)
    ensures !Negative(item, a, kind) && !Negative(item, Front(a, q), kind)
  {
    FrontReorders(a, q);
    Lists.SameMembers(a, Front(a, q));
    AlwaysOrNever(item, a, a, kind);
    AlwaysOrNever(item, a, Front(a, q), kind);
  }

  /** Where the order matters, some findings brought to the front change the negative evidence that counts. */
  lemma SomeFrontDiffers(item: Item, a: seq<Mapped>) returns (q: Mapped -> bool)
    requires !OrderIrrelevant(item, a)
    ensures SameNegatives(item, a, Front(a, q)) == false
  {
    if Never(item, a, IsDirect) {
      q := PartialFlips(item, a);
    } else {
      q := DirectFlips(item, a);
    }
  }

  lemma SameFlags(item: Item, a: seq<Mapped>, b: seq<Mapped>)
    ensures SameNegatives(item, a, b) <==>
      && Negative(item, a, IsDirect) == Negative(item, b, IsDirect)
      && (Negative(item, a, IsDirect) || item.status.PolicyReview? || Negative(item, a, IsPartial) == Negative(item, b, IsPartial))
  {
    NegativesAreFlags(item, a);
    NegativesAreFlags(item, b);
  }

  lemma NegativesAreFlags(item: Item, a: seq<Mapped>)
    ensures DirectNegative(item, a) <==> Negative(item, a, IsDirect)
    ensures PartialNegative(item, a) <==> Negative(item, a, IsPartial)
  {
  }

  lemma IrrelevantMeansSame(item: Item, a: seq<Mapped>, b: seq<Mapped>)
    requires multiset(a) == multiset(b) && OrderIrrelevant(item, a)
    ensures SameNegatives(item, a, b)
  {
    Lists.SameMembers(a, b);
    SameFlags(item, a, b);
    AlwaysOrNever(item, a, a, IsDirect);
    AlwaysOrNever(item, a, b, IsDirect);
    AlwaysOrNever(item, a, a, IsPartial);
    AlwaysOrNever(item, a, b, IsPartial);
  }

  /** Every order of the findings gives the same status in every run exactly when the mappings leave it nothing
      to decide. */
  lemma OrderIrrelevantExactly(item: Item, a: seq<Mapped>)
    ensures (forall b :: multiset(b) == multiset(a) ==> SameInEveryRun(item, a, b)) <==> OrderIrrelevant(item, a)
  {
    forall b | multiset(b) == multiset(a) ensures SameInEveryRun(item, a, b) <==> SameNegatives(item, a, b) {
      Lists.SameMembers(a, b);
      SameStatusExactly(item, a, b);
    }
    if OrderIrrelevant(item, a) {
      forall b | multiset(b) == multiset(a) ensures SameInEveryRun(item, a, b) {
        IrrelevantMeansSame(item, a, b);
      }
    } else {
      var q := SomeFrontDiffers(item, a);
      FrontReorders(a, q);
    }
  }

  // ---------------------------------------------------------------- suppressing

  /** Suppress the findings whose mapping does not satisfy `q`. */
  function Behind(item: Item, q: Mapped -> bool): Hit {
    (f: Finding) => MappedFinding(f.ruleId, f.fingerprint, f, item) != [] && !q(MappedFinding(f.ruleId, f.fingerprint, f, item)[0])
  }

  lemma {:induction false} FilterConcat(a: seq<Mapped>, b: seq<Mapped>, q: Mapped -> bool)
    ensures Filter(a + b, q) == Filter(a, q) + Filter(b, q)
  {
    if a == [] {
      assert a + b == b;
    } else {
      Lists.TailOfConcat(a, b);
      FilterConcat(a[1..], b, q);
      Lists.Assoc([a[0]], Filter(a[1..], q), Filter(b, q));
    }
  }

  lemma FilterOne(f: Finding, item: Item, q: Mapped -> bool)
    ensures var own := MappedFinding(f.ruleId, f.fingerprint, f, item);
            && Filter(own, q) == (if Behind(item, q)(f) then [] else own)
            && Filter(own, Not(q)) == (if Behind(item, q)(f) then own else [])
  {
    var own := MappedFinding(f.ruleId, f.fingerprint, f, item);
    if own != [] { assert own == [own[0]] && own[1..] == []; }
  }

  lemma {:induction false} ActiveMaps(fs: seq<Finding>, item: Item, q: Mapped -> bool)
    ensures MappedFindings(Active(fs, Behind(item, q)), item) == Filter(MappedFindings(fs, item), q)
  {
    if fs != [] {
      var f := fs[0];
      ActiveMaps(fs[1..], item, q);
      FilterOne(f, item, q);
      FilterConcat(MappedFinding(f.ruleId, f.fingerprint, f, item), MappedFindings(fs[1..], item), q);
    }
  }

  lemma {:induction false} MovedMaps(fs: seq<Finding>, item: Item, q: Mapped -> bool)
    ensures MappedSuppressed(Moved(fs, Behind(item, q)), item) == Filter(MappedFindings(fs, item), Not(q))
  {
    if fs != [] {
      var f := fs[0];
      MovedMaps(fs[1..], item, q);
      FilterOne(f, item, q);
      FilterConcat(MappedFinding(f.ruleId, f.fingerprint, f, item), MappedFindings(fs[1..], item), Not(q));
    }
  }

  /** Suppressing is reordering: what stays active comes first. */
  lemma SplitIsFront(obs: Observations, item: Item, q: Mapped -> bool)
    requires obs.suppressed == []
    ensures AllMapped(AfterSplit(obs, Behind(item, q)), item) == Front(AllMapped(obs, item), q)
  {
    var hit := Behind(item, q);
    assert MappedSuppressed([], item) == [];
    assert AllMapped(obs, item) == MappedFindings(obs.findings, item);
    assert obs.suppressed + Moved(obs.findings, hit) == Moved(obs.findings, hit);
    ActiveMaps(obs.findings, item, q);
    MovedMaps(obs.findings, item, q);
  }

  /** Every suppression of findings that were all active keeps the status in every run exactly when the mappings
      leave the order nothing to decide. */
  lemma SuppressionInvariantExactly(obs: Observations, item: Item)
    requires obs.suppressed == []
    ensures (forall hit: Hit :: SameInEveryRun(item, AllMapped(obs, item), AllMapped(AfterSplit(obs, hit), item)))
            <==> OrderIrrelevant(item, AllMapped(obs, item))
  {
    var a := AllMapped(obs, item);
    if OrderIrrelevant(item, a) {
      forall hit: Hit ensures SameInEveryRun(item, a, AllMapped(AfterSplit(obs, hit), item)) {
        SuppressionIsHarmless(obs, hit, item);
      }
    } else {
      var q := SomeFrontDiffers(item, a);
      SplitIsFront(obs, item, q);
      FrontReorders(a, q);
      Lists.SameMembers(a, Front(a, q));
      SameStatusExactly(item, a, Front(a, q));
      assert !SameInEveryRun(item, a, AllMapped(AfterSplit(obs, Behind(item, q)), item));
    }
  }

  /** The safe direction for any result, whatever was suppressed before. */
  lemma SuppressionIsHarmless(obs: Observations, hit: Hit, item: Item)
    requires OrderIrrelevant(item, AllMapped(obs, item))
    ensures SameInEveryRun(item, AllMapped(obs, item), AllMapped(AfterSplit(obs, hit), item))
  {
    var a, b := AllMapped(obs, item), AllMapped(AfterSplit(obs, hit), item);
    SplitKeepsMapped(obs, hit, item);
    Lists.SameMembers(a, b);
    IrrelevantMeansSame(item, a, b);
    SameStatusExactly(item, a, b);
  }

  // ---------------------------------------------------------------- one more finding

  /** A finding put at position i takes over the definition of its rule: the rule is loose and had findings, but
      only behind that position. */
  predicate TakesOver(item: Item, a: seq<Mapped>, i: nat, m: Mapped)
    requires i <= |a|
  {
    Loose(item, m.ruleId) && FirstMapped(a[..i], m.ruleId).None? && FirstMapped(a[i..], m.ruleId).Some?
  }

  function Except(ruleId: string): Mapped -> bool {
    (m: Mapped) => m.ruleId != ruleId
  }

  /** The findings of the other rules. */
  function Others(a: seq<Mapped>, ruleId: string): seq<Mapped> {
    Filter(a, Except(ruleId))
  }

  lemma {:induction false} FirstAmongOthers(a: seq<Mapped>, ruleId: string, r: string)
    requires r != ruleId
    ensures FirstMapped(Others(a, ruleId), r) == FirstMapped(a, r)
  {
    if a != [] { FirstAmongOthers(a[1..], ruleId, r); }
  }

  /** The evidence of a population: that of a loose rule's first finding, or that of the other rules. */
  lemma NegativeOfRule(item: Item, a: seq<Mapped>, ruleId: string, kind: Kind)
    requires Loose(item, ruleId) && FirstMapped(a, ruleId).Some?
    ensures Negative(item, a, kind) <==>
              kind(Own(FirstMapped(a, ruleId).value)) || Negative(item, Others(a, ruleId), kind)
  {
    var others := Others(a, ruleId);
    FilterTells(a, Except(ruleId));
    FirstMappedTells(a, ruleId);
    NegativeTells(item, a, kind);
    NegativeTells(item, others, kind);
    forall m | m in others ensures FirstMapped(others, m.ruleId) == FirstMapped(a, m.ruleId) {
      FirstAmongOthers(a, ruleId, m.ruleId);
    }
  }

  function Insert(a: seq<Mapped>, i: nat, m: Mapped): seq<Mapped>
    requires i <= |a|
  {
    a[..i] + ([m] + a[i..])
  }

  lemma InsertedFirst(a: seq<Mapped>, i: nat, m: Mapped, r: string)
    requires i <= |a|
    ensures FirstMapped(Insert(a, i, m), r) ==
      if FirstMapped(a[..i], r).Some? then FirstMapped(a[..i], r)
      else if m.ruleId == r then Some(m) else FirstMapped(a[i..], r)
    ensures FirstMapped(a, r) == if FirstMapped(a[..i], r).Some? then FirstMapped(a[..i], r) else FirstMapped(a[i..], r)
  {
    FirstOfConcat(a[..i], [m] + a[i..], r);
    FirstOfConcat(a[..i], a[i..], r);
    assert a == a[..i] + a[i..];
    assert ([m] + a[i..])[1..] == a[i..];
  }

  lemma OthersOfInsert(a: seq<Mapped>, i: nat, m: Mapped)
    requires i <= |a|
    ensures Others(Insert(a, i, m), m.ruleId) == Others(a, m.ruleId)
  {
    var q := Except(m.ruleId);
    FilterConcat(a[..i], [m] + a[i..], q);
    FilterConcat(a[..i], a[i..], q);
    assert a == a[..i] + a[i..];
    assert ([m] + a[i..])[1..] == a[i..];
  }

  /** The finding that takes over keeps the direct evidence of the one it replaces, and its partial evidence, unless
      other rules make up for it or the item is up for review. */
  ghost predicate TakesOverAsSeverely(item: Item, a: seq<Mapped>, m: Mapped)
    requires FirstMapped(a, m.ruleId).Some?
  {
    var was, others := Own(FirstMapped(a, m.ruleId).value), Others(a, m.ruleId);
    && (IsDirect(was) ==> IsDirect(Own(m)) || DirectNegative(item, others))
    && (IsPartial(was) && !item.status.PolicyReview? ==>
          || IsDirect(Own(m)) || IsPartial(Own(m)) || DirectNegative(item, others) || PartialNegative(item, others))
  }

  lemma TakeoverKeeps(item: Item, a: seq<Mapped>, i: nat, m: Mapped)
    requires i <= |a| && TakesOver(item, a, i, m)
    ensures FirstMapped(a, m.ruleId).Some?
    ensures KeepsNegatives(item, a, Insert(a, i, m)) == TakesOverAsSeverely(item, a, m)
  {
    var b := Insert(a, i, m);
    InsertedFirst(a, i, m, m.ruleId);
    OthersOfInsert(a, i, m);
    NegativeOfRule(item, a, m.ruleId, IsDirect);
    NegativeOfRule(item, b, m.ruleId, IsDirect);
    NegativeOfRule(item, a, m.ruleId, IsPartial);
    NegativeOfRule(item, b, m.ruleId, IsPartial);
    NegativesAreFlags(item, a);
    NegativesAreFlags(item, b);
    NegativesAreFlags(item, Others(a, m.ruleId));
  }

  lemma InsertKeepsDefinitions(item: Item, a: seq<Mapped>, i: nat, m: Mapped)
    requires i <= |a| && !TakesOver(item, a, i, m)
    ensures KeepsNegatives(item, a, Insert(a, i, m))
  {
    var b := Insert(a, i, m);
    forall x | x in a ensures x in b && DefinitionOf(item, a, x.ruleId) == DefinitionOf(item, b, x.ruleId) {
      InsertedFirst(a, i, m, x.ruleId);
      FirstMappedTells(a, x.ruleId);
      assert a == a[..i] + a[i..];
    }
  }

  /**
   * One more finding, anywhere among the others, never softens the status in any run exactly when it does not take
   * over its rule's definition or takes it over as severely.
   */
  lemma AddedFindingExactly(item: Item, catalog: map<string, RuleMeta>, a: seq<Mapped>, i: nat, m: Mapped)
    requires EvidenceValid(item, catalog) && i <= |a|
    ensures TakesOver(item, a, i, m) ==> FirstMapped(a, m.ruleId).Some?
    ensures NeverSoftens(item, a, Insert(a, i, m)) <==> (TakesOver(item, a, i, m) ==> TakesOverAsSeverely(item, a, m))
  {
    assert a == a[..i] + a[i..];
    MonotoneExactly(item, catalog, a, Insert(a, i, m));
    if TakesOver(item, a, i, m) {
      TakeoverKeeps(item, a, i, m);
    } else {
      InsertKeepsDefinitions(item, a, i, m);
    }
  }

  // ---------------------------------------------------------------- inputs that show it

  const WITNESS_ITEM := Item("i", [ControlReference("S", "1", ["2"])], true, Uncovered, [], [], [], [], {})
  const STRONG := StandardReference("S", "1", Direct, Primary, Declared, None, "")
  const WEAK := StandardReference("S", "2", Related, Primary, Declared, None, "")
  const WITNESS_CATALOG := map["r" := RuleMeta("r", Universal, None, {}, [STRONG, WEAK], [])]
  const STRONG_FIRST := Finding("r", "f", [STRONG, WEAK], [])
  const WEAK_FIRST := Finding("r", "g", [WEAK, STRONG], [])

  /** One rule refers to two grouped references of an item; its findings list them in either order, and both payloads
      agree with the registry. */
  lemma WitnessIsVerified()
    ensures EvidenceValid(WITNESS_ITEM, WITNESS_CATALOG)
    ensures PayloadVerified(STRONG_FIRST, WITNESS_CATALOG) && PayloadVerified(WEAK_FIRST, WITNESS_CATALOG)
  {
    assert PayloadKeys([STRONG, WEAK]) == {PayloadKey(STRONG), PayloadKey(WEAK)} by {
      assert STRONG in [STRONG, WEAK] && WEAK in [STRONG, WEAK];
    }
    assert PayloadKeys([WEAK, STRONG]) == {PayloadKey(STRONG), PayloadKey(WEAK)} by {
      assert STRONG in [WEAK, STRONG] && WEAK in [WEAK, STRONG];
    }
  }

  lemma WitnessMaps()
    ensures MappedFinding("r", "f", STRONG_FIRST, WITNESS_ITEM) == [Mapped("r", "f", Direct, Declared)]
    ensures MappedFinding("r", "g", WEAK_FIRST, WITNESS_ITEM) == [Mapped("r", "g", Related, Declared)]
  {
    var c := ControlReference("S", "1", ["2"]);
    assert c in WITNESS_ITEM.references;
    assert Matches(WITNESS_ITEM, "S", "1") && Matches(WITNESS_ITEM, "S", "2");
    assert STRONG_FIRST.standards + STRONG_FIRST.secondary == [STRONG, WEAK];
    assert WEAK_FIRST.standards + WEAK_FIRST.secondary == [WEAK, STRONG];
  }

  /** The rule's first finding decides the status of the witness item. */
  lemma FirstDecides(a: seq<Mapped>, run: seq<Mapped>)
    requires a != [] && (forall m :: m in a ==> m.ruleId == a[0].ruleId) && SameRules(run, a)
    requires a[0].origin == Declared && (a[0].strength == Direct || a[0].strength == Related)
    ensures StatusOf(WITNESS_ITEM, a, PlainRun(run), [], PLAIN_POLICY) == if a[0].strength == Direct then Fail else NotAssessed
  {
    assert a[0] in a && FirstMapped(a, a[0].ruleId) == Some(a[0]);
    PlainRunSpeaks(WITNESS_ITEM, run, a);
  }

  /** Suppressing one of two verified findings turns fail into not-assessed. */
  lemma SuppressionFlips(manifest: Exec.Manifest)
    requires manifest == PlainRun([Mapped("r", "f", Direct, Declared), Mapped("r", "g", Related, Declared)])
    ensures var obs := Observations([STRONG_FIRST, WEAK_FIRST], [], [], manifest);
            var after := AfterSplit(obs, f => f == STRONG_FIRST);
            && Admissible(manifest, AllMapped(obs, WITNESS_ITEM))
            && StatusOf(WITNESS_ITEM, AllMapped(obs, WITNESS_ITEM), manifest, [], PLAIN_POLICY) == Fail
            && StatusOf(WITNESS_ITEM, AllMapped(after, WITNESS_ITEM), manifest, [], PLAIN_POLICY) == NotAssessed
  {
    var strong, weak := Mapped("r", "f", Direct, Declared), Mapped("r", "g", Related, Declared);
    var obs := Observations([STRONG_FIRST, WEAK_FIRST], [], [], manifest);
    var hit: Hit := f => f == STRONG_FIRST;
    WitnessMaps();
    TwoFindings(STRONG_FIRST, WEAK_FIRST, hit);
    assert MappedSuppressed([], WITNESS_ITEM) == [];
    assert AllMapped(obs, WITNESS_ITEM) == [strong, weak];
    assert AllMapped(AfterSplit(obs, hit), WITNESS_ITEM) == [weak, strong];
    SameTwo(strong, weak);
    PlainRunIsAdmissible([strong, weak], [strong, weak]);
    FirstDecides([strong, weak], [strong, weak]);
    FirstDecides([weak, strong], [strong, weak]);
  }

  /** One more verified finding turns fail into not-assessed. */
  lemma FurtherFindingSoftens(manifest: Exec.Manifest)
    requires manifest == PlainRun([Mapped("r", "f", Direct, Declared)])
    ensures var obs := Observations([STRONG_FIRST], [], [], manifest);
            var more := Observations([WEAK_FIRST, STRONG_FIRST], [], [], manifest);
            && Admissible(manifest, AllMapped(more, WITNESS_ITEM))
            && StatusOf(WITNESS_ITEM, AllMapped(obs, WITNESS_ITEM), manifest, [], PLAIN_POLICY) == Fail
            && StatusOf(WITNESS_ITEM, AllMapped(more, WITNESS_ITEM), manifest, [], PLAIN_POLICY) == NotAssessed
  {
    var strong, weak := Mapped("r", "f", Direct, Declared), Mapped("r", "g", Related, Declared);
    WitnessMaps();
    TwoFindings(WEAK_FIRST, STRONG_FIRST, f => true);
    assert MappedSuppressed([], WITNESS_ITEM) == [] && [STRONG_FIRST][1..] == [];
    assert AllMapped(Observations([STRONG_FIRST], [], [], manifest), WITNESS_ITEM) == [strong];
    assert AllMapped(Observations([WEAK_FIRST, STRONG_FIRST], [], [], manifest), WITNESS_ITEM) == [weak, strong];
    assert strong in [strong] && weak in [weak, strong] && strong in [weak, strong];
    PlainRunIsAdmissible([strong], [weak, strong]);
    FirstDecides([strong], [strong]);
    FirstDecides([weak, strong], [strong]);
  }

  lemma SameTwo(x: Mapped, y: Mapped)
    ensures SameRules([x, y], [y, x])
    ensures forall m :: m in [x, y] ==> HasFinding([x, y], m.ruleId)
  {
    assert forall m :: m in [x, y] <==> m in [y, x];
  }

  /** How two findings are split and mapped. */
  lemma TwoFindings(f: Finding, g: Finding, hit: Hit)
    ensures MappedFindings([f, g], WITNESS_ITEM)
            == MappedFinding(f.ruleId, f.fingerprint, f, WITNESS_ITEM) + MappedFinding(g.ruleId, g.fingerprint, g, WITNESS_ITEM)
    ensures hit(f) && !hit(g) ==>
      && MappedFindings(Active([f, g], hit), WITNESS_ITEM) == MappedFinding(g.ruleId, g.fingerprint, g, WITNESS_ITEM)
      && MappedSuppressed([] + Moved([f, g], hit), WITNESS_ITEM) == MappedFinding(f.ruleId, f.fingerprint, f, WITNESS_ITEM)
  {
    assert [f, g][1..] == [g] && [g][1..] == [] && [f][1..] == [];
    assert MappedFindings([g], WITNESS_ITEM) == MappedFinding(g.ruleId, g.fingerprint, g, WITNESS_ITEM) + [];
    if hit(f) && !hit(g) {
      var none: seq<Finding> := [];
      assert Moved(none, hit) == [] && Active(none, hit) == [] && [g][1..] == none;
      assert Active([g], hit) == [g] && Moved([g], hit) == Moved(none, hit);
      assert Active([f, g], hit) == [g];
      assert Moved([f, g], hit) == [RecordOf(f)] + Moved([g], hit);
      assert [] + Moved([f, g], hit) == [RecordOf(f)] && [RecordOf(f)][1..] == [];
      assert MappedSuppressed([RecordOf(f)], WITNESS_ITEM) == MappedFinding(f.ruleId, f.fingerprint, f, WITNESS_ITEM) + [];
    }
  }
}
