/** Rule metadata: standard references, their augmentation from the mapping tables, and the registry stores. */
module RuleRegistry {
  import opened Prelude
  import Lists

  datatype Strength = Direct | Partial | Related
  datatype Origin = Declared | Derived
  datatype Tier = Primary | Secondary
  datatype Category = Local | External | Universal
  datatype Provenance = Provenance(standard: string, reference: string)

  datatype StandardReference = StandardReference(
    standard: string,
    reference: string,
    coverage: Strength,
    tier: Tier,
    origin: Origin,
    derivedFrom: Option<Provenance>,
    note: string)

  datatype RuleMeta = RuleMeta(
    ruleId: string,
    category: Category,
    serverType: Option<string>,
    tags: set<string>,
    standards: seq<StandardReference>,
    secondary: seq<StandardReference>)

  /** The mapping tables, as data: extra references by rule id and the 2021-to-2025 category migration. */
  datatype Tables = Tables(
    extraPrimary: string -> seq<StandardReference>,
    extraSecondary: string -> seq<StandardReference>,
    category2025: string -> Option<string>,
    migrationNote: StandardReference -> string)

  const OWASP_TOP10 := "OWASP Top 10"

  /** What merging compares: everything but the free text. */
  function Key(ref: StandardReference): StandardReference {
    ref.(note := "")
  }

  ghost function Keys(refs: seq<StandardReference>): set<StandardReference> {
    set r | r in refs :: Key(r)
  }

  function CoerceTier(refs: seq<StandardReference>, tier: Tier): seq<StandardReference> {
    seq(|refs|, i requires 0 <= i < |refs| => if refs[i].tier == tier then refs[i] else refs[i].(tier := tier))
  }

  /** First-wins deduplication by key, given the keys already taken. */
  function Fresh(refs: seq<StandardReference>, seen: set<StandardReference>): seq<StandardReference> {
    if refs == [] then []
    else if Key(refs[0]) in seen then Fresh(refs[1..], seen)
    else [refs[0]] + Fresh(refs[1..], seen + {Key(refs[0])})
  }

  function Flat(groups: seq<seq<StandardReference>>): seq<StandardReference> {
    if groups == [] then [] else groups[0] + Flat(groups[1..])
  }

  method MergeStandardReferences(groups: seq<seq<StandardReference>>) returns (merged: seq<StandardReference>)
    ensures merged == Fresh(Flat(groups), {})
  {
    merged := [];
    var seen: set<StandardReference> := {};
    for i := 0 to |groups|
      invariant merged + Fresh(Flat(groups[i..]), seen) == Fresh(Flat(groups), {})
    {
      var refs := groups[i];
      ghost var later := Flat(groups[i + 1..]);
      Lists.DropHead(groups, i);
      ghost var rest := refs + later;
      for j := 0 to |refs|
        invariant rest == refs[j..] + later
        invariant merged + Fresh(rest, seen) == Fresh(Flat(groups), {})
      {
        Lists.DropHead(refs, j);
        Lists.TailOfConcat(refs[j..], later);
        if Key(refs[j]) !in seen {
          Lists.Assoc(merged, [refs[j]], Fresh(rest[1..], seen + {Key(refs[j])}));
          seen := seen + {Key(refs[j])};
          merged := merged + [refs[j]];
        }
        rest := rest[1..];
      }
      assert rest == later;
    }
  }

  ghost predicate KeysDistinct(refs: seq<StandardReference>) {
    forall i, j :: 0 <= i < j < |refs| ==> Key(refs[i]) != Key(refs[j])
  }

  lemma {:induction false} FreshKeys(refs: seq<StandardReference>, seen: set<StandardReference>)
    ensures KeysDistinct(Fresh(refs, seen))
    ensures Keys(Fresh(refs, seen)) == Keys(refs) - seen
  {
    if refs != [] {
      var taken := seen + {Key(refs[0])};
      assert refs == [refs[0]] + refs[1..];
      assert Keys(refs) == {Key(refs[0])} + Keys(refs[1..]);
      if Key(refs[0]) in seen {
        FreshKeys(refs[1..], seen);
      } else {
        var rest := Fresh(refs[1..], taken);
        FreshKeys(refs[1..], taken);
        forall r | r in rest ensures Key(r) != Key(refs[0]) { assert Key(r) in Keys(rest); }
        assert Keys([refs[0]] + rest) == {Key(refs[0])} + Keys(rest);
      }
    }
  }

  /** `Fresh` keeps exactly the first reference of every key not yet taken. */
  lemma {:induction false} FreshKeepsFirsts(refs: seq<StandardReference>, seen: set<StandardReference>, r: StandardReference)
    ensures r in Fresh(refs, seen) <==> Key(r) !in seen && exists i :: IsFirst(refs, i) && refs[i] == r
  {
    if refs != [] {
      var taken := seen + {Key(refs[0])};
      FreshKeepsFirsts(refs[1..], if Key(refs[0]) in seen then seen else taken, r);
      assert IsFirst(refs, 0);
      if i :| IsFirst(refs[1..], i) && refs[1..][i] == r && Key(r) != Key(refs[0]) {
        FirstShifts(refs, i + 1);
      }
      if i :| IsFirst(refs, i) && refs[i] == r && i > 0 {
        FirstShifts(refs, i);
        assert refs[1..][i - 1] == r && Key(refs[0]) != Key(r);
      }
    }
  }

  lemma FirstShifts(refs: seq<StandardReference>, i: int)
    requires 0 < i < |refs|
    ensures IsFirst(refs, i) <==> IsFirst(refs[1..], i - 1) && Key(refs[i]) != Key(refs[0])
  {
    assert forall j :: 0 < j <= i ==> refs[1..][j - 1] == refs[j];
  }

  ghost predicate IsFirst(refs: seq<StandardReference>, i: int) {
    0 <= i < |refs| && forall j :: 0 <= j < i ==> Key(refs[j]) != Key(refs[i])
  }

  /** Merging in references that are already there changes nothing. */
  lemma {:induction false} FreshAbsorbs(a: seq<StandardReference>, b: seq<StandardReference>, seen: set<StandardReference>)
    requires KeysDistinct(a) && Keys(a) !! seen
    requires Keys(b) <= Keys(a) + seen
    ensures Fresh(a + b, seen) == a
  {
    if a == [] {
      assert a + b == b;
      AllSeen(b, seen);
    } else {
      Lists.TailOfConcat(a, b);
      assert Key(a[0]) in Keys(a);
      assert a == [a[0]] + a[1..];
      forall r | r in a[1..] ensures r in a && Key(r) != Key(a[0]) {}
      FreshAbsorbs(a[1..], b, seen + {Key(a[0])});
    }
  }

  lemma {:induction false} AllSeen(b: seq<StandardReference>, seen: set<StandardReference>)
    requires Keys(b) <= seen
    ensures Fresh(b, seen) == []
  {
    if b != [] {
      assert b[0] in b && Key(b[0]) in Keys(b);
      assert forall r :: r in b[1..] ==> r in b;
      AllSeen(b[1..], seen);
    }
  }

  /** Secondary 2025 references derived from the reviewed 2021 primary ones. */
  function DerivedSecondary(primary: seq<StandardReference>, tables: Tables): seq<StandardReference> {
    if primary == [] then []
    else
      var ref := primary[0];
      var category := tables.category2025(ref.reference);
      (if ref.standard == OWASP_TOP10 && category.Some?
       then [StandardReference(OWASP_TOP10, category.value, ref.coverage, Secondary, Derived,
                               Some(Provenance(ref.standard, ref.reference)), tables.migrationNote(ref))]
       else [])
      + DerivedSecondary(primary[1..], tables)
  }

  function Pairs(refs: seq<StandardReference>): set<(string, string)> {
    set r | r in refs :: (r.standard, r.reference)
  }

  predicate CrossTierOverlap(meta: RuleMeta) {
    Pairs(meta.standards) * Pairs(meta.secondary) != {}
  }

  /** The augmented metadata, before the cross-tier check. */
  function Merged(meta: RuleMeta, tables: Tables): RuleMeta {
    var primary := Fresh(Flat([CoerceTier(meta.standards, Primary),
                               CoerceTier(tables.extraPrimary(meta.ruleId), Primary)]), {});
    var secondary := Fresh(Flat([CoerceTier(meta.secondary, Secondary),
                                 CoerceTier(tables.extraSecondary(meta.ruleId), Secondary),
                                 DerivedSecondary(primary, tables)]), {});
    meta.(standards := primary, secondary := secondary)
  }

  method AugmentRuleMeta(meta: RuleMeta, tables: Tables) returns (result: Result<RuleMeta, string>)
    ensures result == if CrossTierOverlap(Merged(meta, tables)) then Err(meta.ruleId) else Ok(Merged(meta, tables))
    ensures result.Ok? ==> Augmented(result.value, meta, tables) && NoOverlap(result.value)
    ensures result.Err? ==> exists m :: Augmented(m, meta, tables) && !NoOverlap(m)
  {
    MergedIsAugmented(meta, tables);
    OverlapExactly(Merged(meta, tables));
    var primary := MergeStandardReferences([CoerceTier(meta.standards, Primary),
                                            CoerceTier(tables.extraPrimary(meta.ruleId), Primary)]);
    var secondary := MergeStandardReferences([CoerceTier(meta.secondary, Secondary),
                                              CoerceTier(tables.extraSecondary(meta.ruleId), Secondary),
                                              DerivedSecondary(primary, tables)]);
    if primary == meta.standards && secondary == meta.secondary {
      assert meta == Merged(meta, tables);
      return if CrossTierOverlap(meta) then Err(meta.ruleId) else Ok(meta);
    }
    var merged := meta.(standards := primary, secondary := secondary);
    result := if CrossTierOverlap(merged) then Err(meta.ruleId) else Ok(merged);
  }

  ghost predicate AllOfTier(refs: seq<StandardReference>, tier: Tier) {
    forall r :: r in refs ==> r.tier == tier
  }

  lemma {:induction false} DerivedIsSecondary(primary: seq<StandardReference>, tables: Tables)
    ensures AllOfTier(DerivedSecondary(primary, tables), Secondary)
  {
    if primary != [] { DerivedIsSecondary(primary[1..], tables); }
  }

  lemma CoercedTier(refs: seq<StandardReference>, tier: Tier)
    ensures AllOfTier(CoerceTier(refs, tier), tier)
    ensures AllOfTier(refs, tier) ==> CoerceTier(refs, tier) == refs
  {
    if AllOfTier(refs, tier) { assert forall i :: 0 <= i < |refs| ==> refs[i] in refs; }
  }

  lemma FlatOfTwo(a: seq<StandardReference>, b: seq<StandardReference>)
    ensures Flat([a, b]) == a + b
  {
    assert [a, b][1..] == [b] && [b][1..] == [];
    assert Flat([b]) == b + Flat([]) == b;
  }

  lemma FlatOfThree(a: seq<StandardReference>, b: seq<StandardReference>, c: seq<StandardReference>)
    ensures Flat([a, b, c]) == a + (b + c)
  {
    assert [a, b, c][1..] == [b, c];
    FlatOfTwo(b, c);
  }

  /** Merging a merge again with the same additions changes nothing. */
  lemma RemergeIsIdentity(own: seq<StandardReference>, extra: seq<StandardReference>, tier: Tier)
    requires AllOfTier(own, tier) && AllOfTier(extra, tier)
    ensures var m := Fresh(own + extra, {}); CoerceTier(m, tier) == m && Fresh(m + extra, {}) == m
  {
    var m := Fresh(own + extra, {});
    forall r | r in m ensures r.tier == tier {
      FreshKeepsFirsts(own + extra, {}, r);
      assert r in own + extra;
    }
    CoercedTier(m, tier);
    FreshKeys(own + extra, {});
    assert forall r :: r in extra ==> r in own + extra;
    FreshAbsorbs(m, extra, {});
  }

  lemma MergedAsConcatenation(meta: RuleMeta, tables: Tables)
    ensures Merged(meta, tables).standards ==
      Fresh(CoerceTier(meta.standards, Primary) + CoerceTier(tables.extraPrimary(meta.ruleId), Primary), {})
    ensures Merged(meta, tables).secondary ==
      Fresh(CoerceTier(meta.secondary, Secondary) +
            (CoerceTier(tables.extraSecondary(meta.ruleId), Secondary)
             + DerivedSecondary(Merged(meta, tables).standards, tables)), {})
  {
    var m := Merged(meta, tables);
    FlatOfTwo(CoerceTier(meta.standards, Primary), CoerceTier(tables.extraPrimary(meta.ruleId), Primary));
    FlatOfThree(CoerceTier(meta.secondary, Secondary), CoerceTier(tables.extraSecondary(meta.ruleId), Secondary),
                DerivedSecondary(m.standards, tables));
  }

  /** Augmenting augmented metadata returns it unchanged, derived references included. */
  lemma AugmentationIsIdempotent(meta: RuleMeta, tables: Tables)
    ensures Merged(Merged(meta, tables), tables) == Merged(meta, tables)
  {
    var m := Merged(meta, tables);
    var px, sx := CoerceTier(tables.extraPrimary(meta.ruleId), Primary), CoerceTier(tables.extraSecondary(meta.ruleId), Secondary);
    var d := DerivedSecondary(m.standards, tables);
    CoercedTier(meta.standards, Primary);
    CoercedTier(tables.extraPrimary(meta.ruleId), Primary);
    CoercedTier(meta.secondary, Secondary);
    CoercedTier(tables.extraSecondary(meta.ruleId), Secondary);
    DerivedIsSecondary(m.standards, tables);
    MergedAsConcatenation(meta, tables);
    MergedAsConcatenation(m, tables);
    RemergeIsIdentity(CoerceTier(meta.standards, Primary), px, Primary);
    RemergeIsIdentity(CoerceTier(meta.secondary, Secondary), sx + d, Secondary);
  }

  // ---------------------------------------------------------------- what augmented metadata holds

  /** Equal but for the free text. */
  ghost predicate SameButNote(a: StandardReference, b: StandardReference) {
    && a.standard == b.standard && a.reference == b.reference && a.coverage == b.coverage && a.tier == b.tier
    && a.origin == b.origin && a.derivedFrom == b.derivedFrom
  }

  /** The k-th of the given references, filed under a tier, is the first of its kind. */
  ghost predicate FirstAs(given: seq<StandardReference>, tier: Tier, k: int) {
    0 <= k < |given| && forall j :: 0 <= j < k ==> !SameButNote(given[j].(tier := tier), given[k].(tier := tier))
  }

  /** The reference that a primary "OWASP Top 10" reference gives rise to. */
  ghost predicate DerivesFrom(d: StandardReference, p: StandardReference, tables: Tables) {
    && p.standard == "OWASP Top 10" && d.standard == "OWASP Top 10"
    && tables.category2025(p.reference) == Some(d.reference)
    && d.coverage == p.coverage && d.tier == Secondary && d.origin == Derived
    && d.derivedFrom == Some(Provenance("OWASP Top 10", p.reference))
  }

  ghost predicate DerivedFromSome(d: StandardReference, primary: seq<StandardReference>, tables: Tables) {
    exists p :: p in primary && DerivesFrom(d, p, tables) && d.note == tables.migrationNote(p)
  }

  lemma KeyIsAllButNote(a: StandardReference, b: StandardReference)
    ensures Key(a) == Key(b) <==> SameButNote(a, b)
  {
  }

  /** The references of one tier, from given ones: the first of each kind. */
  lemma CoercedFirsts(given: seq<StandardReference>, tier: Tier, r: StandardReference)
    ensures r in Fresh(CoerceTier(given, tier), {}) <==> exists k :: FirstAs(given, tier, k) && r == given[k].(tier := tier)
  {
    var refs := CoerceTier(given, tier);
    FreshKeepsFirsts(refs, {}, r);
    assert forall k :: 0 <= k < |given| ==> refs[k] == given[k].(tier := tier);
    forall k ensures IsFirst(refs, k) <==> FirstAs(given, tier, k) {}
  }

  lemma CoerceConcat(a: seq<StandardReference>, b: seq<StandardReference>, tier: Tier)
    ensures CoerceTier(a, tier) + CoerceTier(b, tier) == CoerceTier(a + b, tier)
  {
  }

  /** Merging goes through the references in order and keeps what is of no earlier kind. */
  lemma {:induction false} FreshInOrder(refs: seq<StandardReference>, r: StandardReference, seen: set<StandardReference>)
    ensures Fresh(refs + [r], seen)
         == Fresh(refs, seen) + if Key(r) in seen || exists q :: q in refs && SameButNote(q, r) then [] else [r]
  {
    if refs == [] {
      assert refs + [r] == [r] && [r][1..] == [];
    } else {
      var head, rest := refs[0], refs[1..];
      Lists.TailOfConcat(refs, [r]);
      assert refs == [head] + rest;
      KeyIsAllButNote(head, r);
      FreshInOrder(rest, r, if Key(head) in seen then seen else seen + {Key(head)});
    }
  }

  // ---------------------------------------------------------------- derived references

  lemma {:induction false} DerivedMembers(primary: seq<StandardReference>, tables: Tables, d: StandardReference)
    ensures d in DerivedSecondary(primary, tables) <==> DerivedFromSome(d, primary, tables)
  {
    if primary != [] {
      assert primary == [primary[0]] + primary[1..];
      DerivedMembers(primary[1..], tables, d);
    }
  }

  lemma PrimaryExactly(meta: RuleMeta, tables: Tables, r: StandardReference)
    ensures r in Merged(meta, tables).standards <==>
      exists k :: FirstAs(GivenPrimary(meta, tables), Primary, k) && r == GivenPrimary(meta, tables)[k].(tier := Primary)
  {
    MergedAsConcatenation(meta, tables);
    CoerceConcat(meta.standards, tables.extraPrimary(meta.ruleId), Primary);
    var given := GivenPrimary(meta, tables);
    assert Merged(meta, tables).standards == Fresh(CoerceTier(given, Primary), {});
    CoercedFirsts(given, Primary, r);
  }

  ghost predicate HasKind(refs: seq<StandardReference>, r: StandardReference) {
    exists q :: q in refs && SameButNote(q, r)
  }

  lemma {:induction false} FreshOfConcat(a: seq<StandardReference>, b: seq<StandardReference>, seen: set<StandardReference>)
    ensures Fresh(a + b, seen) == Fresh(a, seen) + Fresh(b, seen + Keys(a))
  {
    if a == [] {
      assert a + b == b && seen + Keys(a) == seen;
    } else {
      Lists.TailOfConcat(a, b);
      assert a == [a[0]] + a[1..];
      assert Keys(a) == {Key(a[0])} + Keys(a[1..]);
      if Key(a[0]) in seen {
        FreshOfConcat(a[1..], b, seen);
        assert seen + Keys(a) == seen + Keys(a[1..]);
      } else {
        FreshOfConcat(a[1..], b, seen + {Key(a[0])});
        assert seen + Keys(a) == (seen + {Key(a[0])}) + Keys(a[1..]);
      }
    }
  }

  /** The references a rule brings of itself and from the tables, as secondary ones. */
  function GivenSecondary(meta: RuleMeta, tables: Tables): seq<StandardReference> {
    meta.secondary + tables.extraSecondary(meta.ruleId)
  }

  lemma SecondaryParts(meta: RuleMeta, tables: Tables)
    ensures var given := CoerceTier(GivenSecondary(meta, tables), Secondary);
            Merged(meta, tables).secondary
            == Fresh(given, {}) + Fresh(DerivedSecondary(Merged(meta, tables).standards, tables), Keys(given))
  {
    var a, b := CoerceTier(meta.secondary, Secondary), CoerceTier(tables.extraSecondary(meta.ruleId), Secondary);
    var d := DerivedSecondary(Merged(meta, tables).standards, tables);
    MergedAsConcatenation(meta, tables);
    Lists.Assoc(a, b, d);
    CoerceConcat(meta.secondary, tables.extraSecondary(meta.ruleId), Secondary);
    FreshOfConcat(a + b, d, {});
    assert {} + Keys(a + b) == Keys(a + b);
  }

  /** Every secondary reference is the rule's own, a table's, or derived from a primary one; given ones come first. */
  lemma SecondaryOrigin(meta: RuleMeta, tables: Tables, r: StandardReference)
    requires r in Merged(meta, tables).secondary
    ensures
      || (exists k :: FirstAs(GivenSecondary(meta, tables), Secondary, k) && r == GivenSecondary(meta, tables)[k].(tier := Secondary))
      || DerivedFromSome(r, Merged(meta, tables).standards, tables)
  {
    var given := CoerceTier(GivenSecondary(meta, tables), Secondary);
    var derived := DerivedSecondary(Merged(meta, tables).standards, tables);
    SecondaryParts(meta, tables);
    if r in Fresh(given, {}) {
      CoercedFirsts(GivenSecondary(meta, tables), Secondary, r);
    } else {
      FreshKeepsFirsts(derived, Keys(given), r);
      assert r in derived;
      DerivedMembers(Merged(meta, tables).standards, tables, r);
    }
  }

  lemma KeyHasKind(refs: seq<StandardReference>, r: StandardReference)
    ensures Key(r) in Keys(refs) <==> HasKind(refs, r)
  {
    if Key(r) in Keys(refs) {
      var q :| q in refs && Key(q) == Key(r);
      KeyIsAllButNote(q, r);
    }
    if q :| q in refs && SameButNote(q, r) {
      KeyIsAllButNote(q, r);
    }
  }

  lemma KindInConcat(a: seq<StandardReference>, b: seq<StandardReference>, r: StandardReference)
    ensures HasKind(a + b, r) <==> HasKind(a, r) || HasKind(b, r)
  {
    assert forall q :: q in a + b <==> q in a || q in b;
  }

  /** Nothing derivable is lost: an equal reference, but for free text, is there. */
  lemma DerivedIsThere(meta: RuleMeta, tables: Tables, r: StandardReference)
    requires DerivedFromSome(r, Merged(meta, tables).standards, tables)
    ensures HasKind(Merged(meta, tables).secondary, r)
  {
    var given := CoerceTier(GivenSecondary(meta, tables), Secondary);
    var derived := DerivedSecondary(Merged(meta, tables).standards, tables);
    SecondaryParts(meta, tables);
    DerivedMembers(Merged(meta, tables).standards, tables, r);
    FreshKeys(given, {});
    FreshKeys(derived, Keys(given));
    KeyHasKind(derived, r);
    KeyHasKind(Fresh(given, {}), r);
    KeyHasKind(Fresh(derived, Keys(given)), r);
    KindInConcat(Fresh(given, {}), Fresh(derived, Keys(given)), r);
  }

  /** A given secondary reference that is the first of its kind is there as it is. */
  lemma GivenIsThere(meta: RuleMeta, tables: Tables, k: int)
    requires FirstAs(GivenSecondary(meta, tables), Secondary, k)
    ensures GivenSecondary(meta, tables)[k].(tier := Secondary) in Merged(meta, tables).secondary
  {
    SecondaryParts(meta, tables);
    CoercedFirsts(GivenSecondary(meta, tables), Secondary, GivenSecondary(meta, tables)[k].(tier := Secondary));
  }

  /** Each primary "OWASP Top 10" reference with a 2025 category leaves a derived secondary reference of that category. */
  lemma CategoryIsThere(meta: RuleMeta, tables: Tables, p: StandardReference, category: string)
    requires p in Merged(meta, tables).standards && p.standard == "OWASP Top 10"
    requires tables.category2025(p.reference) == Some(category)
    ensures exists d :: d in Merged(meta, tables).secondary && d.reference == category && DerivesFrom(d, p, tables)
  {
    var want := StandardReference("OWASP Top 10", category, p.coverage, Secondary, Derived,
                                  Some(Provenance("OWASP Top 10", p.reference)), tables.migrationNote(p));
    assert DerivesFrom(want, p, tables) && DerivedFromSome(want, Merged(meta, tables).standards, tables);
    DerivedIsThere(meta, tables, want);
    var d :| d in Merged(meta, tables).secondary && SameButNote(d, want);
    assert DerivesFrom(d, p, tables);
  }

  function GivenPrimary(meta: RuleMeta, tables: Tables): seq<StandardReference> {
    meta.standards + tables.extraPrimary(meta.ruleId)
  }

  /** The primary references are the rule's own and then the tables', the first of each kind. */
  ghost predicate PrimaryHolds(m: RuleMeta, meta: RuleMeta, tables: Tables) {
    forall r :: r in m.standards <==>
      exists k :: FirstAs(GivenPrimary(meta, tables), Primary, k) && r == GivenPrimary(meta, tables)[k].(tier := Primary)
  }

  /** The secondary references are the rule's own and the tables', the first of each kind, and derived ones: one for
      every primary "OWASP Top 10" reference with a 2025 category, and no others. */
  ghost predicate SecondaryHolds(m: RuleMeta, meta: RuleMeta, tables: Tables) {
    && (forall k :: FirstAs(GivenSecondary(meta, tables), Secondary, k) ==>
          GivenSecondary(meta, tables)[k].(tier := Secondary) in m.secondary)
    && (forall p, category :: p in m.standards && p.standard == "OWASP Top 10" && tables.category2025(p.reference) == Some(category) ==>
          exists d :: d in m.secondary && d.reference == category && DerivesFrom(d, p, tables))
    && (forall r :: r in m.secondary ==>
          || (exists k :: FirstAs(GivenSecondary(meta, tables), Secondary, k) && r == GivenSecondary(meta, tables)[k].(tier := Secondary))
          || DerivedFromSome(r, m.standards, tables))
    && (forall i, j :: 0 <= i < j < |m.secondary| ==> !SameButNote(m.secondary[i], m.secondary[j]))
  }

  /** Augmented metadata: id, category, server type and tags stay, both lists of references hold what they should. */
  ghost predicate Augmented(m: RuleMeta, meta: RuleMeta, tables: Tables) {
    && m.ruleId == meta.ruleId && m.category == meta.category && m.serverType == meta.serverType && m.tags == meta.tags
    && PrimaryHolds(m, meta, tables)
    && SecondaryHolds(m, meta, tables)
  }

  lemma MergedIsAugmented(meta: RuleMeta, tables: Tables)
    ensures Augmented(Merged(meta, tables), meta, tables)
  {
    var m := Merged(meta, tables);
    forall r ensures r in m.standards <==>
      exists k :: FirstAs(GivenPrimary(meta, tables), Primary, k) && r == GivenPrimary(meta, tables)[k].(tier := Primary)
    {
      PrimaryExactly(meta, tables, r);
    }
    SecondaryIsHeld(meta, tables);
  }

  lemma SecondaryIsHeld(meta: RuleMeta, tables: Tables)
    ensures SecondaryHolds(Merged(meta, tables), meta, tables)
  {
    var m := Merged(meta, tables);
    forall k | FirstAs(GivenSecondary(meta, tables), Secondary, k)
      ensures GivenSecondary(meta, tables)[k].(tier := Secondary) in m.secondary
    {
      GivenIsThere(meta, tables, k);
    }
    forall p, category | p in m.standards && p.standard == "OWASP Top 10" && tables.category2025(p.reference) == Some(category)
      ensures exists d :: d in m.secondary && d.reference == category && DerivesFrom(d, p, tables)
    {
      CategoryIsThere(meta, tables, p, category);
    }
    forall r | r in m.secondary
      ensures (exists k :: FirstAs(GivenSecondary(meta, tables), Secondary, k) && r == GivenSecondary(meta, tables)[k].(tier := Secondary))
              || DerivedFromSome(r, m.standards, tables)
    {
      SecondaryOrigin(meta, tables, r);
    }
    SecondaryKinds(meta, tables);
  }

  lemma SecondaryKinds(meta: RuleMeta, tables: Tables)
    ensures var s := Merged(meta, tables).secondary; forall i, j :: 0 <= i < j < |s| ==> !SameButNote(s[i], s[j])
  {
    var s := Merged(meta, tables).secondary;
    MergedAsConcatenation(meta, tables);
    FreshKeys(CoerceTier(meta.secondary, Secondary) +
              (CoerceTier(tables.extraSecondary(meta.ruleId), Secondary)
               + DerivedSecondary(Merged(meta, tables).standards, tables)), {});
    forall i, j | 0 <= i < j < |s| ensures !SameButNote(s[i], s[j]) { KeyIsAllButNote(s[i], s[j]); }
  }

  /** No reference is primary and secondary at once. */
  ghost predicate NoOverlap(m: RuleMeta) {
    forall p, s :: p in m.standards && s in m.secondary ==> p.standard != s.standard || p.reference != s.reference
  }

  /** A reference that is primary and secondary at once, read off the augmented lists. */
  lemma OverlapExactly(m: RuleMeta)
    ensures CrossTierOverlap(m) <==> !NoOverlap(m)
  {
    if CrossTierOverlap(m) {
      var pair :| pair in Pairs(m.standards) * Pairs(m.secondary);
      var p :| p in m.standards && pair == (p.standard, p.reference);
      var s :| s in m.secondary && pair == (s.standard, s.reference);
    }
    if p, s :| p in m.standards && s in m.secondary && p.standard == s.standard && p.reference == s.reference {
      assert (p.standard, p.reference) in Pairs(m.standards) * Pairs(m.secondary);
    }
  }

  // ---------------------------------------------------------------- the registry

  class Registry {
    const tables: Tables
    var catalog: map<string, RuleMeta>
    /** Executable rules; the callable itself is not part of the model. */
    var executable: map<string, RuleMeta>

    /** Executable rules are catalogued with the same metadata; all metadata is augmented, filed under its
        own id and free of cross-tier duplicates. */
    ghost predicate Valid()
      reads this
    {
      && (forall r :: r in executable ==> r in catalog && executable[r] == catalog[r])
      && (forall r :: r in catalog ==>
            catalog[r].ruleId == r && !CrossTierOverlap(catalog[r]) && Merged(catalog[r], tables) == catalog[r])
    }

    constructor (tables: Tables)
      ensures Valid() && this.tables == tables && catalog == map[] && executable == map[]
    {
      this.tables := tables;
      catalog, executable := map[], map[];
    }

    /** `fn` tells whether a callable comes along: `register` against `register_meta`. */
    method Register(meta: RuleMeta, fn: bool) returns (ok: bool)
      requires Valid()
      modifies this
      ensures Valid()
      ensures ok <==> !CrossTierOverlap(Merged(meta, tables)) && meta.ruleId !in old(catalog)
      ensures catalog == if ok then old(catalog)[meta.ruleId := Merged(meta, tables)] else old(catalog)
      ensures ok ==> Augmented(catalog[meta.ruleId], meta, tables) && NoOverlap(catalog[meta.ruleId])
      ensures executable == if ok && fn then old(executable)[meta.ruleId := Merged(meta, tables)] else old(executable)
    {
      var augmented := AugmentRuleMeta(meta, tables);
      if augmented.Err? || augmented.value.ruleId in catalog { return false; }
      AugmentationIsIdempotent(meta, tables);
      MergedIsAugmented(meta, tables);
      catalog := catalog[augmented.value.ruleId := augmented.value];
      if fn { executable := executable[augmented.value.ruleId := augmented.value]; }
      ok := true;
    }
  }
}
