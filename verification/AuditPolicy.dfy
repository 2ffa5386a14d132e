/** Resolved audit policies, and the analysis manifest that must account for every required rule. */
module AuditPolicy {
  import opened Prelude
  import opened Ordering
  import Lists
  import opened ExecutionManifest
  import Registry = RuleRegistry
  import Ledger = CoverageLedger

  datatype Disposition = Required | Advisory | Review | NotApplicable
  datatype Expectation = LedgerDefault | DeclaredDirect | DeclaredPartial | OperatorReview
  datatype Mode = LocalMode | ExternalMode

  datatype ControlPolicy = ControlPolicy(
    itemId: string, disposition: Disposition, expectation: Expectation, requiredRuleIds: seq<string>)
  datatype ResolvedSource = ResolvedSource(sourceId: string, controls: seq<ControlPolicy>)
  datatype ResolvedPolicy = ResolvedPolicy(sources: seq<ResolvedSource>)

  // ---------------------------------------------------------------- resolving a source policy

  /** Source-level and policy-level defaults can only be required or advisory. */
  datatype DefaultDisposition = DefaultRequired | DefaultAdvisory

  function AsDisposition(d: DefaultDisposition): Disposition {
    if d.DefaultRequired? then Required else Advisory
  }

  datatype SourcePolicy = SourcePolicy(
    sourceId: string, disposition: Option<DefaultDisposition>, controls: seq<ControlPolicy>)
  datatype Defaults = Defaults(disposition: DefaultDisposition, expectation: Expectation)

  /** The last override wins, as in a dictionary built from the controls. */
  function Override(controls: seq<ControlPolicy>, itemId: string): Option<ControlPolicy> {
    if controls == [] then None
    else
      var later := Override(controls[1..], itemId);
      if later.Some? then later else if controls[0].itemId == itemId then Some(controls[0]) else None
  }

  function OverrideMap(controls: seq<ControlPolicy>): map<string, ControlPolicy> {
    if controls == [] then map[]
    else map[controls[0].itemId := controls[0]] + OverrideMap(controls[1..])
  }

  lemma {:induction false} OverrideMapLooksUp(controls: seq<ControlPolicy>, itemId: string)
    ensures Override(controls, itemId) ==
      if itemId in OverrideMap(controls) then Some(OverrideMap(controls)[itemId]) else None
  {
    if controls != [] { OverrideMapLooksUp(controls[1..], itemId); }
  }

  /** The policy of one ledger item: its override, or the inherited default. */
  ghost predicate ResolvesTo(source: SourcePolicy, defaults: Defaults, itemId: string, control: ControlPolicy) {
    var override := Override(source.controls, itemId);
    if override.Some? then control == override.value
    else
      var inherited := if source.disposition.Some? then source.disposition.value else defaults.disposition;
      control == ControlPolicy(itemId, AsDisposition(inherited), defaults.expectation, [])
  }

  function ApplicableIds(items: seq<Ledger.Item>): seq<string> {
    if items == [] then []
    else if items[0].applicable then [items[0].itemId] + ApplicableIds(items[1..])
    else ApplicableIds(items[1..])
  }

  lemma {:induction false} ApplicableSnoc(items: seq<Ledger.Item>, item: Ledger.Item)
    ensures ApplicableIds(items + [item]) == ApplicableIds(items) + (if item.applicable then [item.itemId] else [])
  {
    if items == [] {
      assert items + [item] == [item] && [item][1..] == [];
    } else {
      ApplicableSnoc(items[1..], item);
      Lists.TailOfConcat(items, [item]);
      Lists.Assoc([items[0].itemId], ApplicableIds(items[1..]), ApplicableIds([item]));
      assert ApplicableIds([item]) == if item.applicable then [item.itemId] else [];
    }
  }

  /** One control per applicable ledger item, in ledger order. */
  method ResolveSourcePolicy(defaults: Defaults, source: SourcePolicy, items: seq<Ledger.Item>)
    returns (resolved: ResolvedSource)
    ensures resolved.sourceId == source.sourceId
    ensures |resolved.controls| == |ApplicableIds(items)|
    ensures forall k :: 0 <= k < |resolved.controls| ==>
      ResolvesTo(source, defaults, ApplicableIds(items)[k], resolved.controls[k])
  {
    var overrides := OverrideMap(source.controls);
    var inherited := AsDisposition(if source.disposition.Some? then source.disposition.value else defaults.disposition);
    var controls: seq<ControlPolicy> := [];
    for i := 0 to |items|
      invariant |controls| == |ApplicableIds(items[..i])|
      invariant forall k :: 0 <= k < |controls| ==>
        ResolvesTo(source, defaults, ApplicableIds(items[..i])[k], controls[k])
    {
      ApplicableSnoc(items[..i], items[i]);
      Lists.PrefixSnoc(items, i);
      if items[i].applicable {
        OverrideMapLooksUp(source.controls, items[i].itemId);
        if items[i].itemId in overrides {
          controls := controls + [overrides[items[i].itemId]];
        } else {
          controls := controls + [ControlPolicy(items[i].itemId, inherited, defaults.expectation, [])];
        }
      }
    }
    Lists.Whole(items);
    resolved := ResolvedSource(source.sourceId, controls);
  }

  lemma {:induction false} OverrideIsListed(controls: seq<ControlPolicy>, itemId: string)
    requires Override(controls, itemId).Some?
    ensures Override(controls, itemId).value in controls && Override(controls, itemId).value.itemId == itemId
  {
    if Override(controls[1..], itemId).Some? { OverrideIsListed(controls[1..], itemId); }
  }

  /** A control is out of scope, or under review, or requires a rule only when the policy author wrote
      an override for that very item. */
  lemma ExceptionsAreExplicit(source: SourcePolicy, defaults: Defaults, itemId: string, control: ControlPolicy)
    requires ResolvesTo(source, defaults, itemId, control)
    requires control.disposition.NotApplicable? || control.disposition.Review? || control.requiredRuleIds != []
    ensures control in source.controls && control.itemId == itemId
  {
    OverrideIsListed(source.controls, itemId);
  }

  /** The k-th override is the last one for this item. */
  ghost predicate LastOverride(controls: seq<ControlPolicy>, itemId: string, k: int) {
    0 <= k < |controls| && controls[k].itemId == itemId && forall j :: k < j < |controls| ==> controls[j].itemId != itemId
  }

  lemma {:induction false} OverrideIsLast(controls: seq<ControlPolicy>, itemId: string)
    ensures Override(controls, itemId).None? ==> forall k :: 0 <= k < |controls| ==> controls[k].itemId != itemId
    ensures Override(controls, itemId).Some? ==>
      exists k :: LastOverride(controls, itemId, k) && controls[k] == Override(controls, itemId).value
  {
    if controls != [] {
      var rest := controls[1..];
      OverrideIsLast(rest, itemId);
      assert forall k :: 0 < k < |controls| ==> controls[k] == rest[k - 1];
      if Override(rest, itemId).Some? {
        var k :| LastOverride(rest, itemId, k) && rest[k] == Override(rest, itemId).value;
        assert LastOverride(controls, itemId, k + 1);
      } else if controls[0].itemId == itemId {
        assert LastOverride(controls, itemId, 0);
      }
    }
  }

  /** Which policy a ledger item gets: the last override for it as written; or else the source's default disposition,
      or else the policy's, with the policy's default expectation and no required rules. */
  lemma ResolvesExactly(source: SourcePolicy, defaults: Defaults, itemId: string, control: ControlPolicy)
    ensures ResolvesTo(source, defaults, itemId, control) <==>
      if exists k :: LastOverride(source.controls, itemId, k)
      then exists k :: LastOverride(source.controls, itemId, k) && control == source.controls[k]
      else
        && control.itemId == itemId && control.requiredRuleIds == [] && control.expectation == defaults.expectation
        && control.disposition ==
             if source.disposition == Some(DefaultRequired) then Required
             else if source.disposition == Some(DefaultAdvisory) then Advisory
             else if defaults.disposition.DefaultRequired? then Required
             else Advisory
  {
    OverrideIsLast(source.controls, itemId);
  }

  // ---------------------------------------------------------------- the analysis manifest

  ghost predicate RequiresRule(policy: Option<ResolvedPolicy>, ruleId: string) {
    policy.Some? && exists s, c :: s in policy.value.sources && c in s.controls && ruleId in c.requiredRuleIds
  }

  function RequiredRuleIds(policy: Option<ResolvedPolicy>): (ids: set<string>)
    ensures forall r :: r in ids <==> RequiresRule(policy, r)
  {
    if policy.None? then {}
    else set s, c, r | s in policy.value.sources && c in s.controls && r in c.requiredRuleIds :: r
  }

  /** Why a required rule never ran. */
  function RequiredRuleSkipReason(
      ruleId: string, mode: Mode, serverType: Option<string>, catalog: map<string, Registry.RuleMeta>): SkipReason {
    if ruleId !in catalog then PrerequisiteFailed
    else
      var meta := catalog[ruleId];
      if mode.LocalMode? && meta.category.External? then ModeIncompatible
      else if mode.ExternalMode? && !meta.category.External? then ModeIncompatible
      else if mode.LocalMode? && meta.serverType.Some? && serverType.Some? && meta.serverType != serverType
      then ServerIncompatible
      else InputUnavailable
  }

  /** The reasons, spelled out: unknown rules, rules of the other mode, rules of another server, and the rest. */
  ghost predicate Explains(reason: SkipReason, r: string, ctx: Context) {
    match reason
    case PrerequisiteFailed => r !in ctx.catalog
    case ModeIncompatible => r in ctx.catalog && (ctx.mode.LocalMode? <==> ctx.catalog[r].category.External?)
    case ServerIncompatible =>
      && r in ctx.catalog && ctx.mode.LocalMode? && !ctx.catalog[r].category.External?
      && ctx.catalog[r].serverType.Some? && ctx.serverType.Some? && ctx.catalog[r].serverType.value != ctx.serverType.value
    case InputUnavailable =>
      && r in ctx.catalog && (ctx.mode.LocalMode? <==> !ctx.catalog[r].category.External?)
      && !(ctx.mode.LocalMode? && ctx.catalog[r].serverType.Some? && ctx.serverType.Some?
           && ctx.catalog[r].serverType.value != ctx.serverType.value)
    case OptInNotSelected => false
  }

  lemma ReasonExactly(reason: SkipReason, r: string, ctx: Context)
    ensures RequiredRuleSkipReason(r, ctx.mode, ctx.serverType, ctx.catalog) == reason <==> Explains(reason, r, ctx)
  {
  }

  datatype Context = Context(mode: Mode, serverType: Option<string>, catalog: map<string, Registry.RuleMeta>)

  function SkipOf(ruleId: string, ctx: Context): Event {
    Event(ruleId, Skipped(RequiredRuleSkipReason(ruleId, ctx.mode, ctx.serverType, ctx.catalog)))
  }

  function SkipsOf(ruleIds: seq<string>, ctx: Context): seq<Event> {
    seq(|ruleIds|, i requires 0 <= i < |ruleIds| => SkipOf(ruleIds[i], ctx))
  }

  /** What a manifest says about a rule is what the recorder's whole history settles to. */
  ghost predicate ReportsHistory(m: Manifest, history: seq<Event>) {
    && (forall r :: r in m.completed <==> r in m.selected && Settles(history, r, Event(r, Completed)))
    && (forall s :: s in m.skipped <==> s.ruleId in m.selected && Settles(history, s.ruleId, Event(s.ruleId, Skipped(s.reason))))
    && (forall f :: f in m.failed <==>
          f.ruleId in m.selected && Settles(history, f.ruleId, Event(f.ruleId, Failed(f.issueCode, f.stage))))
  }

  /** Rules the policy requires but the run never selected are added, in sorted order, as skipped. */
  method AddRequiredRules(recorder: RuleExecutionRecorder, policy: Option<ResolvedPolicy>, ctx: Context)
    returns (ghost added: seq<string>)
    requires recorder.Valid()
    modifies recorder
    ensures recorder.Valid()
    ensures Increasing(added)
    ensures forall r :: r in added <==> RequiresRule(policy, r) && r !in old(recorder.selectedRuleIds)
    ensures recorder.selectedRuleIds == old(recorder.selectedRuleIds) + added
    ensures recorder.history == old(recorder.history) + SkipsOf(added, ctx)
  {
    var required := RequiredRuleIds(policy);
    var ordered := SortSet(required);
    added := [];
    for i := 0 to |ordered|
      invariant recorder.Valid()
      invariant Increasing(added)
      invariant forall r :: r in added <==> r in ordered[..i] && r !in old(recorder.selectedRuleIds)
      invariant recorder.selectedRuleIds == old(recorder.selectedRuleIds) + added
      invariant recorder.history == old(recorder.history) + SkipsOf(added, ctx)
    {
      Lists.PrefixSnoc(ordered, i);
      assert forall x :: x in ordered[..i] ==> Less(x, ordered[i]);
      LessIsTotal(ordered[i], ordered[i]);
      if ordered[i] !in recorder.selectedRuleIds {
        AddRequiredRule(recorder, ordered[i], ctx);
        SkipsSnoc(added, ordered[i], ctx);
        Lists.Assoc(old(recorder.history), SkipsOf(added, ctx), [SkipOf(ordered[i], ctx)]);
        Lists.Assoc(old(recorder.selectedRuleIds), added, [ordered[i]]);
        added := added + [ordered[i]];
      }
    }
    Lists.Whole(ordered);
  }

  method AddRequiredRule(recorder: RuleExecutionRecorder, ruleId: string, ctx: Context)
    requires recorder.Valid() && ruleId !in recorder.selectedRuleIds
    modifies recorder
    ensures recorder.Valid()
    ensures recorder.selectedRuleIds == old(recorder.selectedRuleIds) + [ruleId]
    ensures recorder.history == old(recorder.history) + [SkipOf(ruleId, ctx)]
  {
    recorder.Select(ruleId);
    recorder.RecordSkipped(ruleId, RequiredRuleSkipReason(ruleId, ctx.mode, ctx.serverType, ctx.catalog));
  }

  lemma SkipsSnoc(added: seq<string>, r: string, ctx: Context)
    ensures SkipsOf(added + [r], ctx) == SkipsOf(added, ctx) + [SkipOf(r, ctx)]
  {
  }

  /** The manifest of a recorder: it exists exactly when no selected rule is open. */
  method BuildFrom(recorder: RuleExecutionRecorder, revision: string) returns (result: Result<Manifest, ManifestIssue>)
    requires recorder.Valid()
    ensures result.Ok? <==> recorder.Closed()
    ensures result.Ok? ==>
      && result.value.registryRevision == revision
      && result.value.selected == recorder.selectedRuleIds
      && Partitions(result.value)
      && ReportsHistory(result.value, recorder.history)
    ensures result.Err? ==>
      && result.error.Incomplete?
      && result.error.ruleId in recorder.selectedRuleIds
      && !Mentions(recorder.history, result.error.ruleId)
  {
    var events := recorder.Events();
    ghost var states;
    result, states := BuildRuleExecutionManifest(revision, recorder.selectedRuleIds, events);
    ClosedRecorderIsBuildable(recorder.selectedRuleIds, recorder.terminalEvents);
    if result.Ok? {
      ManifestReports(recorder, result.value, events, states);
    } else {
      assert exists i :: Missing(recorder.selectedRuleIds, events, i) && result.error == Incomplete(recorder.selectedRuleIds[i]);
    }
  }

  /** Required rules the run never selected are added as skipped; the manifest exists exactly when the run left no
      selected rule open. */
  method BuildAnalysisManifest(recorder: RuleExecutionRecorder, policy: Option<ResolvedPolicy>, ctx: Context, revision: string)
    returns (result: Result<Manifest, ManifestIssue>, ghost added: seq<string>)
    requires recorder.Valid()
    modifies recorder
    ensures recorder.Valid()
    ensures Increasing(added)
    ensures forall r :: r in added <==> RequiresRule(policy, r) && r !in old(recorder.selectedRuleIds)
    ensures recorder.selectedRuleIds == old(recorder.selectedRuleIds) + added
    ensures recorder.history == old(recorder.history) + SkipsOf(added, ctx)
    ensures result.Ok? <==> old(recorder.Closed())
    ensures result.Ok? ==>
      && result.value.registryRevision == revision
      && result.value.selected == recorder.selectedRuleIds
      && Partitions(result.value)
      && ReportsHistory(result.value, recorder.history)
      && (forall r :: RequiresRule(policy, r) ==> r in result.value.selected)
      && (forall r :: RequiresRule(policy, r) && r !in old(recorder.selectedRuleIds) ==>
            exists s :: s in result.value.skipped && s.ruleId == r && Explains(s.reason, r, ctx))
    ensures result.Err? ==>
      && result.error.Incomplete?
      && result.error.ruleId in recorder.selectedRuleIds
      && !Mentions(recorder.history, result.error.ruleId)
  {
    added := AddRequiredRules(recorder, policy, ctx);
    AdditionsKeepClosedness(old(recorder.selectedRuleIds), added, old(recorder.history), recorder.history, ctx);
    ghost var chosen, before := old(recorder.selectedRuleIds), old(recorder.history);
    result := BuildFrom(recorder, revision);
    if result.Ok? {
      forall r | r in added ensures exists s :: s in result.value.skipped && s.ruleId == r && Explains(s.reason, r, ctx) {
        AddedIsReported(result.value, before, recorder.history, added, r, ctx);
      }
    }
  }

  /** A rule added as skipped is reported as skipped, for its reason. */
  lemma AddedIsReported(m: Manifest, before: seq<Event>, history: seq<Event>, added: seq<string>, r: string, ctx: Context)
    requires history == before + SkipsOf(added, ctx) && r in added && !Mentions(before, r)
    requires ReportsHistory(m, history) && r in m.selected
    ensures exists s :: s in m.skipped && s.ruleId == r && Explains(s.reason, r, ctx)
  {
    var reason := RequiredRuleSkipReason(r, ctx.mode, ctx.serverType, ctx.catalog);
    ReasonExactly(reason, r, ctx);
    AddedSettles(before, history, added, r, ctx);
    assert SkippedRule(r, reason) in m.skipped;
  }

  lemma AddedSettles(before: seq<Event>, history: seq<Event>, added: seq<string>, r: string, ctx: Context)
    requires history == before + SkipsOf(added, ctx) && r in added && !Mentions(before, r)
    ensures Settles(history, r, SkipOf(r, ctx))
  {
    var skips := SkipsOf(added, ctx);
    forall e | e in history && e.ruleId == r ensures e == SkipOf(r, ctx) {
      assert e in skips;
      var i :| 0 <= i < |skips| && skips[i] == e;
    }
    var i :| 0 <= i < |added| && added[i] == r;
    assert skips[i] == SkipOf(r, ctx) && skips[i] in history;
    LessIsTotal(Text(SkipOf(r, ctx).state.reason), Text(SkipOf(r, ctx).state.reason));
  }

  lemma AdditionsKeepClosedness(selected: seq<string>, added: seq<string>, h: seq<Event>, h': seq<Event>, ctx: Context)
    requires h' == h + SkipsOf(added, ctx)
    requires forall r :: r in added ==> r !in selected
    ensures (forall r :: r in selected + added ==> Mentions(h', r)) <==> (forall r :: r in selected ==> Mentions(h, r))
  {
    var skips := SkipsOf(added, ctx);
    assert forall e :: e in h' <==> e in h || e in skips;
    forall r | r in added ensures Mentions(h', r) {
      var i :| 0 <= i < |added| && added[i] == r;
      assert skips[i] in skips;
    }
    forall e | e in skips ensures e.ruleId in added {
      var i :| 0 <= i < |skips| && skips[i] == e;
    }
    assert forall r :: r in selected ==> (Mentions(h', r) <==> Mentions(h, r));
    assert forall r :: r in selected + added <==> r in selected || r in added;
  }

  lemma ManifestReports(recorder: RuleExecutionRecorder, m: Manifest, events: seq<Event>, states: map<string, Terminal>)
    requires recorder.Valid()
    requires events == InSelectionOrder(recorder.selectedRuleIds, recorder.terminalEvents)
    requires Buildable(m.selected, events) && Tabulates(events, states)
    requires m == Manifest(m.registryRevision, recorder.selectedRuleIds, CompletedOf(m.selected, states),
                           SkippedOf(m.selected, states), FailedOf(m.selected, states))
    ensures Partitions(m) && ReportsHistory(m, recorder.history)
  {
    BuiltManifestPartitions(m, events, states);
    TerminalMembership(m.selected, states);
    StatesSettle(recorder, events, states);
  }

  lemma StatesSettle(recorder: RuleExecutionRecorder, events: seq<Event>, states: map<string, Terminal>)
    requires recorder.Valid()
    requires events == InSelectionOrder(recorder.selectedRuleIds, recorder.terminalEvents)
    requires Buildable(recorder.selectedRuleIds, events) && Tabulates(events, states)
    ensures forall r, t :: r in recorder.selectedRuleIds ==>
      r in states && (states[r] == t <==> Settles(recorder.history, r, Event(r, t)))
  {
    SelectionOrderMembership(recorder.selectedRuleIds, recorder.terminalEvents);
    ClosedRecorderIsBuildable(recorder.selectedRuleIds, recorder.terminalEvents);
    forall r, t | r in recorder.selectedRuleIds
      ensures r in states && (states[r] == t <==> Settles(recorder.history, r, Event(r, t)))
    {
      var e := recorder.terminalEvents[r];
      assert e in events;
      if Settles(recorder.history, r, Event(r, t)) {
        SettlesIsUnique(recorder.history, r, e, Event(r, t));
      }
    }
  }
}
