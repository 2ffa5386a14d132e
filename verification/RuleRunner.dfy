/** The rule drivers: select a rule pack, skip what must be skipped, run the rest and survive crashes. */
module RuleRunner {
  import opened Prelude
  import Lists
  import opened ExecutionManifest

  const OPT_IN_TAGS: set<string> := {"policy-review"}

  datatype RuleEntry = RuleEntry(ruleId: string, tags: set<string>, inputKind: string)

  /** What calling a rule's function comes to. */
  datatype Outcome<+F> = Returned(findings: seq<F>) | Raised(exceptionType: string)

  datatype AnalysisIssue = RuleExecutionError(ruleId: string, inputKind: string, exceptionType: string)

  /** The list of issues a run shares with its caller. */
  class IssueLog {
    var entries: seq<AnalysisIssue>

    constructor ()
      ensures entries == []
    {
      entries := [];
    }
  }

  /** An opt-in rule whose opt-in tags were not all requested. */
  predicate NotOptedIn(entry: RuleEntry, requested: set<string>) {
    var optIn := entry.tags * OPT_IN_TAGS;
    optIn != {} && !(optIn <= requested)
  }

  /** The gate in terms of the one opt-in tag there is. */
  ghost predicate OptedIn(entry: RuleEntry, requested: set<string>) {
    "policy-review" in entry.tags ==> "policy-review" in requested
  }

  lemma GateIsTag(entry: RuleEntry, requested: set<string>)
    ensures NotOptedIn(entry, requested) <==> !OptedIn(entry, requested)
  {
    assert forall tag :: tag in entry.tags * OPT_IN_TAGS <==> tag in entry.tags && tag == "policy-review";
  }

  function Ids(entries: seq<RuleEntry>): seq<string> {
    seq(|entries|, i requires 0 <= i < |entries| => entries[i].ruleId)
  }

  function Runnable(entries: seq<RuleEntry>, requested: set<string>): seq<RuleEntry> {
    if entries == [] then []
    else if NotOptedIn(entries[0], requested) then Runnable(entries[1..], requested)
    else [entries[0]] + Runnable(entries[1..], requested)
  }

  function OptInSkips(entries: seq<RuleEntry>, requested: set<string>): seq<Event> {
    if entries == [] then []
    else if NotOptedIn(entries[0], requested)
    then [Event(entries[0].ruleId, Skipped(OptInNotSelected))] + OptInSkips(entries[1..], requested)
    else OptInSkips(entries[1..], requested)
  }

  method ExecutableRuleEntries(entries: seq<RuleEntry>, requested: set<string>, recorder: RuleExecutionRecorder?)
    returns (runnable: seq<RuleEntry>)
    requires recorder != null ==> recorder.Valid()
    modifies if recorder == null then {} else {recorder}
    ensures runnable == Runnable(entries, requested)
    ensures forall e :: e in runnable <==> e in entries && ("policy-review" in e.tags ==> "policy-review" in requested)
    ensures recorder != null ==> forall x :: x in NewEvents(old(recorder.history), recorder.history) <==>
      exists e :: e in entries && "policy-review" in e.tags && "policy-review" !in requested
                  && x == Event(e.ruleId, Skipped(OptInNotSelected))
    ensures recorder != null ==>
      && recorder.Valid()
      && recorder.history == old(recorder.history) + OptInSkips(entries, requested)
      && recorder.selectedRuleIds == AppendedAll(old(recorder.selectedRuleIds), Ids(entries))
  {
    if recorder != null { recorder.SelectMany(Ids(entries)); }
    ghost var selected := if recorder == null then [] else recorder.selectedRuleIds;
    ghost var start := if recorder == null then [] else recorder.history;
    runnable := [];
    for i := 0 to |entries|
      invariant runnable == Runnable(entries[..i], requested)
      invariant recorder != null ==>
        && recorder.Valid()
        && recorder.history == start + OptInSkips(entries[..i], requested)
        && recorder.selectedRuleIds == selected
    {
      RunnableSnoc(entries[..i], entries[i], requested);
      SkipsSnoc(entries[..i], entries[i], requested);
      Lists.PrefixSnoc(entries, i);
      if NotOptedIn(entries[i], requested) {
        if recorder != null {
          ghost var skips := OptInSkips(entries[..i], requested);
          recorder.RecordSkipped(entries[i].ruleId, OptInNotSelected);
          EntryIsAppended(old(recorder.selectedRuleIds), entries, i);
          Lists.Assoc(start, skips, [Event(entries[i].ruleId, Skipped(OptInNotSelected))]);
        }
      } else {
        runnable := runnable + [entries[i]];
      }
    }
    Lists.Whole(entries);
    RunnableMembers(entries, requested);
    SkipMembers(entries, requested);
  }

  /** What was recorded since. */
  ghost function NewEvents(before: seq<Event>, after: seq<Event>): seq<Event> {
    if |before| <= |after| then after[|before|..] else []
  }

  lemma {:induction false} RunnableMembers(entries: seq<RuleEntry>, requested: set<string>)
    ensures forall e :: e in Runnable(entries, requested) <==> e in entries && OptedIn(e, requested)
  {
    if entries != [] {
      RunnableMembers(entries[1..], requested);
      GateIsTag(entries[0], requested);
      assert entries == [entries[0]] + entries[1..];
    }
  }

  lemma {:induction false} SkipMembers(entries: seq<RuleEntry>, requested: set<string>)
    ensures forall x :: x in OptInSkips(entries, requested) <==>
      exists e :: e in entries && !OptedIn(e, requested) && x == Event(e.ruleId, Skipped(OptInNotSelected))
  {
    if entries != [] {
      SkipMembers(entries[1..], requested);
      GateIsTag(entries[0], requested);
      assert entries == [entries[0]] + entries[1..];
      forall x ensures x in OptInSkips(entries, requested) <==>
        exists e :: e in entries && !OptedIn(e, requested) && x == Event(e.ruleId, Skipped(OptInNotSelected))
      {
        assert x in OptInSkips(entries, requested) <==>
          x in OptInSkips(entries[1..], requested)
          || (!OptedIn(entries[0], requested) && x == Event(entries[0].ruleId, Skipped(OptInNotSelected)));
      }
    }
  }

  /** Runnable entries and skips come in the order of the pack. */
  lemma GateKeepsOrder(entries: seq<RuleEntry>, e: RuleEntry, requested: set<string>)
    ensures Runnable(entries + [e], requested)
         == Runnable(entries, requested) + if "policy-review" in e.tags && "policy-review" !in requested then [] else [e]
    ensures OptInSkips(entries + [e], requested)
         == OptInSkips(entries, requested)
            + if "policy-review" in e.tags && "policy-review" !in requested then [Event(e.ruleId, Skipped(OptInNotSelected))] else []
  {
    GateIsTag(e, requested);
    RunnableSnoc(entries, e, requested);
    SkipsSnoc(entries, e, requested);
  }

  lemma {:induction false} RunnableSnoc(entries: seq<RuleEntry>, e: RuleEntry, requested: set<string>)
    ensures Runnable(entries + [e], requested)
         == if NotOptedIn(e, requested) then Runnable(entries, requested) else Runnable(entries, requested) + [e]
  {
    if entries == [] {
      assert entries + [e] == [e] && [e][1..] == [];
    } else {
      Lists.TailOfConcat(entries, [e]);
      RunnableSnoc(entries[1..], e, requested);
      Lists.Assoc([entries[0]], Runnable(entries[1..], requested), [e]);
    }
  }

  lemma {:induction false} SkipsSnoc(entries: seq<RuleEntry>, e: RuleEntry, requested: set<string>)
    ensures OptInSkips(entries + [e], requested)
         == if NotOptedIn(e, requested) then OptInSkips(entries, requested) + [Event(e.ruleId, Skipped(OptInNotSelected))]
            else OptInSkips(entries, requested)
  {
    if entries == [] {
      assert entries + [e] == [e] && [e][1..] == [];
    } else {
      Lists.TailOfConcat(entries, [e]);
      SkipsSnoc(entries[1..], e, requested);
      Lists.Assoc([Event(entries[0].ruleId, Skipped(OptInNotSelected))], OptInSkips(entries[1..], requested),
                  [Event(e.ruleId, Skipped(OptInNotSelected))]);
    }
  }

  lemma EntryIsAppended(selected: seq<string>, entries: seq<RuleEntry>, i: nat)
    requires i < |entries|
    ensures entries[i].ruleId in AppendedAll(selected, Ids(entries))
  {
    AppendedAllMembers(selected, Ids(entries));
    assert Ids(entries)[i] == entries[i].ruleId;
  }

  /** The terminal event a rule's outcome leads to. */
  function TerminalOf<F>(entry: RuleEntry, outcome: Outcome<F>): Event {
    Event(entry.ruleId, if outcome.Returned? then Completed else Failed("rule_execution_error", entry.inputKind))
  }

  method RunRuleEntry<F>(entry: RuleEntry, issues: IssueLog?, outcome: Outcome<F>, recorder: RuleExecutionRecorder?)
    returns (result: Result<seq<F>, string>)
    requires recorder != null ==> recorder.Valid()
    modifies (if recorder == null then {} else {recorder}) + (if issues == null then {} else {issues})
    ensures recorder != null ==>
      && recorder.Valid()
      && recorder.history == old(recorder.history) + [TerminalOf(entry, outcome)]
      && recorder.selectedRuleIds == Appended(old(recorder.selectedRuleIds), entry.ruleId)
    ensures outcome.Returned? ==> result == Ok(outcome.findings)
    ensures outcome.Raised? ==> result == if issues == null then Err(outcome.exceptionType) else Ok([])
    ensures issues != null ==>
      issues.entries == old(issues.entries) + (if outcome.Returned? then [] else
        [RuleExecutionError(entry.ruleId, entry.inputKind, outcome.exceptionType)])
  {
    match outcome
    case Returned(findings) =>
      if recorder != null { recorder.RecordCompleted(entry.ruleId); }
      result := Ok(findings);
    case Raised(exceptionType) =>
      if recorder != null { recorder.RecordFailed(entry.ruleId, "rule_execution_error", entry.inputKind); }
      if issues == null { return Err(exceptionType); }
      issues.entries := issues.entries + [RuleExecutionError(entry.ruleId, entry.inputKind, exceptionType)];
      result := Ok([]);
  }

  /** One pass over a rule pack as data: the pack, its unmet prerequisites and what each rule's call does. */
  datatype RulePack<!F> = RulePack(
    entries: seq<RuleEntry>,
    requested: set<string>,
    prerequisitesMet: RuleEntry -> bool,
    invoke: RuleEntry -> Outcome<F>)

  /** A crash that nothing catches ends the pass. */
  ghost predicate Aborts<F>(p: RulePack<F>, entry: RuleEntry, tolerant: bool) {
    !tolerant && p.prerequisitesMet(entry) && p.invoke(entry).Raised?
  }

  /** The event one runnable entry leaves. */
  ghost function EventOf<F>(p: RulePack<F>, entry: RuleEntry): Event {
    if p.prerequisitesMet(entry) then TerminalOf(entry, p.invoke(entry))
    else Event(entry.ruleId, Skipped(PrerequisiteFailed))
  }

  /** The events of running a list of runnable entries; a crash without an issue list ends it. */
  ghost function RunEvents<F>(p: RulePack<F>, runnable: seq<RuleEntry>, tolerant: bool): seq<Event> {
    if runnable == [] then []
    else
      [EventOf(p, runnable[0])]
      + if Aborts(p, runnable[0], tolerant) then [] else RunEvents(p, runnable[1..], tolerant)
  }

  ghost function FindingsOf<F>(p: RulePack<F>, entry: RuleEntry): seq<F> {
    if p.prerequisitesMet(entry) && p.invoke(entry).Returned? then p.invoke(entry).findings else []
  }

  ghost function IssuesOf<F>(p: RulePack<F>, entry: RuleEntry): seq<AnalysisIssue> {
    if p.prerequisitesMet(entry) && p.invoke(entry).Raised?
    then [RuleExecutionError(entry.ruleId, entry.inputKind, p.invoke(entry).exceptionType)]
    else []
  }

  /** The findings of the entries whose call returned. */
  ghost function RunFindings<F>(p: RulePack<F>, runnable: seq<RuleEntry>): seq<F> {
    if runnable == [] then [] else FindingsOf(p, runnable[0]) + RunFindings(p, runnable[1..])
  }

  ghost function RunIssues<F>(p: RulePack<F>, runnable: seq<RuleEntry>): seq<AnalysisIssue> {
    if runnable == [] then [] else IssuesOf(p, runnable[0]) + RunIssues(p, runnable[1..])
  }

  ghost predicate SomeAborts<F>(p: RulePack<F>, runnable: seq<RuleEntry>) {
    exists e :: e in runnable && Aborts(p, e, false)
  }

  /** The entry's rule is called: it has no opt-in tag or the tag was requested, and its prerequisites are met. */
  ghost predicate Calls<F>(p: RulePack<F>, e: RuleEntry) {
    ("policy-review" in e.tags ==> "policy-review" in p.requested) && p.prerequisitesMet(e)
  }

  /** The event an entry leaves: not opted in, not prepared, returned, or raised. */
  ghost predicate Leaves<F>(p: RulePack<F>, e: RuleEntry, x: Event) {
    x.ruleId == e.ruleId
    && if "policy-review" in e.tags && "policy-review" !in p.requested then x.state == Skipped(OptInNotSelected)
       else if !p.prerequisitesMet(e) then x.state == Skipped(PrerequisiteFailed)
       else if p.invoke(e).Returned? then x.state == Completed
       else x.state == Failed("rule_execution_error", e.inputKind)
  }

  lemma {:induction false} RunMembers<F>(p: RulePack<F>, runnable: seq<RuleEntry>, tolerant: bool)
    requires forall e :: e in runnable ==> !Aborts(p, e, tolerant)
    ensures forall x :: x in RunEvents(p, runnable, tolerant) <==> exists e :: e in runnable && EventOf(p, e) == x
  {
    if runnable != [] {
      assert runnable == [runnable[0]] + runnable[1..];
      RunMembers(p, runnable[1..], tolerant);
      forall x ensures x in RunEvents(p, runnable, tolerant) <==> exists e :: e in runnable && EventOf(p, e) == x {
        assert x in RunEvents(p, runnable, tolerant) <==>
          x == EventOf(p, runnable[0]) || x in RunEvents(p, runnable[1..], tolerant);
        assert runnable[0] in runnable;
      }
    }
  }

  lemma {:induction false} FindingMembers<F>(p: RulePack<F>, runnable: seq<RuleEntry>, f: F)
    ensures f in RunFindings(p, runnable) <==> exists e :: e in runnable && f in FindingsOf(p, e)
  {
    if runnable != [] {
      assert runnable == [runnable[0]] + runnable[1..];
      FindingMembers(p, runnable[1..], f);
      assert runnable[0] in runnable;
    }
  }

  lemma {:induction false} IssueMembers<F>(p: RulePack<F>, runnable: seq<RuleEntry>, x: AnalysisIssue)
    ensures x in RunIssues(p, runnable) <==> exists e :: e in runnable && x in IssuesOf(p, e)
  {
    if runnable != [] {
      assert runnable == [runnable[0]] + runnable[1..];
      IssueMembers(p, runnable[1..], x);
      assert runnable[0] in runnable;
    }
  }

  lemma SliceOfConcat<T>(a: seq<T>, b: seq<T>)
    ensures (a + b)[|a|..] == b
  {
  }

  lemma NewEventsAre<F>(before: seq<Event>, after: seq<Event>, skips: seq<Event>, p: RulePack<F>, runnable: seq<RuleEntry>, tolerant: bool)
    requires after == before + skips + RunEvents(p, runnable, tolerant)
    ensures NewEvents(before, after) == skips + RunEvents(p, runnable, tolerant)
  {
    Lists.Assoc(before, skips, RunEvents(p, runnable, tolerant));
    SliceOfConcat(before, skips + RunEvents(p, runnable, tolerant));
  }

  lemma SkipOrRun<F>(p: RulePack<F>, e: RuleEntry, x: Event)
    ensures Leaves(p, e, x) <==>
      if OptedIn(e, p.requested) then EventOf(p, e) == x else x == Event(e.ruleId, Skipped(OptInNotSelected))
  {
  }

  lemma EventsTell<F>(p: RulePack<F>, tolerant: bool, x: Event)
    requires tolerant || !SomeAborts(p, Runnable(p.entries, p.requested))
    ensures x in OptInSkips(p.entries, p.requested) + RunEvents(p, Runnable(p.entries, p.requested), tolerant)
      <==> exists e :: e in p.entries && Leaves(p, e, x)
  {
    var runnable := Runnable(p.entries, p.requested);
    RunnableMembers(p.entries, p.requested);
    SkipMembers(p.entries, p.requested);
    RunMembers(p, runnable, tolerant);
    forall e ensures Leaves(p, e, x) <==>
      if OptedIn(e, p.requested) then EventOf(p, e) == x else x == Event(e.ruleId, Skipped(OptInNotSelected))
    {
      SkipOrRun(p, e, x);
    }
  }

  /** Everything a pass leaves behind, in terms of the entries. */
  lemma PassTells<F>(p: RulePack<F>, tolerant: bool)
    ensures tolerant || !SomeAborts(p, Runnable(p.entries, p.requested)) ==>
      forall x :: x in OptInSkips(p.entries, p.requested) + RunEvents(p, Runnable(p.entries, p.requested), tolerant)
        <==> exists e :: e in p.entries && Leaves(p, e, x)
    ensures forall f :: f in RunFindings(p, Runnable(p.entries, p.requested)) <==>
      exists e :: e in p.entries && Calls(p, e) && p.invoke(e).Returned? && f in p.invoke(e).findings
    ensures forall x :: x in RunIssues(p, Runnable(p.entries, p.requested)) <==>
      exists e :: e in p.entries && Calls(p, e) && p.invoke(e).Raised?
                  && x == RuleExecutionError(e.ruleId, e.inputKind, p.invoke(e).exceptionType)
    ensures SomeAborts(p, Runnable(p.entries, p.requested)) <==>
      exists e :: e in p.entries && Calls(p, e) && p.invoke(e).Raised?
  {
    var runnable := Runnable(p.entries, p.requested);
    RunnableMembers(p.entries, p.requested);
    if tolerant || !SomeAborts(p, runnable) {
      forall x ensures x in OptInSkips(p.entries, p.requested) + RunEvents(p, runnable, tolerant)
        <==> exists e :: e in p.entries && Leaves(p, e, x)
      {
        EventsTell(p, tolerant, x);
      }
    }
    forall f ensures f in RunFindings(p, runnable) <==> exists e :: e in runnable && f in FindingsOf(p, e) {
      FindingMembers(p, runnable, f);
    }
    forall x ensures x in RunIssues(p, runnable) <==> exists e :: e in runnable && x in IssuesOf(p, e) {
      IssueMembers(p, runnable, x);
    }
  }

  /** The driver loop of the rule runners. The Nginx pack brings prerequisites; the universal pack has none. */
  method RunRules<F>(p: RulePack<F>, issues: IssueLog?, recorder: RuleExecutionRecorder?)
    returns (result: Result<seq<F>, string>)
    requires recorder != null ==> recorder.Valid()
    modifies (if recorder == null then {} else {recorder}) + (if issues == null then {} else {issues})
    ensures recorder != null ==>
      && recorder.Valid()
      && recorder.history == old(recorder.history) + OptInSkips(p.entries, p.requested)
                             + RunEvents(p, Runnable(p.entries, p.requested), issues != null)
      && recorder.selectedRuleIds == AppendedAll(old(recorder.selectedRuleIds), Ids(p.entries))
    ensures result.Err? <==> issues == null && SomeAborts(p, Runnable(p.entries, p.requested))
    ensures result.Ok? ==> result.value == RunFindings(p, Runnable(p.entries, p.requested))
    ensures issues != null ==>
      issues.entries == old(issues.entries) + RunIssues(p, Runnable(p.entries, p.requested))
    // in terms of the entries alone: what leaves which event, finding or issue
    ensures recorder != null && result.Ok? ==>
      forall x :: x in NewEvents(old(recorder.history), recorder.history) <==> exists e :: e in p.entries && Leaves(p, e, x)
    ensures result.Ok? ==> forall f :: f in result.value <==>
      exists e :: e in p.entries && Calls(p, e) && p.invoke(e).Returned? && f in p.invoke(e).findings
    ensures issues != null ==> forall x :: x in issues.entries[|old(issues.entries)|..] <==>
      exists e :: e in p.entries && Calls(p, e) && p.invoke(e).Raised?
                  && x == RuleExecutionError(e.ruleId, e.inputKind, p.invoke(e).exceptionType)
    ensures result.Err? <==> issues == null && exists e :: e in p.entries && Calls(p, e) && p.invoke(e).Raised?
    // a pass with an issue list keeps a closed recorder closed, whatever its rules do
    ensures recorder != null && issues != null && old(recorder.Closed()) ==> recorder.Closed()
  {
    ghost var before := if recorder == null then [] else recorder.history;
    ghost var log := if issues == null then [] else issues.entries;
    ghost var chosen := if recorder == null then [] else recorder.selectedRuleIds;
    var runnable := ExecutableRuleEntries(p.entries, p.requested, recorder);
    RunnableAreListed(p.entries, p.requested);
    AppendedAllMembers(chosen, Ids(p.entries));
    result := RunEntries(p, runnable, issues, recorder);
    PassTells(p, issues != null);
    if recorder != null { NewEventsAre(before, recorder.history, OptInSkips(p.entries, p.requested), p, runnable, issues != null); }
    if issues != null { SliceOfConcat(log, RunIssues(p, runnable)); }
    if recorder != null && issues != null && old(recorder.Closed()) {
      PassCloses(p, before, recorder.history, chosen);
    }
  }

  /** After a pass with an issue list every selected rule has an event, if every rule selected before had one. */
  lemma PassCloses<F>(p: RulePack<F>, before: seq<Event>, after: seq<Event>, chosen: seq<string>)
    requires after == before + OptInSkips(p.entries, p.requested)
                      + RunEvents(p, Runnable(p.entries, p.requested), true)
    requires forall r :: r in chosen ==> Mentions(before, r)
    ensures forall r :: r in AppendedAll(chosen, Ids(p.entries)) ==> Mentions(after, r)
  {
    AppendedAllMembers(chosen, Ids(p.entries));
    forall r | r in AppendedAll(chosen, Ids(p.entries)) ensures Mentions(after, r) {
      PassMentions(p, before, after, r);
    }
  }

  /** One runnable entry: its prerequisites are checked, then its rule is called. */
  method RunEntry<F>(p: RulePack<F>, entry: RuleEntry, issues: IssueLog?, recorder: RuleExecutionRecorder?)
    returns (result: Result<seq<F>, string>)
    requires recorder != null ==> recorder.Valid() && entry.ruleId in recorder.selectedRuleIds
    modifies (if recorder == null then {} else {recorder}) + (if issues == null then {} else {issues})
    ensures recorder != null ==>
      && recorder.Valid()
      && recorder.history == old(recorder.history) + [EventOf(p, entry)]
      && recorder.selectedRuleIds == old(recorder.selectedRuleIds)
    ensures result.Err? <==> Aborts(p, entry, issues != null)
    ensures result.Ok? ==> result.value == FindingsOf(p, entry)
    ensures issues != null ==> issues.entries == old(issues.entries) + IssuesOf(p, entry)
  {
    if !p.prerequisitesMet(entry) {
      if recorder != null { recorder.RecordSkipped(entry.ruleId, PrerequisiteFailed); }
      result := Ok([]);
    } else {
      result := RunRuleEntry(entry, issues, p.invoke(entry), recorder);
    }
  }

  method RunEntries<F>(p: RulePack<F>, runnable: seq<RuleEntry>, issues: IssueLog?, recorder: RuleExecutionRecorder?)
    returns (result: Result<seq<F>, string>)
    requires recorder != null ==> recorder.Valid() && forall e :: e in runnable ==> e.ruleId in recorder.selectedRuleIds
    modifies (if recorder == null then {} else {recorder}) + (if issues == null then {} else {issues})
    ensures recorder != null ==>
      && recorder.Valid()
      && recorder.history == old(recorder.history) + RunEvents(p, runnable, issues != null)
      && recorder.selectedRuleIds == old(recorder.selectedRuleIds)
    ensures result.Err? <==> issues == null && SomeAborts(p, runnable)
    ensures result.Ok? ==> result.value == RunFindings(p, runnable)
    ensures issues != null ==> issues.entries == old(issues.entries) + RunIssues(p, runnable)
  {
    ghost var start := if recorder == null then [] else recorder.history;
    ghost var log := if issues == null then [] else issues.entries;
    ghost var tolerant := issues != null;
    var findings: seq<F> := [];
    for i := 0 to |runnable|
      invariant findings == RunFindings(p, runnable[..i])
      invariant recorder != null ==>
        && recorder.Valid()
        && recorder.history == start + RunEvents(p, runnable[..i], tolerant)
        && recorder.selectedRuleIds == old(recorder.selectedRuleIds)
      invariant issues != null ==> issues.entries == log + RunIssues(p, runnable[..i])
      invariant forall e :: e in runnable[..i] ==> !Aborts(p, e, tolerant)
    {
      var entry := runnable[i];
      Lists.PrefixSnoc(runnable, i);
      EventsSnoc(p, runnable[..i], entry, tolerant);
      FindingsSnoc(p, runnable[..i], entry);
      IssuesSnoc(p, runnable[..i], entry);
      Lists.Assoc(start, RunEvents(p, runnable[..i], tolerant), [EventOf(p, entry)]);
      Lists.Assoc(log, RunIssues(p, runnable[..i]), IssuesOf(p, entry));
      var ran := RunEntry(p, entry, issues, recorder);
      if ran.Err? {
        RunStops(p, runnable, i);
        return ran;
      }
      findings := findings + ran.value;
    }
    Lists.Whole(runnable);
    result := Ok(findings);
  }

  lemma {:induction false} EventsSnoc<F>(p: RulePack<F>, done: seq<RuleEntry>, e: RuleEntry, tolerant: bool)
    requires forall d :: d in done ==> !Aborts(p, d, tolerant)
    ensures RunEvents(p, done + [e], tolerant) == RunEvents(p, done, tolerant) + [EventOf(p, e)]
  {
    if done == [] {
      assert done + [e] == [e] && [e][1..] == [];
    } else {
      assert done[0] in done && forall d :: d in done[1..] ==> d in done;
      EventsSnoc(p, done[1..], e, tolerant);
      Lists.TailOfConcat(done, [e]);
      Lists.Assoc([EventOf(p, done[0])], RunEvents(p, done[1..], tolerant), [EventOf(p, e)]);
    }
  }

  lemma {:induction false} FindingsSnoc<F>(p: RulePack<F>, done: seq<RuleEntry>, e: RuleEntry)
    ensures RunFindings(p, done + [e]) == RunFindings(p, done) + FindingsOf(p, e)
  {
    if done == [] {
      assert done + [e] == [e];
    } else {
      FindingsSnoc(p, done[1..], e);
      Lists.TailOfConcat(done, [e]);
    }
  }

  lemma {:induction false} IssuesSnoc<F>(p: RulePack<F>, done: seq<RuleEntry>, e: RuleEntry)
    ensures RunIssues(p, done + [e]) == RunIssues(p, done) + IssuesOf(p, e)
  {
    if done == [] {
      assert done + [e] == [e];
    } else {
      IssuesSnoc(p, done[1..], e);
      Lists.TailOfConcat(done, [e]);
    }
  }

  /** Nothing after an uncaught crash leaves an event. */
  lemma {:induction false} RunStops<F>(p: RulePack<F>, runnable: seq<RuleEntry>, i: nat)
    requires i < |runnable| && Aborts(p, runnable[i], false)
    ensures RunEvents(p, runnable, false) == RunEvents(p, runnable[..i + 1], false)
  {
    if i > 0 {
      RunStops(p, runnable[1..], i - 1);
      assert runnable[..i + 1][1..] == runnable[1..][..i];
    }
  }

  lemma {:induction false} RunnableAreListed(entries: seq<RuleEntry>, requested: set<string>)
    ensures forall e :: e in Runnable(entries, requested) ==> e in entries && e.ruleId in Ids(entries)
  {
    if entries != [] {
      RunnableAreListed(entries[1..], requested);
      assert Ids(entries) == [entries[0].ruleId] + Ids(entries[1..]);
      assert entries == [entries[0]] + entries[1..];
    }
  }

  /** Every entry of the pack leaves an event: an opt-in skip, or a completion, failure or prerequisite skip. */
  lemma PassMentions<F>(p: RulePack<F>, before: seq<Event>, after: seq<Event>, r: string)
    requires after == before + OptInSkips(p.entries, p.requested)
                      + RunEvents(p, Runnable(p.entries, p.requested), true)
    requires Mentions(before, r) || r in Ids(p.entries)
    ensures Mentions(after, r)
  {
    var skips, runs := OptInSkips(p.entries, p.requested), RunEvents(p, Runnable(p.entries, p.requested), true);
    assert forall e :: e in before || e in skips || e in runs ==> e in after;
    if !Mentions(before, r) {
      var i :| 0 <= i < |p.entries| && Ids(p.entries)[i] == r;
      if NotOptedIn(p.entries[i], p.requested) {
        SkipIsRecorded(p.entries, p.requested, i);
      } else {
        RunnableIsKept(p.entries, p.requested, i);
        var runnable := Runnable(p.entries, p.requested);
        var k :| 0 <= k < |runnable| && runnable[k] == p.entries[i];
        RunIsRecorded(p, runnable, k);
      }
    }
  }

  lemma {:induction false} SkipIsRecorded(entries: seq<RuleEntry>, requested: set<string>, i: nat)
    requires i < |entries| && NotOptedIn(entries[i], requested)
    ensures Mentions(OptInSkips(entries, requested), entries[i].ruleId)
  {
    if i == 0 {
      assert OptInSkips(entries, requested)[0].ruleId == entries[0].ruleId;
    } else {
      SkipIsRecorded(entries[1..], requested, i - 1);
      var e :| e in OptInSkips(entries[1..], requested) && e.ruleId == entries[i].ruleId;
      assert e in OptInSkips(entries, requested);
    }
  }

  lemma {:induction false} RunnableIsKept(entries: seq<RuleEntry>, requested: set<string>, i: nat)
    requires i < |entries| && !NotOptedIn(entries[i], requested)
    ensures entries[i] in Runnable(entries, requested)
  {
    if i > 0 { RunnableIsKept(entries[1..], requested, i - 1); }
  }

  lemma {:induction false} RunIsRecorded<F>(p: RulePack<F>, runnable: seq<RuleEntry>, k: nat)
    requires k < |runnable|
    ensures Mentions(RunEvents(p, runnable, true), runnable[k].ruleId)
  {
    if k == 0 {
      assert RunEvents(p, runnable, true)[0].ruleId == runnable[0].ruleId;
    } else {
      RunIsRecorded(p, runnable[1..], k - 1);
      var e :| e in RunEvents(p, runnable[1..], true) && e.ruleId == runnable[k].ruleId;
      assert e in RunEvents(p, runnable, true);
    }
  }
}
