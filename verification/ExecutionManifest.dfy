/** Rule execution: the recorder that reduces competing terminal events, and the manifest built from it. */
module ExecutionManifest {
  import opened Prelude
  import opened Ordering
  import Lists

  datatype SkipReason =
    | ModeIncompatible
    | ServerIncompatible
    | InputUnavailable
    | OptInNotSelected
    | PrerequisiteFailed

  /** The literal the source stores and compares. */
  function Text(reason: SkipReason): string {
    match reason
    case ModeIncompatible => "mode-incompatible"
    case ServerIncompatible => "server-incompatible"
    case InputUnavailable => "input-unavailable"
    case OptInNotSelected => "opt-in-not-selected"
    case PrerequisiteFailed => "prerequisite-failed"
  }

  /** A terminal state together with the payload its event must carry. */
  datatype Terminal = Completed | Skipped(reason: SkipReason) | Failed(issueCode: string, stage: string)

  datatype Event = Event(ruleId: string, state: Terminal)

  ghost predicate Distinct(xs: seq<string>) {
    forall i, j :: 0 <= i < j < |xs| ==> xs[i] != xs[j]
  }

  // ---------------------------------------------------------------- reduction of a history of events

  ghost predicate HasFailure(h: seq<Event>, r: string) {
    exists e :: e in h && e.ruleId == r && e.state.Failed?
  }

  ghost predicate HasCompletion(h: seq<Event>, r: string) {
    exists e :: e in h && e.ruleId == r && e.state.Completed?
  }

  ghost predicate Mentions(h: seq<Event>, r: string) {
    exists e :: e in h && e.ruleId == r
  }

  /** `h[k]` is the last failure of its rule. */
  ghost predicate LastFailure(h: seq<Event>, k: int) {
    && 0 <= k < |h| && h[k].state.Failed?
    && forall j :: k < j < |h| && h[j].ruleId == h[k].ruleId ==> !h[j].state.Failed?
  }

  /** What the events of a rule come to: the last failure if any failed, else completion if any completed,
      else the skip with the least reason text. No order among the other events matters. */
  ghost predicate Settles(h: seq<Event>, r: string, e: Event) {
    && e.ruleId == r
    && e in h
    && (HasFailure(h, r) ==> exists k :: LastFailure(h, k) && h[k] == e)
    && (!HasFailure(h, r) && HasCompletion(h, r) ==> e.state.Completed?)
    && (!HasFailure(h, r) && !HasCompletion(h, r) ==>
          e.state.Skipped? &&
          forall o :: o in h && o.ruleId == r && o.state.Skipped? ==> !Less(Text(o.state.reason), Text(e.state.reason)))
  }

  lemma TextIsInjective(a: SkipReason, b: SkipReason)
    requires !Less(Text(a), Text(b)) && !Less(Text(b), Text(a))
    ensures a == b
  {
    LessIsTotal(Text(a), Text(b));
    assert Text(a) == Text(b);
    assert Text(a)[0] == Text(b)[0];
  }

  /** The history leaves no freedom in the stored event. */
  lemma SettlesIsUnique(h: seq<Event>, r: string, a: Event, b: Event)
    requires Settles(h, r, a) && Settles(h, r, b)
    ensures a == b
  {
    if HasFailure(h, r) {
      var i :| LastFailure(h, i) && h[i] == a;
      var j :| LastFailure(h, j) && h[j] == b;
    } else if !HasCompletion(h, r) {
      TextIsInjective(a.state.reason, b.state.reason);
    }
  }

  ghost predicate HasSkip(h: seq<Event>, r: string, reason: SkipReason) {
    exists e :: e in h && e.ruleId == r && e.state == Skipped(reason)
  }

  ghost function FirstReason(h: seq<Event>, r: string): SkipReason {
    if HasSkip(h, r, InputUnavailable) then InputUnavailable
    else if HasSkip(h, r, ModeIncompatible) then ModeIncompatible
    else if HasSkip(h, r, OptInNotSelected) then OptInNotSelected
    else if HasSkip(h, r, PrerequisiteFailed) then PrerequisiteFailed
    else ServerIncompatible
  }

  /** What a rule settles to, spelled out: failed if any event failed it, else completed if any completed it, else
      skipped, for the first of its reasons in the order of `FirstReason`. */
  lemma SettlesExactly(h: seq<Event>, r: string, e: Event)
    requires Settles(h, r, e)
    ensures e.state.Failed? <==> HasFailure(h, r)
    ensures e.state.Completed? <==> !HasFailure(h, r) && HasCompletion(h, r)
    ensures e.state.Skipped? ==> e.state.reason == FirstReason(h, r)
  {
    if e.state.Skipped? {
      assert HasSkip(h, r, e.state.reason);
      forall reason | HasSkip(h, r, reason) ensures !Less(Text(reason), Text(e.state.reason)) {
        var o :| o in h && o.ruleId == r && o.state == Skipped(reason);
      }
      LaterReasons(e.state.reason);
    }
  }

  /** Every reason is below the later ones. */
  lemma LaterReasons(reason: SkipReason)
    ensures reason != InputUnavailable ==> Less(Text(InputUnavailable), Text(reason))
    ensures reason.OptInNotSelected? || reason.PrerequisiteFailed? || reason.ServerIncompatible? ==> Less(Text(ModeIncompatible), Text(reason))
    ensures reason.PrerequisiteFailed? || reason.ServerIncompatible? ==> Less(Text(OptInNotSelected), Text(reason))
    ensures reason.ServerIncompatible? ==> Less(Text(PrerequisiteFailed), Text(reason))
  {
  }

  /** Reordering the events of a run changes no state and no skip reason; only the payload of a
      repeated failure can differ. */
  lemma SettledStateIgnoresOrder(g: seq<Event>, h: seq<Event>, r: string, a: Event, b: Event)
    requires multiset(g) == multiset(h)
    requires Settles(g, r, a) && Settles(h, r, b)
    ensures a == b || (a.state.Failed? && b.state.Failed?)
    ensures HasFailure(g, r) <==> a.state.Failed?
  {
    forall e ensures e in g <==> e in h {
      assert e in g <==> e in multiset(g);
      assert e in h <==> e in multiset(h);
    }
    assert HasFailure(g, r) <==> HasFailure(h, r);
    assert HasCompletion(g, r) <==> HasCompletion(h, r);
    if !HasFailure(g, r) && !HasCompletion(g, r) {
      TextIsInjective(a.state.reason, b.state.reason);
    }
  }

  /** A stored event weighed against a new one for the same rule. */
  function Heavier(stored: Event, e: Event): Event {
    if e.state.Failed? then e
    else if stored.state.Failed? then stored
    else if e.state.Completed? then e
    else if stored.state.Completed? then stored
    else if Less(Text(e.state.reason), Text(stored.state.reason)) then e
    else stored
  }

  /** One more event: what a rule settled to before and what it settles to now. */
  lemma SettlesStep(h: seq<Event>, e: Event, stored: Event, now: Event)
    requires Settles(h, e.ruleId, stored) && now == Heavier(stored, e)
    ensures Settles(h + [e], e.ruleId, now)
  {
    var r, h' := e.ruleId, h + [e];
    assert forall x :: x in h' <==> x in h || x == e;
    if e.state.Failed? {
      assert LastFailure(h', |h|) && h'[|h|] == e;
    } else if stored.state.Failed? {
      assert HasFailure(h, r);
      var k :| LastFailure(h, k) && h[k] == stored;
      assert LastFailure(h', k) && h'[k] == stored;
    } else {
      assert !HasFailure(h, r) && !HasFailure(h', r);
      if !e.state.Completed? && !stored.state.Completed? {
        assert !HasCompletion(h, r) && !HasCompletion(h', r);
        forall o | o in h' && o.ruleId == r && o.state.Skipped?
          ensures !Less(Text(o.state.reason), Text(now.state.reason))
        {
          LessIsTotal(Text(e.state.reason), Text(stored.state.reason));
          if o in h && Less(Text(o.state.reason), Text(e.state.reason)) && now == e {
            LessIsTransitive(Text(o.state.reason), Text(e.state.reason), Text(stored.state.reason));
          }
        }
      }
    }
  }

  lemma SettlesFirst(h: seq<Event>, e: Event)
    requires !Mentions(h, e.ruleId)
    ensures Settles(h + [e], e.ruleId, e)
  {
    var h' := h + [e];
    assert forall x :: x in h' <==> x in h || x == e;
    if e.state.Failed? {
      assert LastFailure(h', |h|) && h'[|h|] == e;
    } else if e.state.Skipped? {
      LessIsTotal(Text(e.state.reason), Text(e.state.reason));
    }
  }

  lemma SettlesElsewhere(h: seq<Event>, e: Event, r: string, stored: Event)
    requires e.ruleId != r && Settles(h, r, stored)
    ensures Settles(h + [e], r, stored)
  {
    var h' := h + [e];
    assert forall x :: x in h' <==> x in h || x == e;
    if HasFailure(h', r) {
      assert HasFailure(h, r);
      var k :| LastFailure(h, k) && h[k] == stored;
      assert LastFailure(h', k) && h'[k] == stored;
    }
  }

  // ---------------------------------------------------------------- the recorder

  function Appended(selected: seq<string>, r: string): seq<string> {
    if r in selected then selected else selected + [r]
  }

  function AppendedAll(selected: seq<string>, rs: seq<string>): seq<string>
    decreases |rs|
  {
    if rs == [] then selected else AppendedAll(Appended(selected, rs[0]), rs[1..])
  }

  lemma {:induction false} AppendedAllMembers(selected: seq<string>, rs: seq<string>)
    ensures forall r :: r in AppendedAll(selected, rs) <==> r in selected || r in rs
    decreases |rs|
  {
    if rs != [] {
      AppendedAllMembers(Appended(selected, rs[0]), rs[1..]);
      assert rs == [rs[0]] + rs[1..];
    }
  }

  /** A list of rules is selected one by one: each new one at the end. */
  lemma {:induction false} SelectionGrows(selected: seq<string>, rs: seq<string>, r: string)
    ensures AppendedAll(selected, []) == selected
    ensures AppendedAll(selected, rs + [r])
         == AppendedAll(selected, rs) + if r in selected || r in rs then [] else [r]
    decreases |rs|
  {
    if rs == [] {
      assert rs + [r] == [r] && [r][1..] == [];
    } else {
      Lists.TailOfConcat(rs, [r]);
      SelectionGrows(Appended(selected, rs[0]), rs[1..], r);
      assert rs == [rs[0]] + rs[1..];
    }
  }

  class RuleExecutionRecorder {
    var selectedRuleIds: seq<string>
    var selectedSeen: set<string>
    var terminalEvents: map<string, Event>
    /** Every terminal event ever recorded, in order. */
    ghost var history: seq<Event>

    ghost predicate Valid()
      reads this
    {
      && Distinct(selectedRuleIds)
      && (forall r :: r in selectedSeen <==> r in selectedRuleIds)
      && (forall r :: r in terminalEvents ==> r in selectedSeen)
      && (forall r :: r in terminalEvents <==> Mentions(history, r))
      && (forall r :: r in terminalEvents ==> Settles(history, r, terminalEvents[r]))
    }

    /** Every selected rule has a terminal event. */
    ghost predicate Closed()
      reads this
    {
      forall r :: r in selectedRuleIds ==> r in terminalEvents
    }

    constructor ()
      ensures Valid() && Closed() && history == [] && selectedRuleIds == []
    {
      selectedRuleIds, selectedSeen, terminalEvents, history := [], {}, map[], [];
    }

    method Select(ruleId: string)
      requires Valid()
      modifies this
      ensures Valid() && history == old(history) && terminalEvents == old(terminalEvents)
      ensures selectedRuleIds == Appended(old(selectedRuleIds), ruleId)
    {
      if ruleId !in selectedSeen {
        selectedSeen := selectedSeen + {ruleId};
        selectedRuleIds := selectedRuleIds + [ruleId];
      }
    }

    method SelectMany(ruleIds: seq<string>)
      requires Valid()
      modifies this
      ensures Valid() && history == old(history) && terminalEvents == old(terminalEvents)
      ensures selectedRuleIds == AppendedAll(old(selectedRuleIds), ruleIds)
    {
      for i := 0 to |ruleIds|
        invariant Valid() && history == old(history) && terminalEvents == old(terminalEvents)
        invariant AppendedAll(selectedRuleIds, ruleIds[i..]) == AppendedAll(old(selectedRuleIds), ruleIds)
      {
        Select(ruleIds[i]);
        Lists.DropHead(ruleIds, i);
      }
    }

    method RecordCompleted(ruleId: string)
      requires Valid()
      modifies this
      ensures Valid() && history == old(history) + [Event(ruleId, Completed)]
      ensures selectedRuleIds == Appended(old(selectedRuleIds), ruleId)
    {
      RecordTerminal(Event(ruleId, Completed));
    }

    method RecordSkipped(ruleId: string, reason: SkipReason)
      requires Valid()
      modifies this
      ensures Valid() && history == old(history) + [Event(ruleId, Skipped(reason))]
      ensures selectedRuleIds == Appended(old(selectedRuleIds), ruleId)
    {
      RecordTerminal(Event(ruleId, Skipped(reason)));
    }

    method RecordFailed(ruleId: string, issueCode: string, stage: string)
      requires Valid()
      modifies this
      ensures Valid() && history == old(history) + [Event(ruleId, Failed(issueCode, stage))]
      ensures selectedRuleIds == Appended(old(selectedRuleIds), ruleId)
    {
      RecordTerminal(Event(ruleId, Failed(issueCode, stage)));
    }

    /** Together with `Valid()` this pins the stored event: it is what the whole history settles to. */
    method RecordTerminal(event: Event)
      requires Valid()
      modifies this
      ensures Valid() && history == old(history) + [event]
      ensures selectedRuleIds == Appended(old(selectedRuleIds), event.ruleId)
    {
      Select(event.ruleId);
      var r := event.ruleId;
      ghost var before, stored := history, terminalEvents;
      if r !in terminalEvents || terminalEvents[r] == event {
        terminalEvents := terminalEvents[r := event];
      } else if event.state.Failed? {
        terminalEvents := terminalEvents[r := event];
      } else if terminalEvents[r].state.Failed? {
      } else if event.state.Completed? {
        terminalEvents := terminalEvents[r := event];
      } else if terminalEvents[r].state.Completed? {
      } else if Less(Text(event.state.reason), Text(terminalEvents[r].state.reason)) {
        terminalEvents := terminalEvents[r := event];
      }
      history := history + [event];
      StoredSettles(before, event, stored, terminalEvents);
    }

    /** Sorted by (position in the selection, rule id); every recorded rule is selected, so this is
        the selection order. */
    method Events() returns (events: seq<Event>)
      requires Valid()
      ensures events == InSelectionOrder(selectedRuleIds, terminalEvents)
    {
      events := [];
      for i := 0 to |selectedRuleIds|
        invariant events + InSelectionOrder(selectedRuleIds[i..], terminalEvents)
               == InSelectionOrder(selectedRuleIds, terminalEvents)
      {
        var r := selectedRuleIds[i];
        assert selectedRuleIds[i..][0] == r && selectedRuleIds[i..][1..] == selectedRuleIds[i + 1..];
        if r in terminalEvents {
          Lists.Assoc(events, [terminalEvents[r]], InSelectionOrder(selectedRuleIds[i + 1..], terminalEvents));
          events := events + [terminalEvents[r]];
        }
      }
    }
  }

  /** The stored events settle the history: one more event keeps that, if it is weighed against the stored one. */
  lemma StoredSettles(before: seq<Event>, event: Event, stored: map<string, Event>, now: map<string, Event>)
    requires forall q :: q in stored <==> Mentions(before, q)
    requires forall q :: q in stored ==> Settles(before, q, stored[q])
    requires forall q :: q in now <==> q in stored || q == event.ruleId
    requires forall q :: q in stored && q != event.ruleId ==> now[q] == stored[q]
    requires now[event.ruleId] == if event.ruleId in stored then Heavier(stored[event.ruleId], event) else event
    ensures forall q :: q in now <==> Mentions(before + [event], q)
    ensures forall q :: q in now ==> Settles(before + [event], q, now[q])
  {
    var history := before + [event];
    assert forall x :: x in history <==> x in before || x == event;
    forall q ensures q in now <==> Mentions(history, q) {
      assert q in stored <==> Mentions(before, q);
      if q == event.ruleId { assert event in history; }
    }
    forall q | q in now ensures Settles(history, q, now[q]) {
      if q != event.ruleId {
        SettlesElsewhere(before, event, q, stored[q]);
      } else if q in stored {
        SettlesStep(before, event, stored[q], now[q]);
      } else {
        SettlesFirst(before, event);
      }
    }
  }

  function InSelectionOrder(selected: seq<string>, terminal: map<string, Event>): seq<Event> {
    if selected == [] then []
    else
      var rest := InSelectionOrder(selected[1..], terminal);
      if selected[0] in terminal then [terminal[selected[0]]] + rest else rest
  }

  // ---------------------------------------------------------------- the manifest

  datatype SkippedRule = SkippedRule(ruleId: string, reason: SkipReason)
  datatype FailedRule = FailedRule(ruleId: string, issueCode: string, stage: string)
  datatype Manifest = Manifest(
    registryRevision: string,
    selected: seq<string>,
    completed: seq<string>,
    skipped: seq<SkippedRule>,
    failed: seq<FailedRule>)

  datatype ManifestIssue = Overlap(ruleId: string) | Incomplete(ruleId: string)

  function SkippedIds(rs: seq<SkippedRule>): seq<string> {
    seq(|rs|, i requires 0 <= i < |rs| => rs[i].ruleId)
  }

  function FailedIds(rs: seq<FailedRule>): seq<string> {
    seq(|rs|, i requires 0 <= i < |rs| => rs[i].ruleId)
  }

  /** The model validator of the manifest: no duplicates in any list, terminal states exclusive. */
  ghost predicate TerminalSetsValid(m: Manifest) {
    && Distinct(m.selected) && Distinct(m.completed) && Distinct(SkippedIds(m.skipped)) && Distinct(FailedIds(m.failed))
    && (forall r :: r in m.completed ==> r !in SkippedIds(m.skipped) && r !in FailedIds(m.failed))
    && (forall r :: r in SkippedIds(m.skipped) ==> r !in FailedIds(m.failed))
  }

  function CompletedOf(selected: seq<string>, states: map<string, Terminal>): seq<string> {
    if selected == [] then []
    else
      var r, rest := selected[0], CompletedOf(selected[1..], states);
      if r in states && states[r].Completed? then [r] + rest else rest
  }

  function SkippedOf(selected: seq<string>, states: map<string, Terminal>): seq<SkippedRule> {
    if selected == [] then []
    else
      var r, rest := selected[0], SkippedOf(selected[1..], states);
      if r in states && states[r].Skipped? then [SkippedRule(r, states[r].reason)] + rest else rest
  }

  function FailedOf(selected: seq<string>, states: map<string, Terminal>): seq<FailedRule> {
    if selected == [] then []
    else
      var r, rest := selected[0], FailedOf(selected[1..], states);
      if r in states && states[r].Failed? then [FailedRule(r, states[r].issueCode, states[r].stage)] + rest else rest
  }

  ghost predicate Repeats(xs: seq<string>, i: int) {
    0 <= i < |xs| && xs[i] in xs[..i]
  }

  /** The i-th event names an unselected rule, or one that an earlier event settled. */
  ghost predicate BadEvent(selected: seq<string>, events: seq<Event>, i: int) {
    0 <= i < |events| && (events[i].ruleId !in selected || Mentions(events[..i], events[i].ruleId))
  }

  ghost predicate Missing(selected: seq<string>, events: seq<Event>, i: int) {
    0 <= i < |selected| && !Mentions(events, selected[i])
  }

  ghost predicate Buildable(selected: seq<string>, events: seq<Event>) {
    && (forall i :: !Repeats(selected, i))
    && (forall i :: !BadEvent(selected, events, i))
    && (forall i :: !Missing(selected, events, i))
  }

  /** The first defect found, in the order duplicates, events, missing rules. */
  ghost predicate FirstDefect(selected: seq<string>, events: seq<Event>, issue: ManifestIssue) {
    || (exists i :: Repeats(selected, i) && (forall j :: j < i ==> !Repeats(selected, j)) && issue == Overlap(selected[i]))
    || ((forall i :: !Repeats(selected, i)) &&
        exists i :: BadEvent(selected, events, i) && (forall j :: j < i ==> !BadEvent(selected, events, j))
                    && issue == Overlap(events[i].ruleId))
    || ((forall i :: !Repeats(selected, i)) && (forall i :: !BadEvent(selected, events, i)) &&
        exists i :: Missing(selected, events, i) && (forall j :: j < i ==> !Missing(selected, events, j))
                    && issue == Incomplete(selected[i]))
  }

  /** Event list and state map agree. */
  ghost predicate Tabulates(events: seq<Event>, states: map<string, Terminal>) {
    && (forall r :: r in states <==> Mentions(events, r))
    && (forall e :: e in events ==> e.ruleId in states && states[e.ruleId] == e.state)
  }

  /** One event for each rule, and only for selected ones. */
  method TerminalStates(selected: seq<string>, seen: set<string>, events: seq<Event>)
    returns (result: Result<map<string, Terminal>, ManifestIssue>)
    requires forall r :: r in seen <==> r in selected
    requires forall i :: !Repeats(selected, i)
    ensures result.Ok? <==> forall i :: !BadEvent(selected, events, i)
    ensures result.Ok? ==> Tabulates(events, result.value)
    ensures result.Err? ==> FirstDefect(selected, events, result.error)
  {
    var terminal: map<string, Terminal> := map[];
    for i := 0 to |events|
      invariant Tabulates(events[..i], terminal)
      invariant forall j :: j < i ==> !BadEvent(selected, events, j)
    {
      var e := events[i];
      if e.ruleId !in seen || e.ruleId in terminal {
        assert BadEvent(selected, events, i);
        return Err(Overlap(e.ruleId));
      }
      Lists.PrefixSnoc(events, i);
      terminal := terminal[e.ruleId := e.state];
      TabulatesStep(events[..i], e, terminal - {e.ruleId}, terminal);
    }
    Lists.Whole(events);
    result := Ok(terminal);
  }

  method BuildRuleExecutionManifest(revision: string, selected: seq<string>, events: seq<Event>)
    returns (result: Result<Manifest, ManifestIssue>, ghost states: map<string, Terminal>)
    ensures result.Ok? <==> Buildable(selected, events)
    ensures result.Err? ==> FirstDefect(selected, events, result.error)
    ensures result.Ok? ==>
      && Tabulates(events, states)
      && result.value == Manifest(revision, selected, CompletedOf(selected, states), SkippedOf(selected, states),
                                  FailedOf(selected, states))
      && TerminalSetsValid(result.value)
  {
    states := map[];
    var seen: set<string> := {};
    for i := 0 to |selected|
      invariant forall r :: r in seen <==> r in selected[..i]
      invariant forall j :: j < i ==> !Repeats(selected, j)
    {
      if selected[i] in seen {
        assert Repeats(selected, i);
        return Err(Overlap(selected[i])), states;
      }
      seen := seen + {selected[i]};
    }
    Lists.Whole(selected);
    var tabulated := TerminalStates(selected, seen, events);
    if tabulated.Err? { return Err(tabulated.error), states; }
    var terminal := tabulated.value;
    for i := 0 to |selected|
      invariant forall j :: j < i ==> !Missing(selected, events, j)
    {
      if selected[i] !in terminal {
        assert Missing(selected, events, i);
        return Err(Incomplete(selected[i])), states;
      }
    }
    states := terminal;
    var m := Manifest(revision, selected, CompletedOf(selected, terminal), SkippedOf(selected, terminal),
                      FailedOf(selected, terminal));
    NoRepeatsIsDistinct(selected);
    PartitionIsValid(m, terminal);
    result := Ok(m);
  }

  lemma TabulatesStep(h: seq<Event>, e: Event, before: map<string, Terminal>, after: map<string, Terminal>)
    requires Tabulates(h, before) && e.ruleId !in before && after == before[e.ruleId := e.state]
    ensures Tabulates(h + [e], after)
  {
    var h' := h + [e];
    assert forall x :: x in h' <==> x in h || x == e;
    forall r ensures r in after <==> Mentions(h', r) {
      if r == e.ruleId { assert e in h'; }
    }
    forall x | x in h' ensures x.ruleId in after && after[x.ruleId] == x.state {
      if x in h { assert x.ruleId in before; }
    }
  }

  lemma NoRepeatsIsDistinct(xs: seq<string>)
    requires forall i :: !Repeats(xs, i)
    ensures Distinct(xs)
  {
    forall i, j | 0 <= i < j < |xs| ensures xs[i] != xs[j] {
      assert !Repeats(xs, j);
      assert xs[i] == xs[..j][i];
    }
  }

  lemma DistinctHasNoRepeats(xs: seq<string>)
    requires Distinct(xs)
    ensures forall i :: !Repeats(xs, i)
  {
  }

  /** Membership in the three lists is membership in the selection with the matching state. */
  lemma {:induction false} TerminalMembership(selected: seq<string>, states: map<string, Terminal>)
    ensures forall r :: r in CompletedOf(selected, states) <==> r in selected && r in states && states[r].Completed?
    ensures forall s :: s in SkippedOf(selected, states) <==>
      s.ruleId in selected && s.ruleId in states && states[s.ruleId] == Skipped(s.reason)
    ensures forall f :: f in FailedOf(selected, states) <==>
      f.ruleId in selected && f.ruleId in states && states[f.ruleId] == Failed(f.issueCode, f.stage)
  {
    if selected != [] {
      TerminalMembership(selected[1..], states);
      assert selected == [selected[0]] + selected[1..];
    }
  }

  lemma SkippedIdsMembership(rs: seq<SkippedRule>, r: string)
    ensures r in SkippedIds(rs) <==> exists s :: s in rs && s.ruleId == r
  {
    if r in SkippedIds(rs) {
      var i :| 0 <= i < |rs| && SkippedIds(rs)[i] == r;
      assert rs[i] in rs;
    }
    if s :| s in rs && s.ruleId == r {
      var i :| 0 <= i < |rs| && rs[i] == s;
      assert SkippedIds(rs)[i] == r;
    }
  }

  lemma FailedIdsMembership(rs: seq<FailedRule>, r: string)
    ensures r in FailedIds(rs) <==> exists s :: s in rs && s.ruleId == r
  {
    if r in FailedIds(rs) {
      var i :| 0 <= i < |rs| && FailedIds(rs)[i] == r;
      assert rs[i] in rs;
    }
    if s :| s in rs && s.ruleId == r {
      var i :| 0 <= i < |rs| && rs[i] == s;
      assert FailedIds(rs)[i] == r;
    }
  }

  /** The listed strings that are to be kept, in order. */
  function Kept(xs: seq<string>, keep: set<string>): seq<string> {
    if xs == [] then []
    else
      var rest := Kept(xs[1..], keep);
      if xs[0] in keep then [xs[0]] + rest else rest
  }

  /** Keeping goes through the list in order. */
  lemma {:induction false} KeptInOrder(xs: seq<string>, x: string, keep: set<string>)
    ensures Kept(xs + [x], keep) == Kept(xs, keep) + if x in keep then [x] else []
  {
    if xs == [] {
      assert xs + [x] == [x] && [x][1..] == [];
    } else {
      Lists.TailOfConcat(xs, [x]);
      KeptInOrder(xs[1..], x, keep);
      Lists.Assoc([xs[0]], Kept(xs[1..], keep), if x in keep then [x] else []);
    }
  }

  lemma {:induction false} KeptIsDistinct(xs: seq<string>, keep: set<string>)
    requires Distinct(xs)
    ensures Distinct(Kept(xs, keep)) && forall x :: x in Kept(xs, keep) ==> x in xs
  {
    if xs != [] {
      KeptIsDistinct(xs[1..], keep);
      assert xs[0] !in xs[1..];
    }
  }

  lemma {:induction false} CompletedIsKept(selected: seq<string>, states: map<string, Terminal>, keep: set<string>)
    requires forall r :: r in keep <==> r in states && states[r].Completed?
    ensures CompletedOf(selected, states) == Kept(selected, keep)
  {
    if selected != [] { CompletedIsKept(selected[1..], states, keep); }
  }

  lemma {:induction false} SkippedIsKept(selected: seq<string>, states: map<string, Terminal>, keep: set<string>)
    requires forall r :: r in keep <==> r in states && states[r].Skipped?
    ensures SkippedIds(SkippedOf(selected, states)) == Kept(selected, keep)
  {
    if selected != [] { SkippedIsKept(selected[1..], states, keep); }
  }

  lemma {:induction false} FailedIsKept(selected: seq<string>, states: map<string, Terminal>, keep: set<string>)
    requires forall r :: r in keep <==> r in states && states[r].Failed?
    ensures FailedIds(FailedOf(selected, states)) == Kept(selected, keep)
  {
    if selected != [] { FailedIsKept(selected[1..], states, keep); }
  }

  /** Each list is the selection, kept where the state matches. */
  lemma ListsAreKept(selected: seq<string>, states: map<string, Terminal>, keys: set<string>)
    requires keys == states.Keys
    ensures CompletedOf(selected, states) == Kept(selected, set r | r in keys && states[r].Completed?)
    ensures SkippedIds(SkippedOf(selected, states)) == Kept(selected, set r | r in keys && states[r].Skipped?)
    ensures FailedIds(FailedOf(selected, states)) == Kept(selected, set r | r in keys && states[r].Failed?)
  {
    CompletedIsKept(selected, states, set r | r in keys && states[r].Completed?);
    SkippedIsKept(selected, states, set r | r in keys && states[r].Skipped?);
    FailedIsKept(selected, states, set r | r in keys && states[r].Failed?);
  }

  lemma PartitionIsValid(m: Manifest, states: map<string, Terminal>)
    requires Distinct(m.selected)
    requires m.completed == CompletedOf(m.selected, states)
    requires m.skipped == SkippedOf(m.selected, states)
    requires m.failed == FailedOf(m.selected, states)
    ensures TerminalSetsValid(m)
  {
    ListsAreKept(m.selected, states, states.Keys);
    KeptIsDistinct(m.selected, set r | r in states.Keys && states[r].Completed?);
    KeptIsDistinct(m.selected, set r | r in states.Keys && states[r].Skipped?);
    KeptIsDistinct(m.selected, set r | r in states.Keys && states[r].Failed?);
    TerminalMembership(m.selected, states);
    forall r
      ensures r in SkippedIds(m.skipped) ==> r in states && states[r].Skipped?
      ensures r in FailedIds(m.failed) ==> r in states && states[r].Failed?
    {
      SkippedIdsMembership(m.skipped, r);
      FailedIdsMembership(m.failed, r);
    }
  }

  // ---------------------------------------------------------------- a built manifest is a partition

  /** Every selected rule sits in exactly one terminal list, nothing else does, and each list follows
      the selection order. */
  ghost predicate Partitions(m: Manifest) {
    && TerminalSetsValid(m)
    && multiset(m.selected) == multiset(m.completed) + multiset(SkippedIds(m.skipped)) + multiset(FailedIds(m.failed))
    && m.completed == Kept(m.selected, set r | r in m.completed)
    && SkippedIds(m.skipped) == Kept(m.selected, set r | r in SkippedIds(m.skipped))
    && FailedIds(m.failed) == Kept(m.selected, set r | r in FailedIds(m.failed))
  }

  lemma {:induction false} KeptDependsOnMembers(xs: seq<string>, a: set<string>, b: set<string>)
    requires forall x :: x in xs ==> (x in a <==> x in b)
    ensures Kept(xs, a) == Kept(xs, b)
  {
    if xs != [] {
      assert forall x :: x in xs[1..] ==> x in xs;
      KeptDependsOnMembers(xs[1..], a, b);
    }
  }

  lemma {:induction false} KeptCount(xs: seq<string>, keep: set<string>, x: string)
    ensures Lists.Count(Kept(xs, keep), x) == if x in keep then Lists.Count(xs, x) else 0
  {
    if xs != [] {
      KeptCount(xs[1..], keep, x);
      Lists.CountOfHeadTail(xs, x);
      if xs[0] in keep { Lists.CountOfConcat([xs[0]], Kept(xs[1..], keep), x); }
    }
  }

  lemma NotListedIsNotCounted(xs: seq<string>, x: string)
    ensures Lists.Count(xs, x) == 0 <==> x !in xs
  {
  }

  lemma KeptCovers(xs: seq<string>, a: set<string>, b: set<string>, c: set<string>)
    requires a !! b !! c
    requires forall x :: x in xs ==> x in a || x in b || x in c
    ensures multiset(xs) == multiset(Kept(xs, a)) + multiset(Kept(xs, b)) + multiset(Kept(xs, c))
  {
    var all := Kept(xs, a) + Kept(xs, b) + Kept(xs, c);
    forall x ensures Lists.Count(xs, x) == Lists.Count(all, x) {
      KeptCount(xs, a, x);
      KeptCount(xs, b, x);
      KeptCount(xs, c, x);
      NotListedIsNotCounted(xs, x);
      Lists.CountOfConcat(Kept(xs, a) + Kept(xs, b), Kept(xs, c), x);
      Lists.CountOfConcat(Kept(xs, a), Kept(xs, b), x);
    }
    Lists.SameCounts(xs, all);
  }

  /** Whatever manifest the builder accepts partitions the selected rules in selection order. */
  lemma BuiltManifestPartitions(m: Manifest, events: seq<Event>, states: map<string, Terminal>)
    requires Buildable(m.selected, events) && Tabulates(events, states)
    requires m.completed == CompletedOf(m.selected, states)
    requires m.skipped == SkippedOf(m.selected, states)
    requires m.failed == FailedOf(m.selected, states)
    ensures Partitions(m)
  {
    NoRepeatsIsDistinct(m.selected);
    PartitionIsValid(m, states);
    forall r | r in m.selected ensures r in states {
      var i :| 0 <= i < |m.selected| && m.selected[i] == r;
      assert !Missing(m.selected, events, i);
    }
    ListsAreKept(m.selected, states, states.Keys);
    KeptCovers(m.selected, set r | r in states.Keys && states[r].Completed?, set r | r in states.Keys && states[r].Skipped?,
               set r | r in states.Keys && states[r].Failed?);
    TerminalMembership(m.selected, states);
    forall r | r in m.selected
      ensures r in SkippedIds(m.skipped) <==> states[r].Skipped?
      ensures r in FailedIds(m.failed) <==> states[r].Failed?
    {
      SkippedIdsMembership(m.skipped, r);
      FailedIdsMembership(m.failed, r);
      if states[r].Skipped? { assert SkippedRule(r, states[r].reason) in m.skipped; }
      if states[r].Failed? { assert FailedRule(r, states[r].issueCode, states[r].stage) in m.failed; }
    }
    KeptDependsOnMembers(m.selected, set r | r in states.Keys && states[r].Completed?, set r | r in m.completed);
    KeptDependsOnMembers(m.selected, set r | r in states.Keys && states[r].Skipped?, set r | r in SkippedIds(m.skipped));
    KeptDependsOnMembers(m.selected, set r | r in states.Keys && states[r].Failed?, set r | r in FailedIds(m.failed));
  }

  /** A closed recorder always yields a manifest. */
  lemma {:induction false} SelectionOrderMembership(selected: seq<string>, terminal: map<string, Event>)
    ensures forall e :: e in InSelectionOrder(selected, terminal) <==>
      exists r :: r in selected && r in terminal && terminal[r] == e
  {
    if selected != [] {
      SelectionOrderMembership(selected[1..], terminal);
      assert selected == [selected[0]] + selected[1..];
    }
  }

  lemma {:induction false} SelectionOrderHasNoRepeats(selected: seq<string>, terminal: map<string, Event>, i: int, j: int)
    requires Distinct(selected)
    requires forall r :: r in terminal ==> terminal[r].ruleId == r
    requires 0 <= i < j < |InSelectionOrder(selected, terminal)|
    ensures InSelectionOrder(selected, terminal)[i].ruleId != InSelectionOrder(selected, terminal)[j].ruleId
  {
    var rest := InSelectionOrder(selected[1..], terminal);
    if selected[0] !in terminal {
      SelectionOrderHasNoRepeats(selected[1..], terminal, i, j);
    } else if i > 0 {
      SelectionOrderHasNoRepeats(selected[1..], terminal, i - 1, j - 1);
    } else {
      SelectionOrderMembership(selected[1..], terminal);
      assert rest[j - 1] in rest;
    }
  }

  lemma ClosedRecorderIsBuildable(selected: seq<string>, terminal: map<string, Event>)
    requires Distinct(selected)
    requires forall r :: r in terminal ==> r in selected && terminal[r].ruleId == r
    ensures Buildable(selected, InSelectionOrder(selected, terminal)) <==> forall r :: r in selected ==> r in terminal
    ensures forall i :: !BadEvent(selected, InSelectionOrder(selected, terminal), i)
    ensures forall i :: 0 <= i < |selected| ==>
      (Missing(selected, InSelectionOrder(selected, terminal), i) <==> selected[i] !in terminal)
  {
    var events := InSelectionOrder(selected, terminal);
    SelectionOrderMembership(selected, terminal);
    DistinctHasNoRepeats(selected);
    forall i ensures !BadEvent(selected, events, i) {
      if 0 <= i < |events| {
        assert events[i] in events;
        if e :| e in events[..i] && e.ruleId == events[i].ruleId {
          var j :| 0 <= j < i && events[j] == e;
          SelectionOrderHasNoRepeats(selected, terminal, j, i);
        }
      }
    }
    forall i | 0 <= i < |selected| ensures Missing(selected, events, i) <==> selected[i] !in terminal {
      if selected[i] in terminal { assert terminal[selected[i]] in events; }
    }
    if forall i :: !Missing(selected, events, i) {
      forall r | r in selected ensures r in terminal {
        var i :| 0 <= i < |selected| && selected[i] == r;
        assert !Missing(selected, events, i);
      }
    }
  }
}
