/** Aggregation over targets: merging the assessments of one control, and building the whole report. */
module AssessmentReport {
  import opened Prelude
  import opened Ordering
  import opened CoverageLedger
  import opened AuditPolicy
  import opened Assessment
  import opened AssessmentEngine
  import Lists

  // ---------------------------------------------------------------- merging

  /** The most severe status present. */
  function Worst(controls: seq<ControlAssessment>): Status
    requires controls != []
  {
    if |controls| == 1 then controls[0].status
    else
      var rest := Worst(controls[1..]);
      if Rank(controls[0].status) <= Rank(rest) then controls[0].status else rest
  }

  function AllEvidence(controls: seq<ControlAssessment>): seq<AssessmentEvidence> {
    if controls == [] then [] else controls[0].evidence + AllEvidence(controls[1..])
  }

  function AllAnalyzerEvidence(controls: seq<ControlAssessment>): seq<AnalyzerEvidence> {
    if controls == [] then [] else controls[0].analyzerEvidence + AllAnalyzerEvidence(controls[1..])
  }

  function AllMissing(controls: seq<ControlAssessment>): seq<MissingEvidence> {
    if controls == [] then [] else controls[0].missing + AllMissing(controls[1..])
  }

  function AllIssues(controls: seq<ControlAssessment>): set<string> {
    set c, i | c in controls && i in c.issues :: i
  }

  function Merge(controls: seq<ControlAssessment>): ControlAssessment
    requires controls != []
  {
    if |controls| == 1 then controls[0]
    else controls[0].(
      status := Worst(controls),
      evidence := SortBy(AllEvidence(controls), EvidenceKey),
      analyzerEvidence := SortBy(AllAnalyzerEvidence(controls), NativeKey),
      missing := SortBy(AllMissing(controls), MissingKey),
      issues := AllIssues(controls))
  }

  lemma {:induction false} WorstIsLeast(controls: seq<ControlAssessment>)
    requires controls != []
    ensures exists c :: c in controls && c.status == Worst(controls)
    ensures forall c :: c in controls ==> Rank(Worst(controls)) <= Rank(c.status)
  {
    if |controls| > 1 {
      WorstIsLeast(controls[1..]);
      assert controls == [controls[0]] + controls[1..];
    } else {
      assert controls[0] in controls;
    }
  }

  lemma RankIsInjective(a: Status, b: Status)
    requires Rank(a) == Rank(b)
    ensures a == b
  {
  }

  /** The merged status ignores the order of the targets, and out-of-scope survives only if it is unanimous. */
  lemma MergedStatusIgnoresOrder(a: seq<ControlAssessment>, b: seq<ControlAssessment>)
    requires a != [] && multiset(a) == multiset(b)
    ensures b != [] && Merge(a).status == Merge(b).status
    ensures Merge(a).status == OutOfScope <==> forall c :: c in a ==> c.status == OutOfScope
  {
    Lists.SameMembers(a, b);
    SameWorst(a, b);
    MergedStatus(a);
    MergedStatus(b);
    WorstIsOutOfScope(a);
  }

  lemma MergedStatus(controls: seq<ControlAssessment>)
    requires controls != []
    ensures Merge(controls).status == Worst(controls)
  {
  }

  lemma WorstIsOutOfScope(controls: seq<ControlAssessment>)
    requires controls != []
    ensures Worst(controls) == OutOfScope <==> forall c :: c in controls ==> c.status == OutOfScope
  {
    WorstIsLeast(controls);
    if Worst(controls) == OutOfScope {
      forall c | c in controls ensures c.status == OutOfScope { RankIsInjective(c.status, OutOfScope); }
    }
  }

  lemma SameWorst(a: seq<ControlAssessment>, b: seq<ControlAssessment>)
    requires a != [] && b != [] && forall c :: c in a <==> c in b
    ensures Worst(a) == Worst(b)
  {
    WorstIsLeast(a);
    WorstIsLeast(b);
    RankIsInjective(Worst(a), Worst(b));
  }

  /** Some target got this status. */
  ghost predicate SomeTarget(controls: seq<ControlAssessment>, status: Status) {
    exists c :: c in controls && c.status == status
  }

  lemma WorstIs(controls: seq<ControlAssessment>, status: Status)
    requires controls != []
    ensures Worst(controls) == status <==>
      SomeTarget(controls, status) && forall other :: Rank(other) < Rank(status) ==> !SomeTarget(controls, other)
  {
    WorstIsLeast(controls);
    if SomeTarget(controls, status) && forall other :: Rank(other) < Rank(status) ==> !SomeTarget(controls, other) {
      assert SomeTarget(controls, Worst(controls));
      RankIsInjective(Worst(controls), status);
    }
  }

  /** The merged status, spelled out: one failing target fails the control, and so on down the line. */
  ghost predicate MergedAs(status: Status, controls: seq<ControlAssessment>) {
    status ==
      if SomeTarget(controls, Fail) then Fail
      else if SomeTarget(controls, Indeterminate) then Indeterminate
      else if SomeTarget(controls, NeedsReview) then NeedsReview
      else if SomeTarget(controls, PartialStatus) then PartialStatus
      else if SomeTarget(controls, Pass) then Pass
      else if SomeTarget(controls, NotAssessed) then NotAssessed
      else OutOfScope
  }

  lemma MergedStatusExactly(controls: seq<ControlAssessment>)
    requires controls != []
    ensures MergedAs(Merge(controls).status, controls)
  {
    MergedStatus(controls);
    var worst := Worst(controls);
    WorstIs(controls, worst);
    assert SomeTarget(controls, worst);
    assert forall other :: Rank(other) < Rank(worst) ==> !SomeTarget(controls, other);
  }

  lemma {:induction false} ConcatAll(a: seq<ControlAssessment>, b: seq<ControlAssessment>)
    ensures AllEvidence(a + b) == AllEvidence(a) + AllEvidence(b)
    ensures AllAnalyzerEvidence(a + b) == AllAnalyzerEvidence(a) + AllAnalyzerEvidence(b)
    ensures AllMissing(a + b) == AllMissing(a) + AllMissing(b)
  {
    if a == [] {
      assert a + b == b;
    } else {
      ConcatAll(a[1..], b);
      Lists.TailOfConcat(a, b);
      Lists.Assoc(a[0].evidence, AllEvidence(a[1..]), AllEvidence(b));
      Lists.Assoc(a[0].analyzerEvidence, AllAnalyzerEvidence(a[1..]), AllAnalyzerEvidence(b));
      Lists.Assoc(a[0].missing, AllMissing(a[1..]), AllMissing(b));
    }
  }

  /** What merging one list puts under each key is what the list held there. */
  lemma MergeKeepsKeys(controls: seq<ControlAssessment>)
    requires controls != []
    ensures forall k :: WithKey(Merge(controls).evidence, EvidenceKey, k) == WithKey(AllEvidence(controls), EvidenceKey, k)
    ensures forall k :: WithKey(Merge(controls).analyzerEvidence, NativeKey, k) == WithKey(AllAnalyzerEvidence(controls), NativeKey, k)
    ensures forall k :: WithKey(Merge(controls).missing, MissingKey, k) == WithKey(AllMissing(controls), MissingKey, k)
  {
    if |controls| == 1 {
      assert controls[1..] == [];
      assert AllEvidence(controls) == controls[0].evidence + [] == controls[0].evidence;
      assert AllAnalyzerEvidence(controls) == controls[0].analyzerEvidence + [] == controls[0].analyzerEvidence;
      assert AllMissing(controls) == controls[0].missing + [] == controls[0].missing;
    } else {
      SortByKeeps(AllEvidence(controls), EvidenceKey);
      SortByKeeps(AllAnalyzerEvidence(controls), NativeKey);
      SortByKeeps(AllMissing(controls), MissingKey);
    }
  }

  lemma PairAll(x: ControlAssessment, y: ControlAssessment)
    ensures AllEvidence([x, y]) == x.evidence + y.evidence
    ensures AllAnalyzerEvidence([x, y]) == x.analyzerEvidence + y.analyzerEvidence
    ensures AllMissing([x, y]) == x.missing + y.missing
  {
    assert [x, y][1..] == [y] && [y][1..] == [];
    assert AllEvidence([y]) == y.evidence + [] == y.evidence;
    assert AllAnalyzerEvidence([y]) == y.analyzerEvidence + [] == y.analyzerEvidence;
    assert AllMissing([y]) == y.missing + [] == y.missing;
  }

  lemma RegroupSorted<T>(m: seq<T>, n: seq<T>, a: seq<T>, b: seq<T>, key: T -> seq<string>)
    requires forall k :: WithKey(m, key, k) == WithKey(a, key, k)
    requires forall k :: WithKey(n, key, k) == WithKey(b, key, k)
    ensures SortBy(m + n, key) == SortBy(a + b, key)
  {
    SortByKeeps(m + n, key);
    SortByKeeps(a + b, key);
    forall k ensures WithKey(SortBy(m + n, key), key, k) == WithKey(SortBy(a + b, key), key, k) {
      WithKeyConcat(m, n, key, k);
      WithKeyConcat(a, b, key, k);
      assert WithKey(m, key, k) == WithKey(a, key, k) && WithKey(n, key, k) == WithKey(b, key, k);
    }
    SortedIsUnique(SortBy(m + n, key), SortBy(a + b, key), key);
  }

  lemma {:induction false} WorstOfConcat(a: seq<ControlAssessment>, b: seq<ControlAssessment>)
    requires a != [] && b != []
    ensures Worst(a + b) == if Rank(Worst(a)) <= Rank(Worst(b)) then Worst(a) else Worst(b)
  {
    WorstIsLeast(a);
    WorstIsLeast(b);
    WorstIsLeast(a + b);
    var ca :| ca in a && ca.status == Worst(a);
    var cb :| cb in b && cb.status == Worst(b);
    assert ca in a + b && cb in a + b;
    RankIsInjective(Worst(a + b), if Rank(Worst(a)) <= Rank(Worst(b)) then Worst(a) else Worst(b));
  }

  /** Merging merged groups is merging everything at once, in every field. */
  lemma MergeRegroups(a: seq<ControlAssessment>, b: seq<ControlAssessment>)
    requires a != [] && b != []
    ensures Merge([Merge(a), Merge(b)]) == Merge(a + b)
  {
    var m, n := Merge(a), Merge(b);
    MergeKeepsKeys(a);
    MergeKeepsKeys(b);
    PairAll(m, n);
    ConcatAll(a, b);
    RegroupSorted(m.evidence, n.evidence, AllEvidence(a), AllEvidence(b), EvidenceKey);
    RegroupSorted(m.analyzerEvidence, n.analyzerEvidence, AllAnalyzerEvidence(a), AllAnalyzerEvidence(b), NativeKey);
    RegroupSorted(m.missing, n.missing, AllMissing(a), AllMissing(b), MissingKey);
    WorstOfConcat(a, b);
    assert [m, n][1..] == [n];
    assert Worst([m, n]) == if Rank(m.status) <= Rank(n.status) then m.status else n.status;
    IssuesRegroup(a, b);
  }

  lemma IssuesRegroup(a: seq<ControlAssessment>, b: seq<ControlAssessment>)
    requires a != [] && b != []
    ensures AllIssues([Merge(a), Merge(b)]) == AllIssues(a + b)
  {
    MergeIssues(a);
    MergeIssues(b);
    PairIssues(Merge(a), Merge(b));
    assert AllIssues(a + b) == AllIssues(a) + AllIssues(b);
  }

  lemma PairIssues(m: ControlAssessment, n: ControlAssessment)
    ensures AllIssues([m, n]) == m.issues + n.issues
  {
    forall issue ensures issue in AllIssues([m, n]) <==> issue in m.issues + n.issues {
      assert [m, n][0] == m && [m, n][1] == n;
    }
  }

  lemma MergeIssues(a: seq<ControlAssessment>)
    requires a != []
    ensures Merge(a).issues == AllIssues(a)
  {
    if |a| == 1 { assert a == [a[0]]; }
  }

  // ---------------------------------------------------------------- summaries

  datatype Summary = Summary(
    total: nat, passed: nat, failed: nat, partial: nat, review: nat, indeterminate: nat, notAssessed: nat, notApplicable: nat)

  function CountStatus(statuses: seq<Status>, s: Status): nat {
    if statuses == [] then 0
    else if statuses[0] == s then 1 + CountStatus(statuses[1..], s)
    else CountStatus(statuses[1..], s)
  }

  function SummaryOf(statuses: seq<Status>): Summary {
    Summary(|statuses|, CountStatus(statuses, Pass), CountStatus(statuses, Fail), CountStatus(statuses, PartialStatus),
            CountStatus(statuses, NeedsReview), CountStatus(statuses, Indeterminate), CountStatus(statuses, NotAssessed),
            CountStatus(statuses, OutOfScope))
  }

  /** The model validator of the summary. */
  predicate TotalsValid(s: Summary) {
    s.passed + s.failed + s.partial + s.review + s.indeterminate + s.notAssessed + s.notApplicable == s.total
  }

  function Add(a: Summary, b: Summary): Summary {
    Summary(a.total + b.total, a.passed + b.passed, a.failed + b.failed, a.partial + b.partial, a.review + b.review,
            a.indeterminate + b.indeterminate, a.notAssessed + b.notAssessed, a.notApplicable + b.notApplicable)
  }

  lemma {:induction false} SummaryTotalsAreValid(statuses: seq<Status>)
    ensures TotalsValid(SummaryOf(statuses))
  {
    if statuses != [] {
      var rest := SummaryOf(statuses[1..]);
      SummaryTotalsAreValid(statuses[1..]);
      match statuses[0]
      case Pass => assert SummaryOf(statuses) == rest.(total := rest.total + 1, passed := rest.passed + 1);
      case Fail => assert SummaryOf(statuses) == rest.(total := rest.total + 1, failed := rest.failed + 1);
      case PartialStatus => assert SummaryOf(statuses) == rest.(total := rest.total + 1, partial := rest.partial + 1);
      case NeedsReview => assert SummaryOf(statuses) == rest.(total := rest.total + 1, review := rest.review + 1);
      case Indeterminate => assert SummaryOf(statuses) == rest.(total := rest.total + 1, indeterminate := rest.indeterminate + 1);
      case NotAssessed => assert SummaryOf(statuses) == rest.(total := rest.total + 1, notAssessed := rest.notAssessed + 1);
      case OutOfScope => assert SummaryOf(statuses) == rest.(total := rest.total + 1, notApplicable := rest.notApplicable + 1);
    }
  }

  lemma {:induction false} CountConcat(a: seq<Status>, b: seq<Status>, s: Status)
    ensures CountStatus(a + b, s) == CountStatus(a, s) + CountStatus(b, s)
  {
    if a == [] {
      assert a + b == b;
    } else {
      CountConcat(a[1..], b, s);
      Lists.TailOfConcat(a, b);
    }
  }

  lemma SummaryAdds(a: seq<Status>, b: seq<Status>)
    ensures SummaryOf(a + b) == Add(SummaryOf(a), SummaryOf(b))
  {
    forall s ensures CountStatus(a + b, s) == CountStatus(a, s) + CountStatus(b, s) { CountConcat(a, b, s); }
  }

  // ---------------------------------------------------------------- what a summary counts

  /** The places where controls have a status. */
  ghost function Places(controls: seq<ControlAssessment>, status: Status): set<int> {
    set i | 0 <= i < |controls| && controls[i].status == status
  }

  /** Every field of a summary is the number of controls with that very status. */
  ghost predicate Tallies(s: Summary, controls: seq<ControlAssessment>) {
    && s.total == |controls|
    && s.passed == |set i | 0 <= i < |controls| && controls[i].status == Pass|
    && s.failed == |set i | 0 <= i < |controls| && controls[i].status == Fail|
    && s.partial == |set i | 0 <= i < |controls| && controls[i].status == PartialStatus|
    && s.review == |set i | 0 <= i < |controls| && controls[i].status == NeedsReview|
    && s.indeterminate == |set i | 0 <= i < |controls| && controls[i].status == Indeterminate|
    && s.notAssessed == |set i | 0 <= i < |controls| && controls[i].status == NotAssessed|
    && s.notApplicable == |set i | 0 <= i < |controls| && controls[i].status == OutOfScope|
  }

  lemma {:induction false} CountIsPlaces(controls: seq<ControlAssessment>, status: Status)
    ensures CountStatus(Statuses(controls), status) == |Places(controls, status)|
  {
    if controls == [] {
      assert Places(controls, status) == {};
    } else {
      var n := |controls| - 1;
      var front := controls[..n];
      CountIsPlaces(front, status);
      StatusesGrow(controls);
      CountConcat(Statuses(front), [controls[n].status], status);
      OneStatus(controls[n].status, status);
      PlacesGrow(controls, status);
    }
  }

  lemma StatusesGrow(controls: seq<ControlAssessment>)
    requires controls != []
    ensures var n := |controls| - 1; Statuses(controls) == Statuses(controls[..n]) + [controls[n].status]
  {
  }

  lemma PlacesGrow(controls: seq<ControlAssessment>, status: Status)
    requires controls != []
    ensures var n := |controls| - 1;
            |Places(controls, status)| == |Places(controls[..n], status)| + if controls[n].status == status then 1 else 0
  {
    var n := |controls| - 1;
    var front := controls[..n];
    forall i ensures i in Places(controls, status) <==> i in Places(front, status) || (i == n && controls[n].status == status) {
      if 0 <= i < n { assert front[i] == controls[i]; }
    }
    assert Places(controls, status) == Places(front, status) + if controls[n].status == status then {n} else {};
  }

  lemma OneStatus(a: Status, b: Status)
    ensures CountStatus([a], b) == if a == b then 1 else 0
  {
    assert [a][1..] == [];
  }

  lemma SummaryTallies(controls: seq<ControlAssessment>)
    ensures Tallies(SummaryOf(Statuses(controls)), controls)
  {
    CountIsPlaces(controls, Pass);
    CountIsPlaces(controls, Fail);
    CountIsPlaces(controls, PartialStatus);
    CountIsPlaces(controls, NeedsReview);
    CountIsPlaces(controls, Indeterminate);
    CountIsPlaces(controls, NotAssessed);
    CountIsPlaces(controls, OutOfScope);
  }

  // ---------------------------------------------------------------- building the report

  datatype TargetResult = TargetResult(targetId: string, obs: Observations, policy: ResolvedPolicy)

  /** One control to assess for one target. */
  datatype Job = Job(targetId: string, obs: Observations, sourceId: string, control: ControlPolicy)

  datatype Logged = Logged(sourceId: string, itemId: string, control: ControlAssessment, retained: seq<Retained>)

  datatype SourceReport = SourceReport(sourceId: string, controls: seq<ControlAssessment>, summary: Summary)
  datatype Report = Report(sources: seq<SourceReport>, summary: Summary, retained: seq<Retained>)
  datatype BuildError = FatalInput | NoResults | PolicyLedgerMismatch(sourceId: string, itemId: string)

  function SourceJobs(result: TargetResult, source: ResolvedSource): seq<Job> {
    seq(|source.controls|, i requires 0 <= i < |source.controls| =>
      Job(result.targetId, result.obs, source.sourceId, source.controls[i]))
  }

  function TargetJobs(result: TargetResult, sources: seq<ResolvedSource>): seq<Job> {
    if sources == [] then [] else SourceJobs(result, sources[0]) + TargetJobs(result, sources[1..])
  }

  /** Every control of every target's policy, in report order. */
  function Jobs(results: seq<TargetResult>): seq<Job> {
    if results == [] then [] else TargetJobs(results[0], results[0].policy.sources) + Jobs(results[1..])
  }

  function FindItem(items: seq<Item>, itemId: string): Option<Item> {
    if items == [] then None
    else
      var later := FindItem(items[1..], itemId);
      if later.Some? then later else if items[0].itemId == itemId then Some(items[0]) else None
  }

  /** The ledger lookup by source and item id. */
  function FindEntry(ledger: seq<Source>, sourceId: string, itemId: string): Option<Item> {
    if ledger == [] then None
    else
      var later := FindEntry(ledger[1..], sourceId, itemId);
      if later.Some? then later
      else if ledger[0].sourceId == sourceId then FindItem(ledger[0].items, itemId) else None
  }

  /** `l` is the assessment of job `j` against the ledger. */
  ghost predicate Assesses(l: Logged, j: Job, ledger: seq<Source>) {
    var item := FindEntry(ledger, j.sourceId, j.control.itemId);
    && item.Some?
    && l.sourceId == j.sourceId && l.itemId == j.control.itemId
    && IsAssessment(l.control, l.retained, j.obs, j.targetId, j.sourceId, item.value, j.control)
  }

  ghost function Assessing(ledger: seq<Source>): (Logged, Job) -> bool {
    (l: Logged, j: Job) => Assesses(l, j, ledger)
  }

  ghost predicate AssessesAll(log: seq<Logged>, jobs: seq<Job>, ledger: seq<Source>) {
    Lists.AllPairs(log, jobs, Assessing(ledger))
  }

  function Controls(log: seq<Logged>): seq<ControlAssessment> {
    seq(|log|, i requires 0 <= i < |log| => log[i].control)
  }

  function AllRetained(log: seq<Logged>): seq<Retained> {
    if log == [] then [] else log[0].retained + AllRetained(log[1..])
  }

  /** The assessments recorded for one ledger item, in report order. */
  function Select(log: seq<Logged>, sourceId: string, itemId: string): seq<ControlAssessment> {
    if log == [] then []
    else if log[0].sourceId == sourceId && log[0].itemId == itemId
    then [log[0].control] + Select(log[1..], sourceId, itemId)
    else Select(log[1..], sourceId, itemId)
  }

  function ItemControls(sourceId: string, items: seq<Item>, log: seq<Logged>): seq<ControlAssessment> {
    if items == [] then []
    else
      var found := Select(log, sourceId, items[0].itemId);
      if found == [] then ItemControls(sourceId, items[1..], log)
      else [Merge(found)] + ItemControls(sourceId, items[1..], log)
  }

  function Statuses(controls: seq<ControlAssessment>): seq<Status> {
    seq(|controls|, i requires 0 <= i < |controls| => controls[i].status)
  }

  function SourceReports(ledger: seq<Source>, log: seq<Logged>): seq<SourceReport> {
    if ledger == [] then []
    else
      var controls := ItemControls(ledger[0].sourceId, ledger[0].items, log);
      if controls == [] then SourceReports(ledger[1..], log)
      else [SourceReport(ledger[0].sourceId, controls, SummaryOf(Statuses(controls)))] + SourceReports(ledger[1..], log)
  }

  function ReportControls(sources: seq<SourceReport>): seq<ControlAssessment> {
    if sources == [] then [] else sources[0].controls + ReportControls(sources[1..])
  }

  lemma {:induction false} SourcesTally(ledger: seq<Source>, log: seq<Logged>)
    ensures forall source :: source in SourceReports(ledger, log) ==> Tallies(source.summary, source.controls)
  {
    if ledger != [] {
      SourcesTally(ledger[1..], log);
      SummaryTallies(ItemControls(ledger[0].sourceId, ledger[0].items, log));
    }
  }

  /** The report's controls are those of its sources, one source after the other. */
  lemma {:induction false} ControlsOfConcat(a: seq<SourceReport>, b: seq<SourceReport>)
    ensures ReportControls(a + b) == ReportControls(a) + ReportControls(b)
    ensures |b| == 1 ==> ReportControls(b) == b[0].controls
  {
    if |b| == 1 { assert b[1..] == []; }
    if a == [] {
      assert a + b == b;
    } else {
      ControlsOfConcat(a[1..], b);
      Lists.TailOfConcat(a, b);
      Lists.Assoc(a[0].controls, ReportControls(a[1..]), ReportControls(b));
    }
  }

  lemma {:induction false} SelectSnoc(log: seq<Logged>, l: Logged, sourceId: string, itemId: string)
    ensures Select(log + [l], sourceId, itemId) == Select(log, sourceId, itemId)
      + (if l.sourceId == sourceId && l.itemId == itemId then [l.control] else [])
  {
    if log == [] {
      assert log + [l] == [l];
    } else {
      SelectSnoc(log[1..], l, sourceId, itemId);
      Lists.TailOfConcat(log, [l]);
    }
  }

  /** The dictionary of lists the builder fills mirrors the log. */
  ghost predicate Mirrors(grouped: map<(string, string), seq<ControlAssessment>>, log: seq<Logged>) {
    forall s, i :: (if (s, i) in grouped then grouped[(s, i)] else []) == Select(log, s, i)
  }

  method RecordControl(grouped: map<(string, string), seq<ControlAssessment>>, l: Logged, ghost log: seq<Logged>)
    returns (grouped': map<(string, string), seq<ControlAssessment>>)
    requires Mirrors(grouped, log)
    ensures Mirrors(grouped', log + [l])
  {
    var key := (l.sourceId, l.itemId);
    var known := if key in grouped then grouped[key] else [];
    grouped' := grouped[key := known + [l.control]];
    forall s, i ensures (if (s, i) in grouped' then grouped'[(s, i)] else []) == Select(log + [l], s, i) {
      SelectSnoc(log, l, s, i);
      assert (if (s, i) in grouped then grouped[(s, i)] else []) == Select(log, s, i);
    }
  }

  method AssessJob(j: Job, ledger: seq<Source>, grouped: map<(string, string), seq<ControlAssessment>>, ghost before: seq<Logged>)
    returns (error: Option<BuildError>, grouped': map<(string, string), seq<ControlAssessment>>, log: seq<Logged>)
    requires Mirrors(grouped, before)
    ensures error == if FindEntry(ledger, j.sourceId, j.control.itemId).None?
                     then Some(PolicyLedgerMismatch(j.sourceId, j.control.itemId)) else None
    ensures error.None? ==> AssessesAll(log, [j], ledger) && Mirrors(grouped', before + log)
  {
    var item := FindEntry(ledger, j.sourceId, j.control.itemId);
    if item.None? {
      return Some(PolicyLedgerMismatch(j.sourceId, j.control.itemId)), grouped, [];
    }
    var assessed, retained := AssessSingleControl(j.obs, j.targetId, j.sourceId, item.value, j.control);
    var l := Logged(j.sourceId, j.control.itemId, assessed, retained);
    assert Assessing(ledger)(l, j);
    grouped' := RecordControl(grouped, l, before);
    error, log := None, [l];
  }

  lemma AssessesConcat(a: seq<Logged>, b: seq<Logged>, x: seq<Job>, y: seq<Job>, ledger: seq<Source>)
    requires AssessesAll(a, x, ledger) && AssessesAll(b, y, ledger)
    ensures AssessesAll(a + b, x + y, ledger)
  {
    Lists.AllPairsConcat(a, b, x, y, Assessing(ledger));
  }

  /** Some job names an item the ledger does not have. */
  ghost predicate Unlisted(jobs: seq<Job>, ledger: seq<Source>) {
    exists j :: j in jobs && FindEntry(ledger, j.sourceId, j.control.itemId).None?
  }

  lemma AssessedAreListed(log: seq<Logged>, jobs: seq<Job>, ledger: seq<Source>)
    requires AssessesAll(log, jobs, ledger)
    ensures !Unlisted(jobs, ledger)
  {
    forall j | j in jobs ensures FindEntry(ledger, j.sourceId, j.control.itemId).Some? {
      var k :| 0 <= k < |jobs| && jobs[k] == j;
      assert Assessing(ledger)(log[k], jobs[k]);
    }
  }

  lemma UnlistedInConcat(a: seq<Job>, b: seq<Job>, ledger: seq<Source>)
    ensures Unlisted(a + b, ledger) <==> Unlisted(a, ledger) || Unlisted(b, ledger)
  {
    assert forall j :: j in a + b <==> j in a || j in b;
  }

  method AssessSource(result: TargetResult, source: ResolvedSource, ledger: seq<Source>,
                      grouped: map<(string, string), seq<ControlAssessment>>, ghost before: seq<Logged>)
    returns (error: Option<BuildError>, grouped': map<(string, string), seq<ControlAssessment>>, log: seq<Logged>)
    requires Mirrors(grouped, before)
    ensures error.None? ==> AssessesAll(log, SourceJobs(result, source), ledger) && Mirrors(grouped', before + log)
    ensures error.Some? <==> Unlisted(SourceJobs(result, source), ledger)
    ensures error.Some? ==> error.value.PolicyLedgerMismatch? && FindEntry(ledger, error.value.sourceId, error.value.itemId).None?
  {
    grouped', log, error := grouped, [], None;
    ghost var whole := before;
    var jobs := SourceJobs(result, source);
    for i := 0 to |jobs|
      invariant error.None?
      invariant AssessesAll(log, jobs[..i], ledger)
      invariant whole == before + log && Mirrors(grouped', whole)
    {
      var part;
      error, grouped', part := AssessJob(jobs[i], ledger, grouped', whole);
      if error.Some? {
        assert jobs[i] in jobs;
        return;
      }
      Lists.Assoc(before, log, part);
      AssessesConcat(log, part, jobs[..i], [jobs[i]], ledger);
      Lists.PrefixSnoc(jobs, i);
      whole, log := whole + part, log + part;
    }
    Lists.Whole(jobs);
    AssessedAreListed(log, jobs, ledger);
  }

  method AssessTarget(result: TargetResult, ledger: seq<Source>,
                      grouped: map<(string, string), seq<ControlAssessment>>, ghost before: seq<Logged>)
    returns (error: Option<BuildError>, grouped': map<(string, string), seq<ControlAssessment>>, log: seq<Logged>)
    requires Mirrors(grouped, before)
    ensures error.None? ==> AssessesAll(log, TargetJobs(result, result.policy.sources), ledger) && Mirrors(grouped', before + log)
    ensures error.Some? ==> error.value.PolicyLedgerMismatch? && FindEntry(ledger, error.value.sourceId, error.value.itemId).None?
    ensures error.Some? <==> Unlisted(TargetJobs(result, result.policy.sources), ledger)
  {
    grouped', log, error := grouped, [], None;
    ghost var whole := before;
    var sources := result.policy.sources;
    ghost var jobs: seq<Job> := [];
    for i := 0 to |sources|
      invariant jobs + TargetJobs(result, sources[i..]) == TargetJobs(result, sources)
      invariant AssessesAll(log, jobs, ledger)
      invariant whole == before + log && Mirrors(grouped', whole)
      invariant error.None?
    {
      Lists.DropHead(sources, i);
      Lists.Assoc(jobs, SourceJobs(result, sources[i]), TargetJobs(result, sources[i + 1..]));
      var part;
      error, grouped', part := AssessSource(result, sources[i], ledger, grouped', whole);
      if error.Some? {
        UnlistedInConcat(SourceJobs(result, sources[i]), TargetJobs(result, sources[i + 1..]), ledger);
        UnlistedInConcat(jobs, TargetJobs(result, sources[i..]), ledger);
        return;
      }
      Lists.Assoc(before, log, part);
      AssessesConcat(log, part, jobs, SourceJobs(result, sources[i]), ledger);
      whole := whole + part;
      jobs, log := jobs + SourceJobs(result, sources[i]), log + part;
    }
    AssessedAreListed(log, TargetJobs(result, sources), ledger);
  }

  method AddControl(controls: seq<ControlAssessment>, sourceId: string, items: seq<Item>, k: nat,
                    grouped: map<(string, string), seq<ControlAssessment>>, ghost log: seq<Logged>)
    returns (controls': seq<ControlAssessment>)
    requires k < |items| && Mirrors(grouped, log)
    ensures controls' + ItemControls(sourceId, items[k + 1..], log) == controls + ItemControls(sourceId, items[k..], log)
  {
    Lists.DropHead(items, k);
    var key := (sourceId, items[k].itemId);
    var found := if key in grouped then grouped[key] else [];
    assert found == Select(log, sourceId, items[k].itemId);
    if found == [] { return controls; }
    Lists.Assoc(controls, [Merge(found)], ItemControls(sourceId, items[k + 1..], log));
    controls' := controls + [Merge(found)];
  }

  method CollectControls(sourceId: string, items: seq<Item>, grouped: map<(string, string), seq<ControlAssessment>>,
                         ghost log: seq<Logged>) returns (controls: seq<ControlAssessment>)
    requires Mirrors(grouped, log)
    ensures controls == ItemControls(sourceId, items, log)
  {
    controls := [];
    ghost var rest := items;
    for k := 0 to |items|
      invariant rest == items[k..]
      invariant controls + ItemControls(sourceId, rest, log) == ItemControls(sourceId, items, log)
    {
      controls := AddControl(controls, sourceId, items, k, grouped, log);
      rest := items[k + 1..];
    }
    assert ItemControls(sourceId, rest, log) == [];
  }

  method CollectSources(ledger: seq<Source>, grouped: map<(string, string), seq<ControlAssessment>>, ghost log: seq<Logged>)
    returns (sources: seq<SourceReport>)
    requires Mirrors(grouped, log)
    ensures sources == SourceReports(ledger, log)
  {
    sources := [];
    for i := 0 to |ledger|
      invariant sources + SourceReports(ledger[i..], log) == SourceReports(ledger, log)
    {
      Lists.DropHead(ledger, i);
      var controls := CollectControls(ledger[i].sourceId, ledger[i].items, grouped, log);
      if controls != [] {
        var report := SourceReport(ledger[i].sourceId, controls, SummaryOf(Statuses(controls)));
        Lists.Assoc(sources, [report], SourceReports(ledger[i + 1..], log));
        sources := sources + [report];
      }
    }
  }

  /** The report is the grouping of the assessments of all jobs by ledger item, in ledger order; building fails
      exactly when the input checks found a fatal issue, there is nothing to assess, or a policy names an item the
      ledger does not have. */
  method BuildControlAssessment(fatal: bool, results: seq<TargetResult>, ledger: seq<Source>)
    returns (result: Result<Report, BuildError>, ghost log: seq<Logged>)
    ensures result.Ok? <==> !fatal && results != [] && !Unlisted(Jobs(results), ledger)
    ensures result == Err(FatalInput) <==> fatal
    ensures result == Err(NoResults) <==> !fatal && results == []
    ensures result.Err? && result.error.PolicyLedgerMismatch? ==>
      FindEntry(ledger, result.error.sourceId, result.error.itemId).None?
    ensures result.Ok? ==>
      && AssessesAll(log, Jobs(results), ledger)
      && result.value.sources == SourceReports(ledger, log)
      && result.value.summary == SummaryOf(Statuses(ReportControls(result.value.sources)))
      && Tallies(result.value.summary, ReportControls(result.value.sources))
      && (forall source :: source in result.value.sources ==> Tallies(source.summary, source.controls))
      && result.value.retained == AllRetained(log)
  {
    log := [];
    if fatal { return Err(FatalInput), log; }
    if results == [] { return Err(NoResults), log; }
    var grouped: map<(string, string), seq<ControlAssessment>>, retained: seq<Retained> := map[], [];
    ghost var jobs: seq<Job> := [];
    for i := 0 to |results|
      invariant jobs + Jobs(results[i..]) == Jobs(results)
      invariant AssessesAll(log, jobs, ledger)
      invariant Mirrors(grouped, log)
      invariant retained == AllRetained(log)
    {
      Lists.DropHead(results, i);
      ghost var mine := TargetJobs(results[i], results[i].policy.sources);
      Lists.Assoc(jobs, mine, Jobs(results[i + 1..]));
      var error, part;
      error, grouped, part := AssessTarget(results[i], ledger, grouped, log);
      if error.Some? {
        UnlistedInConcat(mine, Jobs(results[i + 1..]), ledger);
        UnlistedInConcat(jobs, Jobs(results[i..]), ledger);
        return Err(error.value), log;
      }
      AssessesConcat(log, part, jobs, mine, ledger);
      RetainedConcat(log, part);
      retained := retained + AllRetained(part);
      jobs, log := jobs + mine, log + part;
    }
    AssessedAreListed(log, Jobs(results), ledger);
    var sources := CollectSources(ledger, grouped, log);
    SummaryTallies(ReportControls(sources));
    SourcesTally(ledger, log);
    result := Ok(Report(sources, SummaryOf(Statuses(ReportControls(sources))), retained));
  }

  lemma {:induction false} RetainedConcat(a: seq<Logged>, b: seq<Logged>)
    ensures AllRetained(a + b) == AllRetained(a) + AllRetained(b)
  {
    if a == [] {
      assert a + b == b;
    } else {
      RetainedConcat(a[1..], b);
      Lists.TailOfConcat(a, b);
      Lists.Assoc(a[0].retained, AllRetained(a[1..]), AllRetained(b));
    }
  }
}
