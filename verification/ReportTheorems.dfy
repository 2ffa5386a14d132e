/** Conservation: the report neither loses nor invents evidence, and its summaries add up. */
module ReportTheorems {
  import opened Prelude
  import opened CoverageLedger
  import opened AuditPolicy
  import opened Assessment
  import opened AssessmentReport
  import Lists
  import Ord = Ordering

  ghost function Total(controls: seq<ControlAssessment>, f: ControlAssessment -> nat): nat {
    if controls == [] then 0 else f(controls[0]) + Total(controls[1..], f)
  }

  /** A quantity that merging sums up. */
  ghost predicate Additive(f: ControlAssessment -> nat) {
    forall cs :: cs != [] ==> f(Merge(cs)) == Total(cs, f)
  }

  lemma {:induction false} TotalConcat(a: seq<ControlAssessment>, b: seq<ControlAssessment>, f: ControlAssessment -> nat)
    ensures Total(a + b, f) == Total(a, f) + Total(b, f)
  {
    if a == [] {
      assert a + b == b;
    } else {
      TotalConcat(a[1..], b, f);
      Lists.TailOfConcat(a, b);
    }
  }

  /** The items of the ledger as keys, in order. */
  ghost function ItemKeys(sourceId: string, items: seq<Item>): seq<(string, string)> {
    if items == [] then [] else [(sourceId, items[0].itemId)] + ItemKeys(sourceId, items[1..])
  }

  ghost function LedgerKeys(ledger: seq<Source>): seq<(string, string)> {
    if ledger == [] then [] else ItemKeys(ledger[0].sourceId, ledger[0].items) + LedgerKeys(ledger[1..])
  }

  ghost function KeyTotal(keys: seq<(string, string)>, log: seq<Logged>, f: ControlAssessment -> nat): nat {
    if keys == [] then 0 else Total(Select(log, keys[0].0, keys[0].1), f) + KeyTotal(keys[1..], log, f)
  }

  lemma {:induction false} KeyTotalConcat(a: seq<(string, string)>, b: seq<(string, string)>, log: seq<Logged>, f: ControlAssessment -> nat)
    ensures KeyTotal(a + b, log, f) == KeyTotal(a, log, f) + KeyTotal(b, log, f)
  {
    if a == [] {
      assert a + b == b;
    } else {
      KeyTotalConcat(a[1..], b, log, f);
      Lists.TailOfConcat(a, b);
    }
  }

  ghost predicate KeysDistinct(keys: seq<(string, string)>) {
    forall i, j :: 0 <= i < j < |keys| ==> keys[i] != keys[j]
  }

  /** One entry counts under exactly one key. */
  lemma {:induction false} KeyTotalOfEntry(keys: seq<(string, string)>, log: seq<Logged>, f: ControlAssessment -> nat)
    requires KeysDistinct(keys) && log != []
    ensures KeyTotal(keys, log, f) == KeyTotal(keys, log[1..], f)
      + (if (log[0].sourceId, log[0].itemId) in keys then f(log[0].control) else 0)
  {
    if keys != [] {
      var k := (log[0].sourceId, log[0].itemId);
      KeyTotalOfEntry(keys[1..], log, f);
      Lists.HeadTail(keys);
      var found := Select(log[1..], keys[0].0, keys[0].1);
      if keys[0] == k {
        assert Select(log, k.0, k.1) == [log[0].control] + found;
        assert k !in keys[1..];
      } else {
        assert Select(log, keys[0].0, keys[0].1) == found;
        assert k in keys <==> k in keys[1..];
      }
    }
  }

  lemma {:induction false} KeysCoverLog(keys: seq<(string, string)>, log: seq<Logged>, f: ControlAssessment -> nat)
    requires KeysDistinct(keys)
    requires forall i :: 0 <= i < |log| ==> (log[i].sourceId, log[i].itemId) in keys
    ensures KeyTotal(keys, log, f) == Total(Controls(log), f)
  {
    if log == [] {
      NothingLogged(keys, f);
    } else {
      KeyTotalOfEntry(keys, log, f);
      assert forall i :: 0 <= i < |log[1..]| ==> log[1..][i] == log[i + 1];
      KeysCoverLog(keys, log[1..], f);
      TotalOfHead(log, f);
    }
  }

  lemma TotalOfHead(log: seq<Logged>, f: ControlAssessment -> nat)
    requires log != []
    ensures Total(Controls(log), f) == f(log[0].control) + Total(Controls(log[1..]), f)
  {
    assert Controls(log)[0] == log[0].control && Controls(log)[1..] == Controls(log[1..]);
  }

  lemma {:induction false} NothingLogged(keys: seq<(string, string)>, f: ControlAssessment -> nat)
    ensures KeyTotal(keys, [], f) == 0
  {
    if keys != [] { NothingLogged(keys[1..], f); }
  }

  lemma {:induction false} ItemsTotal(sourceId: string, items: seq<Item>, log: seq<Logged>, f: ControlAssessment -> nat)
    requires Additive(f)
    ensures Total(ItemControls(sourceId, items, log), f) == KeyTotal(ItemKeys(sourceId, items), log, f)
  {
    if items != [] {
      var found, rest := Select(log, sourceId, items[0].itemId), ItemControls(sourceId, items[1..], log);
      ItemsTotal(sourceId, items[1..], log, f);
      Lists.TailOfConcat([(sourceId, items[0].itemId)], ItemKeys(sourceId, items[1..]));
      if found != [] {
        Lists.TailOfConcat([Merge(found)], rest);
        assert f(Merge(found)) == Total(found, f);
      }
    }
  }

  lemma {:induction false} ReportTotal(ledger: seq<Source>, log: seq<Logged>, f: ControlAssessment -> nat)
    requires Additive(f)
    ensures Total(ReportControls(SourceReports(ledger, log)), f) == KeyTotal(LedgerKeys(ledger), log, f)
  {
    if ledger != [] {
      var controls := ItemControls(ledger[0].sourceId, ledger[0].items, log);
      var rest := SourceReports(ledger[1..], log);
      ReportTotal(ledger[1..], log, f);
      ItemsTotal(ledger[0].sourceId, ledger[0].items, log, f);
      KeyTotalConcat(ItemKeys(ledger[0].sourceId, ledger[0].items), LedgerKeys(ledger[1..]), log, f);
      if controls != [] {
        var report := SourceReport(ledger[0].sourceId, controls, SummaryOf(Statuses(controls)));
        Lists.TailOfConcat([report], rest);
        TotalConcat(controls, ReportControls(rest), f);
      }
    }
  }

  // ---------------------------------------------------------------- the ledger's keys

  lemma {:induction false} ItemKeysAreIds(sourceId: string, items: seq<Item>)
    ensures |ItemKeys(sourceId, items)| == |ItemIds(items)|
    ensures forall i :: 0 <= i < |ItemKeys(sourceId, items)| ==> ItemKeys(sourceId, items)[i] == (sourceId, ItemIds(items)[i])
  {
    if items != [] { ItemKeysAreIds(sourceId, items[1..]); }
  }

  lemma {:induction false} LedgerKeysAreIds(ledger: seq<Source>)
    ensures |LedgerKeys(ledger)| == |AllItemIds(ledger)|
    ensures forall i :: 0 <= i < |LedgerKeys(ledger)| ==> LedgerKeys(ledger)[i].1 == AllItemIds(ledger)[i]
  {
    if ledger != [] {
      LedgerKeysAreIds(ledger[1..]);
      ItemKeysAreIds(ledger[0].sourceId, ledger[0].items);
    }
  }

  lemma {:induction false} FoundItemIsKeyed(sourceId: string, items: seq<Item>, itemId: string)
    requires FindItem(items, itemId).Some?
    ensures (sourceId, itemId) in ItemKeys(sourceId, items)
  {
    if FindItem(items[1..], itemId).Some? { FoundItemIsKeyed(sourceId, items[1..], itemId); }
  }

  lemma {:induction false} FoundEntryIsKeyed(ledger: seq<Source>, sourceId: string, itemId: string)
    requires FindEntry(ledger, sourceId, itemId).Some?
    ensures (sourceId, itemId) in LedgerKeys(ledger)
  {
    if FindEntry(ledger[1..], sourceId, itemId).Some? {
      FoundEntryIsKeyed(ledger[1..], sourceId, itemId);
    } else {
      FoundItemIsKeyed(sourceId, ledger[0].items, itemId);
    }
  }

  lemma ReportKeepsTotal(ledger: seq<Source>, log: seq<Logged>, jobs: seq<Job>, f: ControlAssessment -> nat)
    requires IdsUnique(ledger) && AssessesAll(log, jobs, ledger) && Additive(f)
    ensures Total(ReportControls(SourceReports(ledger, log)), f) == Total(Controls(log), f)
  {
    var keys := LedgerKeys(ledger);
    LedgerKeysAreIds(ledger);
    forall i, j | 0 <= i < j < |keys| ensures keys[i] != keys[j] {
      assert AllItemIds(ledger)[i] != AllItemIds(ledger)[j];
    }
    forall i | 0 <= i < |log| ensures (log[i].sourceId, log[i].itemId) in keys {
      assert Assesses(log[i], jobs[i], ledger);
      FoundEntryIsKeyed(ledger, log[i].sourceId, log[i].itemId);
    }
    KeysCoverLog(keys, log, f);
    ReportTotal(ledger, log, f);
  }

  // ---------------------------------------------------------------- what is conserved

  ghost function EvidenceCount(x: AssessmentEvidence): ControlAssessment -> nat {
    (c: ControlAssessment) => Lists.Count(c.evidence, x)
  }

  ghost function AnalyzerCount(x: AnalyzerEvidence): ControlAssessment -> nat {
    (c: ControlAssessment) => Lists.Count(c.analyzerEvidence, x)
  }

  ghost function MissingCount(x: MissingEvidence): ControlAssessment -> nat {
    (c: ControlAssessment) => Lists.Count(c.missing, x)
  }

  lemma {:induction false} CountsAreTotals(cs: seq<ControlAssessment>, e: AssessmentEvidence, a: AnalyzerEvidence, m: MissingEvidence)
    ensures Lists.Count(AllEvidence(cs), e) == Total(cs, EvidenceCount(e))
    ensures Lists.Count(AllAnalyzerEvidence(cs), a) == Total(cs, AnalyzerCount(a))
    ensures Lists.Count(AllMissing(cs), m) == Total(cs, MissingCount(m))
  {
    if cs != [] {
      CountsAreTotals(cs[1..], e, a, m);
      Lists.CountOfConcat(cs[0].evidence, AllEvidence(cs[1..]), e);
      Lists.CountOfConcat(cs[0].analyzerEvidence, AllAnalyzerEvidence(cs[1..]), a);
      Lists.CountOfConcat(cs[0].missing, AllMissing(cs[1..]), m);
    }
  }

  lemma CountsAreAdditive(e: AssessmentEvidence, a: AnalyzerEvidence, m: MissingEvidence)
    ensures Additive(EvidenceCount(e)) && Additive(AnalyzerCount(a)) && Additive(MissingCount(m))
  {
    forall cs | cs != []
      ensures EvidenceCount(e)(Merge(cs)) == Total(cs, EvidenceCount(e))
      ensures AnalyzerCount(a)(Merge(cs)) == Total(cs, AnalyzerCount(a))
      ensures MissingCount(m)(Merge(cs)) == Total(cs, MissingCount(m))
    {
      CountsAreTotals(cs, e, a, m);
      MergeIsPermutation(cs);
    }
  }

  lemma MergeIsPermutation(cs: seq<ControlAssessment>)
    requires cs != []
    ensures multiset(Merge(cs).evidence) == multiset(AllEvidence(cs))
    ensures multiset(Merge(cs).analyzerEvidence) == multiset(AllAnalyzerEvidence(cs))
    ensures multiset(Merge(cs).missing) == multiset(AllMissing(cs))
  {
    if |cs| == 1 {
      assert cs[1..] == [];
      assert AllEvidence(cs) == cs[0].evidence + [] == cs[0].evidence;
      assert AllAnalyzerEvidence(cs) == cs[0].analyzerEvidence + [] == cs[0].analyzerEvidence;
      assert AllMissing(cs) == cs[0].missing + [] == cs[0].missing;
    } else {
      Ord.SortByKeeps(AllEvidence(cs), EvidenceKey);
      Ord.SortByKeeps(AllAnalyzerEvidence(cs), NativeKey);
      Ord.SortByKeeps(AllMissing(cs), MissingKey);
    }
  }

  lemma ReportKeepsCounts(ledger: seq<Source>, log: seq<Logged>, jobs: seq<Job>, e: AssessmentEvidence, a: AnalyzerEvidence, m: MissingEvidence)
    requires IdsUnique(ledger) && AssessesAll(log, jobs, ledger)
    ensures var reported := ReportControls(SourceReports(ledger, log));
      && Lists.Count(AllEvidence(reported), e) == Lists.Count(AllEvidence(Controls(log)), e)
      && Lists.Count(AllAnalyzerEvidence(reported), a) == Lists.Count(AllAnalyzerEvidence(Controls(log)), a)
      && Lists.Count(AllMissing(reported), m) == Lists.Count(AllMissing(Controls(log)), m)
  {
    CountsAreAdditive(e, a, m);
    CountsAreTotals(ReportControls(SourceReports(ledger, log)), e, a, m);
    CountsAreTotals(Controls(log), e, a, m);
    ReportKeepsTotal(ledger, log, jobs, EvidenceCount(e));
    ReportKeepsTotal(ledger, log, jobs, AnalyzerCount(a));
    ReportKeepsTotal(ledger, log, jobs, MissingCount(m));
  }

  /** Every piece of evidence, analyzer evidence and missing evidence of every single assessment is in the report
      exactly as often as it was produced. */
  lemma ReportConservesEvidence(ledger: seq<Source>, log: seq<Logged>, jobs: seq<Job>)
    requires IdsUnique(ledger) && AssessesAll(log, jobs, ledger)
    ensures var reported := ReportControls(SourceReports(ledger, log));
      && multiset(AllEvidence(reported)) == multiset(AllEvidence(Controls(log)))
      && multiset(AllAnalyzerEvidence(reported)) == multiset(AllAnalyzerEvidence(Controls(log)))
      && multiset(AllMissing(reported)) == multiset(AllMissing(Controls(log)))
  {
    var reported, made := ReportControls(SourceReports(ledger, log)), Controls(log);
    var e0: AssessmentEvidence, a0: AnalyzerEvidence, m0: MissingEvidence :| true;
    forall e ensures Lists.Count(AllEvidence(reported), e) == Lists.Count(AllEvidence(made), e) {
      ReportKeepsCounts(ledger, log, jobs, e, a0, m0);
    }
    forall a ensures Lists.Count(AllAnalyzerEvidence(reported), a) == Lists.Count(AllAnalyzerEvidence(made), a) {
      ReportKeepsCounts(ledger, log, jobs, e0, a, m0);
    }
    forall m ensures Lists.Count(AllMissing(reported), m) == Lists.Count(AllMissing(made), m) {
      ReportKeepsCounts(ledger, log, jobs, e0, a0, m);
    }
    Lists.SameCounts(AllEvidence(reported), AllEvidence(made));
    Lists.SameCounts(AllAnalyzerEvidence(reported), AllAnalyzerEvidence(made));
    Lists.SameCounts(AllMissing(reported), AllMissing(made));
  }

  /** Without unique ids it fails: an item listed twice reports its evidence twice. */
  lemma DuplicateItemsDuplicateEvidence(item: Item, log: seq<Logged>)
    requires Select(log, "s", item.itemId) != []
    ensures var reported := ReportControls(SourceReports([Source("s", [item, item])], log));
      reported == [Merge(Select(log, "s", item.itemId)), Merge(Select(log, "s", item.itemId))]
  {
    var c := Merge(Select(log, "s", item.itemId));
    assert [item, item][1..] == [item] && [item][1..] == [];
    assert ItemControls("s", [item], log) == [c];
    assert ItemControls("s", [item, item], log) == [c] + [c];
    var ledger := [Source("s", [item, item])];
    assert ledger[1..] == [];
    assert SourceReports(ledger, log)[1..] == [];
  }

  // ---------------------------------------------------------------- summaries

  ghost function SummedUp(sources: seq<SourceReport>): Summary {
    if sources == [] then SummaryOf([]) else Add(sources[0].summary, SummedUp(sources[1..]))
  }

  lemma {:induction false} ReportedSummaries(ledger: seq<Source>, log: seq<Logged>)
    ensures forall s :: s in SourceReports(ledger, log) ==>
      s.controls != [] && s.summary == SummaryOf(Statuses(s.controls)) && TotalsValid(s.summary)
  {
    if ledger != [] {
      ReportedSummaries(ledger[1..], log);
      SummaryTotalsAreValid(Statuses(ItemControls(ledger[0].sourceId, ledger[0].items, log)));
    }
  }

  lemma StatusesConcat(a: seq<ControlAssessment>, b: seq<ControlAssessment>)
    ensures Statuses(a + b) == Statuses(a) + Statuses(b)
  {
  }

  /** The source summaries add up to the report summary. */
  lemma {:induction false} SummariesAddUp(sources: seq<SourceReport>)
    requires forall i :: 0 <= i < |sources| ==> sources[i].summary == SummaryOf(Statuses(sources[i].controls))
    ensures SummedUp(sources) == SummaryOf(Statuses(ReportControls(sources)))
  {
    if sources != [] {
      var rest := ReportControls(sources[1..]);
      SummariesAddUp(sources[1..]);
      SummaryAdds(Statuses(sources[0].controls), Statuses(rest));
      StatusesConcat(sources[0].controls, rest);
    }
  }

  // ---------------------------------------------------------------- which jobs, which items

  /** Every control of every source of every target's policy is one job. */
  ghost predicate IsJob(j: Job, results: seq<TargetResult>) {
    exists t, s, c :: t in results && s in t.policy.sources && c in s.controls && j == Job(t.targetId, t.obs, s.sourceId, c)
  }

  lemma SourceJobMembers(t: TargetResult, source: ResolvedSource, j: Job)
    ensures j in SourceJobs(t, source) <==> exists c :: c in source.controls && j == Job(t.targetId, t.obs, source.sourceId, c)
  {
    if c :| c in source.controls && j == Job(t.targetId, t.obs, source.sourceId, c) {
      var i :| 0 <= i < |source.controls| && source.controls[i] == c;
      assert SourceJobs(t, source)[i] == j;
    }
  }

  lemma {:induction false} TargetJobMembers(t: TargetResult, sources: seq<ResolvedSource>, j: Job)
    ensures j in TargetJobs(t, sources) <==>
      exists s, c :: s in sources && c in s.controls && j == Job(t.targetId, t.obs, s.sourceId, c)
  {
    if sources != [] {
      assert sources == [sources[0]] + sources[1..];
      TargetJobMembers(t, sources[1..], j);
      SourceJobMembers(t, sources[0], j);
    }
  }

  lemma {:induction false} JobsExactly(results: seq<TargetResult>, j: Job)
    ensures j in Jobs(results) <==> IsJob(j, results)
  {
    if results != [] {
      assert results == [results[0]] + results[1..];
      JobsExactly(results[1..], j);
      TargetJobMembers(results[0], results[0].policy.sources, j);
      if IsJob(j, results[1..]) {
        var t, s, c :| t in results[1..] && s in t.policy.sources && c in s.controls && j == Job(t.targetId, t.obs, s.sourceId, c);
        assert t in results;
      }
    }
  }

  /** Item b of source a carries these ids. */
  ghost predicate At(ledger: seq<Source>, sourceId: string, itemId: string, a: int, b: int) {
    && 0 <= a < |ledger| && ledger[a].sourceId == sourceId
    && 0 <= b < |ledger[a].items| && ledger[a].items[b].itemId == itemId
  }

  lemma {:induction false} FindItemIsLast(items: seq<Item>, itemId: string)
    ensures FindItem(items, itemId).None? ==> forall b :: 0 <= b < |items| ==> items[b].itemId != itemId
    ensures FindItem(items, itemId).Some? ==>
      exists b :: 0 <= b < |items| && items[b] == FindItem(items, itemId).value && items[b].itemId == itemId
        && forall k :: b < k < |items| ==> items[k].itemId != itemId
  {
    if items != [] {
      var rest := items[1..];
      FindItemIsLast(rest, itemId);
      assert forall b :: 0 < b < |items| ==> items[b] == rest[b - 1];
      if FindItem(rest, itemId).Some? {
        var b :| 0 <= b < |rest| && rest[b] == FindItem(rest, itemId).value && rest[b].itemId == itemId
          && forall k :: b < k < |rest| ==> rest[k].itemId != itemId;
        assert items[b + 1] == FindItem(items, itemId).value;
      }
    }
  }

  /** The last item with these ids. */
  ghost predicate LastAt(ledger: seq<Source>, sourceId: string, itemId: string, a: int, b: int) {
    && At(ledger, sourceId, itemId, a, b)
    && forall i, k :: At(ledger, sourceId, itemId, i, k) ==> i < a || (i == a && k <= b)
  }

  lemma AtShifts(ledger: seq<Source>, sourceId: string, itemId: string, a: int, b: int)
    requires ledger != [] && a > 0
    ensures At(ledger, sourceId, itemId, a, b) <==> At(ledger[1..], sourceId, itemId, a - 1, b)
  {
    if 0 < a < |ledger| { assert ledger[1..][a - 1] == ledger[a]; }
  }

  /** A policy's control is assessed against the last ledger item with its source and item id. */
  lemma {:induction false} EntryIsLast(ledger: seq<Source>, sourceId: string, itemId: string)
    ensures FindEntry(ledger, sourceId, itemId).None? ==> forall a, b :: !At(ledger, sourceId, itemId, a, b)
    ensures FindEntry(ledger, sourceId, itemId).Some? ==>
      exists a, b :: LastAt(ledger, sourceId, itemId, a, b) && ledger[a].items[b] == FindEntry(ledger, sourceId, itemId).value
  {
    if ledger != [] {
      var rest := ledger[1..];
      EntryIsLast(rest, sourceId, itemId);
      forall a, b | a > 0 ensures At(ledger, sourceId, itemId, a, b) <==> At(rest, sourceId, itemId, a - 1, b) {
        AtShifts(ledger, sourceId, itemId, a, b);
      }
      if FindEntry(rest, sourceId, itemId).Some? {
        var a, b :| LastAt(rest, sourceId, itemId, a, b) && rest[a].items[b] == FindEntry(rest, sourceId, itemId).value;
        assert LastAt(ledger, sourceId, itemId, a + 1, b);
        assert ledger[a + 1].items[b] == FindEntry(ledger, sourceId, itemId).value;
      } else {
        FindItemIsLast(ledger[0].items, itemId);
        if ledger[0].sourceId == sourceId && FindItem(ledger[0].items, itemId).Some? {
          var b :| 0 <= b < |ledger[0].items| && ledger[0].items[b] == FindItem(ledger[0].items, itemId).value
            && ledger[0].items[b].itemId == itemId && forall k :: b < k < |ledger[0].items| ==> ledger[0].items[k].itemId != itemId;
          assert LastAt(ledger, sourceId, itemId, 0, b);
        }
      }
    }
  }

  // ---------------------------------------------------------------- which controls are reported, and as what

  ghost predicate Logs(log: seq<Logged>, sourceId: string, itemId: string, c: ControlAssessment) {
    exists l :: l in log && l.sourceId == sourceId && l.itemId == itemId && l.control == c
  }

  lemma {:induction false} SelectedExactly(log: seq<Logged>, sourceId: string, itemId: string, c: ControlAssessment)
    ensures c in Select(log, sourceId, itemId) <==> Logs(log, sourceId, itemId, c)
  {
    if log != [] {
      assert log == [log[0]] + log[1..];
      SelectedExactly(log[1..], sourceId, itemId, c);
    }
  }

  /** Some assessment of the item got this status. */
  ghost predicate Assessed(log: seq<Logged>, sourceId: string, itemId: string, status: Status) {
    exists l :: l in log && l.sourceId == sourceId && l.itemId == itemId && l.control.status == status
  }

  /** The worst status among the assessments of the item. */
  ghost predicate ReportedAs(status: Status, log: seq<Logged>, sourceId: string, itemId: string) {
    status ==
      if Assessed(log, sourceId, itemId, Fail) then Fail
      else if Assessed(log, sourceId, itemId, Indeterminate) then Indeterminate
      else if Assessed(log, sourceId, itemId, NeedsReview) then NeedsReview
      else if Assessed(log, sourceId, itemId, PartialStatus) then PartialStatus
      else if Assessed(log, sourceId, itemId, Pass) then Pass
      else if Assessed(log, sourceId, itemId, NotAssessed) then NotAssessed
      else OutOfScope
  }

  lemma SelectedStatuses(log: seq<Logged>, sourceId: string, itemId: string)
    requires Select(log, sourceId, itemId) != []
    ensures ReportedAs(Merge(Select(log, sourceId, itemId)).status, log, sourceId, itemId)
  {
    var found := Select(log, sourceId, itemId);
    forall status ensures SomeTarget(found, status) <==> Assessed(log, sourceId, itemId, status) {
      forall c ensures c in found <==> Logs(log, sourceId, itemId, c) { SelectedExactly(log, sourceId, itemId, c); }
      if l :| l in log && l.sourceId == sourceId && l.itemId == itemId && l.control.status == status {
        assert Logs(log, sourceId, itemId, l.control);
      }
    }
    MergedStatusExactly(found);
  }

  /** One step through the items of a source: the item is reported exactly when an assessment of it was made, in
      ledger order, and as the worst of them. */
  lemma ReportedInOrder(sourceId: string, items: seq<Item>, item: Item, log: seq<Logged>)
    ensures var added := Select(log, sourceId, item.itemId);
            && ItemControls(sourceId, items + [item], log)
               == ItemControls(sourceId, items, log) + (if added == [] then [] else [Merge(added)])
            && (added != [] <==> exists l :: l in log && l.sourceId == sourceId && l.itemId == item.itemId)
            && (added != [] ==> ReportedAs(Merge(added).status, log, sourceId, item.itemId))
  {
    var added := Select(log, sourceId, item.itemId);
    ItemControlsSnoc(sourceId, items, item, log);
    if added != [] {
      SelectedStatuses(log, sourceId, item.itemId);
      SelectedExactly(log, sourceId, item.itemId, added[0]);
    }
    if l :| l in log && l.sourceId == sourceId && l.itemId == item.itemId {
      SelectedExactly(log, sourceId, item.itemId, l.control);
    }
  }

  lemma {:induction false} ItemControlsSnoc(sourceId: string, items: seq<Item>, item: Item, log: seq<Logged>)
    ensures var added := Select(log, sourceId, item.itemId);
            ItemControls(sourceId, items + [item], log)
            == ItemControls(sourceId, items, log) + (if added == [] then [] else [Merge(added)])
  {
    if items == [] {
      assert items + [item] == [item] && [item][1..] == [];
    } else {
      Lists.TailOfConcat(items, [item]);
      ItemControlsSnoc(sourceId, items[1..], item, log);
    }
  }

  /** One step through the ledger: a source is reported exactly when one of its items is. */
  lemma {:induction false} SourcesInOrder(ledger: seq<Source>, source: Source, log: seq<Logged>)
    ensures var controls := ItemControls(source.sourceId, source.items, log);
            SourceReports(ledger + [source], log)
            == SourceReports(ledger, log)
               + (if controls == [] then [] else [SourceReport(source.sourceId, controls, SummaryOf(Statuses(controls)))])
  {
    if ledger == [] {
      assert ledger + [source] == [source] && [source][1..] == [];
    } else {
      Lists.TailOfConcat(ledger, [source]);
      SourcesInOrder(ledger[1..], source, log);
    }
  }

  /** A merged control is that of its first target but for status, evidence, missing evidence and issues. */
  lemma MergedFields(controls: seq<ControlAssessment>)
    requires controls != []
    ensures var m := Merge(controls);
            && m.sourceId == controls[0].sourceId && m.itemId == controls[0].itemId
            && m.ledgerStatus == controls[0].ledgerStatus && m.disposition == controls[0].disposition
            && forall issue :: issue in m.issues <==> exists c :: c in controls && issue in c.issues
  {
    MergeIssues(controls);
  }

  /** Merged lists are sorted: evidence by target, rule and state, analyzer evidence by control, target and status,
      missing evidence by rule and reason. */
  lemma MergedIsSorted(controls: seq<ControlAssessment>, i: nat, j: nat)
    requires |controls| > 1 && i < j
    ensures var m := Merge(controls);
      && (j < |m.evidence| ==>
            var a, b := m.evidence[j], m.evidence[i];
            !(Ord.Less(a.targetId, b.targetId)
              || (a.targetId == b.targetId && (Ord.Less(a.ruleId, b.ruleId)
                  || (a.ruleId == b.ruleId && Ord.Less(a.state, b.state))))))
      && (j < |m.analyzerEvidence| ==>
            var a, b := m.analyzerEvidence[j], m.analyzerEvidence[i];
            !(Ord.Less(a.controlId, b.controlId)
              || (a.controlId == b.controlId && (Ord.Less(a.targetId, b.targetId)
                  || (a.targetId == b.targetId && Ord.Less(NativeText(a.status), NativeText(b.status)))))))
      && (j < |m.missing| ==>
            var a, b := m.missing[j], m.missing[i];
            !(Ord.Less(RuleOf(a), RuleOf(b)) || (RuleOf(a) == RuleOf(b) && Ord.Less(ReasonText(a.reason), ReasonText(b.reason)))))
  {
    var m := Merge(controls);
    Ord.SortByKeeps(AllEvidence(controls), EvidenceKey);
    Ord.SortByKeeps(AllAnalyzerEvidence(controls), NativeKey);
    Ord.SortByKeeps(AllMissing(controls), MissingKey);
    if j < |m.evidence| {
      var a, b := m.evidence[j], m.evidence[i];
      assert !Ord.KeyLess(EvidenceKey(a), EvidenceKey(b));
      Ord.KeyLessOfThree(a.targetId, a.ruleId, a.state, b.targetId, b.ruleId, b.state);
    }
    if j < |m.analyzerEvidence| {
      var a, b := m.analyzerEvidence[j], m.analyzerEvidence[i];
      assert !Ord.KeyLess(NativeKey(a), NativeKey(b));
      Ord.KeyLessOfThree(a.controlId, a.targetId, NativeText(a.status), b.controlId, b.targetId, NativeText(b.status));
    }
    if j < |m.missing| {
      var a, b := m.missing[j], m.missing[i];
      assert !Ord.KeyLess(MissingKey(a), MissingKey(b));
      Ord.KeyLessOfTwo(RuleOf(a), ReasonText(a.reason), RuleOf(b), ReasonText(b.reason));
    }
  }

  function RuleOf(m: MissingEvidence): string {
    if m.ruleId.Some? then m.ruleId.value else ""
  }
}
