/** Comparing a report with a baseline by fingerprint. */
module Baselines {
  import opened Prelude
  import Lists

  /** A display entry and its lower-case fingerprint key, if it has one. */
  datatype Entry = Entry(key: Option<string>, text: string)

  datatype Diff = Diff(newFindings: seq<Entry>, still: seq<Entry>, resolved: seq<Entry>, suppressed: seq<Entry>)

  predicate Keyed(entries: seq<Entry>, key: string) {
    exists e :: e in entries && e.key == Some(key)
  }

  /** Baseline entry i is the last with this key. */
  ghost predicate LastKeyed(entries: seq<Entry>, key: string, i: int) {
    0 <= i < |entries| && entries[i].key == Some(key) && forall j :: i < j < |entries| ==> entries[j].key != Some(key)
  }

  /** This is the last entry with this key. */
  ghost predicate LastIs(entries: seq<Entry>, key: string, e: Entry) {
    exists i :: LastKeyed(entries, key, i) && entries[i] == e
  }

  lemma LastStays(entries: seq<Entry>, e: Entry, key: string, last: Entry)
    requires e.key != Some(key) && LastIs(entries, key, last)
    ensures LastIs(entries + [e], key, last)
  {
    var i :| LastKeyed(entries, key, i) && entries[i] == last;
    assert LastKeyed(entries + [e], key, i) && (entries + [e])[i] == last;
  }

  lemma NewIsLast(entries: seq<Entry>, e: Entry)
    requires e.key.Some?
    ensures LastIs(entries + [e], e.key.value, e)
  {
    assert LastKeyed(entries + [e], e.key.value, |entries|) && (entries + [e])[|entries|] == e;
  }

  /** The keys in the order in which they first occur. */
  function KeysInOrder(entries: seq<Entry>): seq<string> {
    if entries == [] then []
    else
      var n := |entries| - 1;
      var before := KeysInOrder(entries[..n]);
      if entries[n].key.Some? && entries[n].key.value !in before then before + [entries[n].key.value] else before
  }

  /** The dictionary has every key that occurs, with its last entry. */
  ghost predicate Tabulates(byKey: map<string, Entry>, entries: seq<Entry>) {
    && (forall k :: k in byKey <==> Keyed(entries, k))
    && (forall k :: k in byKey ==> LastIs(entries, k, byKey[k]))
  }

  lemma TabulatesNext(byKey: map<string, Entry>, entries: seq<Entry>, e: Entry)
    requires Tabulates(byKey, entries)
    ensures Tabulates(if e.key.Some? then byKey[e.key.value := e] else byKey, entries + [e])
  {
    KeyedOfConcat(entries, e);
    forall k | k in byKey && e.key != Some(k) ensures LastIs(entries + [e], k, byKey[k]) { LastStays(entries, e, k, byKey[k]); }
    if e.key.Some? { NewIsLast(entries, e); }
  }

  /** Keys in the order they first appear, each with its last entry. */
  method EntriesByFingerprint(entries: seq<Entry>) returns (byKey: map<string, Entry>, order: seq<string>)
    ensures Tabulates(byKey, entries)
    ensures order == KeysInOrder(entries) && forall k :: k in order <==> k in byKey
  {
    byKey, order := map[], [];
    for i := 0 to |entries|
      invariant Tabulates(byKey, entries[..i])
      invariant order == KeysInOrder(entries[..i]) && forall k :: k in order <==> k in byKey
    {
      var e := entries[i];
      Lists.PrefixSnoc(entries, i);
      Lists.PrefixOfPrefix(entries, i);
      TabulatesNext(byKey, entries[..i], e);
      if e.key.Some? {
        if e.key.value !in byKey { order := order + [e.key.value]; }
        byKey := byKey[e.key.value := e];
      }
    }
    Lists.Whole(entries);
  }

  predicate Known(e: Entry, baseline: seq<Entry>) {
    e.key.Some? && Keyed(baseline, e.key.value)
  }

  function Split(entries: seq<Entry>, baseline: seq<Entry>, known: bool): seq<Entry> {
    if entries == [] then []
    else
      var n := |entries| - 1;
      var before := Split(entries[..n], baseline, known);
      if Known(entries[n], baseline) == known then before + [entries[n]] else before
  }

  /** The loops over the current entries: new ones and unchanged ones, in order. */
  method SplitCurrent(current: seq<Entry>, base: map<string, Entry>, ghost baseline: seq<Entry>)
    returns (added: seq<Entry>, still: seq<Entry>)
    requires forall k :: k in base <==> Keyed(baseline, k)
    ensures added == Split(current, baseline, false) && still == Split(current, baseline, true)
  {
    added, still := [], [];
    for i := 0 to |current|
      invariant added == Split(current[..i], baseline, false) && still == Split(current[..i], baseline, true)
    {
      Lists.PrefixOfPrefix(current, i);
      if current[i].key.Some? && current[i].key.value in base { still := still + [current[i]]; }
      else { added := added + [current[i]]; }
    }
    Lists.Whole(current);
  }

  lemma KeyedOfConcat(entries: seq<Entry>, e: Entry)
    ensures forall k :: Keyed(entries + [e], k) <==> Keyed(entries, k) || e.key == Some(k)
  {
    assert forall x :: x in entries + [e] <==> x in entries || x == e;
  }

  /** The keys that are neither current nor suppressed, in order. */
  function Gone(keys: seq<string>, current: seq<Entry>, suppressed: seq<Entry>): seq<string> {
    if keys == [] then []
    else
      var n := |keys| - 1;
      var before := Gone(keys[..n], current, suppressed);
      if Keyed(current, keys[n]) || Keyed(suppressed, keys[n]) then before else before + [keys[n]]
  }

  function KeysOf(entries: seq<Entry>): seq<Option<string>> {
    seq(|entries|, i requires 0 <= i < |entries| => entries[i].key)
  }

  function Present(keys: seq<string>): seq<Option<string>> {
    seq(|keys|, i requires 0 <= i < |keys| => Some(keys[i]))
  }

  lemma GoneMembers(keys: seq<string>, current: seq<Entry>, suppressed: seq<Entry>)
    ensures forall k :: k in Gone(keys, current, suppressed) <==> k in keys && !Keyed(current, k) && !Keyed(suppressed, k)
  {
    if keys != [] {
      var n := |keys| - 1;
      GoneMembers(keys[..n], current, suppressed);
      assert keys == keys[..n] + [keys[n]];
    }
  }

  /** The baseline entries whose key is neither current nor suppressed, in the order of their keys. */
  method Resolved(base: map<string, Entry>, order: seq<string>, now: map<string, Entry>, hidden: map<string, Entry>,
                  ghost current: seq<Entry>, ghost suppressed: seq<Entry>)
    returns (gone: seq<Entry>)
    requires forall k :: k in order ==> k in base && base[k].key == Some(k)
    requires (forall k :: k in now <==> Keyed(current, k)) && (forall k :: k in hidden <==> Keyed(suppressed, k))
    ensures KeysOf(gone) == Present(Gone(order, current, suppressed))
    ensures forall e :: e in gone ==> e.key.Some? && e.key.value in base && e == base[e.key.value]
  {
    gone := [];
    for i := 0 to |order|
      invariant KeysOf(gone) == Present(Gone(order[..i], current, suppressed))
      invariant forall e :: e in gone ==> e.key.Some? && e.key.value in base && e == base[e.key.value]
    {
      var k := order[i];
      Lists.PrefixOfPrefix(order, i);
      if k !in now && k !in hidden {
        assert KeysOf(gone + [base[k]]) == KeysOf(gone) + [Some(k)];
        assert Present(Gone(order[..i], current, suppressed) + [k]) == Present(Gone(order[..i], current, suppressed)) + [Some(k)];
        gone := gone + [base[k]];
      }
    }
    Lists.Whole(order);
  }

  method ApplyBaselineDiff(current: seq<Entry>, suppressed: seq<Entry>, baseline: seq<Entry>) returns (diff: Diff)
    ensures diff.newFindings == Split(current, baseline, false) && diff.still == Split(current, baseline, true)
    ensures diff.suppressed == suppressed
    ensures KeysOf(diff.resolved) == Present(Gone(KeysInOrder(baseline), current, suppressed))
    ensures forall i, j :: 0 <= i < j < |diff.resolved| ==> diff.resolved[i].key != diff.resolved[j].key
    ensures forall e :: e in diff.resolved ==> e in baseline && e.key.Some? && LastIs(baseline, e.key.value, e)
    ensures forall k :: Keyed(diff.resolved, k) <==> Keyed(baseline, k) && !Keyed(current, k) && !Keyed(suppressed, k)
  {
    var base, order := EntriesByFingerprint(baseline);
    var now, _ := EntriesByFingerprint(current);
    var hidden, _ := EntriesByFingerprint(suppressed);
    var added, still := SplitCurrent(current, base, baseline);
    forall k | k in order ensures base[k].key == Some(k) { assert LastIs(baseline, k, base[k]); }
    var gone := Resolved(base, order, now, hidden, current, suppressed);
    GoneMembers(order, current, suppressed);
    forall k ensures Keyed(gone, k) <==> k in Gone(order, current, suppressed) {
      KeyedByKeys(gone, Gone(order, current, suppressed), k);
    }
    KeysAreDistinct(baseline);
    GoneIsDistinct(order, current, suppressed);
    DistinctByKeys(gone, Gone(order, current, suppressed));
    diff := Diff(added, still, gone, suppressed);
  }

  ghost predicate Distinct(keys: seq<string>) {
    forall i, j :: 0 <= i < j < |keys| ==> keys[i] != keys[j]
  }

  lemma {:induction false} KeysAreDistinct(entries: seq<Entry>)
    ensures Distinct(KeysInOrder(entries))
  {
    if entries != [] { KeysAreDistinct(entries[..|entries| - 1]); }
  }

  lemma {:induction false} GoneIsDistinct(keys: seq<string>, current: seq<Entry>, suppressed: seq<Entry>)
    requires Distinct(keys)
    ensures Distinct(Gone(keys, current, suppressed))
  {
    if keys != [] {
      var n := |keys| - 1;
      GoneIsDistinct(keys[..n], current, suppressed);
      GoneMembers(keys[..n], current, suppressed);
    }
  }

  lemma DistinctByKeys(entries: seq<Entry>, keys: seq<string>)
    requires KeysOf(entries) == Present(keys) && Distinct(keys)
    ensures forall i, j :: 0 <= i < j < |entries| ==> entries[i].key != entries[j].key
  {
    assert |entries| == |KeysOf(entries)| == |Present(keys)| == |keys|;
    forall i | 0 <= i < |entries| ensures entries[i].key == Some(keys[i]) {
      assert KeysOf(entries)[i] == Present(keys)[i];
    }
  }

  lemma KeyedByKeys(entries: seq<Entry>, keys: seq<string>, k: string)
    requires KeysOf(entries) == Present(keys)
    ensures Keyed(entries, k) <==> k in keys
  {
    assert |entries| == |KeysOf(entries)| == |Present(keys)| == |keys|;
    if e :| e in entries && e.key == Some(k) {
      var i :| 0 <= i < |entries| && entries[i] == e;
      assert KeysOf(entries)[i] == Present(keys)[i];
    }
    if k in keys {
      var i :| 0 <= i < |keys| && keys[i] == k;
      assert KeysOf(entries)[i] == Present(keys)[i];
    }
  }

  /** The current entries are split: each is new or unchanged, in order, and none is lost. */
  lemma {:induction false} SplitConserves(current: seq<Entry>, baseline: seq<Entry>)
    ensures multiset(Split(current, baseline, false)) + multiset(Split(current, baseline, true)) == multiset(current)
  {
    if current != [] {
      var n := |current| - 1;
      SplitConserves(current[..n], baseline);
      assert current == current[..n] + [current[n]];
    }
  }

  lemma {:induction false} SplitTells(current: seq<Entry>, baseline: seq<Entry>, known: bool)
    ensures forall e :: e in Split(current, baseline, known) <==> e in current && Known(e, baseline) == known
  {
    if current != [] {
      var n := |current| - 1;
      SplitTells(current[..n], baseline, known);
      assert current == current[..n] + [current[n]];
    }
  }

  /** Every baseline fingerprint is exactly one of: still current, suppressed only, resolved. */
  lemma BaselineIsPartitioned(current: seq<Entry>, suppressed: seq<Entry>, baseline: seq<Entry>, resolved: seq<Entry>, k: string)
    requires forall q :: Keyed(resolved, q) <==> Keyed(baseline, q) && !Keyed(current, q) && !Keyed(suppressed, q)
    requires Keyed(baseline, k)
    ensures Keyed(Split(current, baseline, true), k) <==> Keyed(current, k)
    ensures Keyed(resolved, k) <==> !Keyed(Split(current, baseline, true), k) && !Keyed(suppressed, k)
    ensures !Keyed(Split(current, baseline, false), k)
  {
    SplitTells(current, baseline, true);
    SplitTells(current, baseline, false);
  }

  /** Without suppressions, what a report resolves against an older one is what the older has new against it. */
  lemma ResolvedIsNewBackwards(a: seq<Entry>, b: seq<Entry>, resolved: seq<Entry>, k: string)
    requires forall q :: Keyed(resolved, q) <==> Keyed(b, q) && !Keyed(a, q) && !Keyed([], q)
    ensures Keyed(resolved, k) <==> Keyed(Split(b, a, false), k)
  {
    SplitTells(b, a, false);
  }
}
