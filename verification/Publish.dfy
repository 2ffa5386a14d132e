/** Publishing a set of documents as one unit: stage, back up, replace, and roll back on a fault. */
module Publish {
  import opened Prelude
  import opened Ordering
  import Decimal
  import Lists

  /** Published paths, and names inside the fresh temporary directory. */
  datatype Path = Output(text: string) | Temp(name: string)

  type Files = map<Path, string>

  /** A path-to-content map behind operations that either take effect or fail without effect; `fails` says
      which of the operations, counted by `clock`, raise OSError. `states` keeps what every operation left. */
  class FileStore {
    const fails: nat -> bool
    var files: Files
    var clock: nat
    ghost var states: seq<Files>

    constructor (files: Files, fails: nat -> bool)
      ensures this.files == files && this.fails == fails && clock == 0 && states == []
    {
      this.files, this.fails, clock, states := files, fails, 0, [];
    }

    /** Writing a staged file; an interrupted write leaves a partial one. */
    method Stage(name: string, content: string) returns (ok: bool)
      modifies this
      ensures clock == old(clock) + 1 && ok == !fails(old(clock))
      ensures files == old(files)[Temp(name) := if ok then content else ""]
      ensures states == old(states) + [files]
    {
      ok := !fails(clock);
      files, clock := files[Temp(name) := if ok then content else ""], clock + 1;
      states := states + [files];
    }

    /** `os.replace(source, target)` */
    method Replace(source: Path, target: Path) returns (ok: bool)
      requires source in files && source != target
      modifies this
      ensures clock == old(clock) + 1 && ok == !fails(old(clock))
      ensures files == if ok then Moved(old(files), source, target) else old(files)
      ensures states == old(states) + [files]
    {
      ok := !fails(clock);
      if ok { files := Moved(files, source, target); }
      clock, states := clock + 1, states + [files];
    }

    /** `path.unlink(missing_ok=True)` */
    method Unlink(path: Path) returns (ok: bool)
      modifies this
      ensures clock == old(clock) + 1 && ok == !fails(old(clock))
      ensures files == if ok then old(files) - {path} else old(files)
      ensures states == old(states) + [files]
    {
      ok := !fails(clock);
      if ok { files := files - {path}; }
      clock, states := clock + 1, states + [files];
    }

    /** The temporary directory goes away with everything in it; a failing removal may leave all of it. */
    method Cleanup() returns (ok: bool)
      modifies this
      ensures clock == old(clock) + 1 && ok == !fails(old(clock))
      ensures files == if ok then Published(old(files)) else old(files)
      ensures states == old(states) + [files]
    {
      ok := !fails(clock);
      if ok { files := Published(files); }
      clock, states := clock + 1, states + [files];
    }
  }

  function Moved(files: Files, source: Path, target: Path): Files
    requires source in files
  {
    (files - {source})[target := files[source]]
  }

  function Published(files: Files): Files {
    map p | p in files && p.Output? :: files[p]
  }

  // ---------------------------------------------------------------- names in the temporary directory

  function StageName(count: nat, name: string): string {
    Decimal.Pad2(count) + ['-'] + name
  }

  function BackupName(count: nat, name: string): string {
    "backup-" + (Decimal.Pad2(count) + ['-'] + name)
  }

  /** Staged and backup names never collide, whatever the documents are called. */
  lemma NamesNeverCollide(a: nat, x: string, b: nat, y: string)
    ensures StageName(a, x) == StageName(b, y) ==> a == b && x == y
    ensures BackupName(a, x) == BackupName(b, y) ==> a == b && x == y
    ensures StageName(a, x) != BackupName(b, y)
  {
    if StageName(a, x) == StageName(b, y) {
      Decimal.DigitPrefixIsUnique(Decimal.Pad2(a), x, Decimal.Pad2(b), y, '-');
      Decimal.Pad2IsInjective(a, b);
    }
    if BackupName(a, x) == BackupName(b, y) {
      assert BackupName(a, x)[7..] == StageName(a, x) && BackupName(b, y)[7..] == StageName(b, y);
      Decimal.DigitPrefixIsUnique(Decimal.Pad2(a), x, Decimal.Pad2(b), y, '-');
      Decimal.Pad2IsInjective(a, b);
    }
    assert StageName(a, x)[0] == Decimal.Pad2(a)[0] && BackupName(b, y)[0] == 'b';
    assert Decimal.IsDigit(Decimal.Pad2(a)[0]);
  }

  // ---------------------------------------------------------------- the outputs

  datatype Artifact = Artifact(path: string, content: string)

  /** One output per path; a later artifact for the same path wins. */
  function Outputs(artifacts: seq<Artifact>): map<string, string> {
    if artifacts == [] then map[]
    else map[artifacts[0].path := artifacts[0].content] + Outputs(artifacts[1..])
  }

  /** What there was, and what is to be published. */
  datatype Plan = Plan(was: Files, outputs: map<string, string>)

  /** Every output has its new content, everything else is as before. */
  ghost function Applied(plan: Plan): Files {
    plan.was + map t | t in plan.outputs :: Output(t) := plan.outputs[t]
  }

  ghost predicate SameAt(a: Files, b: Files, p: Path) {
    (p in a <==> p in b) && (p in a ==> a[p] == b[p])
  }

  ghost predicate Restored(files: Files, was: Files) {
    forall o :: SameAt(files, was, Output(o))
  }

  /** Every document is as before, absent, or has exactly its new content. */
  ghost predicate NeverTorn(files: Files, plan: Plan) {
    forall o :: IntactAt(files, plan, o)
  }

  ghost predicate IntactAt(files: Files, plan: Plan, o: string) {
    || SameAt(files, plan.was, Output(o))
    || (o in plan.outputs && (Output(o) in files ==> files[Output(o)] == plan.outputs[o]))
  }

  /** The states added between two points of the run were all intact. */
  ghost predicate Kept(before: seq<Files>, after: seq<Files>, plan: Plan) {
    before <= after && forall i :: |before| <= i < |after| ==> NeverTorn(after[i], plan)
  }

  lemma KeptOne(before: seq<Files>, files: Files, plan: Plan)
    requires NeverTorn(files, plan)
    ensures Kept(before, before + [files], plan)
  {
  }

  lemma KeptOn(a: seq<Files>, b: seq<Files>, c: seq<Files>, plan: Plan)
    requires Kept(a, b, plan) && Kept(b, c, plan)
    ensures Kept(a, c, plan)
  {
    assert c[..|a|] == b[..|a|];
    forall i | |a| <= i < |c| ensures NeverTorn(c[i], plan) {
      if i < |b| { assert c[i] == b[i]; }
    }
  }

  // ---------------------------------------------------------------- faults

  /** Some operation numbered from `from` up to `to` raised OSError. */
  ghost predicate Faulted(fails: nat -> bool, from: nat, to: nat) {
    exists k: nat :: from <= k < to && fails(k)
  }

  /** A fault, and a later one. */
  ghost predicate FaultedTwice(fails: nat -> bool, from: nat, to: nat) {
    exists mid: nat :: from <= mid <= to && Faulted(fails, from, mid) && Faulted(fails, mid, to)
  }

  lemma FaultsSplit(fails: nat -> bool, from: nat, mid: nat, to: nat)
    requires from <= mid <= to
    ensures Faulted(fails, from, to) <==> Faulted(fails, from, mid) || Faulted(fails, mid, to)
  {
  }

  lemma LastFault(fails: nat -> bool, from: nat, k: nat)
    requires from <= k
    ensures Faulted(fails, from, k + 1) <==> Faulted(fails, from, k) || fails(k)
  {
  }

  lemma TwiceLater(fails: nat -> bool, from: nat, mid: nat, to: nat)
    requires from <= mid <= to && FaultedTwice(fails, mid, to)
    ensures FaultedTwice(fails, from, to)
  {
    var m: nat :| mid <= m <= to && Faulted(fails, mid, m) && Faulted(fails, m, to);
    FaultsSplit(fails, from, mid, m);
  }

  // ---------------------------------------------------------------- the states of the replace loop

  ghost predicate NoRepeats(xs: seq<string>) {
    forall i, j :: 0 <= i < j < |xs| ==> xs[i] != xs[j]
  }

  ghost predicate Apart(names: map<string, string>) {
    forall o, q :: o in names && q in names && o != q ==> names[o] != names[q]
  }

  /** The old version of a document sits in its backup. */
  ghost predicate SavedAt(files: Files, plan: Plan, backups: map<string, string>, o: string) {
    o in backups && Output(o) in plan.was && Temp(backups[o]) in files && files[Temp(backups[o])] == plan.was[Output(o)]
  }

  /** The new version is in place, and the old one is saved if there was one. */
  ghost predicate ReplacedAt(files: Files, plan: Plan, backups: map<string, string>, o: string) {
    && o in plan.outputs && Output(o) in files && files[Output(o)] == plan.outputs[o]
    && (o in backups <==> Output(o) in plan.was) && (o in backups ==> SavedAt(files, plan, backups, o))
  }

  /** The old version has been moved away and nothing is in its place yet. */
  ghost predicate PendingAt(files: Files, plan: Plan, backups: map<string, string>, o: string) {
    o in plan.outputs && Output(o) !in files && SavedAt(files, plan, backups, o)
  }

  /** A document that did not exist before and could not be removed again. */
  ghost predicate StrandedAt(files: Files, plan: Plan, o: string) {
    o in plan.outputs && Output(o) !in plan.was && Output(o) in files && files[Output(o)] == plan.outputs[o]
  }

  /** A document during the loop or its rollback: replaced, pending, stranded, or as before. */
  ghost predicate DocumentAt(files: Files, plan: Plan, backups: map<string, string>, replaced: seq<string>,
                             pending: set<string>, stranded: set<string>, o: string)
  {
    if o in replaced then o !in pending && o !in stranded && ReplacedAt(files, plan, backups, o)
    else if o in pending then o !in stranded && PendingAt(files, plan, backups, o)
    else if o in stranded then StrandedAt(files, plan, o)
    else SameAt(files, plan.was, Output(o))
  }

  ghost predicate Underway(files: Files, plan: Plan, backups: map<string, string>, replaced: seq<string>,
                           pending: set<string>, stranded: set<string>)
  {
    Apart(backups) && forall o :: DocumentAt(files, plan, backups, replaced, pending, stranded, o)
  }

  lemma UnderwayIsIntact(files: Files, plan: Plan, backups: map<string, string>, replaced: seq<string>,
                         pending: set<string>, stranded: set<string>)
    requires Underway(files, plan, backups, replaced, pending, stranded)
    ensures NeverTorn(files, plan)
  {
    forall o ensures IntactAt(files, plan, o) {
      assert DocumentAt(files, plan, backups, replaced, pending, stranded, o);
    }
  }

  /** Some old document is gone or has its new content. */
  ghost predicate Damaged(files: Files, plan: Plan) {
    exists o :: o in plan.outputs && Output(o) in plan.was && (Output(o) in files ==> files[Output(o)] == plan.outputs[o])
  }

  // ---------------------------------------------------------------- rolling back

  /** The last replaced document is undone: its backup is back in place. */
  lemma RestoreStep(files: Files, plan: Plan, backups: map<string, string>, left: seq<string>, o: string,
                    pending: set<string>, stranded: set<string>)
    requires o !in left && Underway(files, plan, backups, left + [o], pending, stranded) && o in backups
    ensures Temp(backups[o]) in files
    ensures Underway(Moved(files, Temp(backups[o]), Output(o)), plan, backups, left, pending, stranded)
  {
    assert o in left + [o] && DocumentAt(files, plan, backups, left + [o], pending, stranded, o);
    var files' := Moved(files, Temp(backups[o]), Output(o));
    forall x ensures DocumentAt(files', plan, backups, left, pending, stranded, x) {
      assert DocumentAt(files, plan, backups, left + [o], pending, stranded, x);
      assert x in left + [o] <==> x in left || x == o;
    }
  }

  /** The last replaced document is undone: it did not exist before, and it is removed. */
  lemma RemoveStep(files: Files, plan: Plan, backups: map<string, string>, left: seq<string>, o: string,
                   pending: set<string>, stranded: set<string>)
    requires o !in left && Underway(files, plan, backups, left + [o], pending, stranded) && o !in backups
    ensures Underway(files - {Output(o)}, plan, backups, left, pending, stranded)
  {
    assert o in left + [o] && DocumentAt(files, plan, backups, left + [o], pending, stranded, o);
    forall x ensures DocumentAt(files - {Output(o)}, plan, backups, left, pending, stranded, x) {
      assert DocumentAt(files, plan, backups, left + [o], pending, stranded, x);
      assert x in left + [o] <==> x in left || x == o;
    }
  }

  /** It could not be removed. */
  lemma StrandStep(files: Files, plan: Plan, backups: map<string, string>, left: seq<string>, o: string,
                   pending: set<string>, stranded: set<string>)
    requires o !in left && Underway(files, plan, backups, left + [o], pending, stranded) && o !in backups
    ensures Underway(files, plan, backups, left, pending, stranded + {o})
  {
    assert o in left + [o] && DocumentAt(files, plan, backups, left + [o], pending, stranded, o);
    forall x ensures DocumentAt(files, plan, backups, left, pending, stranded + {o}, x) {
      assert DocumentAt(files, plan, backups, left + [o], pending, stranded, x);
      assert x in left + [o] <==> x in left || x == o;
    }
  }

  /** The document that was only moved away comes back. */
  lemma ReturnStep(files: Files, plan: Plan, backups: map<string, string>, o: string, pending: set<string>, stranded: set<string>)
    requires Underway(files, plan, backups, [], pending, stranded) && o in pending
    ensures o in backups && Temp(backups[o]) in files
    ensures Underway(Moved(files, Temp(backups[o]), Output(o)), plan, backups, [], pending - {o}, stranded)
  {
    assert DocumentAt(files, plan, backups, [], pending, stranded, o);
    var files' := Moved(files, Temp(backups[o]), Output(o));
    forall x ensures DocumentAt(files', plan, backups, [], pending - {o}, stranded, x) {
      assert DocumentAt(files, plan, backups, [], pending, stranded, x);
    }
  }

  /** Between the removal of a replaced document and the return of its backup nothing is torn. */
  lemma RemovedIsIntact(files: Files, plan: Plan, o: string)
    requires NeverTorn(files, plan) && o in plan.outputs
    ensures NeverTorn(files - {Output(o)}, plan)
  {
    forall x ensures IntactAt(files - {Output(o)}, plan, x) {
      assert IntactAt(files, plan, x);
    }
  }

  /** Remove a replaced document; the operation may fail, and is passed over. */
  method RemoveNew(fs: FileStore, o: string, ghost plan: Plan) returns (removed: bool)
    requires NeverTorn(fs.files, plan) && o in plan.outputs
    modifies fs
    ensures fs.clock == old(fs.clock) + 1 && removed == !fs.fails(old(fs.clock))
    ensures fs.files == if removed then old(fs.files) - {Output(o)} else old(fs.files)
    ensures NeverTorn(fs.files, plan) && Kept(old(fs.states), fs.states, plan)
  {
    RemovedIsIntact(fs.files, plan, o);
    removed := fs.Unlink(Output(o));
    KeptOne(old(fs.states), fs.files, plan);
  }

  /** Undo one replaced document. */
  method UndoOne(fs: FileStore, o: string, backups: map<string, string>, ghost left: seq<string>, ghost plan: Plan,
                 ghost pending: set<string>, ghost stranded: set<string>)
    returns (failed: bool, ghost stranded': set<string>)
    requires o !in left && Underway(fs.files, plan, backups, left + [o], pending, stranded)
    modifies fs
    ensures fs.clock >= old(fs.clock) && Kept(old(fs.states), fs.states, plan) && NeverTorn(fs.files, plan)
    ensures !failed ==> Underway(fs.files, plan, backups, left, pending, stranded')
    ensures failed ==> Damaged(fs.files, plan)
    ensures failed || stranded' != stranded ==> Faulted(fs.fails, old(fs.clock), fs.clock)
  {
    ghost var files := fs.files;
    assert o in left + [o] && DocumentAt(files, plan, backups, left + [o], pending, stranded, o);
    UnderwayIsIntact(files, plan, backups, left + [o], pending, stranded);
    stranded' := stranded;
    failed := false;
    var removed := RemoveNew(fs, o, plan);
    if o in backups {
      ghost var middle, before := fs.files, fs.states;
      RestoreStep(files, plan, backups, left, o, pending, stranded);
      UnderwayIsIntact(Moved(files, Temp(backups[o]), Output(o)), plan, backups, left, pending, stranded);
      var ok := fs.Replace(Temp(backups[o]), Output(o));
      failed := !ok;
      assert ok ==> fs.files == Moved(files, Temp(backups[o]), Output(o));
      assert failed ==> fs.fails(old(fs.clock) + 1);
      KeptOne(before, fs.files, plan);
      KeptOn(old(fs.states), before, fs.states, plan);
    } else if removed {
      RemoveStep(files, plan, backups, left, o, pending, stranded);
    } else {
      StrandStep(files, plan, backups, left, o, pending, stranded);
      stranded' := stranded + {o};
      assert fs.fails(old(fs.clock));
    }
  }

  /** Return the document that was only moved away. */
  method ReturnPending(fs: FileStore, replaced: seq<string>, order: seq<string>, backups: map<string, string>,
                       ghost plan: Plan, ghost pending: set<string>, ghost stranded: set<string>) returns (failed: bool)
    requires NoRepeats(order) && forall o :: o in pending ==> o in order
    requires forall o :: o in backups && o !in replaced <==> o in pending
    requires Underway(fs.files, plan, backups, [], pending, stranded)
    modifies fs
    ensures fs.clock >= old(fs.clock) && Kept(old(fs.states), fs.states, plan) && NeverTorn(fs.files, plan)
    ensures !failed ==> Underway(fs.files, plan, backups, [], {}, stranded)
    ensures failed ==> Damaged(fs.files, plan) && Faulted(fs.fails, old(fs.clock), fs.clock)
  {
    failed := false;
    ghost var waiting := pending;
    for k := 0 to |order|
      invariant fs.clock >= old(fs.clock) && Kept(old(fs.states), fs.states, plan)
      invariant Underway(fs.files, plan, backups, [], waiting, stranded)
      invariant forall o :: o in waiting <==> o in pending && o in order[k..]
    {
      var o := order[k];
      NextInOrder(order, k);
      assert DocumentAt(fs.files, plan, backups, [], waiting, stranded, o);
      if o in backups && o !in replaced && Temp(backups[o]) in fs.files {
        failed := ReturnOne(fs, o, backups, plan, waiting, stranded);
        KeptOn(old(fs.states), fs.states[..|fs.states| - 1], fs.states, plan);
        if failed { return; }
        waiting := waiting - {o};
      }
    }
    assert waiting == {};
    UnderwayIsIntact(fs.files, plan, backups, [], {}, stranded);
  }

  method ReturnOne(fs: FileStore, o: string, backups: map<string, string>, ghost plan: Plan, ghost waiting: set<string>,
                   ghost stranded: set<string>) returns (failed: bool)
    requires o in waiting && o in backups && Temp(backups[o]) in fs.files
    requires Underway(fs.files, plan, backups, [], waiting, stranded)
    modifies fs
    ensures fs.clock == old(fs.clock) + 1 && failed == fs.fails(old(fs.clock))
    ensures |fs.states| == |old(fs.states)| + 1 && fs.states[..|fs.states| - 1] == old(fs.states)
    ensures Kept(old(fs.states), fs.states, plan) && NeverTorn(fs.files, plan)
    ensures !failed ==> Underway(fs.files, plan, backups, [], waiting - {o}, stranded)
    ensures failed ==> Damaged(fs.files, plan)
  {
    ghost var files := fs.files;
    assert DocumentAt(files, plan, backups, [], waiting, stranded, o);
    ReturnStep(files, plan, backups, o, waiting, stranded);
    UnderwayIsIntact(files, plan, backups, [], waiting, stranded);
    UnderwayIsIntact(Moved(files, Temp(backups[o]), Output(o)), plan, backups, [], waiting - {o}, stranded);
    var ok := fs.Replace(Temp(backups[o]), Output(o));
    failed := !ok;
    KeptOne(old(fs.states), fs.files, plan);
  }

  lemma NextInOrder(order: seq<string>, k: nat)
    requires NoRepeats(order) && k < |order|
    ensures order[k..] == [order[k]] + order[k + 1..] && order[..k + 1] == order[..k] + [order[k]]
    ensures order[k] !in order[..k] && order[k] !in order[k + 1..] && NoRepeats(order[..k])
  {
  }

  /** The rollback: replaced documents in reverse order, then the one that was only moved away. A failing
      removal is passed over, a failing restore escapes. */
  method Rollback(fs: FileStore, replaced: seq<string>, order: seq<string>, backups: map<string, string>,
                  ghost plan: Plan, ghost pending: set<string>)
    returns (failed: bool, ghost stranded: set<string>)
    requires NoRepeats(replaced) && NoRepeats(order)
    requires Underway(fs.files, plan, backups, replaced, pending, {})
    requires forall o :: o in backups ==> o in order && (o in replaced || o in pending)
    modifies fs
    ensures fs.clock >= old(fs.clock) && Kept(old(fs.states), fs.states, plan) && NeverTorn(fs.files, plan)
    ensures !failed ==> Underway(fs.files, plan, backups, [], {}, stranded)
    ensures failed ==> Damaged(fs.files, plan)
    ensures failed || stranded != {} ==> Faulted(fs.fails, old(fs.clock), fs.clock)
  {
    stranded, failed := {}, false;
    PendingAreBackedUp(fs.files, plan, backups, replaced, pending);
    var i := |replaced|;
    Lists.Whole(replaced);
    while i > 0
      invariant 0 <= i <= |replaced| && fs.clock >= old(fs.clock) && Kept(old(fs.states), fs.states, plan)
      invariant Underway(fs.files, plan, backups, replaced[..i], pending, stranded)
      invariant stranded != {} ==> Faulted(fs.fails, old(fs.clock), fs.clock)
    {
      i := i - 1;
      NextInOrder(replaced, i);
      ghost var from, before := fs.clock, fs.states;
      failed, stranded := UndoOne(fs, replaced[i], backups, replaced[..i], plan, pending, stranded);
      KeptOn(old(fs.states), before, fs.states, plan);
      FaultsSplit(fs.fails, old(fs.clock), from, fs.clock);
      if failed { return; }
    }
    ghost var from, before := fs.clock, fs.states;
    failed := ReturnPending(fs, replaced, order, backups, plan, pending, stranded);
    KeptOn(old(fs.states), before, fs.states, plan);
    FaultsSplit(fs.fails, old(fs.clock), from, fs.clock);
  }

  lemma PendingAreBackedUp(files: Files, plan: Plan, backups: map<string, string>, replaced: seq<string>, pending: set<string>)
    requires Underway(files, plan, backups, replaced, pending, {})
    ensures forall o :: o in pending ==> o in backups && o !in replaced
  {
    forall o | o in pending ensures o in backups && o !in replaced {
      assert DocumentAt(files, plan, backups, replaced, pending, {}, o);
    }
  }

  lemma UndoneIsRestored(files: Files, plan: Plan, backups: map<string, string>)
    requires Underway(files, plan, backups, [], {}, {})
    ensures Restored(files, plan.was)
  {
    forall o ensures SameAt(files, plan.was, Output(o)) {
      assert DocumentAt(files, plan, backups, [], {}, {}, o);
    }
  }

  /** The rollback after the fault that called for it. */
  method RollBackAll(fs: FileStore, replaced: seq<string>, order: seq<string>, backups: map<string, string>,
                     ghost plan: Plan, ghost pending: set<string>, ghost from: nat)
    requires NoRepeats(replaced) && NoRepeats(order) && from <= fs.clock && Faulted(fs.fails, from, fs.clock)
    requires Underway(fs.files, plan, backups, replaced, pending, {})
    requires forall o :: o in backups ==> o in order && (o in replaced || o in pending)
    modifies fs
    ensures fs.clock >= old(fs.clock) && Kept(old(fs.states), fs.states, plan) && NeverTorn(fs.files, plan)
    ensures Faulted(fs.fails, from, fs.clock)
    ensures Restored(fs.files, plan.was) || FaultedTwice(fs.fails, from, fs.clock)
  {
    ghost var mid := fs.clock;
    var failed, stranded := Rollback(fs, replaced, order, backups, plan, pending);
    FaultsSplit(fs.fails, from, mid, fs.clock);
    if !failed && stranded == {} { UndoneIsRestored(fs.files, plan, backups); }
  }

  // ---------------------------------------------------------------- staging

  /** A document's new content waits under a name that carries a number. */
  ghost predicate StagedAt(files: Files, plan: Plan, staged: map<string, string>, o: string, i: nat, nameOf: string -> string) {
    && o in plan.outputs && o in staged && staged[o] == StageName(i, nameOf(o))
    && Temp(staged[o]) in files && files[Temp(staged[o])] == plan.outputs[o]
  }

  ghost predicate Staged(files: Files, plan: Plan, staged: map<string, string>, order: seq<string>, nameOf: string -> string) {
    && |staged| == |order|
    && (forall o :: o in order <==> o in staged)
    && (forall i :: 0 <= i < |order| ==> StagedAt(files, plan, staged, order[i], i, nameOf))
  }

  lemma StageStep(files: Files, plan: Plan, staged: map<string, string>, order: seq<string>, o: string, name: string,
                  nameOf: string -> string)
    requires Staged(files, plan, staged, order, nameOf) && o !in order && o in plan.outputs
    requires name == StageName(|staged|, nameOf(o))
    ensures Staged(files[Temp(name) := plan.outputs[o]], plan, staged[o := name], order + [o], nameOf)
  {
    var files', staged', order' := files[Temp(name) := plan.outputs[o]], staged[o := name], order + [o];
    forall i | 0 <= i < |order'| ensures StagedAt(files', plan, staged', order'[i], i, nameOf) {
      if i < |order| {
        assert StagedAt(files, plan, staged, order[i], i, nameOf) && order[i] in order;
        NamesNeverCollide(i, nameOf(order[i]), |staged|, nameOf(o));
      }
    }
  }

  lemma RestoredIsIntact(files: Files, plan: Plan)
    requires Restored(files, plan.was)
    ensures NeverTorn(files, plan)
  {
    forall o ensures IntactAt(files, plan, o) {
      assert SameAt(files, plan.was, Output(o));
    }
  }

  lemma TempLeavesOutputs(files: Files, was: Files, name: string, content: string)
    requires Restored(files, was)
    ensures Restored(files[Temp(name) := content], was)
  {
    forall o ensures SameAt(files[Temp(name) := content], was, Output(o)) {
      assert SameAt(files, was, Output(o));
    }
  }

  method StageOne(fs: FileStore, o: string, outputs: map<string, string>, staged: map<string, string>, nameOf: string -> string,
                  ghost done: seq<string>, ghost plan: Plan)
    returns (ok: bool, staged': map<string, string>)
    requires Restored(fs.files, plan.was) && outputs == plan.outputs
    requires Staged(fs.files, plan, staged, done, nameOf) && o !in done && o in outputs
    modifies fs
    ensures fs.clock == old(fs.clock) + 1 && ok == !fs.fails(old(fs.clock))
    ensures Restored(fs.files, plan.was) && Kept(old(fs.states), fs.states, plan)
    ensures ok ==> Staged(fs.files, plan, staged', done + [o], nameOf)
  {
    var name := StageName(|staged|, nameOf(o));
    StageStep(fs.files, plan, staged, done, o, name, nameOf);
    TempLeavesOutputs(fs.files, plan.was, name, outputs[o]);
    TempLeavesOutputs(fs.files, plan.was, name, "");
    ok := fs.Stage(name, outputs[o]);
    staged' := staged[o := name];
    RestoredIsIntact(fs.files, plan);
    KeptOne(old(fs.states), fs.files, plan);
  }

  method StageAll(fs: FileStore, outputs: map<string, string>, order: seq<string>, nameOf: string -> string, ghost plan: Plan)
    returns (ok: bool, staged: map<string, string>)
    requires NoRepeats(order) && (forall o :: o in order ==> o in outputs)
    requires Restored(fs.files, plan.was) && outputs == plan.outputs
    modifies fs
    ensures fs.clock >= old(fs.clock) && (ok <==> !Faulted(fs.fails, old(fs.clock), fs.clock))
    ensures Restored(fs.files, plan.was) && Kept(old(fs.states), fs.states, plan)
    ensures ok ==> Staged(fs.files, plan, staged, order, nameOf)
  {
    ok, staged := true, map[];
    for k := 0 to |order|
      invariant fs.clock >= old(fs.clock) && !Faulted(fs.fails, old(fs.clock), fs.clock)
      invariant Restored(fs.files, plan.was) && Kept(old(fs.states), fs.states, plan)
      invariant Staged(fs.files, plan, staged, order[..k], nameOf)
    {
      NextInOrder(order, k);
      LastFault(fs.fails, old(fs.clock), fs.clock);
      ghost var before := fs.states;
      ok, staged := StageOne(fs, order[k], outputs, staged, nameOf, order[..k], plan);
      KeptOn(old(fs.states), before, fs.states, plan);
      if !ok { return; }
    }
    Lists.Whole(order);
  }

  /** A document still to be put in place waits, staged. */
  ghost predicate WaitsAt(files: Files, plan: Plan, staged: map<string, string>, o: string, nameOf: string -> string) {
    exists i: nat :: StagedAt(files, plan, staged, o, i, nameOf)
  }

  ghost predicate Waiting(files: Files, plan: Plan, staged: map<string, string>, left: seq<string>, nameOf: string -> string) {
    forall o :: o in left ==> WaitsAt(files, plan, staged, o, nameOf)
  }

  lemma StagedApart(files: Files, plan: Plan, staged: map<string, string>, order: seq<string>, nameOf: string -> string)
    requires Staged(files, plan, staged, order, nameOf)
    ensures Apart(staged) && Waiting(files, plan, staged, order, nameOf)
  {
    forall o, q | o in staged && q in staged && o != q ensures staged[o] != staged[q] {
      var i, j :| 0 <= i < |order| && order[i] == o && 0 <= j < |order| && order[j] == q;
      assert StagedAt(files, plan, staged, o, i, nameOf) && StagedAt(files, plan, staged, q, j, nameOf);
      NamesNeverCollide(i, nameOf(o), j, nameOf(q));
    }
    forall o | o in order ensures WaitsAt(files, plan, staged, o, nameOf) {
      var i :| 0 <= i < |order| && order[i] == o;
      assert StagedAt(files, plan, staged, o, i, nameOf);
    }
  }

  // ---------------------------------------------------------------- one document

  /** Backups carry names numbered below their count. */
  ghost predicate NumberedAt(backups: map<string, string>, nameOf: string -> string, bound: nat, o: string) {
    o in backups && exists j: nat :: j < bound && backups[o] == BackupName(j, nameOf(o))
  }

  ghost predicate Numbered(backups: map<string, string>, nameOf: string -> string) {
    forall o :: o in backups ==> NumberedAt(backups, nameOf, |backups|, o)
  }

  lemma FreshBackup(backups: map<string, string>, nameOf: string -> string, o: string)
    requires Numbered(backups, nameOf) && o !in backups
    ensures forall q :: q in backups ==> backups[q] != BackupName(|backups|, nameOf(o))
    ensures Numbered(backups[o := BackupName(|backups|, nameOf(o))], nameOf)
  {
    var more := backups[o := BackupName(|backups|, nameOf(o))];
    assert |more| == |backups| + 1;
    forall q | q in backups
      ensures backups[q] != BackupName(|backups|, nameOf(o)) && NumberedAt(more, nameOf, |more|, q)
    {
      assert NumberedAt(backups, nameOf, |backups|, q);
      var j: nat :| j < |backups| && backups[q] == BackupName(j, nameOf(q));
      NamesNeverCollide(j, nameOf(q), |backups|, nameOf(o));
    }
    assert NumberedAt(more, nameOf, |more|, o);
  }

  /** A backup name is no staged name. */
  lemma NoStagedName(files: Files, plan: Plan, staged: map<string, string>, q: string, nameOf: string -> string,
                     n: nat, base: string)
    requires WaitsAt(files, plan, staged, q, nameOf)
    ensures q in staged && staged[q] != BackupName(n, base)
  {
    var i: nat :| StagedAt(files, plan, staged, q, i, nameOf);
    NamesNeverCollide(i, nameOf(q), n, base);
  }

  lemma NotABackup(files: Files, plan: Plan, staged: map<string, string>, backups: map<string, string>, o: string,
                   nameOf: string -> string)
    requires Numbered(backups, nameOf) && WaitsAt(files, plan, staged, o, nameOf)
    ensures o in staged && forall q :: q in backups ==> backups[q] != staged[o]
  {
    NoStagedName(files, plan, staged, o, nameOf, 0, "");
    forall q | q in backups ensures backups[q] != staged[o] {
      assert NumberedAt(backups, nameOf, |backups|, q);
      var j: nat :| j < |backups| && backups[q] == BackupName(j, nameOf(q));
      NoStagedName(files, plan, staged, o, nameOf, j, nameOf(q));
    }
  }

  /** What moves neither this document's staged content nor its name leaves it waiting. */
  lemma StillWaits(files: Files, files': Files, plan: Plan, staged: map<string, string>, o: string, nameOf: string -> string)
    requires WaitsAt(files, plan, staged, o, nameOf)
    requires o in staged ==> SameAt(files', files, Temp(staged[o]))
    ensures WaitsAt(files', plan, staged, o, nameOf)
  {
    var i: nat :| StagedAt(files, plan, staged, o, i, nameOf);
    assert StagedAt(files', plan, staged, o, i, nameOf);
  }

  lemma BackedUpWaits(files: Files, plan: Plan, staged: map<string, string>, backups: map<string, string>, left: seq<string>,
                      o: string, nameOf: string -> string)
    requires Output(o) in files && Waiting(files, plan, staged, left, nameOf)
    ensures Waiting(Moved(files, Output(o), Temp(BackupName(|backups|, nameOf(o)))), plan, staged, left, nameOf)
  {
    var files' := Moved(files, Output(o), Temp(BackupName(|backups|, nameOf(o))));
    forall q | q in left ensures WaitsAt(files', plan, staged, q, nameOf) {
      assert WaitsAt(files, plan, staged, q, nameOf);
      NoStagedName(files, plan, staged, q, nameOf, |backups|, nameOf(o));
      StillWaits(files, files', plan, staged, q, nameOf);
    }
  }

  lemma PlacedWaits(files: Files, plan: Plan, staged: map<string, string>, left: seq<string>, o: string, nameOf: string -> string)
    requires o !in left && Apart(staged) && Waiting(files, plan, staged, left, nameOf)
    requires o in staged && Temp(staged[o]) in files
    ensures Waiting(Moved(files, Temp(staged[o]), Output(o)), plan, staged, left, nameOf)
  {
    var files' := Moved(files, Temp(staged[o]), Output(o));
    forall q | q in left ensures WaitsAt(files', plan, staged, q, nameOf) {
      assert WaitsAt(files, plan, staged, q, nameOf);
      StillWaits(files, files', plan, staged, q, nameOf);
    }
  }

  /** The next document's old version has been moved into its backup. */
  lemma MovedAway(files: Files, plan: Plan, backups: map<string, string>, done: seq<string>, o: string, name: string)
    requires Underway(files, plan, backups, done, {}, {}) && o !in done && o !in backups && o in plan.outputs && Output(o) in files
    requires forall q :: q in backups ==> backups[q] != name
    ensures Underway(Moved(files, Output(o), Temp(name)), plan, backups[o := name], done, {o}, {})
  {
    var files', more := Moved(files, Output(o), Temp(name)), backups[o := name];
    assert DocumentAt(files, plan, backups, done, {}, {}, o);
    forall x ensures DocumentAt(files', plan, more, done, {o}, {}, x) {
      assert DocumentAt(files, plan, backups, done, {}, {}, x);
    }
  }

  lemma PutInPlace(files: Files, plan: Plan, backups: map<string, string>, done: seq<string>, o: string, staged: string,
                   pending: set<string>)
    requires Underway(files, plan, backups, done, pending, {}) && o !in done && o in plan.outputs && Output(o) !in files
    requires pending <= {o} && (o in backups <==> o in pending)
    requires Temp(staged) in files && files[Temp(staged)] == plan.outputs[o]
    requires forall q :: q in backups ==> backups[q] != staged
    ensures Underway(Moved(files, Temp(staged), Output(o)), plan, backups, done + [o], {}, {})
  {
    var files' := Moved(files, Temp(staged), Output(o));
    forall x ensures DocumentAt(files', plan, backups, done + [o], {}, {}, x) {
      assert DocumentAt(files, plan, backups, done, pending, {}, x);
      assert x in done + [o] <==> x in done || x == o;
    }
  }

  /** The first of the two moves: the old version, if any, goes into its backup. */
  method BackUp(fs: FileStore, o: string, backups: map<string, string>, nameOf: string -> string,
                ghost staged: map<string, string>, ghost plan: Plan, ghost done: seq<string>, ghost left: seq<string>)
    returns (ok: bool, backups': map<string, string>, ghost pending: set<string>)
    requires Underway(fs.files, plan, backups, done, {}, {}) && Numbered(backups, nameOf)
    requires o !in done && o in plan.outputs && o !in backups && Waiting(fs.files, plan, staged, left, nameOf)
    modifies fs
    ensures fs.clock >= old(fs.clock) && (ok <==> !Faulted(fs.fails, old(fs.clock), fs.clock))
    ensures Kept(old(fs.states), fs.states, plan)
    ensures Underway(fs.files, plan, backups', done, pending, {}) && Numbered(backups', nameOf)
    ensures pending <= {o} && (o in backups' <==> o in pending)
    ensures forall q :: q in backups' ==> q in backups || q == o
    ensures ok ==> Output(o) !in fs.files && Waiting(fs.files, plan, staged, left, nameOf)
    ensures !ok ==> pending == {}
  {
    ok, backups', pending := true, backups, {};
    if Output(o) in fs.files {
      var name := BackupName(|backups|, nameOf(o));
      FreshBackup(backups, nameOf, o);
      BackedUpWaits(fs.files, plan, staged, backups, left, o, nameOf);
      MovedAway(fs.files, plan, backups, done, o, name);
      LastFault(fs.fails, fs.clock, fs.clock);
      ok := fs.Replace(Output(o), Temp(name));
      if ok { backups', pending := backups[o := name], {o}; }
      UnderwayIsIntact(fs.files, plan, backups', done, pending, {});
      KeptOne(old(fs.states), fs.files, plan);
    }
  }

  /** The second move: the staged content goes into place. */
  method Place(fs: FileStore, o: string, staged: map<string, string>, ghost backups: map<string, string>,
               nameOf: string -> string, ghost plan: Plan, ghost done: seq<string>, ghost left: seq<string>,
               ghost pending: set<string>)
    returns (ok: bool)
    requires Underway(fs.files, plan, backups, done, pending, {}) && Numbered(backups, nameOf) && Apart(staged)
    requires o !in done && o !in left && Output(o) !in fs.files && pending <= {o} && (o in backups <==> o in pending)
    requires WaitsAt(fs.files, plan, staged, o, nameOf) && Waiting(fs.files, plan, staged, left, nameOf)
    requires o in staged && Temp(staged[o]) in fs.files && o in plan.outputs
    modifies fs
    ensures fs.clock == old(fs.clock) + 1 && ok == !fs.fails(old(fs.clock))
    ensures Kept(old(fs.states), fs.states, plan)
    ensures if ok then Underway(fs.files, plan, backups, done + [o], {}, {}) else Underway(fs.files, plan, backups, done, pending, {})
    ensures ok ==> Waiting(fs.files, plan, staged, left, nameOf)
  {
    ghost var i: nat :| StagedAt(fs.files, plan, staged, o, i, nameOf);
    NotABackup(fs.files, plan, staged, backups, o, nameOf);
    PutInPlace(fs.files, plan, backups, done, o, staged[o], pending);
    PlacedWaits(fs.files, plan, staged, left, o, nameOf);
    UnderwayIsIntact(fs.files, plan, backups, done, pending, {});
    UnderwayIsIntact(Moved(fs.files, Temp(staged[o]), Output(o)), plan, backups, done + [o], {}, {});
    ok := fs.Replace(Temp(staged[o]), Output(o));
    KeptOne(old(fs.states), fs.files, plan);
  }

  lemma FirstWaits(files: Files, plan: Plan, staged: map<string, string>, left: seq<string>, o: string, nameOf: string -> string)
    requires Waiting(files, plan, staged, [o] + left, nameOf)
    ensures WaitsAt(files, plan, staged, o, nameOf) && Waiting(files, plan, staged, left, nameOf)
    ensures o in plan.outputs && o in staged && Temp(staged[o]) in files
  {
    assert o in [o] + left && forall q :: q in left ==> q in [o] + left;
    var i: nat :| StagedAt(files, plan, staged, o, i, nameOf);
  }

  /** Put one document in place, moving its old version away first. */
  method ReplaceOne(fs: FileStore, o: string, staged: map<string, string>, backups: map<string, string>, nameOf: string -> string,
                    ghost plan: Plan, ghost done: seq<string>, ghost left: seq<string>)
    returns (ok: bool, backups': map<string, string>, ghost pending: set<string>)
    requires Underway(fs.files, plan, backups, done, {}, {}) && Numbered(backups, nameOf) && Apart(staged)
    requires o !in done && o !in left && o !in backups && Waiting(fs.files, plan, staged, [o] + left, nameOf)
    modifies fs
    ensures fs.clock >= old(fs.clock) && (ok <==> !Faulted(fs.fails, old(fs.clock), fs.clock))
    ensures Kept(old(fs.states), fs.states, plan)
    ensures Underway(fs.files, plan, backups', if ok then done + [o] else done, pending, {})
    ensures pending <= {o} && (ok ==> pending == {}) && (o in backups' ==> ok || o in pending)
    ensures Numbered(backups', nameOf) && forall q :: q in backups' ==> q in backups || q == o
    ensures ok ==> Waiting(fs.files, plan, staged, left, nameOf)
  {
    FirstWaits(fs.files, plan, staged, left, o, nameOf);
    ok, backups', pending := BackUp(fs, o, backups, nameOf, staged, plan, done, [o] + left);
    if !ok { return; }
    FirstWaits(fs.files, plan, staged, left, o, nameOf);
    ghost var before := fs.states;
    LastFault(fs.fails, old(fs.clock), fs.clock);
    ok := Place(fs, o, staged, backups', nameOf, plan, done, left, pending);
    KeptOn(old(fs.states), before, fs.states, plan);
    if ok { pending := {}; }
  }

  // ---------------------------------------------------------------- the whole protocol

  /** Every document has its new content, every other path is as before. */
  ghost predicate InPlace(files: Files, plan: Plan) {
    && (forall o :: o in plan.outputs ==> Output(o) in files && files[Output(o)] == plan.outputs[o])
    && (forall o :: o !in plan.outputs ==> SameAt(files, plan.was, Output(o)))
  }

  lemma DoneIsInPlace(files: Files, plan: Plan, backups: map<string, string>, order: seq<string>)
    requires Underway(files, plan, backups, order, {}, {}) && forall o :: o in order <==> o in plan.outputs
    ensures InPlace(files, plan)
  {
    forall o | o in plan.outputs ensures Output(o) in files && files[Output(o)] == plan.outputs[o] {
      assert DocumentAt(files, plan, backups, order, {}, {}, o);
    }
    forall o | o !in plan.outputs ensures SameAt(files, plan.was, Output(o)) {
      assert DocumentAt(files, plan, backups, order, {}, {}, o);
    }
  }

  lemma AllWaitUnderway(files: Files, plan: Plan)
    requires Restored(files, plan.was)
    ensures Underway(files, plan, map[], [], {}, {})
  {
    forall o ensures DocumentAt(files, plan, map[], [], {}, {}, o) {
      assert SameAt(files, plan.was, Output(o));
    }
  }

  /** The replace loop with its rollback. */
  method ReplaceAll(fs: FileStore, staged: map<string, string>, order: seq<string>, nameOf: string -> string, ghost plan: Plan)
    returns (ok: bool)
    requires NoRepeats(order) && forall o :: o in order <==> o in plan.outputs
    requires Waiting(fs.files, plan, staged, order, nameOf) && Apart(staged) && Restored(fs.files, plan.was)
    modifies fs
    ensures fs.clock >= old(fs.clock) && (ok <==> !Faulted(fs.fails, old(fs.clock), fs.clock))
    ensures Kept(old(fs.states), fs.states, plan) && NeverTorn(fs.files, plan)
    ensures ok ==> InPlace(fs.files, plan)
    ensures !ok ==> Restored(fs.files, plan.was) || FaultedTwice(fs.fails, old(fs.clock), fs.clock)
  {
    var backups: map<string, string>, replaced: seq<string> := map[], [];
    AllWaitUnderway(fs.files, plan);
    for k := 0 to |order|
      invariant fs.clock >= old(fs.clock) && !Faulted(fs.fails, old(fs.clock), fs.clock)
      invariant Kept(old(fs.states), fs.states, plan)
      invariant replaced == order[..k] && forall o :: o in backups ==> o in replaced
      invariant Underway(fs.files, plan, backups, replaced, {}, {}) && Numbered(backups, nameOf)
      invariant Waiting(fs.files, plan, staged, order[k..], nameOf)
    {
      NextInOrder(order, k);
      ghost var from, before := fs.clock, fs.states;
      ghost var pending;
      ok, backups, pending := ReplaceOne(fs, order[k], staged, backups, nameOf, plan, replaced, order[k + 1..]);
      FaultsSplit(fs.fails, old(fs.clock), from, fs.clock);
      KeptOn(old(fs.states), before, fs.states, plan);
      if !ok {
        before := fs.states;
        RollBackAll(fs, replaced, order, backups, plan, pending, old(fs.clock));
        KeptOn(old(fs.states), before, fs.states, plan);
        return;
      }
      replaced := replaced + [order[k]];
    }
    ok := true;
    Lists.Whole(order);
    DoneIsInPlace(fs.files, plan, backups, order);
  }

  lemma {:induction false} OutputsOfConcat(xs: seq<Artifact>, a: Artifact)
    ensures Outputs(xs + [a]) == Outputs(xs)[a.path := a.content]
  {
    if xs == [] {
      assert xs + [a] == [a] && [a][1..] == [];
      assert Outputs([a]) == map[a.path := a.content] + Outputs([]);
    } else {
      Lists.TailOfConcat(xs, [a]);
      OutputsOfConcat(xs[1..], a);
      var first, rest := map[xs[0].path := xs[0].content], Outputs(xs[1..]);
      assert first + rest[a.path := a.content] == (first + rest)[a.path := a.content];
    }
  }

  /** The i-th artifact is the last one for its path. */
  ghost predicate LastFor(artifacts: seq<Artifact>, o: string, i: int) {
    0 <= i < |artifacts| && artifacts[i].path == o && forall j :: i < j < |artifacts| ==> artifacts[j].path != o
  }

  /** An output for every path that has an artifact, with the content of the last one. */
  lemma {:induction false} OutputsExactly(artifacts: seq<Artifact>, o: string)
    ensures o in Outputs(artifacts) <==> exists i :: LastFor(artifacts, o, i)
    ensures forall i :: LastFor(artifacts, o, i) ==> o in Outputs(artifacts) && Outputs(artifacts)[o] == artifacts[i].content
  {
    if artifacts != [] {
      var rest := artifacts[1..];
      OutputsExactly(rest, o);
      assert forall i :: 0 < i < |artifacts| ==> artifacts[i] == rest[i - 1];
      forall i | 0 <= i ensures LastFor(rest, o, i) <==> LastFor(artifacts, o, i + 1) {}
      forall i | i > 0 ensures LastFor(artifacts, o, i) <==> LastFor(rest, o, i - 1) {}
      if artifacts[0].path == o && o !in Outputs(rest) { FirstIsLast(artifacts, o); }
    }
  }

  lemma FirstIsLast(artifacts: seq<Artifact>, o: string)
    requires artifacts != [] && artifacts[0].path == o && forall i :: !LastFor(artifacts[1..], o, i)
    ensures LastFor(artifacts, o, 0)
  {
    forall j | 0 < j < |artifacts| ensures artifacts[j].path != o {
      if artifacts[j].path == o {
        var i := LastFrom(artifacts[1..], o, j - 1);
      }
    }
  }

  lemma LastFrom(artifacts: seq<Artifact>, o: string, j: nat) returns (i: int)
    requires j < |artifacts| && artifacts[j].path == o
    ensures LastFor(artifacts, o, i)
    decreases |artifacts| - j
  {
    if k :| j < k < |artifacts| && artifacts[k].path == o { i := LastFrom(artifacts, o, k); } else { i := j; }
  }

  /** The paths in the order in which they first occur. */
  function PathsInOrder(artifacts: seq<Artifact>): seq<string> {
    if artifacts == [] then []
    else
      var n := |artifacts| - 1;
      var before := PathsInOrder(artifacts[..n]);
      if artifacts[n].path in before then before else before + [artifacts[n].path]
  }

  /** The dictionary of outputs, with its keys in insertion order. */
  method BuildOutputs(artifacts: seq<Artifact>) returns (outputs: map<string, string>, order: seq<string>)
    ensures outputs == Outputs(artifacts)
    ensures NoRepeats(order) && forall o :: o in order <==> o in outputs
    ensures order == PathsInOrder(artifacts)
  {
    outputs, order := map[], [];
    for k := 0 to |artifacts|
      invariant outputs == Outputs(artifacts[..k])
      invariant NoRepeats(order) && forall o :: o in order <==> o in outputs
      invariant order == PathsInOrder(artifacts[..k])
    {
      Lists.PrefixSnoc(artifacts, k);
      Lists.PrefixOfPrefix(artifacts, k);
      OutputsOfConcat(artifacts[..k], artifacts[k]);
      if artifacts[k].path !in outputs { order := order + [artifacts[k].path]; }
      outputs := outputs[artifacts[k].path := artifacts[k].content];
    }
    Lists.Whole(artifacts);
  }

  lemma IncreasingHasNoRepeats(xs: seq<string>)
    requires Increasing(xs)
    ensures NoRepeats(xs)
  {
    forall i, j | 0 <= i < j < |xs| ensures xs[i] != xs[j] { LessIsTotal(xs[i], xs[i]); }
  }

  /** Stage everything, then replace everything or roll back. */
  method PublishAll(fs: FileStore, outputs: map<string, string>, order: seq<string>, nameOf: string -> string, ghost plan: Plan)
    returns (ok: bool)
    requires NoRepeats(order) && (forall o :: o in order <==> o in outputs)
    requires outputs == plan.outputs && Restored(fs.files, plan.was)
    modifies fs
    ensures fs.clock >= old(fs.clock) && (ok <==> !Faulted(fs.fails, old(fs.clock), fs.clock))
    ensures Kept(old(fs.states), fs.states, plan) && NeverTorn(fs.files, plan)
    ensures ok ==> InPlace(fs.files, plan)
    ensures !ok ==> Restored(fs.files, plan.was) || FaultedTwice(fs.fails, old(fs.clock), fs.clock)
  {
    var staged;
    ok, staged := StageAll(fs, outputs, order, nameOf, plan);
    if !ok { return; }
    StagedApart(fs.files, plan, staged, order, nameOf);
    var sorted := SortSet(outputs.Keys);
    IncreasingHasNoRepeats(sorted);
    ghost var mid, before := fs.clock, fs.states;
    ok := ReplaceAll(fs, staged, sorted, nameOf, plan);
    KeptOn(old(fs.states), before, fs.states, plan);
    FaultsSplit(fs.fails, old(fs.clock), mid, fs.clock);
    if FaultedTwice(fs.fails, mid, fs.clock) { TwiceLater(fs.fails, old(fs.clock), mid, fs.clock); }
  }

  lemma PublishedIsApplied(files: Files, plan: Plan)
    requires (forall p :: p in plan.was ==> p.Output?) && InPlace(files, plan)
    ensures Published(files) == Applied(plan)
  {
    var now, want := Published(files), Applied(plan);
    forall p ensures SameAt(now, want, p) { if p.Output? { assert p == Output(p.text); } }
    SameEverywhere(now, want);
  }

  lemma PublishedIsOld(files: Files, was: Files)
    requires (forall p :: p in was ==> p.Output?) && Restored(files, was)
    ensures Published(files) == was
  {
    forall p ensures SameAt(Published(files), was, p) {
      if p.Output? { assert SameAt(files, was, Output(p.text)); }
    }
    SameEverywhere(Published(files), was);
  }

  lemma SameEverywhere(a: Files, b: Files)
    requires forall p :: SameAt(a, b, p)
    ensures a == b
  {
    forall p ensures p in a <==> p in b { assert SameAt(a, b, p); }
    forall p | p in a ensures a[p] == b[p] { assert SameAt(a, b, p); }
  }

  lemma PublishedKeepsDocuments(files: Files, plan: Plan)
    ensures Published(Published(files)) == Published(files)
    ensures NeverTorn(files, plan) ==> NeverTorn(Published(files), plan)
  {
    forall o | NeverTorn(files, plan) ensures IntactAt(Published(files), plan, o) {
      assert IntactAt(files, plan, o);
    }
  }

  /** What publishing leaves before the temporary directory goes: all, nothing, or two faults. */
  ghost predicate AllOrNothing(files: Files, plan: Plan, faulted: bool, twice: bool) {
    && (!faulted ==> Published(files) == Applied(plan))
    && (faulted && !twice ==> Published(files) == plan.was)
  }

  lemma AllOrNothingHolds(files: Files, plan: Plan, faulted: bool, twice: bool)
    requires forall p :: p in plan.was ==> p.Output?
    requires if faulted then Restored(files, plan.was) || twice else InPlace(files, plan)
    ensures AllOrNothing(files, plan, faulted, twice)
  {
    if !faulted { PublishedIsApplied(files, plan); } else if !twice { PublishedIsOld(files, plan.was); }
  }

  /** The removal of the temporary directory. */
  method FinishUp(fs: FileStore, ghost plan: Plan, ghost artifacts: seq<Artifact>, ghost faulted: bool, ghost twice: bool)
    returns (ok: bool)
    requires NeverTorn(fs.files, plan) && AllOrNothing(fs.files, plan, faulted, twice) && plan.outputs == Outputs(artifacts)
    modifies fs
    ensures fs.clock == old(fs.clock) + 1 && ok == !fs.fails(old(fs.clock))
    ensures AllOrNothing(fs.files, plan, faulted, twice)
    ensures Kept(old(fs.states), fs.states, plan)
    ensures ok ==> fs.files == Published(fs.files)
    ensures ok && !faulted ==> fs.files == Applied(plan) && Carries(fs.files, plan.was, artifacts)
  {
    PublishedKeepsDocuments(fs.files, plan);
    ok := fs.Cleanup();
    KeptOne(old(fs.states), fs.files, plan);
    Concluded(old(fs.files), fs.files, plan, artifacts, faulted, twice, ok);
  }

  /**
   * Publishing is all or nothing. The last operation is the removal of the temporary directory; before it,
   * no fault means every document has its new content, and exactly one fault, wherever it falls, means every
   * document is as it was. Whatever fails, after no operation does a document hold anything but its old or its
   * new content.
   */
  method WriteReconciliation(fs: FileStore, artifacts: seq<Artifact>, nameOf: string -> string)
    returns (issue: bool, ghost plan: Plan)
    requires forall p :: p in fs.files ==> p.Output?
    modifies fs
    ensures plan == Plan(old(fs.files), Outputs(artifacts)) && fs.clock > old(fs.clock)
    ensures issue <==> Faulted(fs.fails, old(fs.clock), fs.clock)
    ensures !issue ==> fs.files == Applied(plan)
    ensures !issue ==> Carries(fs.files, old(fs.files), artifacts)
    ensures AllOrNothing(fs.files, plan, Faulted(fs.fails, old(fs.clock), fs.clock - 1),
                         FaultedTwice(fs.fails, old(fs.clock), fs.clock - 1))
    ensures Kept(old(fs.states), fs.states, plan)
    ensures !fs.fails(fs.clock - 1) ==> fs.files == Published(fs.files)
  {
    var outputs, order := BuildOutputs(artifacts);
    plan := Plan(fs.files, outputs);
    var ok := PublishAll(fs, outputs, order, nameOf, plan);
    AllOrNothingHolds(fs.files, plan, !ok, FaultedTwice(fs.fails, old(fs.clock), fs.clock));
    LastFault(fs.fails, old(fs.clock), fs.clock);
    ghost var before, mid, twice := fs.states, fs.clock, FaultedTwice(fs.fails, old(fs.clock), fs.clock);
    var cleaned := FinishUp(fs, plan, artifacts, !ok, twice);
    KeptOn(old(fs.states), before, fs.states, plan);
    issue := !ok || !cleaned;
    assert fs.clock - 1 == mid;
  }

  /** What the removal of the temporary directory leaves. */
  lemma Concluded(before: Files, files: Files, plan: Plan, artifacts: seq<Artifact>, faulted: bool, twice: bool, cleaned: bool)
    requires AllOrNothing(before, plan, faulted, twice) && Published(files) == Published(before)
    requires cleaned ==> files == Published(files)
    requires plan.outputs == Outputs(artifacts)
    ensures AllOrNothing(files, plan, faulted, twice)
    ensures !faulted && cleaned ==> files == Applied(plan) && Carries(files, plan.was, artifacts)
  {
    if !faulted && cleaned { AppliedExactly(files, plan, artifacts); }
  }

  ghost predicate Touched(artifacts: seq<Artifact>, p: Path) {
    exists i :: 0 <= i < |artifacts| && p == Output(artifacts[i].path)
  }

  /** In terms of the artifacts: a path carries the content of its last artifact, or is not touched. */
  ghost predicate CarriesAt(files: Files, was: Files, artifacts: seq<Artifact>, p: Path) {
    if Touched(artifacts, p)
    then p in files && exists i :: LastFor(artifacts, p.text, i) && files[p] == artifacts[i].content
    else SameAt(files, was, p)
  }

  ghost predicate Carries(files: Files, was: Files, artifacts: seq<Artifact>) {
    forall p :: CarriesAt(files, was, artifacts, p)
  }

  lemma AppliedExactly(files: Files, plan: Plan, artifacts: seq<Artifact>)
    requires plan.outputs == Outputs(artifacts) && files == Applied(plan)
    ensures Carries(files, plan.was, artifacts)
  {
    forall p ensures CarriesAt(files, plan.was, artifacts, p) {
      if Touched(artifacts, p) { TouchedCarries(files, plan, artifacts, p); } else { UntouchedStays(files, plan, artifacts, p); }
    }
  }

  lemma TouchedCarries(files: Files, plan: Plan, artifacts: seq<Artifact>, p: Path)
    requires plan.outputs == Outputs(artifacts) && files == Applied(plan) && Touched(artifacts, p)
    ensures CarriesAt(files, plan.was, artifacts, p)
  {
    var k :| 0 <= k < |artifacts| && p == Output(artifacts[k].path);
    var i := LastFrom(artifacts, p.text, k);
    OutputsExactly(artifacts, p.text);
  }

  lemma UntouchedStays(files: Files, plan: Plan, artifacts: seq<Artifact>, p: Path)
    requires plan.outputs == Outputs(artifacts) && files == Applied(plan) && !Touched(artifacts, p)
    ensures SameAt(files, plan.was, p)
  {
    if p.Output? { OutputsExactly(artifacts, p.text); }
  }
}
