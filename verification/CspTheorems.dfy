/** What the parsed header says: one effective directive per name, one list of issues seen from two sides, and
    a dynamic-structure warning that speaks about the directives actually parsed. */
module CspTheorems {
  import opened Prelude
  import Lists
  import opened Texts
  import opened CspSplit
  import opened CspParser

  // ---------------------------------------------------------------- first wins

  /** A directive is effective exactly when no earlier one has its name, and otherwise refers to the index of the
      effective directive of its name. */
  ghost predicate WinsAt(ds: seq<Directive>, i: nat)
    requires i < |ds|
  {
    && (ds[i].effective <==> ds[i].duplicateOf.None?)
    && (ds[i].effective <==> forall j :: 0 <= j < i ==> ds[j].name != ds[i].name)
    && (forall j :: 0 <= j < i && ds[j].name == ds[i].name && ds[j].effective ==>
          ds[i].duplicateOf == Some(ds[j].directiveIndex))
  }

  /** Directives in member order, the first of each name in force. */
  ghost predicate FirstWins(ds: seq<Directive>, bound: nat) {
    && (forall i :: 0 <= i < |ds| ==> ds[i].directiveIndex < bound)
    && (forall i, j :: 0 <= i < j < |ds| ==> ds[i].directiveIndex < ds[j].directiveIndex)
    && (forall i :: 0 <= i < |ds| ==> WinsAt(ds, i))
  }

  lemma {:induction false} FirstIndexTells(ds: seq<Directive>, name: string)
    ensures FirstIndex(ds, name).None? <==> forall j :: 0 <= j < |ds| ==> ds[j].name != name
    ensures forall j :: 0 <= j < |ds| && ds[j].name == name && (forall i :: 0 <= i < j ==> ds[i].name != name) ==>
              FirstIndex(ds, name) == Some(ds[j].directiveIndex)
  {
    if ds != [] {
      FirstIndexTells(ds[1..], name);
      forall j | 0 <= j < |ds| && ds[j].name == name && (forall i :: 0 <= i < j ==> ds[i].name != name)
        ensures FirstIndex(ds, name) == Some(ds[j].directiveIndex)
      {
        if j > 0 { assert ds[1..][j - 1] == ds[j]; }
      }
      if FirstIndex(ds, name).None? {
        forall j | 0 <= j < |ds| ensures ds[j].name != name {
          if j > 0 { assert ds[1..][j - 1] == ds[j]; }
        }
      }
    }
  }

  lemma WinsAtStays(ds: seq<Directive>, d: Directive, i: nat)
    requires i < |ds| && WinsAt(ds, i)
    ensures WinsAt(ds + [d], i)
  {
    assert forall j :: 0 <= j < |ds| ==> (ds + [d])[j] == ds[j];
  }

  lemma LastWinsAt(ds: seq<Directive>, d: Directive)
    requires forall i :: 0 <= i < |ds| ==> WinsAt(ds, i)
    requires d.duplicateOf == FirstIndex(ds, d.name) && (d.effective <==> d.duplicateOf.None?)
    ensures WinsAt(ds + [d], |ds|)
  {
    FirstIndexTells(ds, d.name);
    assert (ds + [d])[|ds|] == d && forall j :: 0 <= j < |ds| ==> (ds + [d])[j] == ds[j];
    forall j | 0 <= j < |ds| && ds[j].name == d.name && ds[j].effective ensures d.duplicateOf == Some(ds[j].directiveIndex) {
      assert WinsAt(ds, j);
    }
  }

  lemma FirstWinsNext(ds: seq<Directive>, d: Directive, k: nat)
    requires FirstWins(ds, k) && d.directiveIndex == k
    requires d.duplicateOf == FirstIndex(ds, d.name) && (d.effective <==> d.duplicateOf.None?)
    ensures FirstWins(ds + [d], k + 1)
  {
    forall i | 0 <= i < |ds| ensures WinsAt(ds + [d], i) { WinsAtStays(ds, d, i); }
    LastWinsAt(ds, d);
  }

  lemma {:induction false} DirectivesFirstWins(members: seq<string>, lex: Lexis)
    ensures FirstWins(DirectivesOf(members, lex), |members|)
  {
    if members != [] {
      var n := |members| - 1;
      DirectivesFirstWins(members[..n], lex);
      var before, text := DirectivesOf(members[..n], lex), Strip(members[n], lex.isSpace);
      if text != "" {
        FirstWinsNext(before, ParseMember(text, n, FirstIndex(before, lex.lower(FirstWord(text, lex.isSpace))), lex), n);
      }
    }
  }

  /** Every name that occurs has exactly one effective directive, the earliest. */
  lemma OneEffectivePerName(text: string, p: nat, lex: Lexis, i: nat)
    requires i < |PolicyOf(text, p, lex).directives|
    ensures var ds := PolicyOf(text, p, lex).directives;
            && FirstWins(ds, |Members(text)|)
            && exists j :: j <= i && EffectiveAt(ds, j, ds[i].name)
                           && forall k :: EffectiveAt(ds, k, ds[i].name) ==> k == j
  {
    var ds := PolicyOf(text, p, lex).directives;
    DirectivesFirstWins(Members(text), lex);
    var j := Earliest(ds, i);
    assert WinsAt(ds, j) && EffectiveAt(ds, j, ds[i].name);
    forall k | EffectiveAt(ds, k, ds[i].name) ensures k == j {
      assert WinsAt(ds, k);
      assert forall x :: 0 <= x < k ==> ds[x].name != ds[k].name;
    }
  }

  ghost predicate EffectiveAt(ds: seq<Directive>, j: int, name: string) {
    0 <= j < |ds| && ds[j].name == name && ds[j].effective
  }

  lemma {:induction false} Earliest(ds: seq<Directive>, i: nat) returns (j: nat)
    requires i < |ds|
    ensures j <= i && ds[j].name == ds[i].name && forall k :: 0 <= k < j ==> ds[k].name != ds[i].name
  {
    if exists k :: 0 <= k < i && ds[k].name == ds[i].name {
      var k :| 0 <= k < i && ds[k].name == ds[i].name;
      j := Earliest(ds, k);
    } else {
      j := i;
    }
  }

  /** How many members are empty. */
  function Empties(members: seq<string>, lex: Lexis): nat {
    if members == [] then 0
    else
      var n := |members| - 1;
      Empties(members[..n], lex) + if Strip(members[n], lex.isSpace) == "" then 1 else 0
  }

  /** A directive's index is its position plus the number of empty members before it. */
  lemma {:induction false} IndexCountsEmpties(members: seq<string>, lex: Lexis, i: nat)
    requires i < |DirectivesOf(members, lex)|
    ensures var k := DirectivesOf(members, lex)[i].directiveIndex;
            k < |members| && Strip(members[k], lex.isSpace) != "" && k == i + Empties(members[..k], lex)
  {
    var n := |members| - 1;
    var before := DirectivesOf(members[..n], lex);
    if i < |before| {
      IndexCountsEmpties(members[..n], lex, i);
      var k := before[i].directiveIndex;
      assert members[..n][..k] == members[..k];
    } else {
      SizeCountsEmpties(members[..n], lex);
    }
  }

  lemma {:induction false} SizeCountsEmpties(members: seq<string>, lex: Lexis)
    ensures |DirectivesOf(members, lex)| + Empties(members, lex) == |members|
  {
    if members != [] { SizeCountsEmpties(members[..|members| - 1], lex); }
  }

  lemma {:induction false} NoEmpties(members: seq<string>, lex: Lexis)
    ensures Empties(members, lex) == 0 <==> forall m :: m in members ==> Strip(m, lex.isSpace) != ""
  {
    if members != [] {
      var n := |members| - 1;
      NoEmpties(members[..n], lex);
      assert members == members[..n] + [members[n]];
    }
  }

  /** A later copy's `duplicate_of` is the position of the effective directive exactly when no empty member stands
      before that directive. */
  lemma DuplicateOfIsPositionExactly(members: seq<string>, lex: Lexis, j: nat, i: nat)
    requires j < i < |DirectivesOf(members, lex)|
    requires DirectivesOf(members, lex)[j].name == DirectivesOf(members, lex)[i].name && DirectivesOf(members, lex)[j].effective
    ensures var ds := DirectivesOf(members, lex);
            && ds[j].directiveIndex < |members|
            && (ds[i].duplicateOf == Some(j)
                <==> forall m :: m in members[..ds[j].directiveIndex] ==> Strip(m, lex.isSpace) != "")
  {
    var ds := DirectivesOf(members, lex);
    DirectivesFirstWins(members, lex);
    assert WinsAt(ds, i);
    IndexCountsEmpties(members, lex, j);
    NoEmpties(members[..ds[j].directiveIndex], lex);
  }

  /** An empty member stands before one that is not. */
  predicate EmptyFirst(members: seq<string>, lex: Lexis) {
    exists j, k :: 0 <= j < k < |members| && Strip(members[j], lex.isSpace) == "" && Strip(members[k], lex.isSpace) != ""
  }

  lemma {:induction false} EveryTextIsIndexed(members: seq<string>, lex: Lexis, k: nat) returns (i: nat)
    requires k < |members| && Strip(members[k], lex.isSpace) != ""
    ensures i < |DirectivesOf(members, lex)| && DirectivesOf(members, lex)[i].directiveIndex == k
  {
    var n := |members| - 1;
    if k < n {
      i := EveryTextIsIndexed(members[..n], lex, k);
    } else {
      i := |DirectivesOf(members[..n], lex)|;
    }
  }

  /** All indices are positions exactly when no empty member stands before one that is not. */
  lemma IndicesArePositionsExactly(members: seq<string>, lex: Lexis)
    ensures (forall i :: 0 <= i < |DirectivesOf(members, lex)| ==> DirectivesOf(members, lex)[i].directiveIndex == i)
            <==> !EmptyFirst(members, lex)
  {
    var ds := DirectivesOf(members, lex);
    forall i | 0 <= i < |ds| && !EmptyFirst(members, lex) ensures ds[i].directiveIndex == i {
      IndexCountsEmpties(members, lex, i);
      var k := ds[i].directiveIndex;
      NoEmpties(members[..k], lex);
    }
    if EmptyFirst(members, lex) {
      var j, k :| 0 <= j < k < |members| && Strip(members[j], lex.isSpace) == "" && Strip(members[k], lex.isSpace) != "";
      var i := EveryTextIsIndexed(members, lex, k);
      IndexCountsEmpties(members, lex, i);
      NoEmpties(members[..k], lex);
      assert members[..k][j] == members[j];
    }
  }

  /** `duplicate_of` counts members, empty ones included, so it is no position in the list of directives:
      in `;a;a` the second directive refers to 1, where it stands itself. */
  lemma DuplicateOfIsNoPosition(lex: Lexis)
    requires Sane(lex) && !lex.isSpace('a')
    ensures var ds := PolicyOf(";a;a", 0, lex).directives;
            |ds| == 2 && ds[1].duplicateOf == Some(1) && ds[0].directiveIndex == 1 && !ds[1].effective
  {
    var a := At(';');
    SplitsFront('a', "", a, None);
    assert "a" == ['a'] + "";
    SplitsFront(';', "a", a, None);
    assert ";a" == [';'] + "a";
    SplitsFront('a', ";a", a, None);
    assert "a;a" == ['a'] + ";a";
    SplitsFront(';', "a;a", a, None);
    assert ";a;a" == [';'] + "a;a";
    var members := Members(";a;a");
    assert members == ["", "a", "a"];
    assert Strip("a", lex.isSpace) == "a" && Strip("", lex.isSpace) == "";
    assert FirstWord("a", lex.isSpace) == "a";
    assert members[..1] == [""] && [""][..0] == [] && members[..2] == ["", "a"] && ["", "a"][..1] == [""];
    var one := DirectivesOf(["", "a"], lex);
    assert DirectivesOf([""], lex) == [];
    assert one == [ParseMember("a", 1, None, lex)];
  }

  // ---------------------------------------------------------------- looking a directive up

  /** `CspPolicy.first_directive` */
  method FirstDirective(policy: Policy, name: string, lex: Lexis) returns (found: Option<Directive>)
    ensures found == Lookup(policy.directives, lex.lower(name))
  {
    for i := 0 to |policy.directives|
      invariant Lookup(policy.directives, lex.lower(name)) == Lookup(policy.directives[i..], lex.lower(name))
    {
      if policy.directives[i].name == lex.lower(name) && policy.directives[i].effective {
        return Some(policy.directives[i]);
      }
    }
    return None;
  }

  function Lookup(ds: seq<Directive>, name: string): Option<Directive> {
    if ds == [] then None
    else if ds[0].name == name && ds[0].effective then Some(ds[0])
    else Lookup(ds[1..], name)
  }

  lemma {:induction false} LookupTells(ds: seq<Directive>, name: string)
    ensures Lookup(ds, name).Some? ==>
      exists j :: EffectiveAt(ds, j, name) && ds[j] == Lookup(ds, name).value && forall i :: i < j ==> !EffectiveAt(ds, i, name)
    ensures Lookup(ds, name).None? ==> forall j :: !EffectiveAt(ds, j, name)
  {
    if ds != [] && !(ds[0].name == name && ds[0].effective) {
      LookupTells(ds[1..], name);
      if Lookup(ds, name).Some? {
        var j :| EffectiveAt(ds[1..], j, name) && ds[1..][j] == Lookup(ds, name).value && forall i :: i < j ==> !EffectiveAt(ds[1..], i, name);
        forall i | i < j + 1 ensures !EffectiveAt(ds, i, name) {
          assert !EffectiveAt(ds[1..], i - 1, name);
        }
        assert EffectiveAt(ds, j + 1, name);
      } else {
        forall j ensures !EffectiveAt(ds, j, name) {
          assert !EffectiveAt(ds[1..], j - 1, name);
        }
      }
    } else if ds != [] {
      assert EffectiveAt(ds, 0, name);
    }
  }

  lemma {:induction false} LookupOfConcat(ds: seq<Directive>, d: Directive, name: string)
    ensures Lookup(ds + [d], name) ==
      if Lookup(ds, name).Some? then Lookup(ds, name) else if d.name == name && d.effective then Some(d) else None
  {
    if ds == [] {
      assert ds + [d] == [d];
    } else {
      Lists.TailOfConcat(ds, [d]);
      LookupOfConcat(ds[1..], d, name);
    }
  }

  lemma ViewsNext(view: map<string, string>, ds: seq<Directive>, d: Directive)
    requires forall name :: Views(view, ds, name)
    ensures var more := if d.effective && d.name !in view then view[d.name := d.rawValue] else view;
            forall name :: Views(more, ds + [d], name)
  {
    var more := if d.effective && d.name !in view then view[d.name := d.rawValue] else view;
    forall name: string ensures Views(more, ds + [d], name) {
      LookupOfConcat(ds, d, name);
      assert Views(view, ds, name);
    }
  }

  /** The compatibility view answers for every name as `first_directive` of the first policy does. */
  method ContentSecurityPolicyDirectives(value: string, lex: Lexis) returns (view: map<string, string>)
    ensures var policies := PoliciesOf(Splits(value, At(','), None), lex);
            && (policies == [] ==> view == map[])
            && (policies != [] ==> forall name :: Views(view, policies[0].directives, name))
  {
    var parsed := ParseCspHeaderValue(value, lex);
    view := map[];
    if parsed.policies == [] { return; }
    var ds := parsed.policies[0].directives;
    for i := 0 to |ds|
      invariant forall name :: Views(view, ds[..i], name)
    {
      Lists.PrefixSnoc(ds, i);
      ViewsNext(view, ds[..i], ds[i]);
      if ds[i].effective && ds[i].name !in view { view := view[ds[i].name := ds[i].rawValue]; }
    }
    Lists.Whole(ds);
  }

  ghost predicate Views(view: map<string, string>, ds: seq<Directive>, name: string) {
    && (name in view <==> Lookup(ds, name).Some?)
    && (name in view ==> view[name] == Lookup(ds, name).value.rawValue)
  }

  // ---------------------------------------------------------------- what a member says

  predicate AllSpaces(text: string, isSpace: char -> bool) {
    forall i :: 0 <= i < |text| ==> isSpace(text[i])
  }

  predicate NoSpaces(text: string, isSpace: char -> bool) {
    forall i :: 0 <= i < |text| ==> !isSpace(text[i])
  }

  /** Nothing to strip at either end. */
  predicate Stripped(text: string, isSpace: char -> bool) {
    text == "" || (!isSpace(text[0]) && !isSpace(text[|text| - 1]))
  }

  lemma {:induction false} DropLeftTells(text: string, isSpace: char -> bool)
    ensures var rest := DropLeft(text, isSpace);
            && |rest| <= |text| && text[|text| - |rest|..] == rest
            && AllSpaces(text[..|text| - |rest|], isSpace) && (rest != "" ==> !isSpace(rest[0]))
  {
    if text != "" && isSpace(text[0]) {
      DropLeftTells(text[1..], isSpace);
      var n := |text| - |DropLeft(text, isSpace)|;
      assert text[..n] == [text[0]] + text[1..][..n - 1];
    } else {
      assert text[..0] == "";
    }
  }

  lemma {:induction false} DropRightOfStripped(text: string, isSpace: char -> bool)
    requires Stripped(text, isSpace)
    ensures Strip(text, isSpace) == text
  {
  }

  lemma {:induction false} FirstWordTells(text: string, isSpace: char -> bool)
    ensures var word := FirstWord(text, isSpace);
            && NoSpaces(word, isSpace) && (|word| < |text| ==> isSpace(text[|word|]))
  {
    if text != "" && !isSpace(text[0]) { FirstWordTells(text[1..], isSpace); }
  }

  lemma ValueReads(rest: string, isSpace: char -> bool) returns (gap: string)
    requires rest != "" ==> isSpace(rest[0]) && !isSpace(rest[|rest| - 1])
    ensures rest == gap + Strip(rest, isSpace)
    ensures AllSpaces(gap, isSpace) && Stripped(Strip(rest, isSpace), isSpace)
    ensures gap == "" <==> Strip(rest, isSpace) == ""
  {
    DropLeftTells(rest, isSpace);
    var value := DropLeft(rest, isSpace);
    gap := rest[..|rest| - |value|];
    assert rest == gap + value;
    assert forall i :: 0 <= i < |gap| ==> isSpace(rest[i]);
    assert value != "" ==> value[|value| - 1] == rest[|rest| - 1];
  }

  /** A stripped, non-empty member is its name, white space, and its value: the name has no white space, the value is
      stripped, and without white space there is no value. */
  lemma MemberReads(text: string, k: nat, earlier: Option<nat>, lex: Lexis) returns (gap: string)
    requires text != "" && Stripped(text, lex.isSpace)
    ensures var d := ParseMember(text, k, earlier, lex);
            && text == d.rawName + (gap + d.rawValue)
            && d.rawName != "" && NoSpaces(d.rawName, lex.isSpace) && AllSpaces(gap, lex.isSpace)
            && Stripped(d.rawValue, lex.isSpace) && (gap == "" <==> d.rawValue == "")
  {
    var word, rest := FirstWord(text, lex.isSpace), AfterWord(text, lex.isSpace);
    FirstWordTells(text, lex.isSpace);
    assert text == word + rest;
    assert rest != "" ==> rest[0] == text[|word|] && rest[|rest| - 1] == text[|text| - 1];
    gap := ValueReads(rest, lex.isSpace);
  }

  lemma {:induction false} FirstWordOf(word: string, rest: string, isSpace: char -> bool)
    requires NoSpaces(word, isSpace) && (rest != "" ==> isSpace(rest[0]))
    ensures FirstWord(word + rest, isSpace) == word
  {
    if word == "" {
      assert word + rest == rest;
    } else {
      Lists.TailOfConcat(word, rest);
      FirstWordOf(word[1..], rest, isSpace);
    }
  }

  lemma {:induction false} DropLeftOf(gap: string, value: string, isSpace: char -> bool)
    requires AllSpaces(gap, isSpace) && (value != "" ==> !isSpace(value[0]))
    ensures DropLeft(gap + value, isSpace) == value
  {
    if gap == "" {
      assert gap + value == value;
    } else {
      Lists.TailOfConcat(gap, value);
      DropLeftOf(gap[1..], value, isSpace);
    }
  }

  /** Conversely, a name and a value written with white space between them are read back. */
  lemma MemberReadsBack(name: string, gap: string, value: string, k: nat, earlier: Option<nat>, lex: Lexis)
    requires NoSpaces(name, lex.isSpace) && AllSpaces(gap, lex.isSpace) && gap != ""
    requires value != "" && Stripped(value, lex.isSpace)
    ensures var d := ParseMember(name + (gap + value), k, earlier, lex); d.rawName == name && d.rawValue == value
  {
    FirstWordOf(name, gap + value, lex.isSpace);
    assert (name + (gap + value))[|name|..] == gap + value;
    DropLeftOf(gap, value, lex.isSpace);
    DropRightOfStripped(value, lex.isSpace);
  }

  /** Words joined by a white-space character are split back into the same words. */
  lemma {:induction false} WordsOfJoin(words: seq<string>, space: char, isSpace: char -> bool)
    requires words != [] && isSpace(space)
    requires forall i :: 0 <= i < |words| ==> words[i] != "" && NoSpaces(words[i], isSpace)
    ensures Words(Join(words, space), isSpace) == words
  {
    var text := Join(words, space);
    if |words| == 1 {
      FirstWordOf(words[0], "", isSpace);
      assert words[0] + "" == words[0];
      assert Words("", isSpace) == [];
    } else {
      var rest := [space] + Join(words[1..], space);
      assert text == words[0] + rest;
      FirstWordOf(words[0], rest, isSpace);
      assert text[|words[0]|..] == rest;
      assert rest[1..] == Join(words[1..], space);
      WordsOfJoin(words[1..], space, isSpace);
      assert Words(rest, isSpace) == Words(rest[1..], isSpace);
    }
  }

  // ---------------------------------------------------------------- one issue list, two sides

  /** The issues about one member of the policy list. */
  function About(issues: seq<Issue>, p: nat): seq<Issue> {
    if issues == [] then []
    else if issues[0].policyIndex == Some(p) then [issues[0]] + About(issues[1..], p)
    else About(issues[1..], p)
  }

  lemma {:induction false} AboutConcat(a: seq<Issue>, b: seq<Issue>, p: nat)
    ensures About(a + b, p) == About(a, p) + About(b, p)
  {
    if a == [] {
      assert a + b == b;
    } else {
      Lists.TailOfConcat(a, b);
      AboutConcat(a[1..], b, p);
    }
  }

  lemma {:induction false} AboutAll(issues: seq<Issue>, p: nat, q: nat)
    requires forall issue :: issue in issues ==> issue.policyIndex == Some(p)
    ensures About(issues, q) == if p == q then issues else []
  {
    if issues != [] { AboutAll(issues[1..], p, q); }
  }

  lemma {:induction false} NothingAbout(issues: seq<Issue>, q: nat)
    requires forall issue :: issue in issues ==> issue.policyIndex != Some(q)
    ensures About(issues, q) == []
  {
    if issues != [] { NothingAbout(issues[1..], q); }
  }

  lemma PartAbout(part: string, n: nat, q: nat, lex: Lexis)
    ensures About(PartIssues(part, n, lex), q) == if n == q then PartIssues(part, n, lex) else []
  {
    IssuesArePlaced(Members(Strip(part, lex.isSpace)), n, lex);
    AboutAll(PartIssues(part, n, lex), n, q);
  }

  lemma HeaderStep(parts: seq<string>, q: nat, lex: Lexis)
    requires parts != []
    ensures var n := |parts| - 1;
            About(HeaderIssues(parts, lex), q) == About(HeaderIssues(parts[..n], lex), q) + About(PartIssues(parts[n], n, lex), q)
  {
    var n := |parts| - 1;
    AboutConcat(HeaderIssues(parts[..n], lex), PartIssues(parts[n], n, lex), q);
  }

  lemma {:induction false} HeaderAbout(parts: seq<string>, q: nat, lex: Lexis)
    requires q < |parts|
    ensures About(HeaderIssues(parts, lex), q) == PartIssues(parts[q], q, lex)
  {
    var n := |parts| - 1;
    HeaderStep(parts, q, lex);
    PartAbout(parts[n], n, q, lex);
    if q < n {
      HeaderAbout(parts[..n], q, lex);
    } else {
      HeaderIssuesArePlaced(parts[..n], lex);
      NothingAbout(HeaderIssues(parts[..n], lex), q);
    }
  }

  lemma {:induction false} PoliciesPlaced(parts: seq<string>, lex: Lexis, i: nat)
    requires i < |PoliciesOf(parts, lex)|
    ensures var policy := PoliciesOf(parts, lex)[i];
            && policy.policyIndex < |parts|
            && Strip(parts[policy.policyIndex], lex.isSpace) == policy.rawText != ""
            && policy == PolicyOf(policy.rawText, policy.policyIndex, lex)
  {
    var n := |parts| - 1;
    if i < |PoliciesOf(parts[..n], lex)| { PoliciesPlaced(parts[..n], lex, i); }
  }

  /** Each policy's issues are the header's issues about that policy, in the same order. */
  lemma PolicyIssuesAreHeaderIssues(value: string, lex: Lexis, i: nat)
    requires i < |PoliciesOf(Splits(value, At(','), None), lex)|
    ensures var parts := Splits(value, At(','), None);
            var policy := PoliciesOf(parts, lex)[i];
            policy.issues == About(Opening(value, lex) + HeaderIssues(parts, lex), policy.policyIndex)
  {
    var parts := Splits(value, At(','), None);
    var policy := PoliciesOf(parts, lex)[i];
    PoliciesPlaced(parts, lex, i);
    AboutConcat(Opening(value, lex), HeaderIssues(parts, lex), policy.policyIndex);
    NothingAbout(Opening(value, lex), policy.policyIndex);
    HeaderAbout(parts, policy.policyIndex, lex);
  }

  // ---------------------------------------------------------------- the dynamic-structure issue

  lemma {:induction false} StripLeft(c: char, text: string, isSpace: char -> bool)
    requires isSpace(c)
    ensures Strip([c] + text, isSpace) == Strip(text, isSpace)
  {
    assert ([c] + text)[1..] == text;
  }

  lemma {:induction false} DropLeftGrows(text: string, c: char, isSpace: char -> bool)
    requires isSpace(c)
    ensures DropLeft(text + [c], isSpace) == if DropLeft(text, isSpace) == "" then "" else DropLeft(text, isSpace) + [c]
  {
    if text == "" {
      assert text + [c] == [c] && [c][1..] == "";
    } else {
      Lists.TailOfConcat(text, [c]);
      if isSpace(text[0]) { DropLeftGrows(text[1..], c, isSpace); }
    }
  }

  lemma StripRight(text: string, c: char, isSpace: char -> bool)
    requires isSpace(c)
    ensures Strip(text + [c], isSpace) == Strip(text, isSpace)
  {
    DropLeftGrows(text, c, isSpace);
    var left := DropLeft(text, isSpace);
    if left != "" { assert (left + [c])[..|left|] == left; }
  }

  function StripEach(parts: seq<string>, isSpace: char -> bool): (stripped: seq<string>)
    ensures |stripped| == |parts|
    ensures forall i :: 0 <= i < |parts| ==> stripped[i] == Strip(parts[i], isSpace)
  {
    if parts == [] then [] else [Strip(parts[0], isSpace)] + StripEach(parts[1..], isSpace)
  }

  lemma SpaceInFront(c: char, text: string, lex: Lexis)
    requires Sane(lex) && lex.isSpace(c)
    ensures StripEach(Members([c] + text), lex.isSpace) == StripEach(Members(text), lex.isSpace)
  {
    SplitsFront(c, text, At(';'), None);
    StripLeft(c, Members(text)[0], lex.isSpace);
  }

  lemma SpaceBehind(text: string, c: char, lex: Lexis)
    requires Sane(lex) && lex.isSpace(c)
    ensures StripEach(Members(text + [c]), lex.isSpace) == StripEach(Members(text), lex.isSpace)
  {
    var parts := Members(text);
    SplitsGrow(text, c, At(';'), None);
    StripRight(parts[|parts| - 1], c, lex.isSpace);
    var more := Grow(parts, c, false);
    assert Members(text + [c]) == more;
    forall i | 0 <= i < |parts| ensures Strip(more[i], lex.isSpace) == Strip(parts[i], lex.isSpace) {}
  }

  lemma {:induction false} MembersOfDropLeft(text: string, lex: Lexis)
    requires Sane(lex)
    ensures StripEach(Members(DropLeft(text, lex.isSpace)), lex.isSpace) == StripEach(Members(text), lex.isSpace)
  {
    if text != "" && lex.isSpace(text[0]) {
      MembersOfDropLeft(text[1..], lex);
      SpaceInFront(text[0], text[1..], lex);
      assert text == [text[0]] + text[1..];
    }
  }

  lemma {:induction false} MembersOfDropRight(text: string, lex: Lexis)
    requires Sane(lex)
    ensures StripEach(Members(DropRight(text, lex.isSpace)), lex.isSpace) == StripEach(Members(text), lex.isSpace)
  {
    if text != "" && lex.isSpace(text[|text| - 1]) {
      var n := |text| - 1;
      MembersOfDropRight(text[..n], lex);
      SpaceBehind(text[..n], text[n], lex);
      assert text == text[..n] + [text[n]];
    }
  }

  /** Stripping a policy first changes none of its stripped members. */
  lemma MembersOfStripped(text: string, lex: Lexis)
    requires Sane(lex)
    ensures StripEach(Members(Strip(text, lex.isSpace)), lex.isSpace) == StripEach(Members(text), lex.isSpace)
  {
    MembersOfDropLeft(text, lex);
    MembersOfDropRight(DropLeft(text, lex.isSpace), lex);
  }

  ghost predicate SomeDynamic(ds: seq<Directive>, lex: Lexis) {
    exists d :: d in ds && lex.dynamic(d.rawName)
  }

  lemma SomeDynamicOfConcat(ds: seq<Directive>, last: Directive, lex: Lexis)
    ensures SomeDynamic(ds + [last], lex) <==> SomeDynamic(ds, lex) || lex.dynamic(last.rawName)
  {
    assert forall d :: d in ds + [last] <==> d in ds || d == last;
  }

  ghost predicate SomeMember(members: seq<string>, lex: Lexis) {
    exists m :: m in members && DynamicMember(m, lex)
  }

  lemma SomeMemberOfConcat(members: seq<string>, lex: Lexis)
    requires members != []
    ensures var n := |members| - 1;
            SomeMember(members, lex) <==> SomeMember(members[..n], lex) || DynamicMember(members[n], lex)
  {
    var n := |members| - 1;
    assert forall m :: m in members <==> m in members[..n] || m == members[n] by {
      assert members == members[..n] + [members[n]];
    }
  }

  lemma {:induction false} DirectivesTell(members: seq<string>, lex: Lexis)
    ensures SomeDynamic(DirectivesOf(members, lex), lex) <==> SomeMember(members, lex)
  {
    if members != [] {
      var n := |members| - 1;
      DirectivesTell(members[..n], lex);
      SomeMemberOfConcat(members, lex);
      var text, before := Strip(members[n], lex.isSpace), DirectivesOf(members[..n], lex);
      if text != "" {
        SomeDynamicOfConcat(before, ParseMember(text, n, FirstIndex(before, lex.lower(FirstWord(text, lex.isSpace))), lex), lex);
      }
    }
  }

  lemma PolicyTells(part: string, p: nat, lex: Lexis)
    requires Sane(lex)
    ensures DynamicPolicy(PolicyOf(Strip(part, lex.isSpace), p, lex), lex) <==> DynamicPart(part, lex)
  {
    var text := Strip(part, lex.isSpace);
    DirectivesTell(Members(text), lex);
    MembersOfStripped(part, lex);
    var a, b := Members(text), Members(part);
    assert |a| == |StripEach(a, lex.isSpace)| == |b|;
    forall k | 0 <= k < |a| ensures DynamicMember(a[k], lex) <==> DynamicMember(b[k], lex) {
      assert StripEach(a, lex.isSpace)[k] == StripEach(b, lex.isSpace)[k];
      assert a[k] in a && b[k] in b;
    }
    if SomeMember(b, lex) {
      var k :| 0 <= k < |b| && DynamicMember(b[k], lex);
      assert DynamicMember(a[k], lex);
    }
  }

  ghost predicate DynamicPolicy(policy: Policy, lex: Lexis) {
    SomeDynamic(policy.directives, lex)
  }

  ghost predicate SomePolicy(policies: seq<Policy>, lex: Lexis) {
    exists policy :: policy in policies && DynamicPolicy(policy, lex)
  }

  ghost predicate SomePart(parts: seq<string>, lex: Lexis) {
    exists part :: part in parts && DynamicPart(part, lex)
  }

  lemma SomePolicyOfConcat(policies: seq<Policy>, last: Policy, lex: Lexis)
    ensures SomePolicy(policies + [last], lex) <==> SomePolicy(policies, lex) || DynamicPolicy(last, lex)
  {
    assert forall p :: p in policies + [last] <==> p in policies || p == last;
  }

  lemma SomePartOfConcat(parts: seq<string>, lex: Lexis)
    requires parts != []
    ensures var n := |parts| - 1; SomePart(parts, lex) <==> SomePart(parts[..n], lex) || DynamicPart(parts[n], lex)
  {
    var n := |parts| - 1;
    assert forall p :: p in parts <==> p in parts[..n] || p == parts[n] by { assert parts == parts[..n] + [parts[n]]; }
  }

  lemma {:induction false} PoliciesTell(parts: seq<string>, lex: Lexis)
    requires Sane(lex)
    ensures SomePolicy(PoliciesOf(parts, lex), lex) <==> SomePart(parts, lex)
  {
    if parts != [] {
      var n := |parts| - 1;
      PoliciesTell(parts[..n], lex);
      SomePartOfConcat(parts, lex);
      var text := Strip(parts[n], lex.isSpace);
      PolicyTells(parts[n], n, lex);
      if text == "" {
        EmptyPolicyIsStatic(parts[n], n, lex);
      } else {
        SomePolicyOfConcat(PoliciesOf(parts[..n], lex), PolicyOf(text, n, lex), lex);
      }
    }
  }

  ghost predicate DynamicPart(part: string, lex: Lexis) {
    SomeMember(Members(part), lex)
  }

  lemma EmptyPolicyIsStatic(part: string, p: nat, lex: Lexis)
    requires Sane(lex) && Strip(part, lex.isSpace) == ""
    ensures !DynamicPart(part, lex)
  {
    PolicyTells(part, p, lex);
    assert Members("") == [""];
    assert [""][..0] == [] && DirectivesOf([""], lex) == [];
  }

  /** The dynamic-structure issue is raised exactly when a directive that was parsed has a variable in its name,
      although it is decided on the unstripped text before anything is parsed. */
  lemma DynamicMeansParsed(value: string, lex: Lexis)
    requires Sane(lex)
    ensures var policies := PoliciesOf(Splits(value, At(','), None), lex);
            Opening(value, lex) == [DYNAMIC] <==> SomePolicy(policies, lex)
  {
    var parts := Splits(value, At(','), None);
    PoliciesTell(parts, lex);
    if SomePart(parts, lex) {
      var part :| part in parts && DynamicPart(part, lex);
      var i :| 0 <= i < |parts| && parts[i] == part;
      var members := Members(part);
      var k :| 0 <= k < |members| && DynamicMember(members[k], lex);
      assert DynamicAt(value, i, k, lex);
    }
    if exists i, k :: DynamicAt(value, i, k, lex) {
      var i, k :| DynamicAt(value, i, k, lex);
      assert DynamicPart(parts[i], lex);
    }
  }
}
