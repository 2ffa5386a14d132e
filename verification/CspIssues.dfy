/** What the parser's output means, read off the members of the header: which directive stands where, and which defect
    each issue reports. */
module CspIssues {
  import opened Prelude
  import opened Texts
  import opened CspSplit
  import opened CspParser
  import Lists

  // ---------------------------------------------------------------- members

  /** The raw name of a member that is not empty, and its lower-cased form. */
  function RawName(member: string, lex: Lexis): string {
    FirstWord(Strip(member, lex.isSpace), lex.isSpace)
  }

  function NameOf(member: string, lex: Lexis): string {
    lex.lower(RawName(member, lex))
  }

  function ValueOf(member: string, lex: Lexis): string {
    Strip(AfterWord(Strip(member, lex.isSpace), lex.isSpace), lex.isSpace)
  }

  /** Member j is the first with this name. */
  ghost predicate FirstNamed(members: seq<string>, name: string, j: int, lex: Lexis) {
    && 0 <= j < |members| && Strip(members[j], lex.isSpace) != "" && NameOf(members[j], lex) == name
    && forall i :: 0 <= i < j && Strip(members[i], lex.isSpace) != "" ==> NameOf(members[i], lex) != name
  }

  /** Some member before k has the name of member k. */
  ghost predicate Repeated(members: seq<string>, k: int, lex: Lexis)
    requires 0 <= k < |members|
  {
    exists j :: 0 <= j < k && Strip(members[j], lex.isSpace) != "" && NameOf(members[j], lex) == NameOf(members[k], lex)
  }

  lemma FirstNamedFront(members: seq<string>, name: string, j: int, lex: Lexis)
    requires members != [] && j < |members| - 1
    ensures FirstNamed(members[..|members| - 1], name, j, lex) <==> FirstNamed(members, name, j, lex)
  {
    var front := members[..|members| - 1];
    assert forall i :: 0 <= i < |front| ==> front[i] == members[i];
  }

  lemma DirectiveNext(members: seq<string>, name: string, lex: Lexis)
    requires members != []
    ensures var n := |members| - 1;
            var before := FirstIndex(DirectivesOf(members[..n], lex), name);
            FirstIndex(DirectivesOf(members, lex), name) ==
              if before.Some? then before
              else if Strip(members[n], lex.isSpace) != "" && NameOf(members[n], lex) == name then Some(n) else None
  {
    var n := |members| - 1;
    var text, before := Strip(members[n], lex.isSpace), DirectivesOf(members[..n], lex);
    if text != "" {
      FirstIndexOfConcat(before, ParseMember(text, n, FirstIndex(before, lex.lower(FirstWord(text, lex.isSpace))), lex), name);
    }
  }

  /** A name is remembered exactly when some member carries it, */
  lemma {:induction false} RememberedIfNamed(members: seq<string>, name: string, lex: Lexis)
    ensures FirstIndex(DirectivesOf(members, lex), name).None? <==>
      forall j :: 0 <= j < |members| && Strip(members[j], lex.isSpace) != "" ==> NameOf(members[j], lex) != name
  {
    if members != [] {
      var n := |members| - 1;
      RememberedIfNamed(members[..n], name, lex);
      DirectiveNext(members, name, lex);
      assert forall i :: 0 <= i < n ==> members[..n][i] == members[i];
    }
  }

  /** with the first member that does. */
  lemma {:induction false} RememberedIsFirst(members: seq<string>, name: string, lex: Lexis)
    requires FirstIndex(DirectivesOf(members, lex), name).Some?
    ensures FirstNamed(members, name, FirstIndex(DirectivesOf(members, lex), name).value, lex)
  {
    var n := |members| - 1;
    DirectiveNext(members, name, lex);
    var before := FirstIndex(DirectivesOf(members[..n], lex), name);
    if before.Some? {
      RememberedIsFirst(members[..n], name, lex);
      FirstNamedFront(members, name, before.value, lex);
    } else {
      RememberedIfNamed(members[..n], name, lex);
      assert forall i :: 0 <= i < n ==> members[..n][i] == members[i];
    }
  }

  lemma RepeatedExactly(members: seq<string>, k: nat, lex: Lexis)
    requires k < |members|
    ensures FirstIndex(DirectivesOf(members[..k], lex), NameOf(members[k], lex)).None? <==> !Repeated(members, k, lex)
  {
    RememberedIfNamed(members[..k], NameOf(members[k], lex), lex);
    assert forall i :: 0 <= i < k ==> members[..k][i] == members[i];
  }

  // ---------------------------------------------------------------- directives and policies

  /** The directive that member k gives: it is in force unless an earlier member has its name, and then it refers to
      the first that has. */
  ghost predicate Gives(members: seq<string>, k: int, d: Directive, lex: Lexis) {
    && 0 <= k < |members| && Strip(members[k], lex.isSpace) != ""
    && d.directiveIndex == k
    && d.rawName == RawName(members[k], lex) && d.name == NameOf(members[k], lex) && d.rawValue == ValueOf(members[k], lex)
    && |d.tokens| == |Words(d.rawValue, lex.isSpace)|
    && (forall t :: 0 <= t < |d.tokens| ==>
          && d.tokens[t].raw == Words(d.rawValue, lex.isSpace)[t]
          && (d.tokens[t].valid <==> lex.tokenIssue(d.name, d.tokens[t].raw).None?))
    && (d.effective <==> !Repeated(members, k, lex))
    && (d.duplicateOf.None? <==> !Repeated(members, k, lex))
    && (d.duplicateOf.Some? ==> d.duplicateOf.value < k && FirstNamed(members, d.name, d.duplicateOf.value, lex))
  }

  lemma MemberGives(members: seq<string>, k: nat, lex: Lexis)
    requires k < |members| && Strip(members[k], lex.isSpace) != ""
    ensures Gives(members, k, ParseMember(Strip(members[k], lex.isSpace), k,
                                          FirstIndex(DirectivesOf(members[..k], lex), NameOf(members[k], lex)), lex), lex)
  {
    RepeatedExactly(members, k, lex);
    var found := FirstIndex(DirectivesOf(members[..k], lex), NameOf(members[k], lex));
    if found.Some? {
      RememberedIsFirst(members[..k], NameOf(members[k], lex), lex);
      assert forall i :: 0 <= i < k ==> members[..k][i] == members[i];
    }
  }

  lemma GivesStays(members: seq<string>, k: int, d: Directive, lex: Lexis)
    requires members != [] && k < |members| - 1
    ensures Gives(members[..|members| - 1], k, d, lex) <==> Gives(members, k, d, lex)
  {
    var front := members[..|members| - 1];
    assert forall i :: 0 <= i < |front| ==> front[i] == members[i];
    if 0 <= k && d.duplicateOf.Some? && d.duplicateOf.value < k { FirstNamedFront(members, d.name, d.duplicateOf.value, lex); }
  }

  /** Every directive of a policy is given by one of its members, */
  lemma {:induction false} DirectiveIsGiven(members: seq<string>, lex: Lexis, d: Directive)
    requires d in DirectivesOf(members, lex)
    ensures Gives(members, d.directiveIndex, d, lex)
  {
    var n := |members| - 1;
    var before := DirectivesOf(members[..n], lex);
    if d in before {
      DirectiveIsGiven(members[..n], lex, d);
      GivesStays(members, d.directiveIndex, d, lex);
    } else {
      MemberGives(members, n, lex);
    }
  }

  /** and every member that is not empty gives one. */
  lemma {:induction false} MemberIsHeard(members: seq<string>, lex: Lexis, k: nat) returns (d: Directive)
    requires k < |members| && Strip(members[k], lex.isSpace) != ""
    ensures d in DirectivesOf(members, lex) && Gives(members, k, d, lex)
  {
    var n := |members| - 1;
    if k < n {
      d := MemberIsHeard(members[..n], lex, k);
      GivesStays(members, k, d, lex);
    } else {
      MemberGives(members, n, lex);
      d := ParseMember(Strip(members[n], lex.isSpace), n, FirstIndex(DirectivesOf(members[..n], lex), NameOf(members[n], lex)), lex);
    }
  }

  // ---------------------------------------------------------------- issues

  /** The defects of a member that is not empty, apart from its tokens: a malformed name, an unknown one, a repeated one. */
  ghost predicate NameDefect(members: seq<string>, k: int, code: string, fatal: bool, lex: Lexis)
    requires 0 <= k < |members|
  {
    || (code == "invalid-directive-name" && fatal && !lex.validName(RawName(members[k], lex)))
    || (code == "unknown-directive" && !fatal && !lex.known(NameOf(members[k], lex)))
    || (code == "duplicate-directive" && !fatal && Repeated(members, k, lex))
  }

  /** The issue reports a defect of member k of policy p: nothing in it, its name, or one of its tokens. */
  ghost predicate MemberDefect(issue: Issue, members: seq<string>, p: nat, k: int, lex: Lexis) {
    && 0 <= k < |members|
    && issue.policyIndex == Some(p) && issue.directiveIndex == Some(k)
    && if Strip(members[k], lex.isSpace) == "" then
         issue.code == "empty-directive-member" && issue.tokenIndex.None? && !issue.fatal
       else if issue.tokenIndex.None? then NameDefect(members, k, issue.code, issue.fatal, lex)
       else
         var words := Words(ValueOf(members[k], lex), lex.isSpace);
         && issue.tokenIndex.value < |words| && !issue.fatal
         && lex.tokenIssue(NameOf(members[k], lex), words[issue.tokenIndex.value]) == Some(issue.code)
  }

  lemma {:induction false} TokenIssueMembers(name: string, words: seq<string>, p: nat, k: nat, lex: Lexis, issue: Issue)
    ensures issue in TokenIssues(name, words, p, k, lex) <==>
      && issue.policyIndex == Some(p) && issue.directiveIndex == Some(k) && !issue.fatal
      && issue.tokenIndex.Some? && issue.tokenIndex.value < |words|
      && lex.tokenIssue(name, words[issue.tokenIndex.value]) == Some(issue.code)
  {
    if words != [] {
      var n := |words| - 1;
      TokenIssueMembers(name, words[..n], p, k, lex, issue);
    }
  }

  lemma MemberIssueMembers(members: seq<string>, p: nat, k: nat, lex: Lexis, issue: Issue)
    requires k < |members|
    ensures var earlier := FirstIndex(DirectivesOf(members[..k], lex), NameOf(members[k], lex));
            issue in MemberIssues(Strip(members[k], lex.isSpace), p, k, earlier, lex) <==> MemberDefect(issue, members, p, k, lex)
  {
    var text := Strip(members[k], lex.isSpace);
    RepeatedExactly(members, k, lex);
    if text != "" {
      TokenIssueMembers(NameOf(members[k], lex), Words(ValueOf(members[k], lex), lex.isSpace), p, k, lex, issue);
      var earlier := FirstIndex(DirectivesOf(members[..k], lex), NameOf(members[k], lex));
      HeadIssueMembers(text, p, k, earlier, lex, issue);
    }
  }

  lemma HeadIssueMembers(text: string, p: nat, k: nat, earlier: Option<nat>, lex: Lexis, issue: Issue)
    ensures issue in HeadIssues(text, p, k, earlier, lex) <==>
      && issue.policyIndex == Some(p) && issue.directiveIndex == Some(k) && issue.tokenIndex.None?
      && (|| (issue.code == "invalid-directive-name" && issue.fatal && !lex.validName(FirstWord(text, lex.isSpace)))
          || (issue.code == "unknown-directive" && !issue.fatal && !lex.known(lex.lower(FirstWord(text, lex.isSpace))))
          || (issue.code == "duplicate-directive" && !issue.fatal && earlier.Some?))
  {
  }

  lemma DefectStays(issue: Issue, members: seq<string>, p: nat, k: int, lex: Lexis)
    requires members != [] && k < |members| - 1
    ensures MemberDefect(issue, members[..|members| - 1], p, k, lex) <==> MemberDefect(issue, members, p, k, lex)
  {
    assert forall i :: 0 <= i < |members| - 1 ==> members[..|members| - 1][i] == members[i];
  }

  ghost predicate SomeMemberDefect(issue: Issue, members: seq<string>, p: nat, lex: Lexis) {
    exists k :: MemberDefect(issue, members, p, k, lex)
  }

  lemma SomeDefectNext(issue: Issue, members: seq<string>, p: nat, lex: Lexis)
    requires members != []
    ensures SomeMemberDefect(issue, members, p, lex) <==>
      SomeMemberDefect(issue, members[..|members| - 1], p, lex) || MemberDefect(issue, members, p, |members| - 1, lex)
  {
    var n := |members| - 1;
    if k :| MemberDefect(issue, members, p, k, lex) { if k < n { DefectStays(issue, members, p, k, lex); } }
    if k :| MemberDefect(issue, members[..n], p, k, lex) { DefectStays(issue, members, p, k, lex); }
  }

  /** The issues of a policy are the defects of its members. */
  lemma {:induction false} PolicyIssuesExactly(members: seq<string>, p: nat, lex: Lexis, issue: Issue)
    ensures issue in IssuesOf(members, p, lex) <==> SomeMemberDefect(issue, members, p, lex)
  {
    if members != [] {
      var n := |members| - 1;
      PolicyIssuesExactly(members[..n], p, lex, issue);
      MemberIssueMembers(members, p, n, lex, issue);
      SomeDefectNext(issue, members, p, lex);
    }
  }

  /** The issue reports part p of the header: nothing in it, or a defect of one of its members. */
  ghost predicate PartDefect(issue: Issue, parts: seq<string>, p: int, lex: Lexis) {
    && 0 <= p < |parts|
    && if Strip(parts[p], lex.isSpace) == "" then issue == Issue("empty-policy-member", Some(p), None, None, true)
       else SomeMemberDefect(issue, Members(Strip(parts[p], lex.isSpace)), p, lex)
  }

  lemma PartIssueMembers(parts: seq<string>, p: nat, lex: Lexis, issue: Issue)
    requires p < |parts|
    ensures issue in PartIssues(parts[p], p, lex) <==> PartDefect(issue, parts, p, lex)
  {
    PolicyIssuesExactly(Members(Strip(parts[p], lex.isSpace)), p, lex, issue);
  }

  lemma PartDefectStays(issue: Issue, parts: seq<string>, p: int, lex: Lexis)
    requires parts != [] && p < |parts| - 1
    ensures PartDefect(issue, parts[..|parts| - 1], p, lex) <==> PartDefect(issue, parts, p, lex)
  {
    if 0 <= p { assert parts[..|parts| - 1][p] == parts[p]; }
  }

  lemma {:induction false} IssueHasPart(parts: seq<string>, lex: Lexis, issue: Issue) returns (p: nat)
    requires issue in HeaderIssues(parts, lex)
    ensures PartDefect(issue, parts, p, lex)
  {
    var n := |parts| - 1;
    if issue in HeaderIssues(parts[..n], lex) {
      p := IssueHasPart(parts[..n], lex, issue);
      PartDefectStays(issue, parts, p, lex);
    } else {
      p := n;
      PartIssueMembers(parts, n, lex, issue);
    }
  }

  lemma {:induction false} PartHasIssue(parts: seq<string>, lex: Lexis, issue: Issue, p: int)
    requires PartDefect(issue, parts, p, lex)
    ensures issue in HeaderIssues(parts, lex)
  {
    var n := |parts| - 1;
    if p < n {
      PartDefectStays(issue, parts, p, lex);
      PartHasIssue(parts[..n], lex, issue, p);
    } else {
      PartIssueMembers(parts, n, lex, issue);
    }
  }

  ghost predicate SomeDefect(issue: Issue, parts: seq<string>, lex: Lexis) {
    exists p :: PartDefect(issue, parts, p, lex)
  }

  lemma HeaderIssuesExactly(parts: seq<string>, lex: Lexis, issue: Issue)
    ensures issue in HeaderIssues(parts, lex) <==> SomeDefect(issue, parts, lex)
  {
    if issue in HeaderIssues(parts, lex) { var p := IssueHasPart(parts, lex, issue); }
    if SomeDefect(issue, parts, lex) {
      var p :| PartDefect(issue, parts, p, lex);
      PartHasIssue(parts, lex, issue, p);
    }
  }

  /**
   * An issue is raised exactly for what it says: a variable in a directive's name, an empty policy, or a defect of
   * member k of policy p: an empty member, an invalid, unknown or repeated name, or a token with an issue.
   */
  lemma IssuesExactly(parsed: Parsed, value: string, lex: Lexis, issue: Issue)
    requires IsParse(parsed, value, lex)
    ensures issue in parsed.issues <==>
      || (issue == Issue("dynamic-structure", None, None, None, true) && exists i, k :: DynamicAt(value, i, k, lex))
      || SomeDefect(issue, Splits(value, At(','), None), lex)
  {
    HeaderIssuesExactly(Splits(value, At(','), None), lex, issue);
    OpeningMembers(value, lex, issue);
    InParts(Opening(value, lex), HeaderIssues(Splits(value, At(','), None), lex), issue);
  }

  lemma OpeningMembers(value: string, lex: Lexis, issue: Issue)
    ensures issue in Opening(value, lex) <==>
      issue == Issue("dynamic-structure", None, None, None, true) && exists i, k :: DynamicAt(value, i, k, lex)
  {
  }

  lemma InParts(a: seq<Issue>, b: seq<Issue>, issue: Issue)
    ensures issue in a + b <==> issue in a || issue in b
  {
  }

  // ---------------------------------------------------------------- policies

  /** The policy that part p gives. */
  ghost predicate GivesPolicy(parts: seq<string>, p: int, policy: Policy, lex: Lexis) {
    && 0 <= p < |parts| && Strip(parts[p], lex.isSpace) != ""
    && policy.policyIndex == p && policy.rawText == Strip(parts[p], lex.isSpace)
    && (forall d :: d in policy.directives ==> Gives(Members(policy.rawText), d.directiveIndex, d, lex))
    && (forall k :: 0 <= k < |Members(policy.rawText)| && Strip(Members(policy.rawText)[k], lex.isSpace) != "" ==>
          exists d :: d in policy.directives && Gives(Members(policy.rawText), k, d, lex))
    && (forall issue :: issue in policy.issues <==> SomeMemberDefect(issue, Members(policy.rawText), p, lex))
  }

  lemma PartGives(parts: seq<string>, p: nat, lex: Lexis)
    requires p < |parts| && Strip(parts[p], lex.isSpace) != ""
    ensures GivesPolicy(parts, p, PolicyOf(Strip(parts[p], lex.isSpace), p, lex), lex)
  {
    var text := Strip(parts[p], lex.isSpace);
    var members := Members(text);
    forall d | d in DirectivesOf(members, lex) ensures Gives(members, d.directiveIndex, d, lex) { DirectiveIsGiven(members, lex, d); }
    forall k: nat | k < |members| && Strip(members[k], lex.isSpace) != ""
      ensures exists d :: d in DirectivesOf(members, lex) && Gives(members, k, d, lex)
    {
      var d := MemberIsHeard(members, lex, k);
    }
    forall issue ensures issue in IssuesOf(members, p, lex) <==> SomeMemberDefect(issue, members, p, lex) {
      PolicyIssuesExactly(members, p, lex, issue);
    }
  }

  lemma {:induction false} PolicyIsGiven(parts: seq<string>, lex: Lexis, policy: Policy)
    requires policy in PoliciesOf(parts, lex)
    ensures policy.policyIndex < |parts| && Strip(parts[policy.policyIndex], lex.isSpace) != ""
    ensures policy == PolicyOf(Strip(parts[policy.policyIndex], lex.isSpace), policy.policyIndex, lex)
  {
    var n := |parts| - 1;
    if policy in PoliciesOf(parts[..n], lex) {
      PolicyIsGiven(parts[..n], lex, policy);
      assert parts[..n][policy.policyIndex] == parts[policy.policyIndex];
    }
  }

  lemma PoliciesGrow(parts: seq<string>, lex: Lexis, policy: Policy)
    requires parts != []
    ensures var n := |parts| - 1;
            policy in PoliciesOf(parts, lex) <==>
              policy in PoliciesOf(parts[..n], lex)
              || (Strip(parts[n], lex.isSpace) != "" && policy == PolicyOf(Strip(parts[n], lex.isSpace), n, lex))
  {
  }

  lemma PoliciesKeep(parts: seq<string>, lex: Lexis, policy: Policy)
    requires parts != [] && policy in PoliciesOf(parts[..|parts| - 1], lex)
    ensures policy in PoliciesOf(parts, lex)
  {
    PoliciesGrow(parts, lex, policy);
  }

  lemma {:induction false} PoliciesPersist(parts: seq<string>, lex: Lexis, m: nat, policy: Policy)
    requires m <= |parts| && policy in PoliciesOf(parts[..m], lex)
    ensures policy in PoliciesOf(parts, lex)
    decreases |parts| - m
  {
    if m == |parts| {
      Lists.Whole(parts);
    } else {
      Lists.PrefixOfPrefix(parts, m);
      PoliciesKeep(parts[..m + 1], lex, policy);
      PoliciesPersist(parts, lex, m + 1, policy);
    }
  }

  lemma PartIsHeard(parts: seq<string>, lex: Lexis, p: nat)
    requires p < |parts| && Strip(parts[p], lex.isSpace) != ""
    ensures PolicyOf(Strip(parts[p], lex.isSpace), p, lex) in PoliciesOf(parts, lex)
  {
    var policy := PolicyOf(Strip(parts[p], lex.isSpace), p, lex);
    Lists.PrefixOfPrefix(parts, p);
    PoliciesGrow(parts[..p + 1], lex, policy);
    PoliciesPersist(parts, lex, p + 1, policy);
  }

  /** The policies of a header value are those its parts give, each with exactly its directives and issues. */
  lemma PoliciesExactly(parsed: Parsed, value: string, lex: Lexis)
    requires IsParse(parsed, value, lex)
    ensures var parts := Splits(value, At(','), None);
      && (forall policy :: policy in parsed.policies ==> GivesPolicy(parts, policy.policyIndex, policy, lex))
      && (forall p :: 0 <= p < |parts| && Strip(parts[p], lex.isSpace) != "" ==>
            exists policy :: policy in parsed.policies && GivesPolicy(parts, p, policy, lex))
  {
    var parts := Splits(value, At(','), None);
    forall policy | policy in parsed.policies ensures GivesPolicy(parts, policy.policyIndex, policy, lex) {
      PolicyIsGiven(parts, lex, policy);
      PartGives(parts, policy.policyIndex, lex);
    }
    forall p: nat | p < |parts| && Strip(parts[p], lex.isSpace) != ""
      ensures exists policy :: policy in parsed.policies && GivesPolicy(parts, p, policy, lex)
    {
      PartGives(parts, p, lex);
      PartIsHeard(parts, lex, p);
    }
  }

  // ---------------------------------------------------------------- the order of issues

  /** Where an issue belongs: its policy, its directive, and there first the name's defects, then the tokens'. */
  datatype Place = Place(policy: int, directive: int, slot: int)

  function PlaceOf(issue: Issue): Place {
    Place(if issue.policyIndex.Some? then issue.policyIndex.value else -1,
          if issue.directiveIndex.Some? then issue.directiveIndex.value else -1,
          if issue.tokenIndex.Some? then 3 + issue.tokenIndex.value
          else if issue.code == "unknown-directive" then 1 else if issue.code == "duplicate-directive" then 2 else 0)
  }

  predicate Before(a: Place, b: Place) {
    a.policy < b.policy
    || (a.policy == b.policy && (a.directive < b.directive || (a.directive == b.directive && a.slot < b.slot)))
  }

  ghost predicate InOrder(issues: seq<Issue>) {
    forall i, j :: 0 <= i < j < |issues| ==> Before(PlaceOf(issues[i]), PlaceOf(issues[j]))
  }

  lemma OrderOfConcat(a: seq<Issue>, b: seq<Issue>)
    requires InOrder(a) && InOrder(b) && forall x, y :: x in a && y in b ==> Before(PlaceOf(x), PlaceOf(y))
    ensures InOrder(a + b)
  {
    forall i, j | 0 <= i < j < |a + b| ensures Before(PlaceOf((a + b)[i]), PlaceOf((a + b)[j])) {
      if i < |a| <= j { assert a[i] in a && b[j - |a|] in b; }
    }
  }

  lemma {:induction false} TokensInOrder(name: string, words: seq<string>, p: nat, k: nat, lex: Lexis)
    ensures InOrder(TokenIssues(name, words, p, k, lex))
  {
    if words != [] {
      var n := |words| - 1;
      var before, found := TokenIssues(name, words[..n], p, k, lex), lex.tokenIssue(name, words[n]);
      TokensInOrder(name, words[..n], p, k, lex);
      if found.Some? {
        var issue := Issue(found.value, Some(p), Some(k), Some(n), false);
        forall x | x in before ensures Before(PlaceOf(x), PlaceOf(issue)) {
          TokenIssueMembers(name, words[..n], p, k, lex, x);
        }
        OrderOfConcat(before, [issue]);
      }
    }
  }

  lemma HeadInOrder(text: string, p: nat, k: nat, earlier: Option<nat>, lex: Lexis)
    ensures InOrder(HeadIssues(text, p, k, earlier, lex))
  {
    var rawName := FirstWord(text, lex.isSpace);
    var a := Reported(lex.validName(rawName), "invalid-directive-name", p, k, true);
    var b := Reported(lex.known(lex.lower(rawName)), "unknown-directive", p, k, false);
    var c := Reported(earlier.None?, "duplicate-directive", p, k, false);
    OrderOfConcat(a, b);
    OrderOfConcat(a + b, c);
  }

  lemma MemberInOrder(members: seq<string>, p: nat, k: nat, lex: Lexis)
    requires k < |members|
    ensures InOrder(MemberIssues(Strip(members[k], lex.isSpace), p, k,
                                 FirstIndex(DirectivesOf(members[..k], lex), NameOf(members[k], lex)), lex))
  {
    var text, earlier := Strip(members[k], lex.isSpace), FirstIndex(DirectivesOf(members[..k], lex), NameOf(members[k], lex));
    if text != "" {
      var a, b := HeadIssues(text, p, k, earlier, lex), TokenIssues(NameOf(members[k], lex), Words(ValueOf(members[k], lex), lex.isSpace), p, k, lex);
      HeadInOrder(text, p, k, earlier, lex);
      TokensInOrder(NameOf(members[k], lex), Words(ValueOf(members[k], lex), lex.isSpace), p, k, lex);
      forall x, y | x in a && y in b ensures Before(PlaceOf(x), PlaceOf(y)) {
        HeadIssueMembers(text, p, k, earlier, lex, x);
        TokenIssueMembers(NameOf(members[k], lex), Words(ValueOf(members[k], lex), lex.isSpace), p, k, lex, y);
      }
      OrderOfConcat(a, b);
    }
  }

  lemma DefectIsPlaced(issue: Issue, members: seq<string>, p: nat, lex: Lexis)
    requires issue in IssuesOf(members, p, lex)
    ensures PlaceOf(issue).policy == p && 0 <= PlaceOf(issue).directive < |members|
  {
    PolicyIssuesExactly(members, p, lex, issue);
    var k :| MemberDefect(issue, members, p, k, lex);
  }

  lemma {:induction false} PolicyInOrder(members: seq<string>, p: nat, lex: Lexis)
    ensures InOrder(IssuesOf(members, p, lex))
  {
    if members != [] {
      var n := |members| - 1;
      var before := IssuesOf(members[..n], p, lex);
      var added := MemberIssues(Strip(members[n], lex.isSpace), p, n,
                                FirstIndex(DirectivesOf(members[..n], lex), NameOf(members[n], lex)), lex);
      PolicyInOrder(members[..n], p, lex);
      MemberInOrder(members, p, n, lex);
      forall x, y | x in before && y in added ensures Before(PlaceOf(x), PlaceOf(y)) {
        DefectIsPlaced(x, members[..n], p, lex);
        MemberIssueMembers(members, p, n, lex, y);
      }
      OrderOfConcat(before, added);
    }
  }

  lemma PartIsPlaced(issue: Issue, parts: seq<string>, p: nat, lex: Lexis)
    requires p < |parts| && issue in PartIssues(parts[p], p, lex)
    ensures PlaceOf(issue).policy == p
  {
    if Strip(parts[p], lex.isSpace) != "" { DefectIsPlaced(issue, Members(Strip(parts[p], lex.isSpace)), p, lex); }
  }

  lemma {:induction false} PartsInOrder(parts: seq<string>, lex: Lexis)
    ensures InOrder(HeaderIssues(parts, lex))
    ensures forall issue :: issue in HeaderIssues(parts, lex) ==> 0 <= PlaceOf(issue).policy < |parts|
  {
    if parts != [] {
      var n := |parts| - 1;
      var before, added := HeaderIssues(parts[..n], lex), PartIssues(parts[n], n, lex);
      PartsInOrder(parts[..n], lex);
      PolicyInOrder(Members(Strip(parts[n], lex.isSpace)), n, lex);
      forall y | y in added ensures PlaceOf(y).policy == n { PartIsPlaced(y, parts, n, lex); }
      OrderOfConcat(before, added);
    }
  }

  /** Issues come in the order of the text: first about the whole header, then policy by policy, member by member; no
      issue is raised twice. */
  lemma IssuesInOrder(parsed: Parsed, value: string, lex: Lexis)
    requires IsParse(parsed, value, lex)
    ensures InOrder(parsed.issues)
    ensures forall policy :: policy in parsed.policies ==> InOrder(policy.issues)
  {
    var parts := Splits(value, At(','), None);
    PartsInOrder(parts, lex);
    OrderOfConcat(Opening(value, lex), HeaderIssues(parts, lex));
    forall policy | policy in parsed.policies ensures InOrder(policy.issues) {
      PolicyIsGiven(parts, lex, policy);
      PolicyInOrder(Members(policy.rawText), policy.policyIndex, lex);
    }
  }
}
