/** Parsing a Content-Security-Policy header value: policies, directives, tokens, and the two issue lists that
    grow side by side (section 2.2.1 of W3C Content Security Policy Level 3). */
module CspParser {
  import opened Prelude
  import opened Texts
  import opened CspSplit
  import Lists

  /** What regular expressions, character classes and word lists decide. A token has at most one issue. */
  datatype Lexis = Lexis(
    isSpace: char -> bool,
    lower: string -> string,
    validName: string -> bool,
    known: string -> bool,
    dynamic: string -> bool,
    tokenIssue: (string, string) -> Option<string>)

  /** White space neither separates nor quotes. */
  predicate Sane(lex: Lexis) {
    !lex.isSpace(',') && !lex.isSpace(';') && !lex.isSpace('\'') && !lex.isSpace('"')
  }

  datatype Issue = Issue(
    code: string, policyIndex: Option<nat>, directiveIndex: Option<nat>, tokenIndex: Option<nat>, fatal: bool)

  datatype Token = Token(raw: string, valid: bool)

  datatype Directive = Directive(
    name: string, rawName: string, rawValue: string, tokens: seq<Token>,
    directiveIndex: nat, effective: bool, duplicateOf: Option<nat>)

  datatype Policy = Policy(rawText: string, policyIndex: nat, directives: seq<Directive>, issues: seq<Issue>)

  datatype Parsed = Parsed(policies: seq<Policy>, issues: seq<Issue>)

  // ---------------------------------------------------------------- words

  /** `text.split(None, 1)[0]` of a text that starts with a word. */
  function FirstWord(text: string, isSpace: char -> bool): (word: string)
    ensures word <= text
  {
    if text == "" || isSpace(text[0]) then "" else [text[0]] + FirstWord(text[1..], isSpace)
  }

  function AfterWord(text: string, isSpace: char -> bool): string {
    text[|FirstWord(text, isSpace)|..]
  }

  /** `text.split()` */
  function Words(text: string, isSpace: char -> bool): seq<string>
    decreases |text|
  {
    var rest := DropLeft(text, isSpace);
    if rest == "" then []
    else
      DropLeftShrinks(text, isSpace);
      [FirstWord(rest, isSpace)] + Words(AfterWord(rest, isSpace), isSpace)
  }

  // ---------------------------------------------------------------- what a member parses to

  function TokensOf(name: string, words: seq<string>, lex: Lexis): (tokens: seq<Token>)
    ensures |tokens| == |words|
    ensures forall i :: 0 <= i < |words| ==> tokens[i] == Token(words[i], lex.tokenIssue(name, words[i]).None?)
  {
    if words == [] then []
    else
      var n := |words| - 1;
      TokensOf(name, words[..n], lex) + [Token(words[n], lex.tokenIssue(name, words[n]).None?)]
  }

  function TokenIssues(name: string, words: seq<string>, p: nat, k: nat, lex: Lexis): seq<Issue> {
    if words == [] then []
    else
      var n := |words| - 1;
      var before := TokenIssues(name, words[..n], p, k, lex);
      var issue := lex.tokenIssue(name, words[n]);
      if issue.None? then before else before + [Issue(issue.value, Some(p), Some(k), Some(n), false)]
  }

  /** The index of the first directive with a name. */
  function FirstIndex(directives: seq<Directive>, name: string): Option<nat> {
    if directives == [] then None
    else if directives[0].name == name then Some(directives[0].directiveIndex)
    else FirstIndex(directives[1..], name)
  }

  function RawValue(text: string, lex: Lexis): string {
    Strip(AfterWord(text, lex.isSpace), lex.isSpace)
  }

  function ParseMember(text: string, k: nat, earlier: Option<nat>, lex: Lexis): Directive {
    var name := lex.lower(FirstWord(text, lex.isSpace));
    var value := RawValue(text, lex);
    Directive(name, FirstWord(text, lex.isSpace), value, TokensOf(name, Words(value, lex.isSpace), lex), k, earlier.None?, earlier)
  }

  function Reported(holds: bool, code: string, p: nat, k: nat, fatal: bool): seq<Issue> {
    if holds then [] else [Issue(code, Some(p), Some(k), None, fatal)]
  }

  function HeadIssues(text: string, p: nat, k: nat, earlier: Option<nat>, lex: Lexis): seq<Issue> {
    var rawName := FirstWord(text, lex.isSpace);
    Reported(lex.validName(rawName), "invalid-directive-name", p, k, true)
    + Reported(lex.known(lex.lower(rawName)), "unknown-directive", p, k, false)
    + Reported(earlier.None?, "duplicate-directive", p, k, false)
  }

  function MemberIssues(text: string, p: nat, k: nat, earlier: Option<nat>, lex: Lexis): seq<Issue> {
    if text == "" then [Issue("empty-directive-member", Some(p), Some(k), None, false)]
    else
      HeadIssues(text, p, k, earlier, lex)
      + TokenIssues(lex.lower(FirstWord(text, lex.isSpace)), Words(RawValue(text, lex), lex.isSpace), p, k, lex)
  }

  /** The directives of a policy's members: an empty member gives none, a repeated name refers back to the first. */
  function DirectivesOf(members: seq<string>, lex: Lexis): seq<Directive> {
    if members == [] then []
    else
      var n := |members| - 1;
      var before := DirectivesOf(members[..n], lex);
      var text := Strip(members[n], lex.isSpace);
      if text == "" then before
      else before + [ParseMember(text, n, FirstIndex(before, lex.lower(FirstWord(text, lex.isSpace))), lex)]
  }

  function IssuesOf(members: seq<string>, p: nat, lex: Lexis): seq<Issue> {
    if members == [] then []
    else
      var n := |members| - 1;
      var text := Strip(members[n], lex.isSpace);
      var earlier := FirstIndex(DirectivesOf(members[..n], lex), lex.lower(FirstWord(text, lex.isSpace)));
      IssuesOf(members[..n], p, lex) + MemberIssues(text, p, n, earlier, lex)
  }

  function Members(text: string): seq<string> {
    Splits(text, At(';'), None)
  }

  function PolicyOf(text: string, p: nat, lex: Lexis): Policy {
    Policy(text, p, DirectivesOf(Members(text), lex), IssuesOf(Members(text), p, lex))
  }

  function PoliciesOf(parts: seq<string>, lex: Lexis): seq<Policy> {
    if parts == [] then []
    else
      var n := |parts| - 1;
      var before := PoliciesOf(parts[..n], lex);
      var text := Strip(parts[n], lex.isSpace);
      if text == "" then before else before + [PolicyOf(text, n, lex)]
  }

  /** The header's issues about the n-th member of the policy list. */
  function PartIssues(part: string, n: nat, lex: Lexis): seq<Issue> {
    var text := Strip(part, lex.isSpace);
    if text == "" then [Issue("empty-policy-member", Some(n), None, None, true)] else IssuesOf(Members(text), n, lex)
  }

  function HeaderIssues(parts: seq<string>, lex: Lexis): seq<Issue> {
    if parts == [] then []
    else
      var n := |parts| - 1;
      HeaderIssues(parts[..n], lex) + PartIssues(parts[n], n, lex)
  }

  lemma {:induction false} TokenIssuesArePlaced(name: string, words: seq<string>, p: nat, k: nat, lex: Lexis)
    ensures forall issue :: issue in TokenIssues(name, words, p, k, lex) ==> issue.policyIndex == Some(p)
  {
    if words != [] { TokenIssuesArePlaced(name, words[..|words| - 1], p, k, lex); }
  }

  lemma MemberIssuesArePlaced(text: string, p: nat, k: nat, earlier: Option<nat>, lex: Lexis)
    ensures forall issue :: issue in MemberIssues(text, p, k, earlier, lex) ==> issue.policyIndex == Some(p)
  {
    TokenIssuesArePlaced(lex.lower(FirstWord(text, lex.isSpace)), Words(RawValue(text, lex), lex.isSpace), p, k, lex);
    assert forall issue :: issue in HeadIssues(text, p, k, earlier, lex) ==> issue.policyIndex == Some(p);
  }

  lemma {:induction false} IssuesArePlaced(members: seq<string>, p: nat, lex: Lexis)
    ensures forall issue :: issue in IssuesOf(members, p, lex) ==> issue.policyIndex == Some(p)
  {
    if members != [] {
      var n := |members| - 1;
      var text := Strip(members[n], lex.isSpace);
      var earlier := FirstIndex(DirectivesOf(members[..n], lex), lex.lower(FirstWord(text, lex.isSpace)));
      IssuesArePlaced(members[..n], p, lex);
      MemberIssuesArePlaced(text, p, n, earlier, lex);
    }
  }

  /** Every issue of the member list says which member it is about. */
  lemma {:induction false} HeaderIssuesArePlaced(parts: seq<string>, lex: Lexis)
    ensures forall issue :: issue in HeaderIssues(parts, lex) ==>
              issue.policyIndex.Some? && issue.policyIndex.value < |parts|
  {
    if parts != [] {
      var n := |parts| - 1;
      HeaderIssuesArePlaced(parts[..n], lex);
      IssuesArePlaced(Members(Strip(parts[n], lex.isSpace)), n, lex);
    }
  }

  const DYNAMIC := Issue("dynamic-structure", None, None, None, true)

  // ---------------------------------------------------------------- the parser

  /** A directive name that holds a variable, at member k of part i of the raw text. */
  predicate DynamicAt(value: string, i: int, k: int, lex: Lexis) {
    var parts := Splits(value, At(','), None);
    0 <= i < |parts| && DynamicFrom(Members(parts[i]), k, lex)
  }

  predicate DynamicFrom(members: seq<string>, k: int, lex: Lexis) {
    0 <= k < |members| && DynamicMember(members[k], lex)
  }

  predicate DynamicMember(member: string, lex: Lexis) {
    var text := Strip(member, lex.isSpace);
    text != "" && lex.dynamic(FirstWord(text, lex.isSpace))
  }

  method ContainsDynamicStructure(value: string, lex: Lexis) returns (found: bool)
    ensures found <==> exists i, k :: DynamicAt(value, i, k, lex)
  {
    var parts := SplitTopLevel(value, ',');
    for i := 0 to |parts|
      invariant forall j, k :: j < i ==> !DynamicAt(value, j, k, lex)
    {
      var members := SplitTopLevel(parts[i], ';');
      for k := 0 to |members|
        invariant forall j :: j < k ==> !DynamicFrom(members, j, lex)
      {
        if DynamicMember(members[k], lex) {
          assert DynamicAt(value, i, k, lex);
          return true;
        }
      }
    }
    return false;
  }

  /** Tokens of one directive; every issue goes to the header's list and to the policy's. */
  method ParseTokens(name: string, words: seq<string>, p: nat, k: nat, lex: Lexis, issues: seq<Issue>, policyIssues: seq<Issue>)
    returns (tokens: seq<Token>, issues': seq<Issue>, policyIssues': seq<Issue>)
    ensures tokens == TokensOf(name, words, lex)
    ensures issues' == issues + TokenIssues(name, words, p, k, lex)
    ensures policyIssues' == policyIssues + TokenIssues(name, words, p, k, lex)
  {
    tokens, issues', policyIssues' := [], issues, policyIssues;
    for t := 0 to |words|
      invariant tokens == TokensOf(name, words[..t], lex)
      invariant issues' == issues + TokenIssues(name, words[..t], p, k, lex)
      invariant policyIssues' == policyIssues + TokenIssues(name, words[..t], p, k, lex)
    {
      Lists.PrefixOfPrefix(words, t);
      var found := lex.tokenIssue(name, words[t]);
      if found.Some? {
        var issue := Issue(found.value, Some(p), Some(k), Some(t), false);
        policyIssues' := policyIssues' + [issue];
        issues' := issues' + [issue];
      }
      tokens := tokens + [Token(words[t], found.None?)];
    }
    Lists.Whole(words);
  }

  /** Append to both lists unless the check holds. */
  method Report(holds: bool, code: string, p: nat, k: nat, fatal: bool, issues: seq<Issue>, policyIssues: seq<Issue>)
    returns (issues': seq<Issue>, policyIssues': seq<Issue>)
    ensures issues' == issues + Reported(holds, code, p, k, fatal)
    ensures policyIssues' == policyIssues + Reported(holds, code, p, k, fatal)
  {
    issues', policyIssues' := issues, policyIssues;
    if !holds {
      var issue := Issue(code, Some(p), Some(k), None, fatal);
      policyIssues', issues' := policyIssues + [issue], issues + [issue];
    }
  }

  lemma AppendFour(xs: seq<Issue>, a: seq<Issue>, b: seq<Issue>, c: seq<Issue>, d: seq<Issue>)
    ensures (((xs + a) + b) + c) + d == xs + ((a + b + c) + d)
  {
  }

  /** One non-empty member. */
  method ParseDirective(text: string, p: nat, k: nat, earlier: Option<nat>, lex: Lexis, issues: seq<Issue>, policyIssues: seq<Issue>)
    returns (directive: Directive, issues': seq<Issue>, policyIssues': seq<Issue>)
    requires text != ""
    ensures directive == ParseMember(text, k, earlier, lex)
    ensures issues' == issues + MemberIssues(text, p, k, earlier, lex)
    ensures policyIssues' == policyIssues + MemberIssues(text, p, k, earlier, lex)
  {
    var rawName := FirstWord(text, lex.isSpace);
    var name := lex.lower(rawName);
    var rawValue := RawValue(text, lex);
    issues', policyIssues' := Report(lex.validName(rawName), "invalid-directive-name", p, k, true, issues, policyIssues);
    issues', policyIssues' := Report(lex.known(name), "unknown-directive", p, k, false, issues', policyIssues');
    issues', policyIssues' := Report(earlier.None?, "duplicate-directive", p, k, false, issues', policyIssues');
    var words := Words(rawValue, lex.isSpace);
    var tokens;
    tokens, issues', policyIssues' := ParseTokens(name, words, p, k, lex, issues', policyIssues');
    directive := Directive(name, rawName, rawValue, tokens, k, earlier.None?, earlier);
    ghost var a := Reported(lex.validName(rawName), "invalid-directive-name", p, k, true);
    ghost var b := Reported(lex.known(name), "unknown-directive", p, k, false);
    ghost var c := Reported(earlier.None?, "duplicate-directive", p, k, false);
    AppendFour(issues, a, b, c, TokenIssues(name, words, p, k, lex));
    AppendFour(policyIssues, a, b, c, TokenIssues(name, words, p, k, lex));
  }

  lemma FirstIndexOfConcat(ds: seq<Directive>, d: Directive, name: string)
    ensures FirstIndex(ds + [d], name) ==
      if FirstIndex(ds, name).Some? then FirstIndex(ds, name)
      else if d.name == name then Some(d.directiveIndex) else None
  {
    if ds == [] {
      assert ds + [d] == [d];
    } else {
      Lists.TailOfConcat(ds, [d]);
      FirstIndexOfConcat(ds[1..], d, name);
    }
  }

  /** The dictionary of names seen so far answers as the first directive does. */
  ghost predicate Remembers(seen: map<string, nat>, directives: seq<Directive>) {
    forall name :: (if name in seen then Some(seen[name]) else None) == FirstIndex(directives, name)
  }

  lemma RememberNext(seen: map<string, nat>, directives: seq<Directive>, d: Directive)
    requires Remembers(seen, directives)
    ensures Remembers(if d.name in seen then seen else seen[d.name := d.directiveIndex], directives + [d])
  {
    var more := if d.name in seen then seen else seen[d.name := d.directiveIndex];
    forall name ensures (if name in more then Some(more[name]) else None) == FirstIndex(directives + [d], name) {
      FirstIndexOfConcat(directives, d, name);
      assert (if name in seen then Some(seen[name]) else None) == FirstIndex(directives, name);
    }
  }

  lemma DirectivesStep(members: seq<string>, k: nat, lex: Lexis)
    requires k < |members|
    ensures var before, text := DirectivesOf(members[..k], lex), Strip(members[k], lex.isSpace);
            DirectivesOf(members[..k + 1], lex) ==
              if text == "" then before
              else before + [ParseMember(text, k, FirstIndex(before, lex.lower(FirstWord(text, lex.isSpace))), lex)]
  {
    Lists.PrefixOfPrefix(members, k);
  }

  lemma IssuesStep(members: seq<string>, k: nat, p: nat, lex: Lexis)
    requires k < |members|
    ensures var text := Strip(members[k], lex.isSpace);
            var earlier := FirstIndex(DirectivesOf(members[..k], lex), lex.lower(FirstWord(text, lex.isSpace)));
            IssuesOf(members[..k + 1], p, lex) == IssuesOf(members[..k], p, lex) + MemberIssues(text, p, k, earlier, lex)
  {
    Lists.PrefixOfPrefix(members, k);
  }

  /** One non-empty policy. */
  method ParsePolicy(text: string, p: nat, lex: Lexis, issues: seq<Issue>) returns (policy: Policy, issues': seq<Issue>)
    ensures policy == PolicyOf(text, p, lex)
    ensures issues' == issues + IssuesOf(Members(text), p, lex)
  {
    var members := SplitTopLevel(text, ';');
    var directives: seq<Directive>, seen: map<string, nat>, policyIssues: seq<Issue> := [], map[], [];
    issues' := issues;
    for k := 0 to |members|
      invariant directives == DirectivesOf(members[..k], lex) && Remembers(seen, directives)
      invariant policyIssues == IssuesOf(members[..k], p, lex)
      invariant issues' == issues + IssuesOf(members[..k], p, lex)
    {
      DirectivesStep(members, k, lex);
      IssuesStep(members, k, p, lex);
      var member := Strip(members[k], lex.isSpace);
      ghost var first := FirstIndex(directives, lex.lower(FirstWord(member, lex.isSpace)));
      Lists.Assoc(issues, IssuesOf(members[..k], p, lex), MemberIssues(member, p, k, first, lex));
      if member == "" {
        var issue := Issue("empty-directive-member", Some(p), Some(k), None, false);
        policyIssues, issues' := policyIssues + [issue], issues' + [issue];
      } else {
        var name := lex.lower(FirstWord(member, lex.isSpace));
        var earlier := if name in seen then Some(seen[name]) else None;
        assert earlier == first;
        var directive;
        directive, issues', policyIssues := ParseDirective(member, p, k, earlier, lex, issues', policyIssues);
        RememberNext(seen, directives, directive);
        if earlier.None? { seen := seen[name := k]; }
        directives := directives + [directive];
      }
    }
    Lists.Whole(members);
    policy := Policy(text, p, directives, policyIssues);
  }

  lemma PoliciesStep(parts: seq<string>, p: nat, lex: Lexis)
    requires p < |parts|
    ensures var before, text := PoliciesOf(parts[..p], lex), Strip(parts[p], lex.isSpace);
            PoliciesOf(parts[..p + 1], lex) == if text == "" then before else before + [PolicyOf(text, p, lex)]
  {
    Lists.PrefixOfPrefix(parts, p);
  }

  lemma HeaderIssuesStep(parts: seq<string>, p: nat, lex: Lexis)
    requires p < |parts|
    ensures HeaderIssues(parts[..p + 1], lex) == HeaderIssues(parts[..p], lex) + PartIssues(parts[p], p, lex)
  {
    Lists.PrefixOfPrefix(parts, p);
  }

  method ParsePolicies(value: string, lex: Lexis, start: seq<Issue>) returns (policies: seq<Policy>, issues: seq<Issue>)
    ensures policies == PoliciesOf(Splits(value, At(','), None), lex)
    ensures issues == start + HeaderIssues(Splits(value, At(','), None), lex)
  {
    policies, issues := [], start;
    var parts := SplitTopLevel(value, ',');
    for p := 0 to |parts|
      invariant policies == PoliciesOf(parts[..p], lex)
      invariant issues == start + HeaderIssues(parts[..p], lex)
    {
      PoliciesStep(parts, p, lex);
      HeaderIssuesStep(parts, p, lex);
      Lists.Assoc(start, HeaderIssues(parts[..p], lex), PartIssues(parts[p], p, lex));
      var text := Strip(parts[p], lex.isSpace);
      if text == "" {
        issues := issues + [Issue("empty-policy-member", Some(p), None, None, true)];
      } else {
        var policy;
        policy, issues := ParsePolicy(text, p, lex, issues);
        policies := policies + [policy];
      }
    }
    Lists.Whole(parts);
  }

  /** The issues that come before those of the members. */
  ghost function Opening(value: string, lex: Lexis): seq<Issue> {
    if exists i, k :: DynamicAt(value, i, k, lex) then [DYNAMIC] else []
  }

  /** The parsed header value: its policies, and the issues found on the way. */
  ghost predicate IsParse(parsed: Parsed, value: string, lex: Lexis) {
    && parsed.policies == PoliciesOf(Splits(value, At(','), None), lex)
    && parsed.issues == Opening(value, lex) + HeaderIssues(Splits(value, At(','), None), lex)
  }

  method ParseCspHeaderValue(value: string, lex: Lexis) returns (parsed: Parsed)
    ensures IsParse(parsed, value, lex)
  {
    var dynamic := ContainsDynamicStructure(value, lex);
    var start := if dynamic then [DYNAMIC] else [];
    var policies, issues := ParsePolicies(value, lex, start);
    parsed := Parsed(policies, issues);
  }
}
