/** Python's text operations used in several places: stripping, joining, searching. */
module Texts {
  import opened Prelude
  import Lists

  function DropLeft(text: string, isSpace: char -> bool): string {
    if text != "" && isSpace(text[0]) then DropLeft(text[1..], isSpace) else text
  }

  function DropRight(text: string, isSpace: char -> bool): string {
    if text != "" && isSpace(text[|text| - 1]) then DropRight(text[..|text| - 1], isSpace) else text
  }

  /** `text.strip()` */
  function Strip(text: string, isSpace: char -> bool): string {
    DropRight(DropLeft(text, isSpace), isSpace)
  }

  lemma DropLeftShrinks(text: string, isSpace: char -> bool)
    ensures |DropLeft(text, isSpace)| <= |text|
    ensures DropLeft(text, isSpace) != "" ==> !isSpace(DropLeft(text, isSpace)[0])
  {
  }

  ghost predicate Blank(text: string, isSpace: char -> bool) {
    forall i :: 0 <= i < |text| ==> isSpace(text[i])
  }

  lemma {:induction false} LeftTells(text: string, isSpace: char -> bool)
    ensures |DropLeft(text, isSpace)| <= |text|
    ensures var n := |text| - |DropLeft(text, isSpace)|; Blank(text[..n], isSpace) && text[n..] == DropLeft(text, isSpace)
    ensures DropLeft(text, isSpace) != "" ==> !isSpace(DropLeft(text, isSpace)[0])
  {
    if text != "" && isSpace(text[0]) {
      LeftTells(text[1..], isSpace);
      var n := |text| - |DropLeft(text, isSpace)|;
      assert text[..n] == [text[0]] + text[1..][..n - 1];
      assert text[n..] == text[1..][n - 1..];
    }
  }

  lemma {:induction false} RightTells(text: string, isSpace: char -> bool)
    ensures |DropRight(text, isSpace)| <= |text|
    ensures var n := |DropRight(text, isSpace)|; text[..n] == DropRight(text, isSpace) && Blank(text[n..], isSpace)
    ensures DropRight(text, isSpace) != "" ==> !isSpace(DropRight(text, isSpace)[|DropRight(text, isSpace)| - 1])
  {
    if text != "" && isSpace(text[|text| - 1]) {
      var front := text[..|text| - 1];
      RightTells(front, isSpace);
      var n := |DropRight(text, isSpace)|;
      assert text[..n] == front[..n];
      assert text[n..] == front[n..] + [text[|text| - 1]];
    }
  }

  lemma Cut(text: string, n: nat)
    requires n <= |text|
    ensures text == text[..n] + text[n..]
  {
  }

  /** Stripping takes away white space on both sides and leaves none there. */
  lemma StripTells(text: string, isSpace: char -> bool) returns (left: string, right: string)
    ensures text == left + Strip(text, isSpace) + right && Blank(left, isSpace) && Blank(right, isSpace)
    ensures var s := Strip(text, isSpace); s != "" ==> !isSpace(s[0]) && !isSpace(s[|s| - 1])
  {
    LeftTells(text, isSpace);
    var rest := DropLeft(text, isSpace);
    RightTells(rest, isSpace);
    var s := Strip(text, isSpace);
    left, right := text[..|text| - |rest|], rest[|s|..];
    Cut(text, |text| - |rest|);
    Cut(rest, |s|);
    Lists.Assoc(left, s, right);
    if s != "" { assert s[0] == rest[0]; }
  }

  /** `separator.join(parts)` */
  function Join(parts: seq<string>, separator: char): string
    requires parts != []
  {
    if |parts| == 1 then parts[0] else parts[0] + [separator] + Join(parts[1..], separator)
  }

  predicate OccursAt(text: string, pattern: string, i: int) {
    0 <= i && i + |pattern| <= |text| && text[i..i + |pattern|] == pattern
  }

  predicate Contains(text: string, pattern: string) {
    exists i :: 0 <= i <= |text| && OccursAt(text, pattern, i)
  }

  function FindFrom(text: string, pattern: string, start: nat): (found: Option<nat>)
    requires start <= |text|
    ensures found.Some? ==> start <= found.value && OccursAt(text, pattern, found.value)
    ensures found.Some? ==> forall i :: start <= i < found.value ==> !OccursAt(text, pattern, i)
    ensures found.None? ==> forall i :: start <= i ==> !OccursAt(text, pattern, i)
    decreases |text| - start
  {
    if OccursAt(text, pattern, start) then Some(start)
    else if start == |text| then None
    else FindFrom(text, pattern, start + 1)
  }

  /** `text.find(pattern)`: the first occurrence. */
  function Find(text: string, pattern: string): (found: Option<nat>)
    ensures found.Some? ==> OccursAt(text, pattern, found.value)
    ensures found.Some? ==> forall i :: i < found.value ==> !OccursAt(text, pattern, i)
    ensures found.None? ==> forall i :: !OccursAt(text, pattern, i)
  {
    FindFrom(text, pattern, 0)
  }
}
