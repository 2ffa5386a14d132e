/** Replacing the section between two markers of a document. */
module GeneratedSection {
  import opened Prelude
  import opened Texts
  import Lists

  /** The two markers of a section. */
  datatype Markers = Markers(begin: string, end: string)

  function Block(m: Markers, replacement: string, isSpace: char -> bool): string {
    m.begin + "\n" + DropRight(replacement, isSpace) + "\n" + m.end
  }

  datatype MissingMarkers = MissingMarkers

  function ReplaceGeneratedSection(text: string, m: Markers, replacement: string, isSpace: char -> bool)
    : Result<string, MissingMarkers>
  {
    var begin, end := Find(text, m.begin), Find(text, m.end);
    if begin.None? || end.None? || end.value < begin.value then Err(MissingMarkers)
    else Ok(text[..begin.value] + Block(m, replacement, isSpace) + text[end.value + |m.end|..])
  }

  /** Both markers are there, the begin marker not behind the end marker. */
  predicate Marked(text: string, m: Markers) {
    Find(text, m.begin).Some? && Find(text, m.end).Some? && Find(text, m.begin).value <= Find(text, m.end).value
  }

  /** What comes before and behind the section. */
  function Before(text: string, m: Markers): string
    requires Marked(text, m)
  {
    text[..Find(text, m.begin).value]
  }

  function Behind(text: string, m: Markers): string
    requires Marked(text, m)
  {
    text[Find(text, m.end).value + |m.end|..]
  }

  /** Replacing fails exactly without markers; otherwise everything before and behind the section is kept. */
  lemma Reassembled(text: string, m: Markers, replacement: string, isSpace: char -> bool)
    ensures ReplaceGeneratedSection(text, m, replacement, isSpace).Ok? <==> Marked(text, m)
    ensures Marked(text, m) ==>
      ReplaceGeneratedSection(text, m, replacement, isSpace)
      == Ok(Before(text, m) + Block(m, replacement, isSpace) + Behind(text, m))
  {
  }

  // ---------------------------------------------------------------- occurrences

  lemma OccursInPrefix(text: string, other: string, pattern: string, i: int, n: nat)
    requires n <= |text| && n <= |other| && text[..n] == other[..n]
    requires i + |pattern| <= n
    ensures OccursAt(text, pattern, i) <==> OccursAt(other, pattern, i)
  {
    if 0 <= i {
      assert text[..n][i..i + |pattern|] == text[i..i + |pattern|];
      assert other[..n][i..i + |pattern|] == other[i..i + |pattern|];
    }
  }

  lemma OccursLeft(left: string, rest: string, pattern: string, i: nat)
    requires OccursAt(left, pattern, i)
    ensures OccursAt(left + rest, pattern, i)
  {
    assert (left + rest)[i..i + |pattern|] == left[i..i + |pattern|];
  }

  lemma OccursRight(left: string, right: string, pattern: string, i: nat)
    requires OccursAt(right, pattern, i)
    ensures OccursAt(left + right, pattern, |left| + i)
  {
    assert (left + right)[|left| + i..|left| + i + |pattern|] == right[i..i + |pattern|];
  }

  lemma OccursBehind(left: string, right: string, pattern: string, j: nat)
    requires OccursAt(left + right, pattern, j) && |left| <= j
    ensures OccursAt(right, pattern, j - |left|) && Contains(right, pattern)
  {
    assert right[j - |left|..j - |left| + |pattern|] == (left + right)[j..j + |pattern|];
    assert OccursAt(right, pattern, j - |left|);
  }

  lemma FindIs(text: string, pattern: string, i: nat)
    requires OccursAt(text, pattern, i) && forall j :: j < i ==> !OccursAt(text, pattern, j)
    ensures Find(text, pattern) == Some(i)
  {
  }

  /** A text that agrees up to the end of the first occurrence has its first occurrence there. */
  lemma FirstStays(text: string, other: string, pattern: string, at: nat)
    requires Find(text, pattern) == Some(at)
    requires at + |pattern| <= |other| && text[..at + |pattern|] == other[..at + |pattern|]
    ensures Find(other, pattern) == Some(at)
  {
    forall j | j <= at ensures OccursAt(text, pattern, j) <==> OccursAt(other, pattern, j) {
      OccursInPrefix(text, other, pattern, j, at + |pattern|);
    }
    FindIs(other, pattern, at);
  }

  lemma EarlierInMiddle(left: string, middle: string, right: string, pattern: string)
    requires Contains(middle, pattern)
    ensures Find(left + middle + right, pattern).Some?
    ensures Find(left + middle + right, pattern).value + |pattern| <= |left| + |middle|
  {
    var i :| 0 <= i <= |middle| && OccursAt(middle, pattern, i);
    OccursRight(left, middle, pattern, i);
    OccursLeft(left + middle, right, pattern, |left| + i);
  }

  // ---------------------------------------------------------------- the new text, taken apart

  /** The new text, split after the begin marker. */
  lemma LayoutAtBegin(before: string, m: Markers, replacement: string, behind: string, isSpace: char -> bool)
    ensures before + Block(m, replacement, isSpace) + behind
            == (before + m.begin) + ("\n" + DropRight(replacement, isSpace) + "\n" + m.end + behind)
  {
  }

  /** The new text, split around the replacement. */
  lemma LayoutAtBody(before: string, m: Markers, replacement: string, behind: string, isSpace: char -> bool)
    ensures before + Block(m, replacement, isSpace) + behind
            == (before + m.begin + "\n") + DropRight(replacement, isSpace) + ("\n" + m.end + behind)
  {
  }

  /** The new text, split before the end marker. */
  lemma LayoutAtEnd(before: string, m: Markers, replacement: string, behind: string, isSpace: char -> bool)
    ensures before + Block(m, replacement, isSpace) + behind
            == (before + m.begin + "\n" + DropRight(replacement, isSpace) + "\n") + m.end + behind
  {
  }

  lemma SlicesOf(a: string, b: string, c: string)
    ensures (a + b + c)[..|a|] == a && (a + b + c)[|a|..|a| + |b|] == b && (a + b + c)[|a| + |b|..] == c
  {
  }

  /** Where the end marker of the new section stands. */
  function EndAt(before: string, m: Markers, replacement: string, isSpace: char -> bool): nat {
    |before| + |m.begin| + 1 + |DropRight(replacement, isSpace)| + 1
  }

  /** The head of the section is a prefix of the document. */
  lemma HeadIsPrefix(text: string, m: Markers)
    requires Marked(text, m)
    ensures |Before(text, m) + m.begin| <= |text|
    ensures Before(text, m) + m.begin == text[..|Before(text, m) + m.begin|]
  {
    var b := Find(text, m.begin).value;
    assert text[..b + |m.begin|] == text[..b] + text[b..b + |m.begin|];
  }

  /** The section starts at the same place after the replacement, whatever the replacement holds. */
  lemma BeginStays(text: string, m: Markers, replacement: string, after: string, isSpace: char -> bool)
    requires ReplaceGeneratedSection(text, m, replacement, isSpace) == Ok(after)
    ensures Find(after, m.begin) == Find(text, m.begin)
  {
    Reassembled(text, m, replacement, isSpace);
    HeadStays(Before(text, m), text, m, replacement, Behind(text, m), isSpace);
  }

  lemma HeadStays(before: string, text: string, m: Markers, replacement: string, behind: string, isSpace: char -> bool)
    requires Marked(text, m) && before == Before(text, m)
    ensures Find(before + Block(m, replacement, isSpace) + behind, m.begin) == Some(|before|)
  {
    var head, rest := before + m.begin, "\n" + DropRight(replacement, isSpace) + "\n" + m.end + behind;
    LayoutAtBegin(before, m, replacement, behind, isSpace);
    HeadIsPrefix(text, m);
    assert (head + rest)[..|head|] == head;
    FirstStays(text, head + rest, m.begin, |before|);
  }

  lemma EndOccurs(before: string, m: Markers, replacement: string, behind: string, isSpace: char -> bool)
    ensures var at := EndAt(before, m, replacement, isSpace);
            var after := before + Block(m, replacement, isSpace) + behind;
            OccursAt(after, m.end, at) && after[at + |m.end|..] == behind
  {
    LayoutAtEnd(before, m, replacement, behind, isSpace);
    SlicesOf(before + m.begin + "\n" + DropRight(replacement, isSpace) + "\n", m.end, behind);
  }

  // ---------------------------------------------------------------- replacing twice

  /** What a second replacement meets. */
  lemma AfterFirst(text: string, m: Markers, first: string, after: string, isSpace: char -> bool)
    requires ReplaceGeneratedSection(text, m, first, isSpace) == Ok(after)
    ensures Marked(text, m)
    ensures Find(after, m.begin) == Find(text, m.begin)
    ensures var at := EndAt(Before(text, m), m, first, isSpace);
            && OccursAt(after, m.end, at)
            && after[..Find(text, m.begin).value] == Before(text, m) && after[at + |m.end|..] == Behind(text, m)
  {
    Reassembled(text, m, first, isSpace);
    BeginStays(text, m, first, after, isSpace);
    EndOccurs(Before(text, m), m, first, Behind(text, m), isSpace);
    SlicesOf(Before(text, m), Block(m, first, isSpace), Behind(text, m));
  }

  /** Two marked texts with the same front are replaced alike exactly when they have the same back. */
  lemma ReplacedAlike(text: string, after: string, m: Markers, at: nat, second: string, isSpace: char -> bool)
    requires Marked(text, m) && Find(after, m.begin) == Find(text, m.begin) && OccursAt(after, m.end, at)
    requires Find(text, m.begin).value <= at
    requires after[..Find(text, m.begin).value] == Before(text, m) && after[at + |m.end|..] == Behind(text, m)
    ensures ReplaceGeneratedSection(after, m, second, isSpace) == ReplaceGeneratedSection(text, m, second, isSpace)
            <==> Find(after, m.end) == Some(at)
  {
    Reassembled(text, m, second, isSpace);
    Reassembled(after, m, second, isSpace);
    var once := Before(text, m) + Block(m, second, isSpace) + Behind(text, m);
    if Marked(after, m) {
      var again := Before(after, m) + Block(m, second, isSpace) + Behind(after, m);
      assert |again| - |once| == |Behind(after, m)| - |Behind(text, m)| == at - Find(after, m.end).value;
    }
  }

  /** A second replacement acts as if it were the only one exactly when the end marker is found where the first
      new section ends; otherwise it fails or leaves more behind. */
  lemma SecondReplacementWins(text: string, m: Markers, first: string, after: string, second: string, isSpace: char -> bool)
    requires ReplaceGeneratedSection(text, m, first, isSpace) == Ok(after)
    ensures Marked(text, m)
    ensures ReplaceGeneratedSection(after, m, second, isSpace) == ReplaceGeneratedSection(text, m, second, isSpace)
            <==> Find(after, m.end) == Some(EndAt(Before(text, m), m, first, isSpace))
  {
    AfterFirst(text, m, first, after, isSpace);
    ReplacedAlike(text, after, m, EndAt(Before(text, m), m, first, isSpace), second, isSpace);
  }

  // ---------------------------------------------------------------- the condition, checked before the call

  predicate SingleLine(text: string) {
    '\n' !in text
  }

  /** An occurrence of a single-line pattern lies on one side of a line break. */
  lemma OneSide(left: string, right: string, pattern: string, i: nat)
    requires SingleLine(pattern) && OccursAt(left + "\n" + right, pattern, i)
    ensures OccursAt(left, pattern, i) || (|left| < i && OccursAt(right, pattern, i - |left| - 1))
  {
    var text := left + "\n" + right;
    assert forall k :: 0 <= k < |pattern| ==> pattern[k] == text[i..i + |pattern|][k];
    assert text[|left|] == '\n';
    if i <= |left| < i + |pattern| {
      assert false;
    } else if i + |pattern| <= |left| {
      assert text[i..i + |pattern|] == left[i..i + |pattern|];
    } else {
      assert text[i..i + |pattern|] == right[i - |left| - 1..i - |left| - 1 + |pattern|];
    }
  }

  lemma NotInHead(text: string, m: Markers, j: nat)
    requires Marked(text, m) && OccursAt(Before(text, m) + m.begin, m.end, j)
    ensures Contains(m.begin, m.end)
  {
    var head := Before(text, m) + m.begin;
    HeadIsPrefix(text, m);
    Lists.Whole(head);
    OccursInPrefix(head, text, m.end, j, |head|);
    assert j >= Find(text, m.end).value;
    OccursBehind(Before(text, m), m.begin, m.end, j);
  }

  lemma NoEarlierEnd(text: string, m: Markers, body: string, rest: string, j: nat)
    requires Marked(text, m) && SingleLine(m.end) && !Contains(m.begin, m.end) && !Contains(body, m.end)
    requires OccursAt(Before(text, m) + m.begin + "\n" + (body + "\n" + rest), m.end, j)
    ensures j >= |Before(text, m) + m.begin| + 1 + |body| + 1
  {
    var head := Before(text, m) + m.begin;
    OneSide(head, body + "\n" + rest, m.end, j);
    if OccursAt(head, m.end, j) {
      NotInHead(text, m, j);
    } else {
      OneSide(body, rest, m.end, j - |head| - 1);
    }
  }

  lemma ByLines(head: string, body: string, last: string, behind: string)
    ensures (head + "\n" + body + "\n") + last + behind == head + "\n" + (body + "\n" + (last + behind))
  {
    Lists.Assoc(head + "\n" + body + "\n", last, behind);
    Lists.Assoc(head + "\n" + body, "\n", last + behind);
    Lists.Assoc(head + "\n", body, "\n" + (last + behind));
    Lists.Assoc(body, "\n", last + behind);
  }

  lemma UncontainedIsFound(text: string, m: Markers, replacement: string, after: string, isSpace: char -> bool)
    requires Marked(text, m) && after == Before(text, m) + Block(m, replacement, isSpace) + Behind(text, m)
    requires SingleLine(m.end) && !Contains(m.begin, m.end) && !Contains(DropRight(replacement, isSpace), m.end)
    ensures Find(after, m.end) == Some(EndAt(Before(text, m), m, replacement, isSpace))
  {
    var before, body, behind := Before(text, m), DropRight(replacement, isSpace), Behind(text, m);
    var at := EndAt(before, m, replacement, isSpace);
    EndOccurs(before, m, replacement, behind, isSpace);
    LayoutAtEnd(before, m, replacement, behind, isSpace);
    ByLines(before + m.begin, body, m.end, behind);
    forall j: int | j < at ensures !OccursAt(after, m.end, j) {
      if 0 <= j && OccursAt(after, m.end, j) { NoEarlierEnd(text, m, body, m.end + behind, j); }
    }
    FindIs(after, m.end, at);
  }

  lemma ContainedIsEarlier(before: string, m: Markers, replacement: string, behind: string, isSpace: char -> bool)
    requires Contains(m.begin, m.end) || Contains(DropRight(replacement, isSpace), m.end)
    ensures Find(before + Block(m, replacement, isSpace) + behind, m.end) != Some(EndAt(before, m, replacement, isSpace))
  {
    var body := DropRight(replacement, isSpace);
    if Contains(m.begin, m.end) {
      LayoutAtBegin(before, m, replacement, behind, isSpace);
      EarlierInMiddle(before, m.begin, "\n" + body + "\n" + m.end + behind, m.end);
    } else {
      LayoutAtBody(before, m, replacement, behind, isSpace);
      EarlierInMiddle(before + m.begin + "\n", body, "\n" + m.end + behind, m.end);
    }
  }

  /**
   * For an end marker without line breaks, as every marker in the documents is, the last replacement wins exactly
   * when neither the begin marker nor the first replacement, trailing white space aside, contains the end marker.
   */
  lemma LastReplacementWinsExactly(text: string, m: Markers, first: string, after: string, second: string, isSpace: char -> bool)
    requires ReplaceGeneratedSection(text, m, first, isSpace) == Ok(after) && SingleLine(m.end)
    ensures ReplaceGeneratedSection(after, m, second, isSpace) == ReplaceGeneratedSection(text, m, second, isSpace)
            <==> !Contains(m.begin, m.end) && !Contains(DropRight(first, isSpace), m.end)
  {
    SecondReplacementWins(text, m, first, after, second, isSpace);
    Reassembled(text, m, first, isSpace);
    if Contains(m.begin, m.end) || Contains(DropRight(first, isSpace), m.end) {
      ContainedIsEarlier(Before(text, m), m, first, Behind(text, m), isSpace);
    } else {
      UncontainedIsFound(text, m, first, after, isSpace);
    }
  }

  /** Generating the same section again changes nothing, under the same condition and only then. */
  lemma ReplacingIsIdempotentExactly(text: string, m: Markers, replacement: string, after: string, isSpace: char -> bool)
    requires ReplaceGeneratedSection(text, m, replacement, isSpace) == Ok(after) && SingleLine(m.end)
    ensures ReplaceGeneratedSection(after, m, replacement, isSpace) == Ok(after)
            <==> !Contains(m.begin, m.end) && !Contains(DropRight(replacement, isSpace), m.end)
  {
    LastReplacementWinsExactly(text, m, replacement, after, replacement, isSpace);
  }

  lemma SingleOccurrence(c: char, left: string, right: string)
    requires c !in left
    ensures Find(left + [c] + right, [c]) == Some(|left|)
  {
    var text := left + [c] + right;
    assert text[|left|..|left| + 1] == [c];
    forall j: int | j < |left| ensures !OccursAt(text, [c], j) {
      if 0 <= j { assert text[j..j + 1][0] == left[j]; }
    }
    FindIs(text, [c], |left|);
  }

  /** Where the replacement contains the end marker, a second round leaves more behind. */
  lemma EndMarkerInReplacement(isSpace: char -> bool)
    requires !isSpace('e')
    ensures ReplaceGeneratedSection("be", Markers("b", "e"), "e", isSpace) == Ok("b\ne\ne")
    ensures ReplaceGeneratedSection("b\ne\ne", Markers("b", "e"), "e", isSpace) == Ok("b\ne\ne\ne")
  {
    FirstRound(isSpace);
    SecondRound(isSpace);
  }

  lemma FirstRound(isSpace: char -> bool)
    requires !isSpace('e')
    ensures ReplaceGeneratedSection("be", Markers("b", "e"), "e", isSpace) == Ok("b\ne\ne")
  {
    SingleOccurrence('b', "", "e");
    SingleOccurrence('e', "b", "");
    assert "" + ['b'] + "e" == "be" && "b" + ['e'] + "" == "be";
    assert Find("be", "b") == Some(0) && Find("be", "e") == Some(1);
    assert Block(Markers("b", "e"), "e", isSpace) == "b\ne\ne";
    assert "be"[..0] == "" && "be"[2..] == "" && "" + "b\ne\ne" + "" == "b\ne\ne";
  }

  lemma SecondRound(isSpace: char -> bool)
    requires !isSpace('e')
    ensures ReplaceGeneratedSection("b\ne\ne", Markers("b", "e"), "e", isSpace) == Ok("b\ne\ne\ne")
  {
    SingleOccurrence('b', "", "\ne\ne");
    SingleOccurrence('e', "b\n", "\ne");
    assert "" + ['b'] + "\ne\ne" == "b\ne\ne" && "b\n" + ['e'] + "\ne" == "b\ne\ne";
    assert Find("b\ne\ne", "b") == Some(0) && Find("b\ne\ne", "e") == Some(2);
    assert Block(Markers("b", "e"), "e", isSpace) == "b\ne\ne";
    assert "b\ne\ne"[3..] == "\ne" && "b\ne\ne"[..0] == "" && "" + "b\ne\ne" + "\ne" == "b\ne\ne\ne";
  }
}
