/** Quote-aware splitting of a serialized Content-Security-Policy. */
module CspSplit {
  import opened Prelude
  import opened Texts
  import Lists

  /** The quote character that is open, if any. */
  type Quote = Option<char>

  predicate IsQuote(c: char) {
    c == '\'' || c == '"'
  }

  function Step(quote: Quote, c: char): Quote {
    if quote.Some? then (if c == quote.value then None else quote)
    else if IsQuote(c) then Some(c)
    else None
  }

  /** The quote state after reading a text. */
  function After(quote: Quote, text: string): Quote
    decreases text
  {
    if text == "" then quote else After(Step(quote, text[0]), text[1..])
  }

  /** A character is cut at when it separates and no quote is open. */
  predicate Cuts(quote: Quote, c: char, sep: char -> bool) {
    quote.None? && !IsQuote(c) && sep(c)
  }

  /** What one character in front does to the parts. */
  function Front(parts: seq<string>, c: char, cut: bool): (more: seq<string>)
    requires parts != []
    ensures more != []
  {
    if cut then [""] + parts else [[c] + parts[0]] + parts[1..]
  }

  /** One pass over the text, cutting at every separator outside quotes. */
  function Splits(text: string, sep: char -> bool, quote: Quote): (parts: seq<string>)
    ensures parts != []
  {
    if text == "" then [""]
    else Front(Splits(text[1..], sep, Step(quote, text[0])), text[0], Cuts(quote, text[0], sep))
  }

  function At(separator: char): char -> bool {
    c => c == separator
  }

  lemma {:induction false} AfterConcat(quote: Quote, a: string, b: string)
    ensures After(quote, a + b) == After(After(quote, a), b)
    decreases a
  {
    if a == "" {
      assert a + b == b;
    } else {
      Lists.TailOfConcat(a, b);
      AfterConcat(Step(quote, a[0]), a[1..], b);
    }
  }

  /** The quote opened at position p is still open at the end: a quote character that stands outside quotes and does
      not occur again. */
  ghost predicate StillOpen(text: string, p: int) {
    && 0 <= p < |text| && (text[p] == '\'' || text[p] == '"')
    && After(None, text[..p]).None?
    && text[p] !in text[p + 1..]
  }

  lemma AfterSnoc(text: string, c: char)
    ensures After(None, text + [c]) == Step(After(None, text), c)
  {
    AfterConcat(None, text, [c]);
    assert [c][1..] == "";
  }

  lemma StillOpenGrows(text: string, c: char, p: int)
    requires p < |text|
    ensures StillOpen(text + [c], p) <==> StillOpen(text, p) && text[p] != c
  {
    if 0 <= p {
      assert (text + [c])[..p] == text[..p];
      assert (text + [c])[p + 1..] == text[p + 1..] + [c];
    }
  }

  /** Being inside quotes, spelled out: the open quote is the one character that was opened outside quotes and has not
      come again. */
  lemma {:induction false} QuotedExactly(text: string)
    ensures forall q :: After(None, text) == Some(q) <==> exists p :: StillOpen(text, p) && text[p] == q
  {
    if text != "" {
      var n := |text| - 1;
      var front, c := text[..n], text[n];
      assert text == front + [c];
      QuotedExactly(front);
      AfterSnoc(front, c);
      forall p | p < n ensures StillOpen(text, p) <==> StillOpen(front, p) && text[p] != c { StillOpenGrows(front, c, p); }
      assert StillOpen(text, n) <==> (c == '\'' || c == '"') && After(None, front).None?;
      forall q ensures After(None, text) == Some(q) <==> exists p :: StillOpen(text, p) && text[p] == q {
        if After(None, front).Some? {
          var p :| StillOpen(front, p) && front[p] == After(None, front).value;
          if c != front[p] { assert StillOpen(text, p); }
        }
      }
    }
  }

  /** What one more character does to the parts: the last part grows, or a new empty one begins. */
  function Grow(parts: seq<string>, c: char, cut: bool): seq<string>
    requires parts != []
  {
    if cut then parts + [""] else parts[..|parts| - 1] + [parts[|parts| - 1] + [c]]
  }

  lemma GrowFront(parts: seq<string>, x: char, cutFront: bool, c: char, cut: bool)
    requires parts != []
    ensures Grow(Front(parts, x, cutFront), c, cut) == Front(Grow(parts, c, cut), x, cutFront)
  {
    var a, b := Grow(Front(parts, x, cutFront), c, cut), Front(Grow(parts, c, cut), x, cutFront);
    assert |a| == |b|;
    if !cut && !cutFront && |parts| == 1 {
      assert ([x] + parts[0]) + [c] == [x] + (parts[0] + [c]);
    }
    forall i | 0 <= i < |a| ensures a[i] == b[i] {}
  }

  lemma FrontConcat(a: seq<string>, b: seq<string>, c: char, cut: bool)
    requires a != []
    ensures Front(a, c, cut) + b == Front(a + b, c, cut)
  {
    Lists.TailOfConcat(a, b);
  }

  lemma SplitsFront(c: char, text: string, sep: char -> bool, quote: Quote)
    ensures Splits([c] + text, sep, quote) == Front(Splits(text, sep, Step(quote, c)), c, Cuts(quote, c, sep))
  {
    assert ([c] + text)[0] == c && ([c] + text)[1..] == text;
  }

  /** Reading on by one character. */
  lemma {:induction false} SplitsGrow(text: string, c: char, sep: char -> bool, quote: Quote)
    ensures Splits(text + [c], sep, quote) == Grow(Splits(text, sep, quote), c, Cuts(After(quote, text), c, sep))
    decreases text
  {
    if text == "" {
      SplitsFront(c, "", sep, quote);
      assert text + [c] == [c] + "";
    } else {
      assert text + [c] == [text[0]] + (text[1..] + [c]) && text == [text[0]] + text[1..];
      SplitsFront(text[0], text[1..] + [c], sep, quote);
      SplitsFront(text[0], text[1..], sep, quote);
      SplitsGrow(text[1..], c, sep, Step(quote, text[0]));
      GrowFront(Splits(text[1..], sep, Step(quote, text[0])), text[0], Cuts(quote, text[0], sep),
                c, Cuts(After(quote, text), c, sep));
    }
  }

  /** The source's loop: it keeps the open quote, the current part and the finished parts. */
  method SplitTopLevel(value: string, separator: char) returns (parts: seq<string>)
    requires !IsQuote(separator)
    ensures parts == Splits(value, At(separator), None)
  {
    parts := [];
    var current: string, quote: Quote := "", None;
    for i := 0 to |value|
      invariant quote == After(None, value[..i])
      invariant parts + [current] == Splits(value[..i], At(separator), None)
    {
      var c := value[i];
      assert value[..i + 1] == value[..i] + [c];
      SplitsGrow(value[..i], c, At(separator), None);
      AfterConcat(None, value[..i], [c]);
      assert After(quote, [c]) == Step(quote, c) by { assert [c][1..] == ""; }
      if quote.Some? {
        current := current + [c];
        if c == quote.value { quote := None; }
      } else if IsQuote(c) {
        quote := Some(c);
        current := current + [c];
      } else if c == separator {
        parts := parts + [current];
        current := "";
      } else {
        current := current + [c];
      }
    }
    Lists.Whole(value);
    parts := parts + [current];
  }

  /** Joining the parts gives the text back. */
  lemma {:induction false} JoinSplits(text: string, separator: char, quote: Quote)
    ensures Join(Splits(text, At(separator), quote), separator) == text
  {
    if text != "" {
      var next := Step(quote, text[0]);
      JoinSplits(text[1..], separator, next);
      JoinFront(Splits(text[1..], At(separator), next), separator, text[0], Cuts(quote, text[0], At(separator)));
      assert text == [text[0]] + text[1..];
    }
  }

  /** A character in front of the parts is one in front of the joined text; a cut stands for its separator. */
  lemma JoinFront(parts: seq<string>, separator: char, c: char, cut: bool)
    requires parts != [] && (cut ==> c == separator)
    ensures Join(Front(parts, c, cut), separator) == [c] + Join(parts, separator)
  {
    if cut {
      assert ([""] + parts)[1..] == parts;
    } else if |parts| > 1 {
      assert ([[c] + parts[0]] + parts[1..])[1..] == parts[1..];
      Lists.Assoc([c], parts[0], [separator] + Join(parts[1..], separator));
      Lists.Assoc(parts[0], [separator], Join(parts[1..], separator));
      Lists.Assoc([c] + parts[0], [separator], Join(parts[1..], separator));
    }
  }

  // ---------------------------------------------------------------- which part lists are splits

  /** No cut inside the part. */
  predicate Uncut(part: string, sep: char -> bool, quote: Quote) {
    Splits(part, sep, quote) == [part]
  }

  /** Parts as a split leaves them: nothing left to cut, and every part but the last ends outside quotes. */
  predicate Parted(parts: seq<string>, sep: char -> bool, quote: Quote)
    requires parts != []
  {
    && Uncut(parts[0], sep, quote)
    && (|parts| > 1 ==> After(quote, parts[0]).None? && Parted(parts[1..], sep, None))
  }

  lemma UncutHead(c: char, part: string, sep: char -> bool, quote: Quote)
    ensures Uncut([c] + part, sep, quote) <==> !Cuts(quote, c, sep) && Uncut(part, sep, Step(quote, c))
  {
    assert ([c] + part)[0] == c && ([c] + part)[1..] == part;
    var rest := Splits(part, sep, Step(quote, c));
    if !Cuts(quote, c, sep) {
      var all := [[c] + rest[0]] + rest[1..];
      assert all[1..] == rest[1..] && all[0][1..] == rest[0];
      if all == [[c] + part] {
        assert |rest| == 1 && rest[0] == ([c] + part)[1..];
      }
    } else {
      assert |[""] + rest| > 1;
    }
  }

  lemma {:induction false} SplitsAreParted(text: string, sep: char -> bool, quote: Quote)
    ensures Parted(Splits(text, sep, quote), sep, quote)
  {
    if text != "" {
      var next := Step(quote, text[0]);
      var rest := Splits(text[1..], sep, next);
      SplitsAreParted(text[1..], sep, next);
      var parts := Splits(text, sep, quote);
      if Cuts(quote, text[0], sep) {
        assert parts[1..] == rest;
      } else {
        UncutHead(text[0], rest[0], sep, quote);
        assert parts[1..] == rest[1..];
        assert ([text[0]] + rest[0])[1..] == rest[0];
      }
    }
  }

  /** The first part ends where a cut falls. */
  lemma {:induction false} FirstCut(part: string, c: char, rest: string, sep: char -> bool, quote: Quote)
    requires Uncut(part, sep, quote) && Cuts(After(quote, part), c, sep)
    ensures Splits(part + [c] + rest, sep, quote) == [part] + Splits(rest, sep, None)
  {
    var text := part + [c] + rest;
    if part == "" {
      assert text[0] == c && text[1..] == rest;
    } else {
      assert text[0] == part[0] && text[1..] == part[1..] + [c] + rest;
      assert part == [part[0]] + part[1..];
      UncutHead(part[0], part[1..], sep, quote);
      FirstCut(part[1..], c, rest, sep, Step(quote, part[0]));
    }
  }

  lemma {:induction false} SplitsJoin(parts: seq<string>, separator: char, quote: Quote)
    requires parts != [] && Parted(parts, At(separator), quote) && !IsQuote(separator)
    ensures Splits(Join(parts, separator), At(separator), quote) == parts
  {
    if |parts| > 1 {
      FirstCut(parts[0], separator, Join(parts[1..], separator), At(separator), quote);
      SplitsJoin(parts[1..], separator, None);
    }
  }

  /** A list of parts survives joining and splitting exactly when it is parted. */
  lemma RoundTripExactly(parts: seq<string>, separator: char)
    requires parts != [] && !IsQuote(separator)
    ensures Splits(Join(parts, separator), At(separator), None) == parts <==> Parted(parts, At(separator), None)
  {
    SplitsAreParted(Join(parts, separator), At(separator), None);
    if Parted(parts, At(separator), None) { SplitsJoin(parts, separator, None); }
  }

  // ---------------------------------------------------------------- two levels are one pass

  function SplitEach(parts: seq<string>, sep: char -> bool, quote: Quote): seq<string> {
    if parts == [] then [] else Splits(parts[0], sep, quote) + SplitEach(parts[1..], sep, None)
  }

  function Either(p: char -> bool, q: char -> bool): char -> bool {
    c => p(c) || q(c)
  }

  /** Splitting at one separator and then each part at another is one quote-aware pass cutting at both. */
  lemma {:induction false} TwoLevelsAreOnePass(text: string, outer: char -> bool, inner: char -> bool, quote: Quote)
    ensures SplitEach(Splits(text, outer, quote), inner, quote) == Splits(text, Either(outer, inner), quote)
  {
    if text == "" {
      assert SplitEach([""], inner, quote) == Splits("", inner, quote) + SplitEach([], inner, None);
    } else {
      var c, next := text[0], Step(quote, text[0]);
      TwoLevelsAreOnePass(text[1..], outer, inner, next);
      var rest := Splits(text[1..], outer, next);
      var parts := Splits(text, outer, quote);
      if Cuts(quote, c, outer) {
        assert parts[1..] == rest && next == quote;
        assert SplitEach(parts, inner, quote) == [""] + SplitEach(rest, inner, None);
      } else {
        assert parts[0] == [c] + rest[0] && parts[1..] == rest[1..];
        ExtendFirst(c, rest[0], rest[1..], inner, quote);
        assert rest == [rest[0]] + rest[1..];
      }
    }
  }

  /** A character in front of the first part goes in front of the first inner part, or is cut off. */
  lemma ExtendFirst(c: char, first: string, others: seq<string>, inner: char -> bool, quote: Quote)
    ensures var each := SplitEach([first] + others, inner, Step(quote, c));
            each != [] && SplitEach([[c] + first] + others, inner, quote) == Front(each, c, Cuts(quote, c, inner))
  {
    SplitsFront(c, first, inner, quote);
    assert ([first] + others)[1..] == others && ([[c] + first] + others)[1..] == others;
    FrontConcat(Splits(first, inner, Step(quote, c)), SplitEach(others, inner, None), c, Cuts(quote, c, inner));
  }

  // ---------------------------------------------------------------- with and without quotes

  /** Cutting at every separator, quotes or not, as section 2.2.1 of Content Security Policy Level 3 does. */
  function PlainSplits(text: string, sep: char -> bool): (parts: seq<string>)
    ensures parts != []
  {
    if text == "" then [""] else Front(PlainSplits(text[1..], sep), text[0], sep(text[0]))
  }

  /** No separator stands inside quotes. */
  predicate NoneQuoted(text: string, sep: char -> bool, quote: Quote) {
    forall i :: 0 <= i < |text| && sep(text[i]) ==> After(quote, text[..i]).None?
  }

  lemma NoneQuotedFront(text: string, sep: char -> bool, quote: Quote)
    requires text != ""
    ensures NoneQuoted(text, sep, quote)
            <==> (sep(text[0]) ==> quote.None?) && NoneQuoted(text[1..], sep, Step(quote, text[0]))
  {
    var rest, next := text[1..], Step(quote, text[0]);
    assert text[..0] == "";
    forall i | 0 <= i < |rest| ensures rest[i] == text[i + 1] && After(next, rest[..i]) == After(quote, text[..i + 1]) {
      assert text[..i + 1][1..] == rest[..i];
    }
    forall i | 0 < i < |text| ensures text[i] == rest[i - 1] && After(quote, text[..i]) == After(next, rest[..i - 1]) {
      assert text[..i][1..] == rest[..i - 1];
    }
  }

  lemma {:induction false} QuotesHideCuts(text: string, sep: char -> bool, quote: Quote)
    requires forall c :: sep(c) ==> !IsQuote(c)
    ensures |Splits(text, sep, quote)| <= |PlainSplits(text, sep)|
    ensures |Splits(text, sep, quote)| == |PlainSplits(text, sep)| ==> NoneQuoted(text, sep, quote)
    ensures NoneQuoted(text, sep, quote) ==> Splits(text, sep, quote) == PlainSplits(text, sep)
    decreases text
  {
    if text != "" {
      QuotesHideCuts(text[1..], sep, Step(quote, text[0]));
      NoneQuotedFront(text, sep, quote);
    }
  }

  /** The quote-aware split is the plain one exactly when no separator stands inside quotes. */
  lemma PlainExactlyUnquoted(text: string, separator: char)
    requires !IsQuote(separator)
    ensures Splits(text, At(separator), None) == PlainSplits(text, At(separator)) <==> NoneQuoted(text, At(separator), None)
  {
    QuotesHideCuts(text, At(separator), None);
  }
}
