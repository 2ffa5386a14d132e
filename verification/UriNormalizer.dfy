/** Normalising a sample URI path: dot segments and repeated slashes removed by a stack of segments
    (compare section 5.2.4 of RFC 3986). */
module UriNormalizer {
  import opened Texts
  import Lists

  /** `text.split("/")` */
  function Segments(text: string): (parts: seq<string>)
    ensures parts != []
    ensures forall p :: p in parts ==> '/' !in p
  {
    if text == "" then [""]
    else
      var rest := Segments(text[1..]);
      if text[0] == '/' then [""] + rest else [[text[0]] + rest[0]] + rest[1..]
  }

  /** What one segment does to the stack: a dot or an empty segment nothing, two dots go up, a name goes down. */
  function Walk(stack: seq<string>, part: string): seq<string> {
    if part == "" || part == "." then stack
    else if part == ".." then (if stack == [] then [] else stack[..|stack| - 1])
    else stack + [part]
  }

  function WalkAll(stack: seq<string>, parts: seq<string>): seq<string>
    decreases parts
  {
    if parts == [] then stack else WalkAll(Walk(stack, parts[0]), parts[1..])
  }

  /** The same walk read from its end: what survives, and how many steps up are still owed to what comes before. */
  function Lookback(parts: seq<string>): (seq<string>, nat) {
    if parts == [] then ([], 0)
    else
      var (kept, owed) := Lookback(parts[1..]);
      if parts[0] == "" || parts[0] == "." then (kept, owed)
      else if parts[0] == ".." then (kept, owed + 1)
      else if owed > 0 then (kept, owed - 1)
      else ([parts[0]] + kept, 0)
  }

  function Minus(n: nat, m: nat): nat {
    if n <= m then 0 else n - m
  }

  /** The stack keeps exactly the names that no later pair of dots takes back; steps above the root are ignored. */
  lemma {:induction false} WalkIsLookback(stack: seq<string>, parts: seq<string>)
    ensures var (kept, owed) := Lookback(parts);
            WalkAll(stack, parts) == stack[..Minus(|stack|, owed)] + kept
    decreases parts
  {
    if parts == [] {
      Lists.Whole(stack);
    } else {
      var (kept, owed) := Lookback(parts[1..]);
      var next := Walk(stack, parts[0]);
      WalkIsLookback(next, parts[1..]);
      if parts[0] == "" || parts[0] == "." {
      } else if parts[0] == ".." {
        PoppedPrefix(stack, owed);
      } else {
        PushedPrefix(stack, parts[0], owed);
        Lists.Assoc(stack, [parts[0]], kept);
      }
    }
  }

  lemma PoppedPrefix(stack: seq<string>, owed: nat)
    ensures var next := if stack == [] then stack else stack[..|stack| - 1];
            next[..Minus(|next|, owed)] == stack[..Minus(|stack|, owed + 1)]
  {
  }

  lemma PushedPrefix(stack: seq<string>, part: string, owed: nat)
    ensures var next := stack + [part];
            next[..Minus(|next|, owed)] == if owed > 0 then stack[..Minus(|stack|, owed - 1)] else stack + [part]
    ensures stack[..Minus(|stack|, 0)] == stack
  {
  }

  predicate Name(part: string) {
    part != "" && part != "." && part != ".." && '/' !in part
  }

  predicate Names(parts: seq<string>) {
    forall i :: 0 <= i < |parts| ==> Name(parts[i])
  }

  /** What each segment does, spelled out; with `WalkConcat` this is the whole walk. */
  lemma StepLaws(stack: seq<string>, name: string)
    requires Name(name)
    ensures WalkAll(stack, [name]) == stack + [name]
    ensures WalkAll(stack, ["."]) == stack && WalkAll(stack, [""]) == stack
    ensures WalkAll(stack + [name], [".."]) == stack && WalkAll([], [".."]) == []
  {
    forall part: string, s ensures WalkAll(s, [part]) == Walk(s, part) {
      assert [part][1..] == [];
    }
    assert (stack + [name])[..|stack|] == stack;
  }

  /** The source's loop over the segments, its list used as a stack. */
  method NormalizeParts(parts: seq<string>) returns (stack: seq<string>)
    ensures stack == WalkAll([], parts)
  {
    stack := [];
    for i := 0 to |parts|
      invariant WalkAll(stack, parts[i..]) == WalkAll([], parts)
    {
      var part := parts[i];
      assert parts[i..][1..] == parts[i + 1..];
      if part == "" || part == "." { continue; }
      if part == ".." {
        if stack != [] { stack := stack[..|stack| - 1]; }
        continue;
      }
      stack := stack + [part];
    }
  }

  /** `"/" + "/".join(stack)`, with a final slash when the input had one and something is left. */
  function Render(stack: seq<string>, trailing: bool): string {
    var path := "/" + if stack == [] then "" else Join(stack, '/');
    if trailing && path != "/" then path + "/" else path
  }

  predicate EndsWithSlash(text: string) {
    text != "" && text[|text| - 1] == '/'
  }

  /** The final substitution: every run of slashes becomes one. */
  function Compress(text: string): string {
    if |text| < 2 then text
    else if text[0] == '/' && text[1] == '/' then Compress(text[1..])
    else [text[0]] + Compress(text[1..])
  }

  function Normalized(value: string, decode: string -> string): string {
    Render(WalkAll([], Segments(decode(value))), EndsWithSlash(value))
  }

  method Normalize(value: string, decode: string -> string) returns (uri: string)
    ensures uri == Normalized(value, decode)
  {
    var stack := NormalizeParts(Segments(decode(value)));
    var normalized := "/" + if stack == [] then "" else Join(stack, '/');
    if EndsWithSlash(value) && normalized != "/" { normalized := normalized + "/"; }
    WalkKeepsNames([], Segments(decode(value)));
    RenderIsSingle(stack, EndsWithSlash(value));
    CompressKeeps(normalized);
    uri := Compress(normalized);
    if uri == "" { uri := "/"; }
  }

  // ---------------------------------------------------------------- the shape of the result

  lemma {:induction false} WalkKeepsNames(stack: seq<string>, parts: seq<string>)
    requires Names(stack) && forall p :: p in parts ==> '/' !in p
    ensures Names(WalkAll(stack, parts))
    decreases parts
  {
    if parts != [] {
      WalkKeepsNames(Walk(stack, parts[0]), parts[1..]);
    }
  }

  predicate SingleSlashes(text: string) {
    forall i :: 0 <= i < |text| - 1 ==> !(text[i] == '/' && text[i + 1] == '/')
  }

  lemma {:induction false} CompressKeeps(text: string)
    requires SingleSlashes(text)
    ensures Compress(text) == text
  {
    if |text| >= 2 {
      var tail := text[1..];
      assert forall i :: 0 <= i < |tail| ==> tail[i] == text[i + 1];
      CompressKeeps(tail);
      assert text == [text[0]] + text[1..];
    }
  }

  lemma {:induction false} JoinIsSingle(stack: seq<string>)
    requires stack != [] && Names(stack)
    ensures var path := Join(stack, '/'); path != "" && path[0] != '/' && !EndsWithSlash(path) && SingleSlashes(path)
  {
    if |stack| > 1 {
      JoinIsSingle(stack[1..]);
      var rest := Join(stack[1..], '/');
      assert Join(stack, '/') == stack[0] + ['/'] + rest;
    }
  }

  lemma RenderIsSingle(stack: seq<string>, trailing: bool)
    requires Names(stack)
    ensures SingleSlashes(Render(stack, trailing)) && Render(stack, trailing)[0] == '/'
    ensures EndsWithSlash(Render(stack, trailing)) <==> trailing || stack == []
  {
    if stack != [] {
      JoinIsSingle(stack);
      Framed(Join(stack, '/'));
    }
  }

  /** A slash in front, and one behind. */
  lemma Framed(path: string)
    requires path != "" && path[0] != '/' && !EndsWithSlash(path) && SingleSlashes(path)
    ensures var rooted := "/" + path;
            && rooted != "/" && rooted[0] == '/' && SingleSlashes(rooted) && !EndsWithSlash(rooted)
            && SingleSlashes(rooted + "/") && EndsWithSlash(rooted + "/") && (rooted + "/")[0] == '/'
  {
    var rooted := "/" + path;
    assert rooted[1] == path[0] && forall i :: 0 < i < |rooted| ==> rooted[i] == path[i - 1];
    assert forall i :: 0 <= i < |rooted| ==> (rooted + "/")[i] == rooted[i];
  }

  lemma {:induction false} SegmentsOfJoin(stack: seq<string>)
    requires stack != [] && Names(stack)
    ensures Segments(Join(stack, '/')) == stack
  {
    if |stack| == 1 {
      OneSegment(stack[0]);
    } else {
      SegmentsOfJoin(stack[1..]);
      FirstSegment(stack[0], Join(stack[1..], '/'));
    }
  }

  lemma {:induction false} OneSegment(part: string)
    requires '/' !in part
    ensures Segments(part) == [part]
  {
    if part != "" {
      OneSegment(part[1..]);
      assert part == [part[0]] + part[1..];
    }
  }

  lemma {:induction false} FirstSegment(part: string, rest: string)
    requires '/' !in part
    ensures Segments(part + ['/'] + rest) == [part] + Segments(rest)
  {
    var text := part + ['/'] + rest;
    if part == "" {
      assert text[1..] == rest;
    } else {
      assert text[1..] == part[1..] + ['/'] + rest && part == [part[0]] + part[1..];
      FirstSegment(part[1..], rest);
    }
  }

  lemma {:induction false} SegmentsOfTrailing(text: string)
    ensures Segments(text + ['/']) == Segments(text) + [""]
  {
    if text == "" {
      assert text + ['/'] == ['/'] && ['/'][1..] == "";
      assert Segments("/") == [""] + Segments("");
    } else {
      assert (text + ['/'])[1..] == text[1..] + ['/'] && (text + ['/'])[0] == text[0];
      SegmentsOfTrailing(text[1..]);
    }
  }

  /** The segments of a rendered path: an empty one, the names, and an empty one for a final slash. */
  lemma SegmentsOfRender(stack: seq<string>, trailing: bool)
    requires Names(stack)
    ensures Segments(Render(stack, trailing)) == [""] + stack + if trailing || stack == [] then [""] else []
  {
    if stack == [] {
      SegmentsOfTrailing("");
      assert "" + ['/'] == "/";
    } else {
      var path := Join(stack, '/');
      JoinIsSingle(stack);
      SegmentsOfJoin(stack);
      FirstSegment("", path);
      assert "" + ['/'] + path == "/" + path;
      SegmentsOfTrailing("/" + path);
    }
  }

  /** Every result is an absolute path without dot segments or repeated slashes, so the substitution at the end
      of the source's function never changes anything. */
  lemma ResultIsClean(value: string, decode: string -> string)
    ensures Clean(Normalized(value, decode))
    ensures SingleSlashes(Normalized(value, decode)) && Compress(Normalized(value, decode)) == Normalized(value, decode)
  {
    var stack := WalkAll([], Segments(decode(value)));
    WalkKeepsNames([], Segments(decode(value)));
    RenderIsSingle(stack, EndsWithSlash(value));
    CompressKeeps(Normalized(value, decode));
    SegmentsOfRender(stack, EndsWithSlash(value));
  }

  /** An absolute path of plain names, with or without a final slash. */
  predicate Clean(value: string) {
    var parts := Segments(value);
    && |parts| >= 2 && parts[0] == ""
    && (forall i :: 0 < i < |parts| - 1 ==> Name(parts[i]))
    && (parts[|parts| - 1] == "" || Name(parts[|parts| - 1]))
  }

  // ---------------------------------------------------------------- fixpoints and idempotence

  lemma {:induction false} WalkNames(stack: seq<string>, names: seq<string>)
    requires Names(names)
    ensures WalkAll(stack, names) == stack + names
    decreases names
  {
    if names != [] {
      WalkNames(stack + [names[0]], names[1..]);
      assert names == [names[0]] + names[1..];
    }
  }

  lemma {:induction false} WalkConcat(stack: seq<string>, a: seq<string>, b: seq<string>)
    ensures WalkAll(stack, a + b) == WalkAll(WalkAll(stack, a), b)
    decreases a
  {
    if a == [] {
      assert a + b == b;
    } else {
      Lists.TailOfConcat(a, b);
      WalkConcat(Walk(stack, a[0]), a[1..], b);
    }
  }

  lemma WalkRendered(stack: seq<string>, trailing: bool)
    requires Names(stack)
    ensures WalkAll([], Segments(Render(stack, trailing))) == stack
  {
    SegmentsOfRender(stack, trailing);
    var last := if trailing || stack == [] then [""] else [];
    WalkConcat([], [""] + stack, last);
    WalkConcat([], [""], stack);
    WalkNames([], stack);
    assert WalkAll([], [""]) == [] by { assert [""][1..] == []; }
    assert WalkAll(stack, last) == stack by { assert [""][1..] == []; }
  }

  /** Normalising a rendered path again leaves it alone. */
  lemma RenderedIsFixed(stack: seq<string>, trailing: bool, decode: string -> string)
    requires Names(stack) && decode(Render(stack, trailing)) == Render(stack, trailing)
    ensures Normalized(Render(stack, trailing), decode) == Render(stack, trailing)
  {
    WalkRendered(stack, trailing);
    RenderIsSingle(stack, trailing);
  }

  /** Decoding leaves text without escapes alone. */
  ghost predicate Unescapes(decode: string -> string) {
    forall text :: '%' !in text ==> decode(text) == text
  }

  lemma {:induction false} SegmentsUseItsLetters(text: string, c: char)
    requires c !in text
    ensures forall p :: p in Segments(text) ==> c !in p
  {
    if text != "" { SegmentsUseItsLetters(text[1..], c); }
  }

  lemma {:induction false} WalkUsesItsLetters(stack: seq<string>, parts: seq<string>, c: char)
    requires forall p :: p in stack || p in parts ==> c !in p
    ensures forall p :: p in WalkAll(stack, parts) ==> c !in p
    decreases parts
  {
    if parts != [] { WalkUsesItsLetters(Walk(stack, parts[0]), parts[1..], c); }
  }

  lemma {:induction false} JoinUsesItsLetters(stack: seq<string>, c: char)
    requires stack != [] && c != '/' && forall p :: p in stack ==> c !in p
    ensures c !in Join(stack, '/')
  {
    if |stack| > 1 { JoinUsesItsLetters(stack[1..], c); }
  }

  /** In particular it is idempotent wherever decoding once leaves no percent sign. */
  lemma UnescapedIsIdempotent(value: string, decode: string -> string)
    requires Unescapes(decode) && '%' !in decode(value)
    ensures Normalized(Normalized(value, decode), decode) == Normalized(value, decode)
  {
    var parts := Segments(decode(value));
    var stack := WalkAll([], parts);
    WalkKeepsNames([], parts);
    SegmentsUseItsLetters(decode(value), '%');
    WalkUsesItsLetters([], parts, '%');
    if stack != [] { JoinUsesItsLetters(stack, '%'); }
    assert '%' !in Render(stack, EndsWithSlash(value));
    RenderedIsFixed(stack, EndsWithSlash(value), decode);
  }

  /** An escaped escape is normalised twice: `/%252e` becomes `/%2e`, and that becomes `/`. */
  lemma EscapedEscapeIsNot(decode: string -> string)
    requires decode("/%252e") == "/%2e" && decode("/%2e") == "/."
    ensures Normalized(Normalized("/%252e", decode), decode) != Normalized("/%252e", decode)
  {
    assert "/%2e" == "" + ['/'] + "%2e" && "/." == "" + ['/'] + ".";
    FirstSegment("", "%2e");
    OneSegment("%2e");
    FirstSegment("", ".");
    OneSegment(".");
    var a, b := ["", "%2e"], ["", "."];
    assert a[1..] == ["%2e"] && b[1..] == ["."] && ["%2e"][1..] == [] && ["."][1..] == [];
    assert Segments("/%2e") == a && Segments("/.") == b;
    assert "" !in ["%2e"];
    assert Name("%2e") && Names(["%2e"]);
    WalkConcat([], [""], ["%2e"]);
    WalkConcat([], [""], ["."]);
    WalkNames([], ["%2e"]);
    assert [""][1..] == [] && a == [""] + ["%2e"] && b == [""] + ["."];
    assert WalkAll([], [""]) == [];
    assert WalkAll([], a) == ["%2e"];
    assert WalkAll([], b) == [];
    assert Normalized("/%252e", decode) == "/%2e";
    assert Normalized("/%2e", decode) == "/";
  }

  lemma {:induction false} JoinSegments(text: string)
    ensures Join(Segments(text), '/') == text
  {
    if text != "" {
      JoinSegments(text[1..]);
      var rest := Segments(text[1..]);
      assert text == [text[0]] + text[1..];
      if text[0] == '/' {
        assert ([""] + rest)[1..] == rest;
      } else {
        assert ([[text[0]] + rest[0]] + rest[1..])[1..] == rest[1..];
      }
    }
  }

  lemma {:induction false} EndTells(text: string)
    requires |Segments(text)| >= 2
    ensures EndsWithSlash(text) <==> Segments(text)[|Segments(text)| - 1] == ""
  {
    var rest := Segments(text[1..]);
    if |rest| >= 2 {
      EndTells(text[1..]);
    } else {
      assert text[0] == '/';
      JoinSegments(text[1..]);
      assert rest[0] == text[1..];
      assert rest[0] in rest && '/' !in rest[0];
      if text[1..] != "" { assert rest[0][|rest[0]| - 1] == text[|text| - 1] && text[|text| - 1] != '/'; }
    }
  }

  /** A clean text is what rendering its names gives. */
  lemma CleanIsRendered(value: string) returns (names: seq<string>, trailing: bool)
    requires Clean(value)
    ensures Names(names) && Render(names, trailing) == value
  {
    var parts := Segments(value);
    trailing := parts[|parts| - 1] == "";
    names := if trailing then parts[1..|parts| - 1] else parts[1..];
    assert parts == [""] + names + if trailing then [""] else [];
    SameSegments(value, names, trailing);
  }

  lemma SameSegments(value: string, names: seq<string>, trailing: bool)
    requires Names(names) && Segments(value) == [""] + names + if trailing then [""] else []
    requires trailing || names != []
    ensures Render(names, trailing) == value
  {
    SegmentsOfRender(names, trailing);
    JoinSegments(value);
    JoinSegments(Render(names, trailing));
  }

  lemma CleanIsFixed(value: string, decode: string -> string)
    requires Clean(value) && decode(value) == value
    ensures Normalized(value, decode) == value
  {
    var names, trailing := CleanIsRendered(value);
    RenderedIsFixed(names, trailing, decode);
  }

  // ---------------------------------------------------------------- decoding shortens, and so does walking

  /** What percent decoding does to lengths and slashes: an escape is three characters for at most one, and a slash
      is no part of an escape. */
  ghost predicate Decodes(decode: string -> string) {
    forall text ::
      && (decode(text) == text || |decode(text)| < |text|)
      && (text != "" && text[0] == '/' ==> decode(text) != "" && decode(text)[0] == '/')
      && (EndsWithSlash(text) ==> EndsWithSlash(decode(text)))
  }

  /** The letters of the segments, with a slash for each that is not empty. */
  function Size(parts: seq<string>): nat {
    if parts == [] then 0 else Size(parts[1..]) + if parts[0] == "" then 0 else |parts[0]| + 1
  }

  lemma {:induction false} SizeSnoc(parts: seq<string>, p: string)
    ensures Size(parts + [p]) == Size(parts) + if p == "" then 0 else |p| + 1
  {
    if parts == [] {
      assert [] + [p] == [p] && [p][1..] == [];
    } else {
      Lists.TailOfConcat(parts, [p]);
      SizeSnoc(parts[1..], p);
    }
  }

  lemma {:induction false} SizeOfPrefix(parts: seq<string>)
    requires parts != []
    ensures Size(parts[..|parts| - 1]) <= Size(parts)
  {
    var n := |parts| - 1;
    assert parts == parts[..n] + [parts[n]];
    SizeSnoc(parts[..n], parts[n]);
  }

  /** Walking only drops letters. */
  lemma {:induction false} WalkShrinks(stack: seq<string>, parts: seq<string>)
    ensures Size(WalkAll(stack, parts)) <= Size(stack) + Size(parts)
    decreases parts
  {
    if parts != [] {
      WalkShrinks(Walk(stack, parts[0]), parts[1..]);
      if parts[0] != "" && parts[0] != "." && parts[0] != ".." {
        SizeSnoc(stack, parts[0]);
      } else if parts[0] == ".." && stack != [] {
        SizeOfPrefix(stack);
      }
    }
  }

  lemma {:induction false} SizeOfSegments(text: string)
    ensures Size(Segments(text)) + (if text != "" && text[0] == '/' then 1 else 0)
            <= |text| + if EndsWithSlash(text) || text == "" then 0 else 1
  {
    if text != "" {
      SizeOfSegments(text[1..]);
      var rest := Segments(text[1..]);
      if text[0] == '/' {
        assert ([""] + rest)[1..] == rest;
      } else {
        assert ([[text[0]] + rest[0]] + rest[1..])[1..] == rest[1..];
      }
      if text[1..] != "" { assert text[1..][|text[1..]| - 1] == text[|text| - 1]; }
    }
  }

  lemma {:induction false} SizeOfJoin(stack: seq<string>)
    requires stack != [] && Names(stack)
    ensures |Join(stack, '/')| + 1 == Size(stack)
  {
    if |stack| > 1 { SizeOfJoin(stack[1..]); }
  }

  /** An absolute path never grows when it is walked and rendered. */
  lemma RenderShrinks(path: string, trailing: bool)
    requires path != "" && path[0] == '/' && (trailing ==> EndsWithSlash(path))
    ensures |Render(WalkAll([], Segments(path)), trailing)| <= |path|
  {
    var stack := WalkAll([], Segments(path));
    WalkKeepsNames([], Segments(path));
    WalkShrinks([], Segments(path));
    SizeOfSegments(path);
    if stack != [] { SizeOfJoin(stack); }
  }

  /** A sample URI is accepted as already normalised exactly when it is a clean path that decoding leaves alone. */
  lemma FixpointsExactly(value: string, decode: string -> string)
    requires Decodes(decode)
    ensures Normalized(value, decode) == value <==> Clean(value) && decode(value) == value
  {
    ResultIsClean(value, decode);
    if Clean(value) && decode(value) == value {
      CleanIsFixed(value, decode);
    } else if Clean(value) {
      JoinSegments(value);
      assert value[0] == '/';
      RenderShrinks(decode(value), EndsWithSlash(value));
    }
  }

  /** A second round changes nothing exactly when decoding leaves the result of the first alone. */
  lemma NormalizingIsIdempotentExactly(value: string, decode: string -> string)
    requires Decodes(decode)
    ensures var once := Normalized(value, decode); Normalized(once, decode) == once <==> decode(once) == once
  {
    ResultIsClean(value, decode);
    FixpointsExactly(Normalized(value, decode), decode);
  }
}
