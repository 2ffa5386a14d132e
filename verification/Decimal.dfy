/** Decimal printing and parsing of natural numbers, as Python's `str(n)`, `f"{n:02d}"` and `int(text)` on ASCII digits. */
module Decimal {
  predicate IsDigit(c: char) {
    '0' <= c <= '9'
  }

  /** `text.isdigit()` on ASCII text. */
  predicate IsNumber(text: string) {
    text != "" && forall i :: 0 <= i < |text| ==> IsDigit(text[i])
  }

  function Print(n: nat): (text: string)
    ensures IsNumber(text)
  {
    if n < 10 then [('0' as int + n) as char] else Print(n / 10) + [('0' as int + n % 10) as char]
  }

  function Parse(text: string): nat
    requires forall i :: 0 <= i < |text| ==> IsDigit(text[i])
  {
    if text == "" then 0
    else
      assert IsDigit(text[|text| - 1]);
      Parse(text[..|text| - 1]) * 10 + (text[|text| - 1] as int - '0' as int)
  }

  lemma {:induction false} ParsePrint(n: nat)
    ensures Parse(Print(n)) == n
  {
    var text := Print(n);
    if n < 10 {
      assert text[..0] == "";
    } else {
      assert text[..|text| - 1] == Print(n / 10);
      ParsePrint(n / 10);
    }
  }

  /** One more digit: ten times the number and the digit. */
  lemma ParseGrows(text: string, c: char)
    requires (forall i :: 0 <= i < |text| ==> IsDigit(text[i])) && IsDigit(c)
    ensures Parse("") == 0 && Parse(text + [c]) == 10 * Parse(text) + (c as int - '0' as int)
  {
    assert (text + [c])[..|text|] == text;
  }

  /** No leading zeros: with `ParsePrint` this is the one decimal text of the number. */
  lemma {:induction false} PrintIsShort(n: nat)
    ensures if n < 10 then |Print(n)| == 1 else Print(n)[0] != '0'
  {
    if n >= 10 {
      PrintIsShort(n / 10);
      assert Print(n)[0] == Print(n / 10)[0];
      if n / 10 < 10 { assert Print(n / 10)[0] == ('0' as int + n / 10) as char; }
    }
  }

  /** `f"{n:02d}"` */
  function Pad2(n: nat): (text: string)
    ensures IsNumber(text)
  {
    if |Print(n)| < 2 then "0" + Print(n) else Print(n)
  }

  lemma ParsePad2(n: nat)
    ensures Parse(Pad2(n)) == n
  {
    ParsePrint(n);
    if |Print(n)| < 2 {
      var text := Pad2(n);
      assert text[..1] == "0" && "0"[..0] == "";
      assert Parse("0") == 0;
      var p := Print(n);
      assert p[..0] == "";
      assert text[1] == p[0];
    }
  }

  lemma Pad2IsInjective(a: nat, b: nat)
    requires Pad2(a) == Pad2(b)
    ensures a == b
  {
    ParsePad2(a);
    ParsePad2(b);
  }

  lemma DigitsThenMark(d: string, x: string, mark: char, k: nat)
    requires IsNumber(d) && !IsDigit(mark) && k <= |d|
    ensures k < |d + [mark] + x| && (IsDigit((d + [mark] + x)[k]) <==> k < |d|)
  {
  }

  /** Digits up to a first non-digit are determined by the whole text. */
  lemma DigitPrefixIsUnique(d: string, x: string, e: string, y: string, mark: char)
    requires IsNumber(d) && IsNumber(e) && !IsDigit(mark)
    requires d + [mark] + x == e + [mark] + y
    ensures d == e && x == y
  {
    var s, t := d + [mark] + x, e + [mark] + y;
    var k := if |d| <= |e| then |d| else |e|;
    DigitsThenMark(d, x, mark, k);
    DigitsThenMark(e, y, mark, k);
    assert d == s[..|d|] && e == t[..|e|];
    assert x == s[|d| + 1..] && y == t[|e| + 1..];
  }
}
