/** Texts as sequences of characters: the library operations the modelled code calls. */
module Text {
  import opened Wrappers

  // ---------------------------------------------------------------- searching

  /** The index of the first `c` in `s`, or `|s|` when there is none. */
  function IndexOf(s: string, c: char): (i: nat)
    ensures i <= |s| && c !in s[..i]
    ensures i < |s| ==> s[i] == c
  {
    if s == [] || s[0] == c then 0
    else
      var j := IndexOf(s[1..], c);
      assert s[..j + 1] == [s[0]] + s[1..][..j];
      j + 1
  }

  lemma {:induction false} FirstIndexIsUnique(s: string, c: char, i: nat)
    requires i < |s| && s[i] == c && c !in s[..i]
    ensures IndexOf(s, c) == i
  {
    if i > 0 {
      assert s[0] in s[..i];
      assert forall j :: 0 <= j < i - 1 ==> s[1..][j] == s[..i][j + 1];
      FirstIndexIsUnique(s[1..], c, i - 1);
    }
  }

  lemma {:induction false} AbsentHasNoIndex(s: string, c: char)
    requires c !in s
    ensures IndexOf(s, c) == |s|
  {
    if s != [] {
      AbsentHasNoIndex(s[1..], c);
    }
  }

  // ---------------------------------------------------------------- lists of texts

  predicate Within(part: seq<string>, whole: seq<string>) {
    forall i :: 0 <= i < |part| ==> part[i] in whole
  }

  function Elements(s: seq<string>): set<string> {
    set x | x in s
  }

  lemma WithinAsSets(part: seq<string>, whole: seq<string>)
    ensures Within(part, whole) <==> Elements(part) <= Elements(whole)
    ensures Within(part, whole) <==> Elements(part) - Elements(whole) == {}
  {
    if Within(part, whole) {
      assert forall x :: x in Elements(part) ==> x in Elements(whole);
    } else {
      var i :| 0 <= i < |part| && part[i] !in whole;
      assert part[i] in Elements(part) - Elements(whole);
    }
  }

  // ---------------------------------------------------------------- strip, lower, upper

  /** The characters `str.strip` removes. */
  predicate IsSpace(c: char) {
    || '\U{09}' <= c <= '\U{0D}' || '\U{1C}' <= c <= '\U{20}' || c == '\U{85}' || c == '\U{A0}'
    || c == '\U{1680}' || '\U{2000}' <= c <= '\U{200A}' || c == '\U{2028}' || c == '\U{2029}'
    || c == '\U{202F}' || c == '\U{205F}' || c == '\U{3000}'
  }

  function Strip(s: string): string {
    if s == [] then []
    else if IsSpace(s[0]) then Strip(s[1..])
    else if IsSpace(s[|s| - 1]) then Strip(s[..|s| - 1])
    else s
  }

  /** An absent text is empty, any other is stripped. */
  function Stripped(v: Option<string>): string {
    if v.Some? then Strip(v.value) else ""
  }

  /** Stripping leaves a text without space at either end, and such a text as it is. */
  lemma {:induction false} StripIsTrimmed(s: string)
    ensures var t := Strip(s); t != [] ==> !IsSpace(t[0]) && !IsSpace(t[|t| - 1])
    ensures s != [] && !IsSpace(s[0]) && !IsSpace(s[|s| - 1]) ==> Strip(s) == s
    ensures Strip(Strip(s)) == Strip(s)
  {
    if s != [] && IsSpace(s[0]) {
      StripIsTrimmed(s[1..]);
    } else if s != [] && IsSpace(s[|s| - 1]) {
      StripIsTrimmed(s[..|s| - 1]);
    }
  }

  predicate AllSpace(s: string) {
    forall i :: 0 <= i < |s| ==> IsSpace(s[i])
  }

  /** `text` is `s` less all the space around it. */
  ghost predicate Trims(s: string, text: string) {
    && (text != [] ==> !IsSpace(text[0]) && !IsSpace(text[|text| - 1]))
    && exists before, after :: AllSpace(before) && AllSpace(after) && s == before + text + after
  }

  lemma SpaceAround(left: string, before: string, text: string, after: string, right: string)
    requires AllSpace(left) && AllSpace(before) && AllSpace(after) && AllSpace(right)
    ensures AllSpace(left + before) && AllSpace(after + right)
    ensures left + (before + text + after) + right == (left + before) + text + (after + right)
    ensures left + (before + text + after) == (left + before) + text + after
    ensures (before + text + after) + right == before + text + (after + right)
  {
  }

  lemma {:induction false} StripTakesSpace(s: string) returns (before: string, after: string)
    ensures AllSpace(before) && AllSpace(after) && s == before + Strip(s) + after
  {
    if s == [] {
      before, after := [], [];
    } else if IsSpace(s[0]) {
      before, after := StripTakesSpace(s[1..]);
      SpaceAround([s[0]], before, Strip(s), after, []);
      assert s == [s[0]] + s[1..];
      before := [s[0]] + before;
    } else if IsSpace(s[|s| - 1]) {
      before, after := StripTakesSpace(s[..|s| - 1]);
      SpaceAround([], before, Strip(s), after, [s[|s| - 1]]);
      assert s == s[..|s| - 1] + [s[|s| - 1]];
      after := after + [s[|s| - 1]];
    } else {
      before, after := [], [];
    }
  }

  lemma {:induction false} StripIgnoresSpace(before: string, text: string, after: string)
    requires AllSpace(before) && AllSpace(after)
    ensures Strip(before + text + after) == Strip(text)
    decreases |before| + |after|, |text|
  {
    var s := before + text + after;
    if before != [] {
      assert s[0] == before[0] && s[1..] == before[1..] + text + after;
      StripIgnoresSpace(before[1..], text, after);
    } else if after != [] {
      if text != [] && IsSpace(text[0]) {
        assert s[0] == text[0] && s[1..] == [] + text[1..] + after;
        StripIgnoresSpace([], text[1..], after);
      } else if text == [] {
        assert s == after && s[1..] == [] + text + after[1..];
        StripIgnoresSpace([], text, after[1..]);
      } else {
        assert s[0] == text[0] && s[..|s| - 1] == [] + text + after[..|after| - 1];
        StripIgnoresSpace([], text, after[..|after| - 1]);
      }
    } else {
      assert s == text;
    }
  }

  /** What `strip` returns is the text less all the space around it, and nothing else is. */
  lemma StripMeaning(s: string, text: string)
    ensures Strip(s) == text <==> Trims(s, text)
  {
    StripIsTrimmed(s);
    var before, after := StripTakesSpace(s);
    assert Trims(s, Strip(s));
    if Trims(s, text) {
      var b, a :| AllSpace(b) && AllSpace(a) && s == b + text + a;
      StripIgnoresSpace(b, text, a);
      StripIsTrimmed(text);
    }
  }

  lemma BlankIsStripped(s: string)
    ensures Strip(s) == "" <==> AllSpace(s)
  {
    StripMeaning(s, []);
    if AllSpace(s) {
      var none: string := [];
      assert AllSpace(none) && s == s + none + none;
      assert Trims(s, none);
    }
  }

  /** `str.lower` on ASCII letters. */
  function Lower(s: string): string {
    if s == [] then []
    else [if 'A' <= s[0] <= 'Z' then (s[0] as int + 32) as char else s[0]] + Lower(s[1..])
  }

  /** `str.upper` on ASCII letters. */
  function Upper(s: string): string {
    if s == [] then []
    else [if 'a' <= s[0] <= 'z' then (s[0] as int - 32) as char else s[0]] + Upper(s[1..])
  }

  lemma {:induction false} LowerConcat(a: string, b: string)
    ensures Lower(a + b) == Lower(a) + Lower(b)
  {
    if a == [] {
      assert a + b == b;
    } else {
      assert (a + b)[0] == a[0] && (a + b)[1..] == a[1..] + b;
      LowerConcat(a[1..], b);
    }
  }

  lemma {:induction false} LowerMeaning(s: string)
    ensures |Lower(s)| == |s|
    ensures forall i :: 0 <= i < |s| ==>
              Lower(s)[i] as int == if s[i] in "ABCDEFGHIJKLMNOPQRSTUVWXYZ" then s[i] as int + 32 else s[i] as int
  {
    if s != [] {
      UpperLetters(s[0]);
      LowerMeaning(s[1..]);
    }
  }

  lemma {:induction false} UpperMeaning(s: string)
    ensures |Upper(s)| == |s|
    ensures forall i :: 0 <= i < |s| ==>
              Upper(s)[i] as int == if s[i] in "abcdefghijklmnopqrstuvwxyz" then s[i] as int - 32 else s[i] as int
  {
    if s != [] {
      LowerLetters(s[0]);
      UpperMeaning(s[1..]);
    }
  }

  lemma LowerLetters(c: char)
    ensures 'a' <= c <= 'z' <==> c in "abcdefghijklmnopqrstuvwxyz"
  {
  }

  lemma UpperLetters(c: char)
    ensures 'A' <= c <= 'Z' <==> c in "ABCDEFGHIJKLMNOPQRSTUVWXYZ"
  {
  }

  lemma Digits(c: char)
    ensures '0' <= c <= '9' <==> c in "0123456789"
  {
  }

  // ---------------------------------------------------------------- digits

  predicate IsDigit(c: char) {
    '0' <= c <= '9'
  }

  predicate AllDigits(s: string) {
    forall i :: 0 <= i < |s| ==> IsDigit(s[i])
  }

  function DigitChar(d: nat): char
    requires d < 10
  {
    ('0' as int + d) as char
  }

  function DigitValue(c: char): nat
    requires IsDigit(c)
  {
    c as nat - '0' as nat
  }

  /** `str(n)`. */
  function DecimalText(n: nat): (s: string)
    ensures s != [] && AllDigits(s)
  {
    if n < 10 then [DigitChar(n)] else DecimalText(n / 10) + [DigitChar(n % 10)]
  }

  function IntText(n: int): string {
    if n < 0 then "-" + DecimalText(-n) else DecimalText(n)
  }

  /** The number a row of digits spells; the empty row spells 0. */
  function NatOf(s: string): nat
    requires AllDigits(s)
  {
    if s == [] then 0 else 10 * NatOf(s[..|s| - 1]) + DigitValue(s[|s| - 1])
  }

  lemma {:induction false} NatOfDecimalText(n: nat)
    ensures NatOf(DecimalText(n)) == n
  {
    if n >= 10 {
      NatOfDecimalText(n / 10);
      assert DecimalText(n)[..|DecimalText(n)| - 1] == DecimalText(n / 10);
    }
  }

  lemma NatOfOneMore(s: string, d: nat)
    requires AllDigits(s) && d < 10
    ensures AllDigits(s + [DigitChar(d)])
    ensures NatOf(s + [DigitChar(d)]) == 10 * NatOf(s) + d
  {
    var longer := s + [DigitChar(d)];
    assert longer[..|longer| - 1] == s;
  }

  lemma NatOfTwoMore(s: string, tens: nat, ones: nat)
    requires AllDigits(s) && tens < 10 && ones < 10
    ensures AllDigits(s + [DigitChar(tens), DigitChar(ones)])
    ensures NatOf(s + [DigitChar(tens), DigitChar(ones)]) == 100 * NatOf(s) + 10 * tens + ones
  {
    NatOfOneMore(s, tens);
    NatOfOneMore(s + [DigitChar(tens)], ones);
    assert s + [DigitChar(tens), DigitChar(ones)] == (s + [DigitChar(tens)]) + [DigitChar(ones)];
  }

  // ---------------------------------------------------------------- join

  function Join(parts: seq<string>, separator: string): string {
    if parts == [] then []
    else if |parts| == 1 then parts[0]
    else parts[0] + separator + Join(parts[1..], separator)
  }
}
