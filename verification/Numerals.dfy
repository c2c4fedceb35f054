/** What the texts mean that the two amount conversions read: the numerals of Python's `Decimal` and the
    number of each, told without the parser, and the conversions of every numeral. */
module Numerals {
  import EpaySignature
  import opened Decimals
  import opened Money
  import opened Rounding
  import opened Text
  import opened Wrappers

  datatype Sign = Unsigned | Plus | Minus

  /** The part after the `e`: whether that letter is a capital, a sign and digits. */
  datatype Exponent = Exponent(capital: bool, sign: Sign, digits: string)

  /** A numeral by its parts. Without a point there is no fraction. */
  datatype Numeral = Numeral(sign: Sign, whole: string, point: bool, fraction: string, exponent: Option<Exponent>)

  predicate IsExponent(e: Exponent) {
    e.digits != [] && AllDigits(e.digits)
  }

  predicate AreParts(whole: string, point: bool, fraction: string) {
    AllDigits(whole) && AllDigits(fraction) && whole + fraction != [] && (!point ==> fraction == [])
  }

  predicate IsNumeral(n: Numeral) {
    AreParts(n.whole, n.point, n.fraction) && (n.exponent.Some? ==> IsExponent(n.exponent.value))
  }

  function SpellSign(sign: Sign): string {
    match sign
    case Unsigned => ""
    case Plus => "+"
    case Minus => "-"
  }

  function Letter(e: Exponent): string {
    if e.capital then "E" else "e"
  }

  function SpellExponent(e: Option<Exponent>): string {
    if e.Some? then Letter(e.value) + SpellSign(e.value.sign) + e.value.digits else ""
  }

  function SpellMantissa(whole: string, point: bool, fraction: string): string {
    whole + (if point then "." else "") + fraction
  }

  function SpellNumeral(n: Numeral): string {
    SpellSign(n.sign) + SpellMantissa(n.whole, n.point, n.fraction) + SpellExponent(n.exponent)
  }

  function Negated(sign: Sign, n: int): int {
    if sign.Minus? then -n else n
  }

  function Shift(e: Option<Exponent>): int
    requires e.Some? ==> IsExponent(e.value)
  {
    if e.Some? then Negated(e.value.sign, NatOf(e.value.digits)) else 0
  }

  /** All its digits as one number, shifted right by the digits after the point and left by the exponent. */
  function Denoted(n: Numeral): Decimal
    requires IsNumeral(n)
  {
    Decimal(Negated(n.sign, NatOf(n.whole + n.fraction)), Shift(n.exponent) - |n.fraction|)
  }

  /** The text without the space around it and without underscores. */
  function Bare(text: string): string {
    WithoutUnderscores(Strip(text))
  }

  // ---------------------------------------------------------------- what is read over

  lemma {:induction false} NoUnderscoreNoChange(s: string)
    requires '_' !in s
    ensures WithoutUnderscores(s) == s
  {
    if s != [] {
      NoUnderscoreNoChange(s[1..]);
    }
  }

  lemma {:induction false} UnderscoresConcat(a: string, b: string)
    ensures WithoutUnderscores(a + b) == WithoutUnderscores(a) + WithoutUnderscores(b)
  {
    if a == [] {
      assert a + b == b;
    } else {
      assert (a + b)[0] == a[0] && (a + b)[1..] == a[1..] + b;
      UnderscoresConcat(a[1..], b);
    }
  }

  /** An underscore anywhere is as if it were not there; a text without one stays what it is. */
  lemma UnderscoresAreSkipped(a: string, b: string)
    ensures WithoutUnderscores(a + "_" + b) == WithoutUnderscores(a + b)
    ensures '_' !in a ==> WithoutUnderscores(a) == a
  {
    UnderscoresConcat(a + "_", b);
    UnderscoresConcat(a, "_");
    UnderscoresConcat(a, b);
    assert "_"[1..] == [];
    assert WithoutUnderscores([]) == [];
    if '_' !in a {
      NoUnderscoreNoChange(a);
    }
  }

  // ---------------------------------------------------------------- digits

  /** The number of two rows of digits, one after the other; with one digit at a time this says what every
      row of digits spells. */
  lemma {:induction false} NatOfConcat(a: string, b: string)
    requires AllDigits(a) && AllDigits(b)
    ensures AllDigits(a + b) && NatOf(a + b) == NatOf(a) * Pow10(|b|) + NatOf(b)
  {
    if b == [] {
      assert a + b == a;
    } else {
      var front := b[..|b| - 1];
      assert (a + b)[..|a + b| - 1] == a + front;
      NatOfConcat(a, front);
      Reassociate(10, NatOf(a), Pow10(|front|));
      Reassociate(NatOf(a), 10, Pow10(|front|));
    }
  }

  lemma NatOfOne(d: nat)
    requires d < 10
    ensures AllDigits(["0123456789"[d]]) && NatOf(["0123456789"[d]]) == d
  {
    assert NatOf([]) == 0;
    DigitAt(d);
    assert [DigitChar(d)][..0] == [];
  }

  lemma DigitAt(d: nat)
    requires d < 10
    ensures "0123456789"[d] == DigitChar(d)
  {
  }

  /** A number is printed without leading zeros. */
  lemma {:induction false} NoLeadingZero(n: nat)
    ensures n > 0 ==> DecimalText(n)[0] != '0'
    ensures n == 0 ==> DecimalText(n) == "0"
  {
    if n >= 10 {
      NoLeadingZero(n / 10);
    }
  }

  // ---------------------------------------------------------------- the parts of a numeral

  predicate Figures(s: string) {
    forall i :: 0 <= i < |s| ==> IsDigit(s[i]) || s[i] == '.' || s[i] == '+' || s[i] == '-'
  }

  /** Lowering changes no figure, and makes none. */
  lemma {:induction false} LowerKeepsFigures(s: string)
    ensures Figures(s) ==> Lower(s) == s && 'e' !in s
    ensures Figures(Lower(s)) ==> Lower(s) == s
    ensures |Lower(s)| == |s|
  {
    if s != [] {
      LowerKeepsFigures(s[1..]);
      if Figures(Lower(s)) {
        assert forall i :: 0 <= i < |s| - 1 ==> Lower(s)[i + 1] == Lower(s[1..])[i];
        assert Lower(s)[0] == s[0];
      }
    }
  }

  function Factor(sign: Sign): int {
    if sign.Minus? then -1 else 1
  }

  lemma SignReads(sign: Sign, rest: string)
    requires StartsUnsigned(rest)
    ensures SplitSign(SpellSign(sign) + rest) == (Factor(sign), rest)
  {
    if sign.Unsigned? {
      assert SpellSign(sign) + rest == rest;
    } else {
      assert (SpellSign(sign) + rest)[0] == SpellSign(sign)[0] && (SpellSign(sign) + rest)[1..] == rest;
    }
  }

  lemma SignSplits(s: string) returns (sign: Sign)
    ensures s == SpellSign(sign) + SplitSign(s).1
    ensures SplitSign(s).0 == Factor(sign)
  {
    if s != [] && (s[0] == '-' || s[0] == '+') {
      sign := if s[0] == '-' then Minus else Plus;
      assert s == [s[0]] + s[1..];
    } else {
      sign := Unsigned;
    }
  }

  lemma IntReads(sign: Sign, digits: string)
    requires digits != [] && AllDigits(digits)
    ensures ParseInt(SpellSign(sign) + digits) == Some(Negated(sign, NatOf(digits)))
  {
    SignReads(sign, digits);
  }

  lemma IntSplits(s: string) returns (sign: Sign, digits: string)
    requires ParseInt(s).Some?
    ensures digits != [] && AllDigits(digits) && s == SpellSign(sign) + digits
  {
    sign := SignSplits(s);
    digits := SplitSign(s).1;
  }

  predicate StartsUnsigned(s: string) {
    s != [] && s[0] != '+' && s[0] != '-'
  }

  lemma MantissaReads(whole: string, point: bool, fraction: string)
    requires AreParts(whole, point, fraction)
    ensures ParseMantissa(SpellMantissa(whole, point, fraction)) == Some(Decimal(NatOf(whole + fraction), -|fraction|))
  {
    var text := SpellMantissa(whole, point, fraction);
    if point {
      assert text[|whole|] == '.' && text[..|whole|] == whole && text[|whole| + 1..] == fraction;
      FirstIndexIsUnique(text, '.', |whole|);
    } else {
      assert text == whole && text[..|text|] == text;
      AbsentHasNoIndex(text, '.');
    }
  }

  lemma DigitsOnBothSides(a: string, b: string)
    requires AllDigits(a + b)
    ensures AllDigits(a) && AllDigits(b)
  {
    assert forall i :: 0 <= i < |a| ==> a[i] == (a + b)[i];
    assert forall i :: 0 <= i < |b| ==> b[i] == (a + b)[|a| + i];
  }

  lemma AroundPoint(s: string, at: nat)
    requires at < |s| && s[at] == '.'
    ensures s == s[..at] + "." + s[at + 1..]
  {
  }

  lemma MantissaSplits(s: string) returns (whole: string, point: bool, fraction: string)
    requires ParseMantissa(s).Some?
    ensures AreParts(whole, point, fraction) && s == SpellMantissa(whole, point, fraction)
  {
    var at := IndexOf(s, '.');
    whole, point := s[..at], at < |s|;
    if point {
      fraction := s[at + 1..];
      AroundPoint(s, at);
    } else {
      fraction := [];
      assert whole == s;
    }
    DigitsOnBothSides(whole, fraction);
  }

  lemma MantissaIsFigures(whole: string, point: bool, fraction: string)
    requires AreParts(whole, point, fraction)
    ensures var s := SpellMantissa(whole, point, fraction);
            Figures(s) && s != [] && s[0] != '+' && s[0] != '-'
  {
  }

  // ---------------------------------------------------------------- every numeral is read

  lemma CutAtMark(front: string, mark: char, after: string)
    requires mark !in front
    ensures var s := front + ([mark] + after);
            IndexOf(s, mark) == |front| < |s| && s[..|front|] == front && s[|front| + 1..] == after
  {
    var s := front + ([mark] + after);
    assert s[|front|] == mark && s[..|front|] == front && s[|front| + 1..] == after;
    FirstIndexIsUnique(s, mark, |front|);
  }

  lemma BodyLowered(mantissa: string, letter: string, after: string)
    requires Figures(mantissa) && Figures(after) && Lower(letter) == ['e']
    ensures Lower(mantissa + (letter + after)) == mantissa + (['e'] + after)
    ensures 'e' !in mantissa
  {
    LowerConcat(mantissa, letter + after);
    LowerConcat(letter, after);
    LowerKeepsFigures(mantissa);
    LowerKeepsFigures(after);
  }

  /** The steps of the parser, for a body with an `e` and for one without. */
  lemma UnsignedWithExponent(lower: string, mantissa: string, after: string, m: Decimal, shift: int)
    requires lower == mantissa + (['e'] + after) && 'e' !in mantissa
    requires ParseMantissa(mantissa) == Some(m) && ParseInt(after) == Some(shift)
    ensures ParseUnsigned(lower) == Some(Decimal(m.coeff, m.exp + shift))
  {
    CutAtMark(mantissa, 'e', after);
  }

  lemma UnsignedWithoutExponent(lower: string, m: Decimal)
    requires 'e' !in lower && ParseMantissa(lower) == Some(m)
    ensures ParseUnsigned(lower) == Some(m)
  {
    AbsentHasNoIndex(lower, 'e');
    assert lower[..|lower|] == lower;
  }

  lemma SignedReads(text: string, sign: int, body: string, lower: string, unsigned: Decimal, d: Decimal)
    requires SplitSign(Bare(text)) == (sign, body) && Lower(body) == lower && ParseUnsigned(lower) == Some(unsigned)
    requires d == Decimal(Signed(sign, unsigned.coeff), unsigned.exp)
    ensures ParseDecimal(text) == Some(d)
  {
  }

  lemma SignedIsNegated(sign: Sign, n: nat)
    ensures Signed(Factor(sign), n) == Negated(sign, n)
  {
  }

  lemma ExponentIsFigures(e: Exponent)
    requires IsExponent(e)
    ensures Figures(SpellSign(e.sign) + e.digits) && Lower(Letter(e)) == ['e']
  {
    assert Letter(e)[1..] == [];
    assert Lower([]) == [];
  }

  /** A mantissa that reads as `m`. */
  predicate Reads(mantissa: string, m: Decimal) {
    Figures(mantissa) && StartsUnsigned(mantissa) && m.coeff >= 0 && ParseMantissa(mantissa) == Some(m)
  }

  lemma SpelledWithExponent(text: string, sign: Sign, mantissa: string, m: Decimal, letter: string, after: string,
                            shift: int)
    requires Reads(mantissa, m) && ParseInt(after) == Some(shift)
    requires Figures(after) && Lower(letter) == ['e']
    requires Bare(text) == SpellSign(sign) + (mantissa + (letter + after))
    ensures ParseDecimal(text) == Some(Decimal(Negated(sign, m.coeff), m.exp + shift))
  {
    var body := mantissa + (letter + after);
    assert StartsUnsigned(body);
    SignReads(sign, body);
    BodyLowered(mantissa, letter, after);
    SignedIsNegated(sign, m.coeff);
    UnsignedWithExponent(Lower(body), mantissa, after, m, shift);
    SignedReads(text, Factor(sign), body, Lower(body), Decimal(m.coeff, m.exp + shift),
                Decimal(Negated(sign, m.coeff), m.exp + shift));
  }

  lemma SpelledWithoutExponent(text: string, sign: Sign, mantissa: string, m: Decimal)
    requires Reads(mantissa, m) && Bare(text) == SpellSign(sign) + mantissa
    ensures ParseDecimal(text) == Some(Decimal(Negated(sign, m.coeff), m.exp))
  {
    SignReads(sign, mantissa);
    LowerKeepsFigures(mantissa);
    SignedIsNegated(sign, m.coeff);
    UnsignedWithoutExponent(mantissa, m);
    SignedReads(text, Factor(sign), mantissa, mantissa, m, Decimal(Negated(sign, m.coeff), m.exp));
  }

  lemma Regrouped(sign: string, mantissa: string, letter: string, expSign: string, digits: string)
    ensures sign + mantissa + (letter + expSign + digits) == sign + (mantissa + (letter + (expSign + digits)))
  {
  }

  lemma SpelledWithItsExponent(text: string, sign: Sign, mantissa: string, m: Decimal, e: Exponent)
    requires Reads(mantissa, m) && IsExponent(e)
    requires Bare(text) == SpellSign(sign) + mantissa + (Letter(e) + SpellSign(e.sign) + e.digits)
    ensures ParseDecimal(text) == Some(Decimal(Negated(sign, m.coeff), m.exp + Negated(e.sign, NatOf(e.digits))))
  {
    Regrouped(SpellSign(sign), mantissa, Letter(e), SpellSign(e.sign), e.digits);
    ExponentIsFigures(e);
    IntReads(e.sign, e.digits);
    SpelledWithExponent(text, sign, mantissa, m, Letter(e), SpellSign(e.sign) + e.digits,
                        Negated(e.sign, NatOf(e.digits)));
  }

  /** Every text that is `bare`, less space and underscores, is read as `d`. */
  ghost predicate ReadAs(bare: string, d: Decimal) {
    forall text :: Bare(text) == bare ==> ParseDecimal(text) == Some(d)
  }

  lemma ReadAsWithExponent(sign: Sign, mantissa: string, m: Decimal, e: Exponent, bare: string, d: Decimal)
    requires Reads(mantissa, m) && IsExponent(e)
    requires bare == SpellSign(sign) + mantissa + (Letter(e) + SpellSign(e.sign) + e.digits)
    requires d == Decimal(Negated(sign, m.coeff), m.exp + Negated(e.sign, NatOf(e.digits)))
    ensures ReadAs(bare, d)
  {
    forall text | Bare(text) == bare
      ensures ParseDecimal(text) == Some(d)
    {
      SpelledWithItsExponent(text, sign, mantissa, m, e);
    }
  }

  lemma ReadAsWithoutExponent(sign: Sign, mantissa: string, m: Decimal, bare: string, d: Decimal)
    requires Reads(mantissa, m) && bare == SpellSign(sign) + mantissa && d == Decimal(Negated(sign, m.coeff), m.exp)
    ensures ReadAs(bare, d)
  {
    forall text | Bare(text) == bare
      ensures ParseDecimal(text) == Some(d)
    {
      SpelledWithoutExponent(text, sign, mantissa, m);
    }
  }

  lemma MantissaIsReadAs(sign: Sign, mantissa: string, m: Decimal, e: Option<Exponent>, bare: string, d: Decimal)
    requires Reads(mantissa, m) && (e.Some? ==> IsExponent(e.value))
    requires bare == SpellSign(sign) + mantissa + SpellExponent(e)
    requires d == Decimal(Negated(sign, m.coeff), m.exp + Shift(e))
    ensures ReadAs(bare, d)
  {
    match e
    case Some(exponent) =>
      ReadAsWithExponent(sign, mantissa, m, exponent, bare, d);
    case None =>
      NothingAdded(SpellSign(sign) + mantissa);
      ReadAsWithoutExponent(sign, mantissa, m, bare, d);
  }

  lemma NumeralIsReadAs(n: Numeral)
    requires IsNumeral(n)
    ensures ReadAs(SpellNumeral(n), Denoted(n))
  {
    var mantissa, m := MantissaOf(n);
    MantissaIsReadAs(n.sign, mantissa, m, n.exponent, SpellNumeral(n), Denoted(n));
  }

  lemma MantissaOf(n: Numeral) returns (mantissa: string, m: Decimal)
    requires IsNumeral(n)
    ensures Reads(mantissa, m) && m == Decimal(NatOf(n.whole + n.fraction), -|n.fraction|)
    ensures SpellNumeral(n) == SpellSign(n.sign) + mantissa + SpellExponent(n.exponent)
  {
    mantissa, m := SpellMantissa(n.whole, n.point, n.fraction), Decimal(NatOf(n.whole + n.fraction), -|n.fraction|);
    MantissaIsFigures(n.whole, n.point, n.fraction);
    MantissaReads(n.whole, n.point, n.fraction);
  }

  lemma NothingAdded(s: string)
    ensures s + "" == s
  {
  }

  // ---------------------------------------------------------------- and nothing else is

  lemma LowerOne(c: char)
    ensures |Lower([c])| == 1 && (Lower([c])[0] == 'e' <==> c == 'e' || c == 'E')
  {
    assert [c][1..] == [];
    assert Lower([]) == [];
  }

  lemma LowerAround(front: string, mark: char, rest: string)
    ensures Lower(front + ([mark] + rest)) == Lower(front) + (Lower([mark]) + Lower(rest))
  {
    LowerConcat(front, [mark] + rest);
    LowerConcat([mark], rest);
  }

  lemma SlicesAround(front: string, mark: char, rest: string)
    ensures var s := front + ([mark] + rest);
            s[..|front|] == front && s[|front|] == mark && s[|front| + 1..] == rest
  {
  }

  lemma BodyUnlowered(body: string, at: nat)
    requires |Lower(body)| == |body| && at < |body| && Lower(body)[at] == 'e'
    requires Figures(Lower(body)[..at]) && Figures(Lower(body)[at + 1..])
    ensures body[at] == 'e' || body[at] == 'E'
    ensures body == Lower(body)[..at] + ([body[at]] + Lower(body)[at + 1..])
  {
    var front, mark, rest := body[..at], body[at], body[at + 1..];
    assert body == front + ([mark] + rest);
    LowerAround(front, mark, rest);
    LowerOne(mark);
    LowerKeepsFigures(front);
    LowerKeepsFigures(rest);
    SlicesAround(Lower(front), Lower([mark])[0], Lower(rest));
    assert Lower([mark]) == [Lower([mark])[0]];
  }

  /** What the parser has found when it succeeds. */
  lemma ReadSteps(text: string)
    requires ParseDecimal(text).Some?
    ensures var lower := Lower(SplitSign(Bare(text)).1);
            var at := IndexOf(lower, 'e');
            ParseMantissa(lower[..at]).Some? && (at < |lower| ==> ParseInt(lower[at + 1..]).Some?)
  {
  }

  lemma SignIsFigures(sign: Sign, digits: string)
    requires AllDigits(digits)
    ensures Figures(SpellSign(sign) + digits)
  {
  }

  lemma ReadIsSpelled(text: string) returns (n: Numeral)
    requires ParseDecimal(text).Some?
    ensures IsNumeral(n) && Bare(text) == SpellNumeral(n)
  {
    ReadSteps(text);
    var sign := SignSplits(Bare(text));
    var body := SplitSign(Bare(text)).1;
    var lower := Lower(body);
    var at := IndexOf(lower, 'e');
    var whole, point, fraction := MantissaSplits(lower[..at]);
    MantissaIsFigures(whole, point, fraction);
    LowerKeepsFigures(body);
    if at == |lower| {
      assert lower[..at] == lower == body;
      n := WithoutExponent(text, sign, whole, point, fraction);
    } else {
      var expSign, digits := IntSplits(lower[at + 1..]);
      SignIsFigures(expSign, digits);
      BodyUnlowered(body, at);
      n := WithExponent(text, sign, whole, point, fraction, body[at], expSign, digits);
    }
  }

  lemma WithoutExponent(text: string, sign: Sign, whole: string, point: bool, fraction: string)
    returns (n: Numeral)
    requires AreParts(whole, point, fraction)
    requires Bare(text) == SpellSign(sign) + SpellMantissa(whole, point, fraction)
    ensures IsNumeral(n) && Bare(text) == SpellNumeral(n)
  {
    n := Numeral(sign, whole, point, fraction, None);
    NothingAdded(SpellSign(sign) + SpellMantissa(whole, point, fraction));
  }

  lemma WithExponent(text: string, sign: Sign, whole: string, point: bool, fraction: string, mark: char,
                     expSign: Sign, digits: string) returns (n: Numeral)
    requires AreParts(whole, point, fraction) && (mark == 'e' || mark == 'E')
    requires digits != [] && AllDigits(digits)
    requires Bare(text)
             == SpellSign(sign) + (SpellMantissa(whole, point, fraction) + ([mark] + (SpellSign(expSign) + digits)))
    ensures IsNumeral(n) && Bare(text) == SpellNumeral(n)
  {
    var e := Exponent(mark == 'E', expSign, digits);
    n := Numeral(sign, whole, point, fraction, Some(e));
    assert Letter(e) == [mark];
    Regrouped(SpellSign(sign), SpellMantissa(whole, point, fraction), [mark], SpellSign(expSign), digits);
  }

  // ---------------------------------------------------------------- the results

  ghost predicate Spells(text: string, n: Numeral) {
    IsNumeral(n) && Bare(text) == SpellNumeral(n)
  }

  /** A text is read as a decimal exactly when, less space and underscores, it spells a numeral, and then as
      the decimal that this numeral denotes; every other text is refused. */
  lemma ReadMeans(text: string, d: Decimal)
    ensures ParseDecimal(text) == Some(d) <==> exists n :: Spells(text, n) && Denoted(n) == d
    ensures ParseDecimal(text).None? <==> !exists n :: Spells(text, n)
  {
    forall n | Spells(text, n)
      ensures ParseDecimal(text) == Some(Denoted(n))
    {
      NumeralIsReadAs(n);
    }
    if ParseDecimal(text).Some? {
      var n := ReadIsSpelled(text);
      assert Spells(text, n);
    }
  }

  // ---------------------------------------------------------------- amounts

  /** What a number of hundredths is worth: itself, if it is positive and has at most 28 digits. */
  function Worth(hundredths: int, tooLarge: MoneyError): Result<int, MoneyError> {
    if hundredths <= 0 then Failure(NotPositive)
    else if hundredths >= LIMIT then Failure(tooLarge)
    else Success(hundredths)
  }

  /** Epay's conversion of every text there is: it accepts exactly the numerals above zero whose hundredths,
      rounded half up, are positive and have at most 28 digits, and returns that number. */
  lemma EpayReads(text: string, k: int)
    ensures MoneyToFen(text) == Success(k) <==>
              exists n :: Spells(text, n) && Denoted(n).coeff > 0 && 0 < k < LIMIT
                          && k == (100.0 * Value(Denoted(n)) + 0.5).Floor
    ensures (!exists n :: Spells(text, n)) ==> MoneyToFen(text) == MajorToMinor(text) == Failure(Invalid)
  {
    match ParseDecimal(text)
    case Some(d) =>
      ReadMeans(text, d);
      EpayFenIsFloor(d, k);
      forall n | Spells(text, n)
        ensures Denoted(n) == d
      {
        ReadMeans(text, Denoted(n));
      }
    case None =>
      ReadMeans(text, Decimal(0, 0));
  }

  /** PayPal's reads the same texts, and as the same amounts when the digits are at most 28. */
  lemma PaypalReads(text: string, n: Numeral)
    requires Spells(text, n)
    ensures Abs(Denoted(n).coeff) < LIMIT ==>
              && (MajorToMinor(text).Success? <==> MoneyToFen(text).Success?)
              && (MajorToMinor(text).Success? ==> MajorToMinor(text) == MoneyToFen(text))
    ensures Denoted(n).coeff <= 0 ==> !MajorToMinor(text).Success? && !MoneyToFen(text).Success?
  {
    ReadMeans(text, Denoted(n));
    if Abs(Denoted(n).coeff) < LIMIT {
      EpayAndPaypalAgree(Denoted(n));
    }
    if Denoted(n).coeff <= 0 {
      NothingFromNothing(Denoted(n));
    }
  }

  lemma NothingFromNothing(d: Decimal)
    requires d.coeff <= 0
    ensures !EpayFen(d).Success? && !PaypalFen(d).Success?
  {
    EpayFenCases(d);
    PaypalFenCases(d);
    SignIsKept(d, -2);
    SignIsKept(Times100(d), 0);
  }

  /** A numeral with a minus is never an amount. */
  lemma NegativeIsNoAmount(text: string, n: Numeral)
    requires Spells(text, n) && n.sign.Minus?
    ensures !MoneyToFen(text).Success? && !MajorToMinor(text).Success?
  {
    PaypalReads(text, n);
  }

  lemma HundredthsOf(c: nat, exp: int)
    requires -2 <= exp <= 0
    ensures HalfUpAt(Decimal(c, exp), -2) == c * (if exp == 0 then 100 else if exp == -1 then 10 else 1)
  {
    assert Pow10(0) == 1 && Pow10(1) == 10 && Pow10(2) == 100;
  }

  /** Numerals without exponent and sign, with up to two digits after the point: 12 is 1200 fen, 0.5 is 50
      and 1.25 is 125. */
  lemma ShortAmounts(text: string, n: Numeral)
    requires Spells(text, n) && n.exponent.None? && !n.sign.Minus? && |n.fraction| <= 2
    ensures var digits := NatOf(n.whole + n.fraction);
            var hundredths := digits * (if |n.fraction| == 0 then 100 else if |n.fraction| == 1 then 10 else 1);
            && MoneyToFen(text) == Worth(hundredths, Invalid)
            && (digits < LIMIT ==> MajorToMinor(text) == Worth(hundredths, ContextOverflow))
  {
    var d := Denoted(n);
    ReadMeans(text, d);
    HundredthsOf(d.coeff, d.exp);
    EpayFenCases(d);
    PaypalFenCases(d);
    if Abs(d.coeff) < LIMIT {
      ScaleThenRound(d);
    }
  }

  // ---------------------------------------------------------------- numerals as they are written

  lemma {:induction false} NothingToStrip(s: string)
    requires forall i :: 0 <= i < |s| ==> !IsSpace(s[i]) && s[i] != '_'
    ensures Bare(s) == s
  {
    StripIsTrimmed(s);
    NoUnderscoreNoChange(s);
  }

  lemma SpellingIsPlain(n: Numeral)
    requires IsNumeral(n)
    ensures forall i :: 0 <= i < |SpellNumeral(n)| ==> !IsSpace(SpellNumeral(n)[i]) && SpellNumeral(n)[i] != '_'
  {
  }

  lemma SpellsItself(n: Numeral)
    requires IsNumeral(n)
    ensures Spells(SpellNumeral(n), n)
  {
    SpellingIsPlain(n);
    NothingToStrip(SpellNumeral(n));
  }

  lemma WrittenAs(text: string, n: Numeral, hundredths: int)
    requires IsNumeral(n) && SpellNumeral(n) == text
    requires n.exponent.None? && n.sign.Unsigned? && |n.fraction| <= 2
    requires hundredths
             == NatOf(n.whole + n.fraction) * (if |n.fraction| == 0 then 100 else if |n.fraction| == 1 then 10 else 1)
    ensures MoneyToFen(text) == Worth(hundredths, Invalid)
    ensures hundredths < LIMIT ==> MajorToMinor(text) == Worth(hundredths, ContextOverflow)
  {
    SpellsItself(n);
    ShortAmounts(text, n);
  }

  lemma WholeSpelled(whole: string)
    ensures SpellNumeral(Numeral(Unsigned, whole, false, [], None)) == whole && whole + [] == whole
  {
  }

  lemma PointSpelled(whole: string, fraction: string)
    ensures SpellNumeral(Numeral(Unsigned, whole, true, fraction, None)) == whole + "." + fraction
  {
  }

  /** A row of digits is so many yuan. */
  lemma WholeAmounts(whole: string)
    requires AllDigits(whole) && whole != []
    ensures MoneyToFen(whole) == Worth(100 * NatOf(whole), Invalid)
    ensures 100 * NatOf(whole) < LIMIT ==> MajorToMinor(whole) == Worth(100 * NatOf(whole), ContextOverflow)
  {
    WholeSpelled(whole);
    WrittenAs(whole, Numeral(Unsigned, whole, false, [], None), 100 * NatOf(whole));
  }

  /** With a point and one or two digits after it, it is so many tenths or hundredths. */
  lemma PointAmounts(whole: string, fraction: string, hundredths: int)
    requires AllDigits(whole) && AllDigits(fraction) && 1 <= |fraction| <= 2 && AllDigits(whole + fraction)
    requires hundredths == NatOf(whole + fraction) * (if |fraction| == 1 then 10 else 1)
    ensures MoneyToFen(whole + "." + fraction) == Worth(hundredths, Invalid)
    ensures hundredths < LIMIT ==> MajorToMinor(whole + "." + fraction) == Worth(hundredths, ContextOverflow)
  {
    PointSpelled(whole, fraction);
    WrittenAs(whole + "." + fraction, Numeral(Unsigned, whole, true, fraction, None), hundredths);
  }

  lemma WholeReadBack(n: int, spelled: Numeral)
    requires spelled == Numeral(if n < 0 then Minus else Unsigned, DecimalText(Abs(n)), false, [], None)
    ensures IsNumeral(spelled) && Denoted(spelled) == Decimal(n, 0)
  {
    NatOfDecimalText(Abs(n));
    NothingAdded(DecimalText(Abs(n)));
  }

  lemma WholeIsSpelled(n: int, spelled: Numeral)
    requires spelled == Numeral(if n < 0 then Minus else Unsigned, DecimalText(Abs(n)), false, [], None)
    ensures SpellNumeral(spelled) == IntText(n)
  {
    WholeSpelled(DecimalText(Abs(n)));
  }

  /** A printed integer is a numeral and reads back as that integer. */
  lemma PrintedIntegerReadsBack(n: int)
    ensures ParseDecimal(EpaySignature.Str(EpaySignature.Whole(n))) == Some(Decimal(n, 0))
  {
    var spelled := Numeral(if n < 0 then Minus else Unsigned, DecimalText(Abs(n)), false, [], None);
    WholeReadBack(n, spelled);
    WholeIsSpelled(n, spelled);
    SpellsItself(spelled);
    ReadMeans(IntText(n), Denoted(spelled));
  }

  /** An amount is printed as its yuan without leading zeros, a point and its two last digits. */
  lemma PrintedAs(amount: int)
    requires 0 < amount < LIMIT
    ensures FenToMoney(amount)
            == Success(DecimalText(amount / 100) + "." + ["0123456789"[amount / 10 % 10], "0123456789"[amount % 10]])
    ensures amount >= 100 ==> DecimalText(amount / 100)[0] != '0'
    ensures amount < 100 ==> DecimalText(amount / 100) == "0"
  {
    DigitAt(amount / 10 % 10);
    DigitAt(amount % 10);
    NoLeadingZero(amount / 100);
    assert Pow10(0) == 1;
  }
}
