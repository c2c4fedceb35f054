/** Amounts of money between integer fen and decimal text: the pair `_fen_to_money` and
    `_money_to_fen` of `inc/adapters/payments/epay.py`, and the pair `_minor_to_major` and
    `_major_to_minor` of `inc/adapters/payments/paypal.py`. */
module Money {
  import opened Decimals
  import opened Rounding
  import opened Text
  import opened Wrappers

  /** The ways an amount is refused. `ContextOverflow` is the `InvalidOperation` that `quantize`
      raises outside the `try` of the PayPal conversion. */
  datatype MoneyError = NotPositive | Invalid | ContextOverflow

  // ---------------------------------------------------------------- decimal text

  function WithoutUnderscores(s: string): string {
    if s == [] then []
    else (if s[0] == '_' then [] else [s[0]]) + WithoutUnderscores(s[1..])
  }

  /** A sign, if there is one, and what follows it. */
  function SplitSign(s: string): (r: (int, string)) {
    if s != [] && s[0] == '-' then (-1, s[1..])
    else if s != [] && s[0] == '+' then (1, s[1..])
    else (1, s)
  }

  function ParseInt(s: string): Option<int> {
    var (sign, digits) := SplitSign(s);
    if digits != [] && AllDigits(digits) then Some(Signed(sign, NatOf(digits))) else None
  }

  /** Digits with at most one point among them, and at least one digit. */
  function ParseMantissa(s: string): Option<Decimal> {
    var point := IndexOf(s, '.');
    var whole := s[..point];
    var fraction := if point < |s| then s[point + 1..] else [];
    if whole + fraction != [] && AllDigits(whole + fraction) then
      Some(Decimal(NatOf(whole + fraction), -|fraction|))
    else None
  }

  /** A lowered numeral without its sign: a mantissa, and an exponent if there is an `e`. */
  function ParseUnsigned(lower: string): Option<Decimal> {
    var e := IndexOf(lower, 'e');
    match ParseMantissa(lower[..e])
    case None => None
    case Some(m) =>
      if e == |lower| then Some(m)
      else match ParseInt(lower[e + 1..])
        case None => None
        case Some(shift) => Some(Decimal(m.coeff, m.exp + shift))
  }

  /** `Decimal(text)` for a finite numeral in ASCII digits; `None` is `InvalidOperation`. */
  function ParseDecimal(text: string): Option<Decimal> {
    var (sign, body) := SplitSign(WithoutUnderscores(Strip(text)));
    match ParseUnsigned(Lower(body))
    case None => None
    case Some(d) => Some(Decimal(Signed(sign, d.coeff), d.exp))
  }

  /** `f"{d:.2f}"` for a non-negative decimal: hundredths, rounded half-even when there are more. */
  function FixedTwo(d: Decimal): string
    requires d.coeff >= 0
  {
    var hundredths := if d.exp >= -2 then d.coeff * Pow10(d.exp + 2) else HalfEven(d.coeff, Pow10(-2 - d.exp));
    DecimalText(hundredths / 100) + "." + [DigitChar(hundredths / 10 % 10), DigitChar(hundredths % 10)]
  }

  // ---------------------------------------------------------------- the four conversions

  /** Both printers are this function: `_minor_to_major` differs only in checking the currency. */
  function FenToMoney(amount: int): Result<string, MoneyError> {
    if amount <= 0 then Failure(NotPositive)
    else
      assert DivideBy100(amount).coeff >= 0;
      Success(FixedTwo(DivideBy100(amount)))
  }

  /** `_money_to_fen` after `Decimal(str(value))`: round to hundredths, then scale. */
  function EpayFen(d: Decimal): Result<int, MoneyError> {
    match Quantize(d, -2)
    case None => Failure(Invalid)
    case Some(money) =>
      if money.coeff <= 0 then Failure(NotPositive) else Success(ToInt(Times100(money)))
  }

  /** `_major_to_minor` after `Decimal(str(value))`: scale, then round to units. */
  function PaypalFen(d: Decimal): Result<int, MoneyError> {
    match Quantize(Times100(d), 0)
    case None => Failure(ContextOverflow)
    case Some(scaled) =>
      if scaled.coeff <= 0 then Failure(NotPositive) else Success(ToInt(scaled))
  }

  function MoneyToFen(text: string): Result<int, MoneyError> {
    match ParseDecimal(text)
    case None => Failure(Invalid)
    case Some(d) => EpayFen(d)
  }

  function MajorToMinor(text: string): Result<int, MoneyError> {
    match ParseDecimal(text)
    case None => Failure(Invalid)
    case Some(d) => PaypalFen(d)
  }

  // ---------------------------------------------------------------- what each conversion means

  /** Epay's second step never loses anything: the answer is the rounded number of hundredths. */
  lemma EpayFenCases(d: Decimal)
    ensures var c := HalfUpAt(d, -2);
            EpayFen(d) == if Abs(c) >= LIMIT then Failure(Invalid)
                          else if c <= 0 then Failure(NotPositive) else Success(c)
  {
    var c := HalfUpAt(d, -2);
    if 0 < c < LIMIT {
      HundredthsToInt(c);
    }
  }

  lemma PaypalFenCases(d: Decimal)
    ensures var c := HalfUpAt(Times100(d), 0);
            PaypalFen(d) == if Abs(c) >= LIMIT then Failure(ContextOverflow)
                            else if c <= 0 then Failure(NotPositive) else Success(c)
  {
    assert Pow10(0) == 1;
  }

  /** Epay accepts a decimal, of any length, exactly when 100v rounded half up is a positive number of
      at most 28 digits, and then returns that number. */
  lemma EpayFenIsFloor(d: Decimal, n: int)
    ensures EpayFen(d) == Success(n) <==>
              0 < d.coeff && 0 < n < LIMIT && n == (100.0 * Value(d) + 0.5).Floor
  {
    EpayFenCases(d);
    SignIsKept(d, -2);
    if d.coeff >= 0 {
      HundredthsAreFloor(d);
    }
  }

  lemma SignIsKept(d: Decimal, exp: int)
    ensures d.coeff >= 0 ==> HalfUpAt(d, exp) >= 0
    ensures d.coeff <= 0 ==> HalfUpAt(d, exp) <= 0
  {
    if d.exp >= exp {
      if d.coeff >= 0 {
        ScaleUp(0, d.coeff, Pow10(d.exp - exp));
      } else {
        ScaleUp(d.coeff, 0, Pow10(d.exp - exp));
      }
    } else if d.coeff == 0 {
      HalfUpMeaning(0, Pow10(exp - d.exp), 0);
    }
  }

  /** For decimals of at most 28 digits, of whatever magnitude, the two conversions refuse the same
      values and otherwise return the same number. */
  lemma EpayAndPaypalAgree(d: Decimal)
    requires Abs(d.coeff) < LIMIT
    ensures EpayFen(d).Success? <==> PaypalFen(d).Success?
    ensures EpayFen(d).Success? ==> EpayFen(d) == PaypalFen(d)
  {
    ScaleThenRound(d);
    EpayFenCases(d);
    PaypalFenCases(d);
  }

  /** A larger value is never worth fewer fen, and an accepted amount is within half a fen of the
      exact one. */
  lemma FenAreMonotoneAndClose(d: Decimal, d': Decimal, n: int, n': int)
    requires EpayFen(d) == Success(n) && EpayFen(d') == Success(n')
    ensures Value(d) <= Value(d') ==> n <= n'
    ensures 100.0 * Value(d) - 0.5 < n as real <= 100.0 * Value(d) + 0.5
  {
    EpayFenIsFloor(d, n);
    EpayFenIsFloor(d', n');
  }

  // ---------------------------------------------------------------- printing and reading back

  /** A numeral without space, underscore, sign, exponent or capital passes through unchanged. */
  lemma {:induction false} PlainNumeral(s: string)
    requires forall i :: 0 <= i < |s| ==> IsDigit(s[i]) || s[i] == '.'
    ensures WithoutUnderscores(s) == s && Lower(s) == s && 'e' !in s
  {
    if s != [] {
      PlainNumeral(s[1..]);
    }
  }

  lemma ReadMantissa(whole: string, fraction: string)
    requires AllDigits(whole) && AllDigits(whole + fraction) && whole != []
    ensures ParseMantissa(whole + "." + fraction) == Some(Decimal(NatOf(whole + fraction), -|fraction|))
  {
    var text := whole + "." + fraction;
    assert text[|whole|] == '.' && text[..|whole|] == whole && text[|whole| + 1..] == fraction;
    FirstIndexIsUnique(text, '.', |whole|);
  }

  /** A text that starts and ends with a digit, of digits and points only, is read as a mantissa. */
  lemma ReadPlain(text: string)
    requires text != [] && IsDigit(text[0]) && IsDigit(text[|text| - 1])
    requires forall i :: 0 <= i < |text| ==> IsDigit(text[i]) || text[i] == '.'
    ensures ParseDecimal(text) == ParseMantissa(text)
  {
    StripIsTrimmed(text);
    PlainNumeral(text);
    AbsentHasNoIndex(text, 'e');
    assert WithoutUnderscores(Strip(text)) == text;
    assert SplitSign(text) == (1, text);
    assert text[..|text|] == text;
  }

  lemma ReadFixed(whole: string, tens: nat, ones: nat, h: nat)
    requires whole != [] && AllDigits(whole) && tens < 10 && ones < 10
    requires h == 100 * NatOf(whole) + 10 * tens + ones
    ensures ParseDecimal(whole + "." + [DigitChar(tens), DigitChar(ones)]) == Some(Decimal(h, -2))
  {
    var fraction := [DigitChar(tens), DigitChar(ones)];
    var text := whole + "." + fraction;
    assert ParseMantissa(text) == Some(Decimal(h, -2)) by {
      NatOfTwoMore(whole, tens, ones);
      ReadMantissa(whole, fraction);
    }
    assert ParseDecimal(text) == ParseMantissa(text) by {
      assert text[0] == whole[0] && text[|text| - 1] == DigitChar(ones);
      ReadPlain(text);
    }
  }

  lemma LastTwoDigits(h: nat, q: nat, tens: nat, ones: nat)
    requires q == h / 100 && tens == h / 10 % 10 && ones == h % 10
    ensures h == 100 * q + 10 * tens + ones
  {
  }

  lemma ReadFixedTwo(h: nat, whole: string, tens: nat, ones: nat)
    requires whole == DecimalText(h / 100) && tens == h / 10 % 10 && ones == h % 10
    ensures ParseDecimal(whole + "." + [DigitChar(tens), DigitChar(ones)]) == Some(Decimal(h, -2))
  {
    var q := h / 100;
    LastTwoDigits(h, q, tens, ones);
    NatOfDecimalText(q);
    ReadFixed(whole, tens, ones, h);
  }

  lemma EpayFenOfHundredths(h: nat)
    requires h > 0
    ensures EpayFen(Decimal(h, -2)) == if h < LIMIT then Success(h) else Failure(Invalid)
  {
    EpayFenCases(Decimal(h, -2));
    SameExponent(h, -2);
  }

  lemma PaypalFenOfHundredths(h: nat)
    requires h > 0
    ensures PaypalFen(Decimal(h, -2)) == if h < LIMIT then Success(h) else Failure(ContextOverflow)
  {
    PaypalFenCases(Decimal(h, -2));
    if h < LIMIT {
      ScaleThenRound(Decimal(h, -2));
      SameExponent(h, -2);
    } else {
      LimitIsPow10();
      InContextStaysLarge(Decimal(100 * h, -2), 2);
    }
  }

  lemma ReadPrinted(d: Decimal)
    requires d.coeff >= 0 && d.exp >= -2
    ensures ParseDecimal(FixedTwo(d)) == Some(Decimal(HalfUpAt(d, -2), -2))
  {
    var h: nat := d.coeff * Pow10(d.exp + 2);
    ReadFixedTwo(h, DecimalText(h / 100), h / 10 % 10, h % 10);
  }

  /** What is printed for an amount, read back as a decimal. */
  lemma PrintedAmount(amount: int)
    requires amount > 0
    ensures FenToMoney(amount).Success?
    ensures amount < LIMIT ==> ParseDecimal(FenToMoney(amount).value) == Some(Decimal(amount, -2))
    ensures amount >= LIMIT ==>
              exists h: nat :: h >= LIMIT && ParseDecimal(FenToMoney(amount).value) == Some(Decimal(h, -2))
  {
    DivideBy100Facts(amount);
    ReadPrinted(DivideBy100(amount));
  }

  /** Printing an amount of fen and reading it back is the identity exactly below 10^28 fen. From
      there on the text is refused; no amount is ever read back as a different one. */
  lemma EpayRoundTrip(amount: int)
    requires amount > 0
    ensures FenToMoney(amount).Success?
    ensures MoneyToFen(FenToMoney(amount).value) == Success(amount) <==> amount < LIMIT
    ensures amount >= LIMIT ==> MoneyToFen(FenToMoney(amount).value) == Failure(Invalid)
  {
    PrintedAmount(amount);
    if amount < LIMIT {
      EpayFenOfHundredths(amount);
    } else {
      var h: nat :| h >= LIMIT && ParseDecimal(FenToMoney(amount).value) == Some(Decimal(h, -2));
      EpayFenOfHundredths(h);
    }
  }

  /** The same for PayPal; there the refusal is the exception that the conversion does not catch. */
  lemma PaypalRoundTrip(amount: int)
    requires amount > 0
    ensures FenToMoney(amount).Success?
    ensures MajorToMinor(FenToMoney(amount).value) == Success(amount) <==> amount < LIMIT
    ensures amount >= LIMIT ==> MajorToMinor(FenToMoney(amount).value) == Failure(ContextOverflow)
  {
    PrintedAmount(amount);
    if amount < LIMIT {
      PaypalFenOfHundredths(amount);
    } else {
      var h: nat :| h >= LIMIT && ParseDecimal(FenToMoney(amount).value) == Some(Decimal(h, -2));
      PaypalFenOfHundredths(h);
    }
  }
}
