/**
 The number pass (`normalize_numbers`): integers and decimals become words.

 The pattern is `\b\d+(?:[,.]?\d+)?\b`. Backtracking never ends a match
 inside a digit run, so a match is either one digit run, or a run, a ',' or
 '.', and a second run; the longer form wins whenever a boundary follows it.

 The source parses decimals with `float` and takes
 `round((number - int(number)) * 100)`. Here the whole part and the fraction
 are computed exactly: the value of the written whole part, and the hundredths
 of the written fraction rounded half to even.

 A whole number is parsed with `int`, which refuses a digit string longer
 than `IntDigitLimit`; `replace_number` then gives the digits back as written.
 */
module Numbers {
  import opened Wrappers
  import opened Chars
  import opened Strings
  import opened Scanner
  import opened Lexicon
  import Currency

  /** A match: the digits before the separator, and the digits after it when there is one. */
  datatype Numeral = Numeral(whole: string, fraction: Option<string>, end: nat)

  predicate IsDecimalSeparator(c: char) {
    c == ',' || c == '.'
  }

  /** The number pattern anchored at `i`. */
  function FindNumeral(s: string, i: nat): (r: Option<Numeral>)
    ensures r.Some? ==>
      var n := r.value;
      var e0 := i + |n.whole|;
      && |n.whole| >= 1 && e0 <= |s| && AllDigits(n.whole) && n.whole == s[i..e0]
      && (e0 == |s| || !IsDigit(s[e0]))
      && !WordAt(s, i - 1) && n.end <= |s| && !WordAt(s, n.end)
      && (n.fraction.None? ==> n.end == e0)
      && (n.fraction.Some? ==>
            && e0 + 1 < n.end && IsDecimalSeparator(s[e0])
            && |n.fraction.value| >= 1 && AllDigits(n.fraction.value)
            && n.fraction.value == s[e0 + 1..n.end])
  {
    if i < |s| && IsDigit(s[i]) && !WordAt(s, i - 1) then
      var e0 := RunEnd(s, i, IsDigit);
      if e0 + 1 < |s| && IsDecimalSeparator(s[e0]) && IsDigit(s[e0 + 1]) && !WordAt(s, RunEnd(s, e0 + 1, IsDigit)) then
        var e1 := RunEnd(s, e0 + 1, IsDigit);
        Some(Numeral(s[i..e0], Some(s[e0 + 1..e1]), e1))
      else if !WordAt(s, e0) then
        Some(Numeral(s[i..e0], None, e0))
      else None
    else None
  }

  /**
   Any occurrence of the decimal form at `i` — digits, ',' or '.', digits,
   with a word boundary before and after — is found, with the fraction: the
   longer form wins.
   */
  lemma NumeralFractionFound(s: string, i: nat, a: nat, c: nat)
    requires i < a && a + 1 < c <= |s|
    requires forall k :: i <= k < a ==> IsDigit(s[k])
    requires IsDecimalSeparator(s[a])
    requires forall k :: a < k < c ==> IsDigit(s[k])
    requires !WordAt(s, i - 1) && !WordAt(s, c)
    ensures FindNumeral(s, i) == Some(Numeral(s[i..a], Some(s[a + 1..c]), c))
  {
    RunEndIs(s, i, a, IsDigit);
    RunEndIs(s, a + 1, c, IsDigit);
  }

  /**
   Any occurrence of a whole number at `i` — a digit run with a word boundary
   before and after — is found as a whole number, unless the decimal form
   also matches there (a separator, digits and a boundary after them).
   */
  lemma NumeralWholeFound(s: string, i: nat, a: nat)
    requires i < a <= |s|
    requires forall k :: i <= k < a ==> IsDigit(s[k])
    requires !WordAt(s, i - 1) && !WordAt(s, a)
    requires !(a + 1 < |s| && IsDecimalSeparator(s[a]) && IsDigit(s[a + 1]) && !WordAt(s, RunEnd(s, a + 1, IsDigit)))
    ensures FindNumeral(s, i) == Some(Numeral(s[i..a], None, a))
  {
    RunEndIs(s, i, a, IsDigit);
  }

  /** `round(x / d)` for a non-negative rational, ties to the even neighbour (Python's `round`). */
  function RoundHalfEven(x: nat, d: nat): (r: nat)
    requires d > 0
    ensures (2 * r - 1) * d <= 2 * x <= (2 * r + 1) * d
    ensures 2 * x == (2 * r + 1) * d || 2 * x == (2 * r - 1) * d ==> r % 2 == 0
  {
    var q := x / d;
    var rem := x % d;
    var r := if 2 * rem < d then q else if 2 * rem > d then q + 1 else if q % 2 == 0 then q else q + 1;
    RoundedNeighbour(x, d, q, rem, r);
    r
  }

  /** `q` or `q + 1`, chosen by which half of the divisor the remainder lies in, is a nearest quotient. */
  lemma RoundedNeighbour(x: nat, d: nat, q: nat, rem: nat, r: nat)
    requires d > 0 && x == q * d + rem && rem < d
    requires r == q || r == q + 1
    requires r == q ==> 2 * rem <= d
    requires r == q + 1 ==> 2 * rem >= d
    requires 2 * rem == d ==> r % 2 == 0
    ensures (2 * r - 1) * d <= 2 * x <= (2 * r + 1) * d
    ensures 2 * x == (2 * r + 1) * d || 2 * x == (2 * r - 1) * d ==> r % 2 == 0
  {
    var p := r * d;
    assert (2 * r + 1) * d == 2 * p + d && (2 * r - 1) * d == 2 * p - d;
    assert r == q + 1 ==> p == q * d + d;
  }

  /**
   The hundredths a written fraction stands for, rounded as the source rounds
   them: at most one whole ("999" after the comma rounds up to 100), and for
   one or two digits exact and equal to the currency pass's cents ("5" is
   fifty hundredths, "05" is five).
   */
  function Hundredths(f: string): (r: nat)
    requires AllDigits(f)
    ensures r <= 100
    ensures 1 <= |f| <= 2 ==> r * Pow10(|f|) == 100 * Value(f) && r == Currency.Cents(f)
  {
    var x := 100 * Value(f);
    var d := Pow10(|f|);
    ValueBound(f);
    var r := RoundHalfEven(x, d);
    RoundedBelow(x, d, r, 100);
    if 1 <= |f| <= 2 then RoundExact(x, d, Currency.Cents(f)); r else r
  }

  /** A rounded quotient of `x < m * d` by `d` is at most `m`. */
  lemma RoundedBelow(x: nat, d: nat, r: nat, m: nat)
    requires d > 0 && x < m * d && (2 * r - 1) * d <= 2 * x
    ensures r <= m
  {
    assert (2 * r - 1) * d - (2 * m + 1) * d == (2 * r - 2 * m - 2) * d;
    assert (2 * m + 1) * d == 2 * (m * d) + d;
    if r > m {
      assert false;
    }
  }

  /** An exact quotient needs no rounding. */
  lemma RoundExact(x: nat, d: nat, q: nat)
    requires d > 0 && x == q * d
    ensures RoundHalfEven(x, d) == q
  {
    var r: int := RoundHalfEven(x, d);
    assert (2 * q) * d == 2 * x;
    MulStrictMono(2 * q, 2 * r - 1, d);
    MulStrictMono(2 * r + 1, 2 * q, d);
  }

  /** Multiplying by `d` keeps a strict order at least `d` apart. */
  lemma {:induction false} MulStrictMono(a: int, b: int, d: nat)
    ensures a < b ==> a * d + d <= b * d
    decreases d
  {
    if d > 0 {
      MulStrictMono(a, b, d - 1);
      assert a * d == a * (d - 1) + a && b * d == b * (d - 1) + b;
    }
  }

  /** The reading of the digits before the separator or of a whole number (`str(integer_part)`). */
  function SpokenInteger(spell: Speller, t: string): (r: string)
    requires |t| >= 1 && AllDigits(t)
    ensures Value(t) < 10000 ==> r == spell(Value(t))
    ensures Value(t) >= 10000 ==> ReadDigitWords(r) == Some(t)
  {
    if Value(t) < 10000 then spell(Value(t))
    else
      DigitWordsRoundTrip(t);
      DigitWords(t)
  }

  /** The decimal branch of `replace_number`, given the integer part and the hundredths. */
  function SpokenDecimal(spell: Speller, ip: nat, dp: nat): (r: string)
    ensures ip == 0 && dp == 0 ==> r == "zero"
    ensures ip > 0 && dp == 0 ==> r == SpellNumber(spell, ip)
    ensures ip == 0 && dp > 0 ==> r == "zero vírgula " + SpellNumber(spell, dp)
    ensures ip > 0 && dp > 0 ==> r == SpellNumber(spell, ip) + " vírgula " + SpellNumber(spell, dp)
  {
    if ip == 0 && dp == 0 then "zero"
    else if dp == 0 then SpellNumber(spell, ip)
    else if ip == 0 then "zero vírgula " + SpellNumber(spell, dp)
    else SpellNumber(spell, ip) + " vírgula " + SpellNumber(spell, dp)
  }

  /** The longest digit string `int` parses (Python's default `sys.get_int_max_str_digits()`). */
  const IntDigitLimit: nat := 4300

  /**
   `replace_number` for a match. A whole number is read as `SpokenInteger`
   reads it, unless `int` refuses it for its length; a decimal is read from its
   whole part and its rounded hundredths, and for one or two fraction digits
   those hundredths are the cents the currency pass would read.
   */
  function SpokenNumeral(spell: Speller, whole: string, fraction: Option<string>): (r: string)
    requires |whole| >= 1 && AllDigits(whole)
    requires fraction.Some? ==> AllDigits(fraction.value)
    ensures fraction.None? && |whole| > IntDigitLimit ==> r == whole
    ensures fraction.None? && |whole| <= IntDigitLimit && Value(whole) < 10000 ==> r == spell(Value(whole))
    ensures fraction.None? && |whole| <= IntDigitLimit && Value(whole) >= 10000 ==> ReadDigitWords(r) == Some(whole)
    ensures fraction.Some? && 1 <= |fraction.value| <= 2
      ==> r == SpokenDecimal(spell, Value(whole), Currency.Cents(fraction.value))
    ensures fraction.Some? ==> exists dp: nat :: dp <= 100 && r == SpokenDecimal(spell, Value(whole), dp)
  {
    if fraction.Some? then SpokenDecimal(spell, Value(whole), Hundredths(fraction.value))
    else if |whole| > IntDigitLimit then whole
    else SpokenInteger(spell, whole)
  }

  function NumberRewriter(spell: Speller): Rewriter {
    (s: string, i: nat) =>
      match FindNumeral(s, i)
      case Some(n) => Some(Match(n.end, SpokenNumeral(spell, n.whole, n.fraction)))
      case None => None
  }

  /** `normalize_numbers`. */
  function NormalizeNumbers(spell: Speller, text: string): string {
    Sub(NumberRewriter(spell), text)
  }

  /** Leading zeros do not change a reading below 10000: "007" is read as 7. */
  lemma LeadingZeroIgnored(spell: Speller, t: string)
    requires |t| >= 1 && AllDigits(t) && Value(t) < 10000
    ensures AllDigits("0" + t)
    ensures SpokenInteger(spell, "0" + t) == SpokenInteger(spell, t) == spell(Value(t))
  {
    ValueLeadingZero(t);
  }

  /** Text without digits has no number. */
  lemma NoDigitsUnchanged(spell: Speller, text: string)
    requires forall k :: 0 <= k < |text| ==> !IsDigit(text[k])
    ensures NormalizeNumbers(spell, text) == text
  {
    forall j | 0 <= j < |text|
      ensures Inert(NumberRewriter(spell), text, j)
    {
      assert FindNumeral(text, j).None?;
    }
    ScanIdentity(NumberRewriter(spell), text, 0);
  }

  /** A written whole number is read as a whole, or given back as written when `int` refuses its length. */
  lemma NormalizeWrittenInteger(spell: Speller, t: string)
    requires |t| >= 1 && AllDigits(t)
    ensures |t| <= IntDigitLimit ==> NormalizeNumbers(spell, t) == SpokenInteger(spell, t)
    ensures |t| > IntDigitLimit ==> NormalizeNumbers(spell, t) == t
  {
    RunEndIs(t, 0, |t|, IsDigit);
    assert t[0..|t|] == t;
    assert FindNumeral(t, 0) == Some(Numeral(t, None, |t|));
    ScanWhole(NumberRewriter(spell), t);
  }

  /** A written decimal "<whole>,<fraction>" is recognized whole. */
  lemma FindWrittenDecimal(whole: string, fraction: string)
    requires |whole| >= 1 && AllDigits(whole) && |fraction| >= 1 && AllDigits(fraction)
    ensures FindNumeral(whole + "," + fraction, 0) == Some(Numeral(whole, Some(fraction), |whole| + 1 + |fraction|))
  {
    var s := whole + "," + fraction;
    var a := |whole|;
    assert s[a] == ',' && s[..a] == whole && s[a + 1..] == fraction;
    forall k | a + 1 <= k < |s|
      ensures IsDigit(s[k])
    {
      assert s[k] == fraction[k - a - 1];
    }
    RunEndIs(s, 0, a, IsDigit);
    RunEndIs(s, a + 1, |s|, IsDigit);
    assert s[0..a] == whole && s[a + 1..|s|] == fraction;
  }

  /** A written decimal "<whole>,<fraction>" is read as a whole. */
  lemma NormalizeWrittenDecimal(spell: Speller, whole: string, fraction: string)
    requires |whole| >= 1 && AllDigits(whole) && |fraction| >= 1 && AllDigits(fraction)
    ensures NormalizeNumbers(spell, whole + "," + fraction)
      == SpokenDecimal(spell, Value(whole), Hundredths(fraction))
  {
    var s := whole + "," + fraction;
    DecimalAt(spell, whole, fraction);
    ScanWhole(NumberRewriter(spell), s);
  }

  /** At the start of a written decimal the number rewriter replaces all of it. */
  lemma DecimalAt(spell: Speller, whole: string, fraction: string)
    requires |whole| >= 1 && AllDigits(whole) && |fraction| >= 1 && AllDigits(fraction)
    ensures var s := whole + "," + fraction;
      NumberRewriter(spell)(s, 0) == Some(Match(|s|, SpokenDecimal(spell, Value(whole), Hundredths(fraction))))
  {
    FindWrittenDecimal(whole, fraction);
  }

}
