/**
 The currency pass (`normalize_currency`): `R$` amounts become spoken reais
 and centavos.

 The pattern is `R\$\s*(\d+)(?:[,.](\d{1,2}))?`. Every part of it is greedy and
 nothing follows the optional cents group, so no backtracking ever changes
 the outcome: the whitespace run, the whole digit run, then a separator with
 one or two digits when present. A thousands separator is therefore read as
 the start of the cents ("R$ 1.234,56" reads "1" and ".23"); that behaviour is
 kept and pinned by `ThousandsSeparatorReadAsCents`.
 */
module Currency {
  import opened Wrappers
  import opened Chars
  import opened Strings
  import opened Scanner
  import opened Lexicon

  /** A match: group 1 (`reais`), group 2 when it took part (`cents`), and where the match ends. */
  datatype Amount = Amount(reais: string, cents: Option<string>, end: nat)

  /** A cents group: one or two digits. */
  predicate CentsDigits(d: string) {
    1 <= |d| <= 2 && AllDigits(d)
  }

  predicate IsDecimalSeparator(c: char) {
    c == ',' || c == '.'
  }

  /** Where the amount digits start: after `R$` and any whitespace. */
  function DigitsStart(s: string, i: nat): nat
    requires i + 2 <= |s|
  {
    RunEnd(s, i + 2, IsSpace)
  }

  /** The pattern matches at `i`: `R$`, optional whitespace, then a digit. */
  predicate AmountAt(s: string, i: nat) {
    i + 2 <= |s| && s[i] == 'R' && s[i + 1] == '$'
    && DigitsStart(s, i) < |s| && IsDigit(s[DigitsStart(s, i)])
  }

  /** The currency pattern anchored at `i`. */
  function FindAmount(s: string, i: nat): (r: Option<Amount>)
    ensures r.Some? <==> AmountAt(s, i)
    ensures r.Some? ==>
      var p := DigitsStart(s, i);
      var q := p + |r.value.reais|;
      && q <= r.value.end <= |s|
      && r.value.reais == s[p..q] && |r.value.reais| >= 1 && AllDigits(r.value.reais)
      && (q == |s| || !IsDigit(s[q]))
      && (r.value.cents.None? ==>
            r.value.end == q && !(q + 1 < |s| && IsDecimalSeparator(s[q]) && IsDigit(s[q + 1])))
      && (r.value.cents.Some? ==>
            && q + 1 < r.value.end && CentsDigits(r.value.cents.value)
            && IsDecimalSeparator(s[q]) && r.value.cents.value == s[q + 1..r.value.end]
            && (|r.value.cents.value| == 1 ==> r.value.end == |s| || !IsDigit(s[r.value.end])))
  {
    if AmountAt(s, i) then
      var p := DigitsStart(s, i);
      var q := RunEnd(s, p, IsDigit);
      if q + 1 < |s| && IsDecimalSeparator(s[q]) && IsDigit(s[q + 1]) then
        var e := if q + 2 < |s| && IsDigit(s[q + 2]) then q + 3 else q + 2;
        CentsGroup(s, q, e);
        Some(Amount(s[p..q], Some(s[q + 1..e]), e))
      else
        Some(Amount(s[p..q], None, q))
    else
      None
  }

  /** The cents group: one or two digits after the separator, and one digit only when no third follows. */
  lemma CentsGroup(s: string, q: nat, e: nat)
    requires q + 1 < |s| && IsDigit(s[q + 1])
    requires e == if q + 2 < |s| && IsDigit(s[q + 2]) then q + 3 else q + 2
    ensures e <= |s| && CentsDigits(s[q + 1..e])
    ensures |s[q + 1..e]| == 1 ==> e == |s| || !IsDigit(s[e])
  {
  }

  /**
   `int(centavos_str.ljust(2, '0'))`: the hundredths the written cents stand
   for, "5" being fifty centavos and "05" five.
   */
  function Cents(d: string): (r: nat)
    requires CentsDigits(d)
    ensures r * Pow10(|d|) == 100 * Value(d)
    ensures r < 100
  {
    ValueBound(d);
    if |d| == 1 then ValueAppendZero(d); Value(d + "0") else Value(d)
  }

  /** The cents an amount carries, zero when the group is absent. */
  function CentsOf(cents: Option<string>): nat
    requires cents.Some? ==> CentsDigits(cents.value)
  {
    if cents.Some? then Cents(cents.value) else 0
  }

  /** The phrase for a non-zero count of reais. */
  function ReaisWords(spell: Speller, n: nat): string {
    if n == 1 then "um real" else spell(n) + " reais"
  }

  /** The phrase for a non-zero count of centavos. */
  function CentavosWords(spell: Speller, n: nat): string {
    if n == 1 then "um centavo" else spell(n) + " centavos"
  }

  /** The replacement `replace_currency` builds for an amount of `reais` and optional cents digits. */
  function SpokenAmount(spell: Speller, reais: nat, cents: Option<string>): (r: string)
    requires cents.Some? ==> CentsDigits(cents.value)
    ensures CentsOf(cents) == 0 && reais == 0 ==> r == "zero reais"
    ensures CentsOf(cents) == 0 && reais == 1 ==> r == "um real"
    ensures CentsOf(cents) == 0 && reais >= 2 ==> r == spell(reais) + " reais"
    ensures CentsOf(cents) == 1 && reais == 0 ==> r == "um centavo"
    ensures CentsOf(cents) >= 2 && reais == 0 ==> r == spell(CentsOf(cents)) + " centavos"
    ensures CentsOf(cents) > 0 && reais > 0
      ==> r == ReaisWords(spell, reais) + " e " + CentavosWords(spell, CentsOf(cents))
  {
    var reaisText := if reais == 0 then "" else if reais == 1 then "um real" else spell(reais) + " reais";
    if cents.Some? && Cents(cents.value) > 0 then
      var centavos := Cents(cents.value);
      var centavosText := if centavos == 1 then "um centavo" else spell(centavos) + " centavos";
      if reais == 0 then centavosText else reaisText + " e " + centavosText
    else if reaisText != "" then reaisText
    else "zero reais"
  }

  function CurrencyRewriter(spell: Speller): Rewriter {
    (s: string, i: nat) =>
      match FindAmount(s, i)
      case Some(a) => Some(Match(a.end, SpokenAmount(spell, Value(a.reais), a.cents)))
      case None => None
  }

  /** `normalize_currency`. */
  function NormalizeCurrency(spell: Speller, text: string): string {
    Sub(CurrencyRewriter(spell), text)
  }

  /** Text without a `$` has no amount and passes through unchanged. */
  lemma NoMarkerUnchanged(spell: Speller, text: string)
    requires '$' !in text
    ensures NormalizeCurrency(spell, text) == text
  {
    forall j | 0 <= j < |text|
      ensures Inert(CurrencyRewriter(spell), text, j)
    {
      assert !AmountAt(text, j);
    }
    ScanIdentity(CurrencyRewriter(spell), text, 0);
  }

  /** Text without digits has no amount either: a bare "R$" or "R$ " stays as it is. */
  lemma NoDigitsUnchanged(spell: Speller, text: string)
    requires forall k :: 0 <= k < |text| ==> !IsDigit(text[k])
    ensures NormalizeCurrency(spell, text) == text
  {
    forall j | 0 <= j < |text|
      ensures Inert(CurrencyRewriter(spell), text, j)
    {
      assert !AmountAt(text, j);
    }
    ScanIdentity(CurrencyRewriter(spell), text, 0);
  }

  /** How an amount is written: "R$ ", the reais digits, and ",cc" when cents are given. */
  function WrittenAmount(reais: string, cents: Option<string>): string {
    "R$ " + reais + (if cents.Some? then "," + cents.value else "")
  }

  /** A written amount is recognized whole, with the same digit groups. */
  lemma FindWrittenAmount(reais: string, cents: Option<string>)
    requires |reais| >= 1 && AllDigits(reais)
    requires cents.Some? ==> CentsDigits(cents.value)
    ensures var s := WrittenAmount(reais, cents);
      FindAmount(s, 0) == Some(Amount(reais, cents, |s|))
  {
    var s := WrittenAmount(reais, cents);
    var q := 3 + |reais|;
    assert s[2] == ' ' && IsDigit(s[3]);
    RunEndIs(s, 3, 3, IsSpace);
    RunEndIs(s, 2, 3, IsSpace);
    assert s[3..q] == reais;
    if cents.Some? {
      assert s[q] == ',';
      RunEndIs(s, 3, q, IsDigit);
      assert s[q + 1..|s|] == cents.value;
    } else {
      assert q == |s|;
      RunEndIs(s, 3, q, IsDigit);
    }
  }

  /** The currency pass reads a written amount as its spoken phrase. */
  lemma NormalizeWrittenAmount(spell: Speller, reais: string, cents: Option<string>)
    requires |reais| >= 1 && AllDigits(reais)
    requires cents.Some? ==> CentsDigits(cents.value)
    ensures NormalizeCurrency(spell, WrittenAmount(reais, cents))
      == SpokenAmount(spell, Value(reais), cents)
  {
    FindWrittenAmount(reais, cents);
    ScanWhole(CurrencyRewriter(spell), WrittenAmount(reais, cents));
  }

  /** The thousands separator is taken for the cents separator: "R$ 1.234,56" is read as "1" and ".23". */
  lemma ThousandsSeparatorReadAsCents()
    ensures FindAmount("R$ 1.234,56", 0) == Some(Amount("1", Some("23"), 7))
  {
    var s := "R$ 1.234,56";
    RunEndIs(s, 3, 3, IsSpace);
    RunEndIs(s, 2, 3, IsSpace);
    RunEndIs(s, 3, 4, IsDigit);
    assert s[3..4] == "1" && s[5..7] == "23";
  }

  /** ... so the pass speaks one real and 23 centavos and leaves "4,56" behind. */
  lemma ThousandsSeparatorLeavesRest(spell: Speller)
    ensures NormalizeCurrency(spell, "R$ 1.234,56") == SpokenAmount(spell, 1, Some("23")) + "4,56"
  {
    var s := "R$ 1.234,56";
    var rw := CurrencyRewriter(spell);
    ThousandsSeparatorReadAsCents();
    forall j | 7 <= j < |s|
      ensures Inert(rw, s, j)
    {
      assert s[j] != 'R';
    }
    ScanIdentity(rw, s, 7);
    assert Value("1") == 1;
    assert Fires(rw, s, 0);
    assert s[7..] == "4,56";
  }

}
