/**
 The whole normalizer (`normalize_text`): text that is empty or only
 whitespace is returned as given; any other text goes through the seven passes
 in order — currency, dates, numeric sequences, times, URLs and e-mails,
 numbers, and the sanitizer.

 `NormalizeText` is the normalizer as written, with `Dates.NormalizeDates`.
 `NormalizeTextCorrected` differs only in its dates pass, the corrected
 `Dates.NormalizeDatesGuarded`, which reads month/year only where the
 full-date substitution captured nothing.
 */
module Pipeline {
  import opened Chars
  import opened Strings
  import opened Lexicon
  import Currency
  import Dates
  import NumericSequences
  import Time
  import Urls
  import Numbers
  import Sanitizer

  /** The dates pass: as written, or corrected. */
  function DatesPass(spell: Speller, text: string, corrected: bool): string {
    if corrected then Dates.NormalizeDatesGuarded(spell, text) else Dates.NormalizeDates(spell, text)
  }

  /** The passes that run before the sanitizer, in the order `normalize_text` applies them. */
  function Spoken(spell: Speller, text: string, corrected: bool): string {
    var c := Currency.NormalizeCurrency(spell, text);
    var d := DatesPass(spell, c, corrected);
    var q := NumericSequences.NormalizeNumericSequences(d);
    var t := Time.NormalizeTime(spell, q);
    var u := Urls.NormalizeUrls(t);
    Numbers.NormalizeNumbers(spell, u)
  }

  /**
   `normalize_text`. Empty or whitespace-only text is returned exactly as
   given; any other text comes out clean: no dropped symbol is left, and its
   whitespace is single spaces between words, with none at either end.
   */
  function NormalizeText(spell: Speller, text: string): (r: string)
    ensures IsBlank(text) ==> r == text
    ensures !IsBlank(text) ==> AllChars(r, Sanitizer.NotDropped) && Sanitizer.Tidy(r)
  {
    if IsBlank(text) then text else Sanitizer.RemoveNonAlphanumeric(Spoken(spell, text, false))
  }

  /** `normalize_text` with the corrected dates pass, under the same guarantees. */
  function NormalizeTextCorrected(spell: Speller, text: string): (r: string)
    ensures IsBlank(text) ==> r == text
    ensures !IsBlank(text) ==> AllChars(r, Sanitizer.NotDropped) && Sanitizer.Tidy(r)
  {
    if IsBlank(text) then text else Sanitizer.RemoveNonAlphanumeric(Spoken(spell, text, true))
  }

  /** Text without digits or '.' is untouched by every pass before the sanitizer. */
  lemma PlainSpokenUnchanged(spell: Speller, text: string)
    requires forall k :: 0 <= k < |text| ==> !IsDigit(text[k])
    requires '.' !in text && '$' !in text
    ensures Spoken(spell, text, false) == text
  {
    Currency.NoMarkerUnchanged(spell, text);
    Dates.NoDigitsUnchanged(spell, text);
    NumericSequences.NoDigitsUnchanged(text);
    Time.NoDigitsUnchanged(spell, text);
    Urls.NoDotUnchanged(text);
    Numbers.NoDigitsUnchanged(spell, text);
  }

  /**
   Plain prose — no digits, no '.', no mention or hashtag mark, no dropped
   symbol, whitespace already single spaces between words — is returned as
   written: the sanitizer keeps its punctuation.
   */
  lemma PlainTextUnchanged(spell: Speller, text: string)
    requires !IsBlank(text)
    requires forall k :: 0 <= k < |text| ==> !IsDigit(text[k])
    requires '.' !in text && '@' !in text && '#' !in text
    requires AllChars(text, Sanitizer.NotDropped) && Sanitizer.Tidy(text)
    ensures NormalizeText(spell, text) == text
  {
    PlainSpokenUnchanged(spell, text);
    Sanitizer.SanitizedUnchanged(text);
  }

  /**
   A number written alone is spoken by the number pass and then tidied; one
   longer than `int` accepts comes back as written.
   */
  lemma NormalizeBareNumber(spell: Speller, t: string)
    requires |t| >= 1 && AllDigits(t)
    ensures |t| <= Numbers.IntDigitLimit
      ==> NormalizeText(spell, t) == Sanitizer.RemoveNonAlphanumeric(Numbers.SpokenInteger(spell, t))
    ensures |t| > Numbers.IntDigitLimit ==> NormalizeText(spell, t) == t
  {
    assert !IsSpace(t[0]);
    BareNumberReachesNumbers(spell, t);
    Numbers.NormalizeWrittenInteger(spell, t);
    if |t| > Numbers.IntDigitLimit {
      DigitsAreClean(t);
      Sanitizer.SanitizedUnchanged(t);
    }
  }

  /** A number written alone passes the currency, date, numeric-sequence, time and URL passes untouched. */
  lemma BareNumberReachesNumbers(spell: Speller, t: string)
    requires AllDigits(t)
    ensures Spoken(spell, t, false) == Numbers.NormalizeNumbers(spell, t)
  {
    assert '$' !in t && '/' !in t && '.' !in t && '-' !in t && 'h' !in t && ':' !in t;
    Currency.NoMarkerUnchanged(spell, t);
    Dates.NoSlashUnchanged(spell, t);
    NumericSequences.NoSeparatorUnchanged(t);
    Time.NoMarkerUnchanged(spell, t);
    Urls.NoDotUnchanged(t);
  }

  /** A digit string is clean and tidy text without tag marks. */
  lemma DigitsAreClean(t: string)
    requires |t| >= 1 && AllDigits(t)
    ensures '@' !in t && '#' !in t
    ensures AllChars(t, Sanitizer.NotDropped) && Sanitizer.Tidy(t)
  {
  }

}
