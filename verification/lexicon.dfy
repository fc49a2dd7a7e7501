/**
 The fixed Portuguese vocabulary shared by the passes: the ten digit words,
 digit-by-digit reading of a numeral, and the cardinal speller, which the
 normalizer takes from the `num2words` library and this model takes as a
 parameter `spell` (any function from naturals to text).
 */
module Lexicon {
  import opened Wrappers
  import opened Chars
  import opened Strings

  /** `num2words(n, lang='pt_BR')`, supplied by the caller. */
  type Speller = nat -> string

  const DigitNames: seq<string> :=
    ["zero", "um", "dois", "três", "quatro", "cinco", "seis", "sete", "oito", "nove"]

  /** The word for one digit (the `digit_map` tables of the normalizer). */
  function DigitWord(c: char): string
    requires IsDigit(c)
  {
    DigitNames[DigitValue(c)]
  }

  /** The word list for a numeral, one word per digit. */
  function DigitWordList(t: string): (ws: seq<string>)
    requires AllDigits(t)
    ensures |ws| == |t|
  {
    seq(|t|, k requires 0 <= k < |t| => DigitWord(t[k]))
  }

  /** `' '.join(digit_to_word(d) for d in t)`. */
  function DigitWords(t: string): string
    requires AllDigits(t)
  {
    Join(DigitWordList(t), " ")
  }

  /** The digit a digit word names. */
  function ReadDigitWord(w: string): (r: Option<char>)
    ensures r.Some? ==> IsDigit(r.value) && DigitWord(r.value) == w
  {
    if w == "zero" then Some('0') else if w == "um" then Some('1')
    else if w == "dois" then Some('2') else if w == "três" then Some('3')
    else if w == "quatro" then Some('4') else if w == "cinco" then Some('5')
    else if w == "seis" then Some('6') else if w == "sete" then Some('7')
    else if w == "oito" then Some('8') else if w == "nove" then Some('9')
    else None
  }

  /** Reads a space-separated digit reading back into the numeral it spells. */
  function ReadDigitWords(t: string): Option<string> {
    var ws := Split(t, ' ');
    if forall k :: 0 <= k < |ws| ==> ReadDigitWord(ws[k]).Some? then
      Some(seq(|ws|, k requires 0 <= k < |ws| => ReadDigitWord(ws[k]).value))
    else None
  }

  lemma ReadDigitWordInverse(c: char)
    requires IsDigit(c)
    ensures ReadDigitWord(DigitWord(c)) == Some(c)
    ensures ' ' !in DigitWord(c)
  {
    var v := DigitValue(c);
    assert v == 0 || v == 1 || v == 2 || v == 3 || v == 4 || v == 5 || v == 6 || v == 7 || v == 8 || v == 9;
  }

  /** A digit-by-digit reading loses nothing: every digit, leading zeros included, can be read back. */
  lemma DigitWordsRoundTrip(t: string)
    requires |t| >= 1 && AllDigits(t)
    ensures ReadDigitWords(DigitWords(t)) == Some(t)
  {
    var ws := DigitWordList(t);
    forall k | 0 <= k < |ws|
      ensures ' ' !in ws[k] && ReadDigitWord(ws[k]) == Some(t[k])
    {
      ReadDigitWordInverse(t[k]);
    }
    SplitJoin(ws, ' ');
    assert Split(DigitWords(t), ' ') == ws;
    assert forall k :: 0 <= k < |ws| ==> ReadDigitWord(ws[k]).Some?;
    assert seq(|ws|, k requires 0 <= k < |ws| => ReadDigitWord(ws[k]).value) == t;
  }

  /** A character property every digit word and the space have, every digit-by-digit reading has. */
  lemma DigitWordsAllChars(t: string, p: char -> bool)
    requires AllDigits(t)
    requires forall k :: 0 <= k < |DigitNames| ==> AllChars(DigitNames[k], p)
    requires p(' ')
    ensures AllChars(DigitWords(t), p)
  {
    var ws := DigitWordList(t);
    forall k | 0 <= k < |ws|
      ensures AllChars(ws[k], p)
    {
      assert ws[k] == DigitNames[DigitValue(t[k])];
    }
    JoinAllChars(ws, " ", p);
  }

  /** A property of every cardinal `spell` gives and of every digit word holds of every `SpellNumber` reading. */
  lemma SpellNumberAllChars(spell: Speller, n: nat, p: char -> bool)
    requires forall m :: AllChars(spell(m), p)
    requires forall k :: 0 <= k < |DigitNames| ==> AllChars(DigitNames[k], p)
    requires p(' ')
    ensures AllChars(SpellNumber(spell, n), p)
  {
    if n >= 10000 {
      DigitWordsAllChars(DecimalString(n), p);
    }
  }

  /**
   The reading of a number used throughout the normalizer: the cardinal below
   10000, otherwise digit by digit from `str(n)`.
   */
  function SpellNumber(spell: Speller, n: nat): (r: string)
    ensures n < 10000 ==> r == spell(n)
    ensures n >= 10000 ==> ReadDigitWords(r) == Some(DecimalString(n))
  {
    if n < 10000 then spell(n)
    else
      DigitWordsRoundTrip(DecimalString(n));
      DigitWords(DecimalString(n))
  }

}
