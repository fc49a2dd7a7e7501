/**
 The date pass (`normalize_dates`): two substitutions run one after the other,
 full dates `\b(\d{1,2})/(\d{1,2})/(\d{2,4})\b` first, then month/year
 `\b(\d{1,2})/(\d{2,4})\b` over the result.

 Digits are word characters, so the `\b` anchors and the `/` separators force
 every digit group to be a whole maximal digit run: a group either is the
 entire run or the pattern fails at that position.
 */
module Dates {
  import opened Wrappers
  import opened Chars
  import opened Strings
  import opened Scanner
  import opened Lexicon

  const MonthNames: seq<string> :=
    ["janeiro", "fevereiro", "março", "abril", "maio", "junho",
     "julho", "agosto", "setembro", "outubro", "novembro", "dezembro"]

  /** A full-date match: groups 1, 2 and 3, and the end of the match. */
  datatype FullDate = FullDate(day: string, month: string, year: string, end: nat)

  /** A month/year match: groups 1 and 2, and the end of the match. */
  datatype MonthYear = MonthYear(month: string, year: string, end: nat)

  /** A maximal digit run of `lo` to `hi` digits starting at `j`, and where it ends. */
  function DigitGroup(s: string, j: nat, lo: nat, hi: nat): (r: Option<nat>)
    requires j <= |s|
    ensures r.Some? ==> j + lo <= r.value <= j + hi && r.value <= |s|
    ensures r.Some? ==> AllDigits(s[j..r.value]) && (r.value == |s| || !IsDigit(s[r.value]))
    ensures r.None? ==> RunEnd(s, j, IsDigit) - j < lo || RunEnd(s, j, IsDigit) - j > hi
  {
    var e := RunEnd(s, j, IsDigit);
    if lo <= e - j <= hi then Some(e) else None
  }

  /** `\b(\d{1,2})/(\d{1,2})/(\d{2,4})\b` anchored at `i`. */
  function FindFullDate(s: string, i: nat): (r: Option<FullDate>)
    ensures r.Some? ==>
      var d := r.value;
      var a := i + |d.day|;
      var b := a + 1 + |d.month|;
      && 1 <= |d.day| <= 2 && 1 <= |d.month| <= 2 && 2 <= |d.year| <= 4
      && d.end == b + 1 + |d.year| && d.end <= |s|
      && s[a] == '/' && s[b] == '/'
      && d.day == s[i..a] && d.month == s[a + 1..b] && d.year == s[b + 1..d.end]
      && AllDigits(d.day) && AllDigits(d.month) && AllDigits(d.year)
      && !WordAt(s, i - 1) && !WordAt(s, d.end)
  {
    if i < |s| && IsDigit(s[i]) && !WordAt(s, i - 1) then
      match DigitGroup(s, i, 1, 2)
      case None => None
      case Some(a) =>
        if a < |s| && s[a] == '/' then
          match DigitGroup(s, a + 1, 1, 2)
          case None => None
          case Some(b) =>
            if b < |s| && s[b] == '/' then
              match DigitGroup(s, b + 1, 2, 4)
              case None => None
              case Some(c) =>
                if !WordAt(s, c) then
                  Some(FullDate(s[i..a], s[a + 1..b], s[b + 1..c], c))
                else None
            else None
        else None
    else None
  }

  /** `\b(\d{1,2})/(\d{2,4})\b` anchored at `i`. */
  function FindMonthYear(s: string, i: nat): (r: Option<MonthYear>)
    ensures r.Some? ==>
      var d := r.value;
      var a := i + |d.month|;
      && 1 <= |d.month| <= 2 && 2 <= |d.year| <= 4
      && d.end == a + 1 + |d.year| && d.end <= |s|
      && s[a] == '/'
      && d.month == s[i..a] && d.year == s[a + 1..d.end]
      && AllDigits(d.month) && AllDigits(d.year)
      && !WordAt(s, i - 1) && !WordAt(s, d.end)
  {
    if i < |s| && IsDigit(s[i]) && !WordAt(s, i - 1) then
      match DigitGroup(s, i, 1, 2)
      case None => None
      case Some(a) =>
        if a < |s| && s[a] == '/' then
          match DigitGroup(s, a + 1, 2, 4)
          case None => None
          case Some(c) =>
            if !WordAt(s, c) then
              Some(MonthYear(s[i..a], s[a + 1..c], c))
            else None
        else None
    else None
  }

  /**
   The two-digit year policy: below 100 a year is read in the window 1950..2049,
   keeping its last two digits; larger years are kept.
   */
  function ExpandYear(y: nat): (r: nat)
    ensures y < 100 ==> 1950 <= r < 2050 && r % 100 == y
    ensures y >= 100 ==> r == y
  {
    if y < 100 then (if y < 50 then y + 2000 else y + 1900) else y
  }

  /** The window reading is the only one: no other year in 1950..2049 ends in the same two digits. */
  lemma ExpandYearUnique(y: nat, other: nat)
    requires y < 100 && 1950 <= other < 2050 && other % 100 == y
    ensures other == ExpandYear(y)
  {
  }

  /** The spoken year, after the two-digit expansion. */
  function YearWords(spell: Speller, y: nat): string {
    SpellNumber(spell, ExpandYear(y))
  }

  predicate ValidMonth(m: nat) {
    1 <= m <= 12
  }

  predicate ValidDay(d: nat) {
    1 <= d <= 31
  }

  /** `replace_full_date`: `original` is the matched text. */
  function SpokenFullDate(spell: Speller, day: nat, month: nat, year: nat, original: string): (r: string)
    ensures !(ValidMonth(month) && ValidDay(day)) ==> r == original
    ensures ValidMonth(month) && ValidDay(day) ==>
      r == spell(day) + " de " + MonthNames[month - 1] + " de " + YearWords(spell, year)
  {
    if month < 1 || month > 12 then original
    else if day < 1 || day > 31 then original
    else SpellNumber(spell, day) + " de " + MonthNames[month - 1] + " de " + YearWords(spell, year)
  }

  /** `replace_month_year`: `original` is the matched text. */
  function SpokenMonthYear(spell: Speller, month: nat, year: nat, original: string): (r: string)
    ensures !ValidMonth(month) ==> r == original
    ensures ValidMonth(month) ==> r == MonthNames[month - 1] + " de " + YearWords(spell, year)
  {
    if month < 1 || month > 12 then original
    else MonthNames[month - 1] + " de " + YearWords(spell, year)
  }

  function FullDateRewriter(spell: Speller): Rewriter {
    (s: string, i: nat) =>
      match FindFullDate(s, i)
      case Some(d) =>
        Some(Match(d.end, SpokenFullDate(spell, Value(d.day), Value(d.month), Value(d.year), s[i..d.end])))
      case None => None
  }

  function MonthYearRewriter(spell: Speller): Rewriter {
    (s: string, i: nat) =>
      match FindMonthYear(s, i)
      case Some(d) =>
        Some(Match(d.end, SpokenMonthYear(spell, Value(d.month), Value(d.year), s[i..d.end])))
      case None => None
  }

  /** `normalize_dates`: full dates first, then month/year over the result. */
  function NormalizeDates(spell: Speller, text: string): string {
    Sub(MonthYearRewriter(spell), Sub(FullDateRewriter(spell), text))
  }

  /** The month/year substitution leaves text without '/' alone. */
  lemma MonthYearNeedsSlash(spell: Speller, text: string)
    requires '/' !in text
    ensures Sub(MonthYearRewriter(spell), text) == text
  {
    forall j | 0 <= j < |text|
      ensures Inert(MonthYearRewriter(spell), text, j)
    {
      assert FindMonthYear(text, j).None?;
    }
    ScanIdentity(MonthYearRewriter(spell), text, 0);
  }

  /** The full-date substitution leaves text without '/' alone. */
  lemma FullDateNeedsSlash(spell: Speller, text: string)
    requires '/' !in text
    ensures Sub(FullDateRewriter(spell), text) == text
  {
    forall j | 0 <= j < |text|
      ensures Inert(FullDateRewriter(spell), text, j)
    {
      assert FindFullDate(text, j).None?;
    }
    ScanIdentity(FullDateRewriter(spell), text, 0);
  }

  /** Text without '/' has no dates. */
  lemma NoSlashUnchanged(spell: Speller, text: string)
    requires '/' !in text
    ensures NormalizeDates(spell, text) == text
  {
    FullDateNeedsSlash(spell, text);
    MonthYearNeedsSlash(spell, text);
  }

  /** The month/year substitution leaves text without digits alone. */
  lemma NoDigitsMonthYear(spell: Speller, text: string)
    requires forall k :: 0 <= k < |text| ==> !IsDigit(text[k])
    ensures Sub(MonthYearRewriter(spell), text) == text
  {
    forall j | 0 <= j < |text|
      ensures Inert(MonthYearRewriter(spell), text, j)
    {
      assert FindMonthYear(text, j).None?;
    }
    ScanIdentity(MonthYearRewriter(spell), text, 0);
  }

  /** Text without digits has no dates, whatever slashes it has. */
  lemma NoDigitsUnchanged(spell: Speller, text: string)
    requires forall k :: 0 <= k < |text| ==> !IsDigit(text[k])
    ensures NormalizeDates(spell, text) == text
  {
    forall j | 0 <= j < |text|
      ensures Inert(FullDateRewriter(spell), text, j)
    {
      assert FindFullDate(text, j).None?;
    }
    ScanIdentity(FullDateRewriter(spell), text, 0);
    NoDigitsMonthYear(spell, text);
  }

  /**
   Any occurrence of the month/year pattern at `i` is found, with the same
   groups: 1-2 digits, '/', 2-4 digits, a word boundary on both sides.
   */
  lemma MonthYearFound(s: string, i: nat, a: nat, c: nat)
    requires i < a <= i + 2 && a + 3 <= c <= a + 5 && c <= |s|
    requires forall k :: i <= k < a ==> IsDigit(s[k])
    requires s[a] == '/'
    requires forall k :: a < k < c ==> IsDigit(s[k])
    requires !WordAt(s, i - 1) && !WordAt(s, c)
    ensures FindMonthYear(s, i) == Some(MonthYear(s[i..a], s[a + 1..c], c))
  {
    RunEndIs(s, i, a, IsDigit);
    RunEndIs(s, a + 1, c, IsDigit);
  }

  /**
   Any occurrence of the full-date pattern at `i` is found, with the same
   groups: 1-2 digits, '/', 1-2 digits, '/', 2-4 digits, a word boundary on
   both sides.
   */
  lemma FullDateFound(s: string, i: nat, a: nat, b: nat, c: nat)
    requires i < a <= i + 2 && a + 1 < b <= a + 3 && b + 3 <= c <= b + 5 && c <= |s|
    requires forall k :: i <= k < a ==> IsDigit(s[k])
    requires s[a] == '/' && s[b] == '/'
    requires forall k :: a < k < b ==> IsDigit(s[k])
    requires forall k :: b < k < c ==> IsDigit(s[k])
    requires !WordAt(s, i - 1) && !WordAt(s, c)
    ensures FindFullDate(s, i) == Some(FullDate(s[i..a], s[a + 1..b], s[b + 1..c], c))
  {
    RunEndIs(s, i, a, IsDigit);
    RunEndIs(s, a + 1, b, IsDigit);
    RunEndIs(s, b + 1, c, IsDigit);
    FullDateAt(s, i, a, b, c);
  }

  /** A date written with 1-2 digit day and month and a 2-4 digit year. */
  predicate DateDigits(day: string, month: string, year: string) {
    && 1 <= |day| <= 2 && 1 <= |month| <= 2 && 2 <= |year| <= 4
    && AllDigits(day) && AllDigits(month) && AllDigits(year)
  }

  /** The pieces of a written full date, by position. */
  lemma FullDateParts(day: string, month: string, year: string)
    ensures var s := day + "/" + month + "/" + year;
      var a := |day|;
      var b := a + 1 + |month|;
      && b < |s| && s[a] == '/' && s[b] == '/'
      && s[0..a] == day && s[a + 1..b] == month && s[b + 1..|s|] == year
  {
    var s := day + "/" + month + "/" + year;
    var a := |day|;
    var b := a + 1 + |month|;
    assert s == (day + "/" + month) + "/" + year;
    assert (day + "/" + month)[0..a] == day;
  }

  /** Digits `t` written at `off` and not followed by another digit form a group. */
  lemma DigitGroupAt(s: string, off: nat, t: string, lo: nat, hi: nat)
    requires off + |t| <= |s| && s[off..off + |t|] == t && AllDigits(t) && lo <= |t| <= hi
    requires off + |t| == |s| || !IsDigit(s[off + |t|])
    ensures DigitGroup(s, off, lo, hi) == Some(off + |t|)
  {
    forall m | off <= m < off + |t|
      ensures IsDigit(s[m])
    {
      assert s[m] == t[m - off];
    }
    RunEndIs(s, off, off + |t|, IsDigit);
  }

  /** A written full date is recognized whole, with the same three groups. */
  lemma FindWrittenFullDate(day: string, month: string, year: string)
    requires DateDigits(day, month, year)
    ensures var s := day + "/" + month + "/" + year;
      FindFullDate(s, 0) == Some(FullDate(day, month, year, |s|))
  {
    var s := day + "/" + month + "/" + year;
    FullDateParts(day, month, year);
    WrittenFullDateGroups(day, month, year);
    assert IsDigit(s[0]) by {
      assert s[0] == day[0];
    }
    FullDateAt(s, 0, |day|, |day| + 1 + |month|, |s|);
  }

  /** The three digit groups of a written full date, where they end. */
  lemma WrittenFullDateGroups(day: string, month: string, year: string)
    requires DateDigits(day, month, year)
    ensures var s := day + "/" + month + "/" + year;
      var a := |day|;
      var b := a + 1 + |month|;
      && DigitGroup(s, 0, 1, 2) == Some(a)
      && DigitGroup(s, a + 1, 1, 2) == Some(b)
      && DigitGroup(s, b + 1, 2, 4) == Some(|s|)
  {
    var s := day + "/" + month + "/" + year;
    var a := |day|;
    var b := a + 1 + |month|;
    FullDateParts(day, month, year);
    DigitGroupAt(s, 0, day, 1, 2);
    DigitGroupAt(s, a + 1, month, 1, 2);
    DigitGroupAt(s, b + 1, year, 2, 4);
  }

  /** The full-date pattern at `i` once its three digit groups and both slashes are found. */
  lemma FullDateAt(s: string, i: nat, a: nat, b: nat, c: nat)
    requires i < |s| && IsDigit(s[i]) && !WordAt(s, i - 1)
    requires DigitGroup(s, i, 1, 2) == Some(a) && a < |s| && s[a] == '/'
    requires DigitGroup(s, a + 1, 1, 2) == Some(b) && b < |s| && s[b] == '/'
    requires DigitGroup(s, b + 1, 2, 4) == Some(c) && !WordAt(s, c)
    ensures FindFullDate(s, i) == Some(FullDate(s[i..a], s[a + 1..b], s[b + 1..c], c))
  {
  }

  /**
   A written full date becomes its spoken form when the speller never
   produces '/': the month/year substitution then finds nothing left to read.
   */
  lemma NormalizeWrittenFullDate(spell: Speller, day: string, month: string, year: string)
    requires DateDigits(day, month, year)
    requires forall n :: AllChars(spell(n), NotSlash)
    requires ValidMonth(Value(month)) && ValidDay(Value(day))
    ensures NormalizeDates(spell, day + "/" + month + "/" + year)
      == spell(Value(day)) + " de " + MonthNames[Value(month) - 1] + " de " + YearWords(spell, Value(year))
  {
    var s := day + "/" + month + "/" + year;
    FindWrittenFullDate(day, month, year);
    ScanWhole(FullDateRewriter(spell), s);
    var r := SpokenFullDate(spell, Value(day), Value(month), Value(year), s);
    SpokenDateHasNoSlash(spell, Value(day), Value(month), Value(year));
    MonthYearNeedsSlash(spell, r);
  }

  /** A spoken date has no '/' when the speller never produces one. */
  lemma SpokenDateHasNoSlash(spell: Speller, day: nat, month: nat, year: nat)
    requires forall n :: AllChars(spell(n), NotSlash)
    requires ValidMonth(month)
    ensures '/' !in spell(day) + " de " + MonthNames[month - 1] + " de " + YearWords(spell, year)
  {
    var r := spell(day) + " de " + MonthNames[month - 1] + " de " + YearWords(spell, year);
    YearWordsHaveNoSlash(spell, year);
    var m := MonthNames[month - 1];
    assert AllChars(m, NotSlash);
    AllCharsConcat(spell(day), " de ", NotSlash);
    AllCharsConcat(spell(day) + " de ", m, NotSlash);
    AllCharsConcat(spell(day) + " de " + m, " de ", NotSlash);
    AllCharsConcat(spell(day) + " de " + m + " de ", YearWords(spell, year), NotSlash);
    assert AllChars(r, NotSlash);
  }

  predicate NotSlash(c: char) {
    c != '/'
  }

  /** A year reading has no '/' when the speller never produces one. */
  lemma YearWordsHaveNoSlash(spell: Speller, y: nat)
    requires forall n :: AllChars(spell(n), NotSlash)
    ensures AllChars(YearWords(spell, y), NotSlash)
  {
    assert forall k :: 0 <= k < |DigitNames| ==> AllChars(DigitNames[k], NotSlash);
    SpellNumberAllChars(spell, ExpandYear(y), NotSlash);
  }

  /** A written month/year is recognized whole, and no full date is found in it. */
  lemma FindWrittenMonthYear(month: string, year: string)
    requires 1 <= |month| <= 2 && 2 <= |year| <= 4 && AllDigits(month) && AllDigits(year)
    ensures var s := month + "/" + year;
      && FindMonthYear(s, 0) == Some(MonthYear(month, year, |s|))
      && forall j :: 0 <= j < |s| ==> FindFullDate(s, j).None?
  {
    var s := month + "/" + year;
    var a := |month|;
    assert s[a] == '/';
    assert s[..a] == month && s[a + 1..] == year;
    RunEndIs(s, 0, a, IsDigit);
    RunEndIs(s, a + 1, |s|, IsDigit);
    assert DigitGroup(s, 0, 1, 2) == Some(a);
    assert DigitGroup(s, a + 1, 2, 4) == Some(|s|);
    assert s[0..a] == month && s[a + 1..|s|] == year;
    assert IsDigit(s[0]) && !WordAt(s, -1) && !WordAt(s, |s|);
    forall j | 0 <= j < |s|
      ensures FindFullDate(s, j).None?
    {
      if j == 0 {
        assert DigitGroup(s, a + 1, 1, 2).Some? ==> DigitGroup(s, a + 1, 1, 2).value == |s|;
      } else if j == a + 1 {
        assert DigitGroup(s, j, 1, 2).Some? ==> DigitGroup(s, j, 1, 2).value == |s|;
      }
    }
  }

  /** A written month/year with a valid month becomes "<month> de <year>". */
  lemma NormalizeWrittenMonthYear(spell: Speller, month: string, year: string)
    requires 1 <= |month| <= 2 && 2 <= |year| <= 4 && AllDigits(month) && AllDigits(year)
    requires ValidMonth(Value(month))
    ensures NormalizeDates(spell, month + "/" + year)
      == MonthNames[Value(month) - 1] + " de " + YearWords(spell, Value(year))
  {
    var s := month + "/" + year;
    FullDatePassSkipsMonthYear(spell, month, year);
    MonthYearAt(spell, month, year);
    ScanWhole(MonthYearRewriter(spell), s);
  }

  /** The full-date substitution leaves a written month/year alone. */
  lemma FullDatePassSkipsMonthYear(spell: Speller, month: string, year: string)
    requires 1 <= |month| <= 2 && 2 <= |year| <= 4 && AllDigits(month) && AllDigits(year)
    ensures Sub(FullDateRewriter(spell), month + "/" + year) == month + "/" + year
  {
    var s := month + "/" + year;
    FindWrittenMonthYear(month, year);
    forall j | 0 <= j < |s|
      ensures Inert(FullDateRewriter(spell), s, j)
    {
      assert FindFullDate(s, j).None?;
    }
    ScanIdentity(FullDateRewriter(spell), s, 0);
  }

  /** At the start of a written month/year the month/year rewriter replaces all of it. */
  lemma MonthYearAt(spell: Speller, month: string, year: string)
    requires 1 <= |month| <= 2 && 2 <= |year| <= 4 && AllDigits(month) && AllDigits(year)
    ensures var s := month + "/" + year;
      MonthYearRewriter(spell)(s, 0) == Some(Match(|s|, SpokenMonthYear(spell, Value(month), Value(year), s)))
  {
    var s := month + "/" + year;
    FindWrittenMonthYear(month, year);
    assert s[0..|s|] == s;
  }

  // ---------------------------------------------------------------------------
  // An invalid full date is read again by the month/year substitution.

  /** The digit runs of a written full date, and the positions where no date pattern can start. */
  lemma WrittenFullDateRuns(day: string, month: string, year: string)
    requires DateDigits(day, month, year)
    ensures var s := day + "/" + month + "/" + year;
      var a := |day|;
      var b := a + 1 + |month|;
      && s[a] == '/' && s[b] == '/'
      && RunEnd(s, 0, IsDigit) == a && RunEnd(s, a + 1, IsDigit) == b && RunEnd(s, b + 1, IsDigit) == |s|
      && s[0..a] == day && s[a + 1..b] == month && s[b + 1..|s|] == year
      && forall j :: 0 < j < |s| && j != a + 1 && j != b + 1 ==> FindFullDate(s, j).None? && FindMonthYear(s, j).None?
  {
    var s := day + "/" + month + "/" + year;
    var a := |day|;
    var b := a + 1 + |month|;
    FullDateParts(day, month, year);
    DigitGroupAt(s, 0, day, 1, 2);
    DigitGroupAt(s, a + 1, month, 1, 2);
    DigitGroupAt(s, b + 1, year, 2, 4);
    forall j | 0 < j < |s| && j != a + 1 && j != b + 1
      ensures FindFullDate(s, j).None? && FindMonthYear(s, j).None?
    {
      if j != a && j != b {
        assert WordAt(s, j - 1) by {
          if j - 1 < a {
            assert s[j - 1] == s[0..a][j - 1];
          } else if j - 1 < b {
            assert s[j - 1] == s[a + 1..b][j - 2 - a];
          } else {
            assert s[j - 1] == s[b + 1..|s|][j - 2 - b];
          }
        }
      }
    }
  }

  /** The full-date substitution keeps an invalid written full date. */
  lemma FullDatePassKeepsInvalid(spell: Speller, day: string, month: string, year: string)
    requires DateDigits(day, month, year)
    requires !(ValidMonth(Value(month)) && ValidDay(Value(day)))
    ensures var s := day + "/" + month + "/" + year;
      Sub(FullDateRewriter(spell), s) == s
  {
    var s := day + "/" + month + "/" + year;
    var a := |day|;
    var b := a + 1 + |month|;
    WrittenFullDateRuns(day, month, year);
    FindWrittenFullDate(day, month, year);
    var full := FullDateRewriter(spell);
    forall j | 0 <= j < |s|
      ensures Inert(full, s, j)
    {
      if j == 0 {
        var out := SpokenFullDate(spell, Value(day), Value(month), Value(year), s[0..|s|]);
        assert full(s, 0) == Some(Match(|s|, out));
        assert s[0..|s|] == s;
      } else if j == a + 1 || j == b + 1 {
        assert FindFullDate(s, j).None?;
      } else {
        assert FindFullDate(s, j).None?;
      }
    }
    ScanIdentity(full, s, 0);
  }

  /**
   An invalid full date whose day could be a month, such as "05/13/2025" or
   "05/13/25", is kept by the first substitution and then read by the second:
   its day and month are taken for a month and a two-digit year, and "/<year>"
   is left.
   */
  lemma InvalidFullDateReadAsMonthYear(spell: Speller, day: string, month: string, year: string)
    requires DateDigits(day, month, year) && |month| == 2
    requires ValidMonth(Value(day)) && !ValidMonth(Value(month))
    ensures NormalizeDates(spell, day + "/" + month + "/" + year)
      == MonthNames[Value(day) - 1] + " de " + YearWords(spell, Value(month)) + "/" + year
  {
    FullDatePassKeepsInvalid(spell, day, month, year);
    MonthYearPassOnFullDate(spell, day, month, year);
  }

  /** The month/year substitution over "dd/mm/yy[yy]" replaces "dd/mm" and copies the rest. */
  lemma MonthYearPassOnFullDate(spell: Speller, day: string, month: string, year: string)
    requires DateDigits(day, month, year) && |month| == 2
    ensures Sub(MonthYearRewriter(spell), day + "/" + month + "/" + year)
      == SpokenMonthYear(spell, Value(day), Value(month), day + "/" + month) + "/" + year
  {
    var s := day + "/" + month + "/" + year;
    var b := |day| + 3;
    MonthYearInFullDate(day, month, year);
    MonthYearInertAfterMonth(spell, day, month, year);
    FullDateHalves(day, month, year);
    ScanPrefix(MonthYearRewriter(spell), s, b);
  }

  lemma MonthYearInertAfterMonth(spell: Speller, day: string, month: string, year: string)
    requires DateDigits(day, month, year) && |month| == 2
    ensures var s := day + "/" + month + "/" + year;
      forall j :: |day| + 3 <= j < |s| ==> Inert(MonthYearRewriter(spell), s, j)
  {
    var s := day + "/" + month + "/" + year;
    MonthYearInFullDate(day, month, year);
    forall j | |day| + 3 <= j < |s|
      ensures Inert(MonthYearRewriter(spell), s, j)
    {
      assert FindMonthYear(s, j).None?;
    }
  }

  lemma FullDateHalves(day: string, month: string, year: string)
    requires |month| == 2
    ensures var s := day + "/" + month + "/" + year;
      && |day| + 3 <= |s|
      && s[0..|day| + 3] == day + "/" + month && s[|day| + 3..] == "/" + year
  {
  }

  /** In "dd/mm/yy[yy]" the month/year pattern matches "dd/mm" and nothing after it. */
  lemma MonthYearInFullDate(day: string, month: string, year: string)
    requires DateDigits(day, month, year) && |month| == 2
    ensures var s := day + "/" + month + "/" + year;
      && FindMonthYear(s, 0) == Some(MonthYear(day, month, |day| + 3))
      && forall j :: |day| + 3 <= j < |s| ==> FindMonthYear(s, j).None?
  {
    var s := day + "/" + month + "/" + year;
    var a := |day|;
    var b := a + 3;
    WrittenFullDateRuns(day, month, year);
    assert DigitGroup(s, 0, 1, 2) == Some(a);
    assert DigitGroup(s, a + 1, 2, 4) == Some(b);
    assert !WordAt(s, b);
    assert FindMonthYear(s, b + 1).None?;
  }

  // ---------------------------------------------------------------------------
  // The corrected pass: month/year read only where no full date was captured.

  /**
   The date pass as the comment on its second substitution intends it: full
   dates are replaced (or kept, when invalid) exactly where the full-date
   substitution replaces them, and a month/year is read only in the text
   between those matches, never overlapping one.
   */
  function DateRewriter(spell: Speller): Rewriter {
    (s: string, i: nat) =>
      if Replaced(FullDateRewriter(spell), s, i) then FullDateRewriter(spell)(s, i)
      else
        match FindMonthYear(s, i)
        case Some(d) =>
          if Uncaptured(spell, s, i, d.end) then
            Some(Match(d.end, SpokenMonthYear(spell, Value(d.month), Value(d.year), s[i..d.end])))
          else None
        case None => None
  }

  /** No full date that the first substitution replaces starts in `[i, e)`. */
  predicate Uncaptured(spell: Speller, s: string, i: nat, e: nat) {
    forall k :: i <= k < e ==> !Replaced(FullDateRewriter(spell), s, k)
  }

  /** The corrected rewriter at a full date the first substitution replaces: that replacement. */
  lemma DateAtReplaced(spell: Speller, s: string, i: nat)
    requires Replaced(FullDateRewriter(spell), s, i)
    ensures DateRewriter(spell)(s, i) == FullDateRewriter(spell)(s, i)
  {
  }

  /** The corrected rewriter elsewhere: the month/year reading when it overlaps no captured full date, otherwise nothing. */
  lemma DateAtOther(spell: Speller, s: string, i: nat)
    requires !Replaced(FullDateRewriter(spell), s, i)
    ensures FindMonthYear(s, i).None? ==> DateRewriter(spell)(s, i).None?
    ensures FindMonthYear(s, i).Some? && Uncaptured(spell, s, i, FindMonthYear(s, i).value.end)
      ==> DateRewriter(spell)(s, i) == MonthYearRewriter(spell)(s, i)
    ensures FindMonthYear(s, i).Some? && !Uncaptured(spell, s, i, FindMonthYear(s, i).value.end)
      ==> DateRewriter(spell)(s, i).None?
  {
  }

  function NormalizeDatesGuarded(spell: Speller, text: string): string {
    Sub(DateRewriter(spell), text)
  }

  /** Without a full date anywhere, the corrected pass is the month/year substitution alone. */
  lemma GuardedWithoutFullDate(spell: Speller, text: string)
    requires forall j :: 0 <= j < |text| ==> FindFullDate(text, j).None?
    ensures NormalizeDatesGuarded(spell, text) == Sub(MonthYearRewriter(spell), text)
  {
    forall j | 0 <= j < |text|
      ensures DateRewriter(spell)(text, j) == MonthYearRewriter(spell)(text, j)
    {
      assert !Replaced(FullDateRewriter(spell), text, j);
      DateAtOther(spell, text, j);
      match FindMonthYear(text, j)
      case None =>
      case Some(d) =>
        assert Uncaptured(spell, text, j, d.end) by {
          forall k | j <= k < d.end
            ensures !Replaced(FullDateRewriter(spell), text, k)
          {
            if k < |text| {
              assert FindFullDate(text, k).None?;
            }
          }
        }
    }
    ScanAgree(DateRewriter(spell), MonthYearRewriter(spell), text, 0);
  }

  /** Without a month/year anywhere, the corrected pass is the full-date substitution alone. */
  lemma GuardedWithoutMonthYear(spell: Speller, text: string)
    requires forall j :: 0 <= j < |text| ==> FindMonthYear(text, j).None?
    ensures NormalizeDatesGuarded(spell, text) == Sub(FullDateRewriter(spell), text)
  {
    GuardedFollowsFullDates(spell, text, 0);
  }

  /** From a position the full-date substitution stops at, both scans take the same steps. */
  lemma {:induction false} GuardedFollowsFullDates(spell: Speller, text: string, i: nat)
    requires i <= |text| && Visits(FullDateRewriter(spell), text, 0, i)
    requires forall j :: 0 <= j < |text| ==> FindMonthYear(text, j).None?
    ensures Scan(DateRewriter(spell), text, i) == Scan(FullDateRewriter(spell), text, i)
    decreases |text| - i
  {
    var full := FullDateRewriter(spell);
    var date := DateRewriter(spell);
    if i < |text| {
      VisitsNext(full, text, 0, i);
      if Fires(full, text, i) {
        DateAtReplaced(spell, text, i);
        GuardedFollowsFullDates(spell, text, Next(full, text, i));
      } else {
        assert FindMonthYear(text, i).None?;
        DateAtOther(spell, text, i);
        GuardedFollowsFullDates(spell, text, i + 1);
      }
    }
  }

  /** Text without '/' has no dates. */
  lemma GuardedNoSlashUnchanged(spell: Speller, text: string)
    requires '/' !in text
    ensures NormalizeDatesGuarded(spell, text) == text
  {
    forall j | 0 <= j < |text|
      ensures FindFullDate(text, j).None? && FindMonthYear(text, j).None?
    {
    }
    GuardedWithoutFullDate(spell, text);
    MonthYearNeedsSlash(spell, text);
  }

  /** Text without digits has no dates, whatever slashes it has. */
  lemma GuardedNoDigitsUnchanged(spell: Speller, text: string)
    requires forall k :: 0 <= k < |text| ==> !IsDigit(text[k])
    ensures NormalizeDatesGuarded(spell, text) == text
  {
    forall j | 0 <= j < |text|
      ensures FindFullDate(text, j).None? && FindMonthYear(text, j).None?
    {
    }
    GuardedWithoutFullDate(spell, text);
    NoDigitsMonthYear(spell, text);
  }

  /** A written full date is spoken when valid and kept exactly as written when not. */
  lemma GuardedWrittenFullDate(spell: Speller, day: string, month: string, year: string)
    requires DateDigits(day, month, year)
    ensures var s := day + "/" + month + "/" + year;
      && (ValidMonth(Value(month)) && ValidDay(Value(day)) ==>
            NormalizeDatesGuarded(spell, s)
              == spell(Value(day)) + " de " + MonthNames[Value(month) - 1] + " de " + YearWords(spell, Value(year)))
      && (!(ValidMonth(Value(month)) && ValidDay(Value(day))) ==> NormalizeDatesGuarded(spell, s) == s)
  {
    var s := day + "/" + month + "/" + year;
    GuardedWholeFullDate(spell, day, month, year);
    assert NormalizeDatesGuarded(spell, s) == SpokenFullDate(spell, Value(day), Value(month), Value(year), s);
  }

  /** A text that is one full date is replaced whole by its spoken form. */
  lemma GuardedWholeFullDate(spell: Speller, day: string, month: string, year: string)
    requires DateDigits(day, month, year)
    ensures var s := day + "/" + month + "/" + year;
      NormalizeDatesGuarded(spell, s) == SpokenFullDate(spell, Value(day), Value(month), Value(year), s)
  {
    var s := day + "/" + month + "/" + year;
    FindWrittenFullDate(day, month, year);
    assert s[0..|s|] == s;
    assert Replaced(FullDateRewriter(spell), s, 0);
    DateAtReplaced(spell, s, 0);
    ScanWhole(DateRewriter(spell), s);
  }

  /** A written month/year reads the same under both forms of the pass. */
  lemma GuardedWrittenMonthYear(spell: Speller, month: string, year: string)
    requires 1 <= |month| <= 2 && 2 <= |year| <= 4 && AllDigits(month) && AllDigits(year)
    ensures NormalizeDatesGuarded(spell, month + "/" + year)
      == SpokenMonthYear(spell, Value(month), Value(year), month + "/" + year)
  {
    var s := month + "/" + year;
    FindWrittenMonthYear(month, year);
    GuardedWithoutFullDate(spell, s);
    MonthYearAt(spell, month, year);
    ScanWhole(MonthYearRewriter(spell), s);
  }

  /** "05/13/2025" stays as written once full-date spans are not read again. */
  lemma GuardedKeepsInvalidFullDate(spell: Speller)
    ensures NormalizeDatesGuarded(spell, "05/13/2025") == "05/13/2025"
  {
    assert "05/13/2025" == "05" + "/" + "13" + "/" + "2025";
    assert Value("05") == 5 && Value("13") == 13;
    GuardedWrittenFullDate(spell, "05", "13", "2025");
  }

  /**
   A month/year that would overlap a full date the first substitution
   captures is not read: in "1/22/3/2025" the full date "22/3/2025" is spoken
   and "1/" is kept, as the full-date substitution alone does.
   */
  lemma GuardedFullDateNotPreempted(spell: Speller)
    ensures NormalizeDatesGuarded(spell, "1/22/3/2025")
      == "1/" + (spell(22) + " de " + MonthNames[2] + " de " + YearWords(spell, 2025))
  {
    var s := "1/22/3/2025";
    var date := DateRewriter(spell);
    var out := spell(22) + " de " + MonthNames[2] + " de " + YearWords(spell, 2025);
    PreemptingSteps(spell, s);
    ScanStep(date, s, 0);
    ScanStep(date, s, 1);
    ScanStep(date, s, 2);
    assert Scan(date, s, 11) == "";
    assert out + "" == out;
    assert Scan(date, s, 0) == [s[0]] + ([s[1]] + out);
    assert s[0] == '1' && s[1] == '/';
    assert [s[0]] + ([s[1]] + out) == ['1', '/'] + out;
  }

  /** What the corrected rewriter reports at the first three positions of "1/22/3/2025". */
  lemma PreemptingSteps(spell: Speller, s: string)
    requires s == "1/22/3/2025"
    ensures DateRewriter(spell)(s, 0).None? && DateRewriter(spell)(s, 1).None?
    ensures DateRewriter(spell)(s, 2)
      == Some(Match(11, spell(22) + " de " + MonthNames[2] + " de " + YearWords(spell, 2025)))
  {
    PreemptingText(s);
    PreemptingVisits(spell, s);
    DateAtOther(spell, s, 0);
    DateAtOther(spell, s, 1);
    DateAtReplaced(spell, s, 2);
    PreemptingValues();
  }

  /** In "1/22/3/2025" the full-date substitution replaces the date at 2, which the month/year reading at 0 overlaps. */
  lemma PreemptingVisits(spell: Speller, s: string)
    requires s == "1/22/3/2025"
    ensures !Replaced(FullDateRewriter(spell), s, 0) && !Replaced(FullDateRewriter(spell), s, 1)
    ensures Replaced(FullDateRewriter(spell), s, 2) && !Uncaptured(spell, s, 0, 4)
  {
    var full := FullDateRewriter(spell);
    PreemptingText(s);
    assert !Fires(full, s, 0) && !Fires(full, s, 1);
    assert Visits(full, s, 0, 2) by {
      assert Next(full, s, 0) == 1 && Next(full, s, 1) == 2;
    }
    assert Replaced(full, s, 2);
    assert !Uncaptured(spell, s, 0, 4);
  }

  lemma PreemptingValues()
    ensures Value("22") == 22 && Value("3") == 3 && Value("2025") == 2025
  {
    assert "22"[..1] == "2";
    assert "2025"[..3] == "202" && "202"[..2] == "20" && "20"[..1] == "2";
  }

  /** The matches in "1/22/3/2025": a month/year at 0, a full date at 2, and no full date at 0 or 1. */
  lemma PreemptingText(s: string)
    requires s == "1/22/3/2025"
    ensures FindFullDate(s, 0).None? && FindFullDate(s, 1).None?
    ensures FindMonthYear(s, 0) == Some(MonthYear("1", "22", 4)) && FindMonthYear(s, 1).None?
    ensures FindFullDate(s, 2) == Some(FullDate("22", "3", "2025", 11))
  {
    PreemptingNoFullDate(s);
    PreemptingMonthYear(s);
    PreemptingFullDate(s);
  }

  lemma PreemptingNoFullDate(s: string)
    requires s == "1/22/3/2025"
    ensures FindFullDate(s, 0).None? && FindFullDate(s, 1).None? && FindMonthYear(s, 1).None?
  {
    assert s[1] == '/';
    RunEndIs(s, 5, 6, IsDigit);
    assert DigitGroup(s, 5, 2, 4).None?;
  }

  lemma PreemptingMonthYear(s: string)
    requires s == "1/22/3/2025"
    ensures FindMonthYear(s, 0) == Some(MonthYear("1", "22", 4))
  {
    assert s[0] == '1' && s[1] == '/' && s[2] == '2' && s[3] == '2' && s[4] == '/';
    MonthYearFound(s, 0, 1, 4);
    assert s[0..1] == "1" && s[2..4] == "22";
  }

  lemma PreemptingFullDate(s: string)
    requires s == "1/22/3/2025"
    ensures FindFullDate(s, 2) == Some(FullDate("22", "3", "2025", 11))
  {
    assert s[1] == '/' && s[2] == '2' && s[3] == '2' && s[4] == '/' && s[5] == '3' && s[6] == '/';
    assert s[7] == '2' && s[8] == '0' && s[9] == '2' && s[10] == '5' && |s| == 11;
    FullDateFound(s, 2, 4, 6, 11);
    assert s[2..4] == "22" && s[5..6] == "3" && s[7..11] == "2025";
  }

}
