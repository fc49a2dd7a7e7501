/**
 The time pass (`normalize_time`): "14h", "14h30" and "14:30" become spoken
 hours and minutes.

 The pattern is `\b(\d{1,2})(?:h|:)(\d{2})?\b`. The hour group is always a
 whole digit run of one or two digits (a digit run has no inner boundary).
 After the marker, two digits are taken when a boundary follows them;
 otherwise the match stops after the marker, which needs a boundary there:
 after 'h' (a word character) the next character must not be a word
 character, after ':' it must be one.
 */
module Time {
  import opened Wrappers
  import opened Chars
  import opened Strings
  import opened Scanner
  import opened Lexicon

  /** A match: group 1 (`hours`), group 2 when it took part (`minutes`), and the end. */
  datatype Clock = Clock(hours: string, minutes: Option<string>, end: nat)

  predicate IsTimeMarker(c: char) {
    c == 'h' || c == ':'
  }

  /** The time pattern anchored at `i`. */
  function FindClock(s: string, i: nat): (r: Option<Clock>)
    ensures r.Some? ==>
      var c := r.value;
      var a := i + |c.hours|;
      && a < |s| && IsTimeMarker(s[a])
      && 1 <= |c.hours| <= 2 && AllDigits(c.hours) && c.hours == s[i..a]
      && !WordAt(s, i - 1) && !IsDigit(s[a])
      && (c.minutes.Some? ==>
            && c.end == a + 3 && c.end <= |s| && c.minutes.value == s[a + 1..a + 3]
            && AllDigits(c.minutes.value) && !WordAt(s, c.end))
      && (c.minutes.None? ==>
            && c.end == a + 1 && Boundary(s, a + 1)
            && !(a + 2 < |s| && IsDigit(s[a + 1]) && IsDigit(s[a + 2]) && !WordAt(s, a + 3)))
  {
    if i < |s| && IsDigit(s[i]) && !WordAt(s, i - 1) then
      var a := RunEnd(s, i, IsDigit);
      if a - i <= 2 && a < |s| && IsTimeMarker(s[a]) then
        if a + 2 < |s| && IsDigit(s[a + 1]) && IsDigit(s[a + 2]) && !WordAt(s, a + 3) then
          Some(Clock(s[i..a], Some(s[a + 1..a + 3]), a + 3))
        else if Boundary(s, a + 1) then
          Some(Clock(s[i..a], None, a + 1))
        else None
      else None
    else None
  }

  /**
   Any occurrence of the time pattern at `i` is found. Given an hour group of
   one or two digits (a whole digit run) and a marker after it: the minutes
   form is taken when two digits and a boundary follow the marker; otherwise
   the bare form is taken exactly when a boundary follows the marker.
   */
  lemma ClockFound(s: string, i: nat, a: nat)
    requires i < a <= i + 2 && a < |s|
    requires forall k :: i <= k < a ==> IsDigit(s[k])
    requires IsTimeMarker(s[a]) && !WordAt(s, i - 1)
    ensures var withMinutes := a + 2 < |s| && IsDigit(s[a + 1]) && IsDigit(s[a + 2]) && !WordAt(s, a + 3);
      && (withMinutes ==> FindClock(s, i) == Some(Clock(s[i..a], Some(s[a + 1..a + 3]), a + 3)))
      && (!withMinutes && Boundary(s, a + 1) ==> FindClock(s, i) == Some(Clock(s[i..a], None, a + 1)))
      && (!withMinutes && !Boundary(s, a + 1) ==> FindClock(s, i).None?)
  {
    RunEndIs(s, i, a, IsDigit);
  }

  /** The spoken hour: "zero horas", "uma hora", or the cardinal and "horas". */
  function HourWords(spell: Speller, h: nat): string {
    if h == 0 then "zero horas" else if h == 1 then "uma hora" else spell(h) + " horas"
  }

  /** `replace_time`: `original` is the matched text. */
  function SpokenClock(spell: Speller, h: nat, minutes: Option<nat>, original: string): (r: string)
    ensures h > 23 ==> r == original
    ensures h <= 23 && minutes.Some? && minutes.value > 59 ==> r == original
    ensures h <= 23 && (minutes.None? || minutes.value == 0) ==> r == HourWords(spell, h)
    ensures h <= 23 && minutes == Some(1) ==> r == HourWords(spell, h) + " e um minuto"
    ensures h <= 23 && minutes.Some? && 2 <= minutes.value <= 59
      ==> r == HourWords(spell, h) + " e " + spell(minutes.value) + " minutos"
  {
    if h > 23 then original
    else
      var hoursText := if h == 0 then "zero horas" else if h == 1 then "uma hora" else spell(h) + " horas";
      if minutes.Some? then
        var m := minutes.value;
        if m > 59 then original
        else if m == 0 then hoursText
        else
          var minutesText := if m == 1 then "um minuto" else spell(m) + " minutos";
          hoursText + " e " + minutesText
      else hoursText
  }

  function MinutesOf(c: Clock): Option<nat>
    requires c.minutes.Some? ==> AllDigits(c.minutes.value)
  {
    if c.minutes.Some? then Some(Value(c.minutes.value)) else None
  }

  function TimeRewriter(spell: Speller): Rewriter {
    (s: string, i: nat) =>
      match FindClock(s, i)
      case Some(c) => Some(Match(c.end, SpokenClock(spell, Value(c.hours), MinutesOf(c), s[i..c.end])))
      case None => None
  }

  /** `normalize_time`. */
  function NormalizeTime(spell: Speller, text: string): string {
    Sub(TimeRewriter(spell), text)
  }

  /** Text with no 'h' or ':' has no time. */
  lemma NoMarkerUnchanged(spell: Speller, text: string)
    requires 'h' !in text && ':' !in text
    ensures NormalizeTime(spell, text) == text
  {
    forall j | 0 <= j < |text|
      ensures Inert(TimeRewriter(spell), text, j)
    {
      assert FindClock(text, j).None?;
    }
    ScanIdentity(TimeRewriter(spell), text, 0);
  }

  /** Text with no digit has no time. */
  lemma NoDigitsUnchanged(spell: Speller, text: string)
    requires forall k :: 0 <= k < |text| ==> !IsDigit(text[k])
    ensures NormalizeTime(spell, text) == text
  {
    forall j | 0 <= j < |text|
      ensures Inert(TimeRewriter(spell), text, j)
    {
      assert FindClock(text, j).None?;
    }
    ScanIdentity(TimeRewriter(spell), text, 0);
  }

  /** A time as written: hours, the marker, and two minute digits when given. */
  function WrittenClock(hours: string, marker: char, minutes: Option<string>): string {
    hours + [marker] + (if minutes.Some? then minutes.value else "")
  }

  predicate ClockDigits(hours: string, minutes: Option<string>) {
    && 1 <= |hours| <= 2 && AllDigits(hours)
    && (minutes.Some? ==> |minutes.value| == 2 && AllDigits(minutes.value))
  }

  /**
   A written time is recognized whole with the same groups, except "14:" alone:
   no boundary follows a ':' at the end of the text.
   */
  lemma FindWrittenClock(hours: string, marker: char, minutes: Option<string>)
    requires ClockDigits(hours, minutes) && IsTimeMarker(marker)
    requires minutes.None? ==> marker == 'h'
    ensures var s := WrittenClock(hours, marker, minutes);
      FindClock(s, 0) == Some(Clock(hours, minutes, |s|))
  {
    var s := WrittenClock(hours, marker, minutes);
    var a := |hours|;
    assert s[a] == marker && s[..a] == hours;
    RunEndIs(s, 0, a, IsDigit);
    assert s[0..a] == hours;
    if minutes.Some? {
      assert s[a + 1..a + 3] == minutes.value;
      assert IsDigit(s[a + 1]) && IsDigit(s[a + 2]);
    }
  }

  /** The time pass reads a written time as its spoken phrase. */
  lemma NormalizeWrittenClock(spell: Speller, hours: string, marker: char, minutes: Option<string>)
    requires ClockDigits(hours, minutes) && IsTimeMarker(marker)
    requires minutes.None? ==> marker == 'h'
    ensures var s := WrittenClock(hours, marker, minutes);
      NormalizeTime(spell, s)
        == SpokenClock(spell, Value(hours), if minutes.Some? then Some(Value(minutes.value)) else None, s)
  {
    var s := WrittenClock(hours, marker, minutes);
    FindWrittenClock(hours, marker, minutes);
    assert s[0..|s|] == s;
    ScanWhole(TimeRewriter(spell), s);
  }

  /** "hh:" followed by digits: the match is the hour and the colon alone. */
  lemma ColonMatchedAlone(spell: Speller, hours: string, digits: string)
    requires 1 <= |hours| <= 2 && AllDigits(hours)
    requires |digits| >= 3 && AllDigits(digits)
    ensures var s := hours + ":" + digits;
      TimeRewriter(spell)(s, 0)
        == Some(Match(|hours| + 1, SpokenClock(spell, Value(hours), None, hours + ":")))
  {
    var s := hours + ":" + digits;
    var a := |hours|;
    assert s[a] == ':' && s[..a] == hours && s[a + 1..] == digits;
    assert IsDigit(s[a + 1]) && IsDigit(s[a + 2]) && IsDigit(s[a + 3]) by {
      assert s[a + 1] == digits[0] && s[a + 2] == digits[1] && s[a + 3] == digits[2];
    }
    RunEndIs(s, 0, a, IsDigit);
    assert s[0..a] == hours;
    assert s[0..a + 1] == hours + ":";
    assert FindClock(s, 0) == Some(Clock(hours, None, a + 1));
  }

  /** Inside a run of digits after the colon, no time starts. */
  lemma DigitsAfterColonInert(spell: Speller, hours: string, digits: string)
    requires |digits| >= 1 && AllDigits(digits)
    ensures var s := hours + ":" + digits;
      forall j :: |hours| + 1 <= j < |s| ==> Inert(TimeRewriter(spell), s, j)
  {
    var s := hours + ":" + digits;
    var a := |hours|;
    forall j | a + 1 <= j < |s|
      ensures Inert(TimeRewriter(spell), s, j)
    {
      if j > a + 1 {
        assert s[j - 1] == digits[j - 2 - a];
        assert WordAt(s, j - 1);
      }
      assert s[j] == digits[j - a - 1];
      RunEndIs(s, j, |s|, IsDigit) by {
        forall k | j <= k < |s|
          ensures IsDigit(s[k])
        {
          assert s[k] == digits[k - a - 1];
        }
      }
      assert FindClock(s, j).None?;
    }
  }

  /**
   After ':' a run of three or more digits is not a minutes group: the match
   stops after the colon and the digits are left as they are ("14:300" reads
   as the hour followed by "300").
   */
  lemma ColonBeforeLongRun(spell: Speller, hours: string, digits: string)
    requires 1 <= |hours| <= 2 && AllDigits(hours) && Value(hours) <= 23
    requires |digits| >= 3 && AllDigits(digits)
    ensures NormalizeTime(spell, hours + ":" + digits) == HourWords(spell, Value(hours)) + digits
  {
    var s := hours + ":" + digits;
    var a := |hours|;
    var rw := TimeRewriter(spell);
    ColonMatchedAlone(spell, hours, digits);
    assert Fires(rw, s, 0);
    DigitsAfterColonInert(spell, hours, digits);
    ScanIdentity(rw, s, a + 1);
    assert s[a + 1..] == digits;
    ScanStep(rw, s, 0);
  }

}
