/**
 The Python string operations the normalizer relies on (`int`, `str.split`,
 `str.join`, `str.replace`, `str.lstrip`, `str.strip`, `str.lower`, `in`),
 written over `seq<char>`, together with the facts about them that the passes need.
 */
module Strings {
  import opened Chars

  predicate AllDigits(s: string) {
    forall k :: 0 <= k < |s| ==> IsDigit(s[k])
  }

  function Pow10(n: nat): (r: nat)
    ensures r >= 1
  {
    if n == 0 then 1 else 10 * Pow10(n - 1)
  }

  /** `int(s)` on a string of ASCII digits (leading zeros allowed). */
  function Value(s: string): nat
    requires AllDigits(s)
    decreases |s|
  {
    if |s| == 0 then 0 else 10 * Value(s[..|s| - 1]) + DigitValue(s[|s| - 1])
  }

  /** A run of `n` digits denotes a value below 10^n. */
  lemma {:induction false} ValueBound(s: string)
    requires AllDigits(s)
    ensures Value(s) < Pow10(|s|)
  {
    if |s| > 0 {
      ValueBound(s[..|s| - 1]);
    }
  }

  /** Appending a '0' multiplies the value by ten: what `ljust(2, '0')` does to one digit. */
  lemma ValueAppendZero(s: string)
    requires AllDigits(s)
    ensures AllDigits(s + "0") && Value(s + "0") == 10 * Value(s)
  {
    assert (s + "0")[..|s|] == s;
  }

  /** Leading zeros do not change the value. */
  lemma {:induction false} ValueLeadingZero(s: string)
    requires AllDigits(s)
    ensures AllDigits("0" + s) && Value("0" + s) == Value(s)
  {
    if |s| > 0 {
      assert ("0" + s)[..|s|] == "0" + s[..|s| - 1];
      ValueLeadingZero(s[..|s| - 1]);
    }
  }

  /** `str(n)`: the decimal numeral of `n`, without leading zeros. */
  function DecimalString(n: nat): (r: string)
    ensures |r| >= 1 && AllDigits(r)
    decreases n
  {
    if n < 10 then [DigitChar(n)] else DecimalString(n / 10) + [DigitChar(n % 10)]
  }

  /** `int(str(n)) == n`, and the numeral of a positive number has no leading zero. */
  lemma {:induction false} DecimalStringRoundTrip(n: nat)
    ensures Value(DecimalString(n)) == n
    ensures n > 0 ==> DecimalString(n)[0] != '0'
    decreases n
  {
    var r := DecimalString(n);
    if n >= 10 {
      DecimalStringRoundTrip(n / 10);
      assert r[..|r| - 1] == DecimalString(n / 10);
    }
  }

  /** `s.lower()` on ASCII text. */
  function Lower(s: string): (r: string)
    ensures |r| == |s|
    ensures forall k :: 0 <= k < |s| ==> r[k] == LowerChar(s[k])
  {
    seq(|s|, k requires 0 <= k < |s| => LowerChar(s[k]))
  }

  /** Text without upper-case ASCII letters is its own lower case. */
  lemma LowerOfLower(t: string)
    requires forall k :: 0 <= k < |t| ==> !('A' <= t[k] <= 'Z')
    ensures Lower(t) == t
  {
  }

  /** `s` holds `p` at position `k`. */
  predicate OccursAt(s: string, p: string, k: nat) {
    k + |p| <= |s| && s[k..k + |p|] == p
  }

  /** `p in s`: `p` occurs somewhere in `s`. */
  predicate Contains(s: string, p: string) {
    exists k: nat :: k <= |s| && OccursAt(s, p, k)
  }

  /** `s.startswith(p)`. */
  predicate StartsWith(s: string, p: string) {
    |p| <= |s| && s[..|p|] == p
  }

  /** `s` holds `p` at position `i`, ignoring ASCII case; `p` is lower case. */
  predicate MatchesAtCI(s: string, i: nat, p: string) {
    i + |p| <= |s| && Lower(s[i..i + |p|]) == p
  }

  /** `s.split(c)` for a one-character separator: always at least one part. */
  function Split(s: string, c: char): (parts: seq<string>)
    ensures |parts| >= 1
    decreases |s|
  {
    if |s| == 0 then [""]
    else
      var rest := Split(s[1..], c);
      if s[0] == c then [""] + rest else [[s[0]] + rest[0]] + rest[1..]
  }

  /** `sep.join(xs)`. */
  function Join(xs: seq<string>, sep: string): string
    decreases |xs|
  {
    if |xs| == 0 then "" else if |xs| == 1 then xs[0] else xs[0] + sep + Join(xs[1..], sep)
  }

  /** `s.replace(c, w)` for a one-character pattern. */
  function ReplaceChar(s: string, c: char, w: string): (r: string)
    decreases |s|
  {
    if |s| == 0 then "" else (if s[0] == c then w else [s[0]]) + ReplaceChar(s[1..], c, w)
  }

  /** `s.lstrip(c)` for one character. */
  function LStrip(s: string, c: char): (r: string)
    ensures |r| <= |s| && r == s[|s| - |r|..]
    ensures |r| > 0 ==> r[0] != c
    ensures forall k :: 0 <= k < |s| - |r| ==> s[k] == c
    decreases |s|
  {
    if |s| > 0 && s[0] == c then LStrip(s[1..], c) else s
  }

  /** `s.lstrip()`: drop leading whitespace. */
  function StripLeft(s: string): (r: string)
    ensures |r| <= |s| && r == s[|s| - |r|..]
    ensures |r| > 0 ==> !IsSpace(r[0])
    ensures forall k :: 0 <= k < |s| - |r| ==> IsSpace(s[k])
    decreases |s|
  {
    if |s| > 0 && IsSpace(s[0]) then StripLeft(s[1..]) else s
  }

  /** `s.rstrip()`: drop trailing whitespace. */
  function StripRight(s: string): (r: string)
    ensures |r| <= |s| && r == s[..|r|]
    ensures |r| > 0 ==> !IsSpace(r[|r| - 1])
    ensures forall k :: |r| <= k < |s| ==> IsSpace(s[k])
    decreases |s|
  {
    if |s| > 0 && IsSpace(s[|s| - 1]) then StripRight(s[..|s| - 1]) else s
  }

  /** `s.strip()`: drop leading and trailing whitespace. */
  function Strip(s: string): (r: string)
  {
    StripRight(StripLeft(s))
  }

  /** `s.strip()` is empty exactly when `s` is all whitespace: Python's `not text.strip()`. */
  predicate IsBlank(s: string) {
    forall k :: 0 <= k < |s| ==> IsSpace(s[k])
  }

  /** Every character of `s` has property `p`. */
  predicate AllChars(s: string, p: char -> bool) {
    forall k :: 0 <= k < |s| ==> p(s[k])
  }

  lemma AllCharsConcat(a: string, b: string, p: char -> bool)
    ensures AllChars(a + b, p) <==> AllChars(a, p) && AllChars(b, p)
  {
    if AllChars(a, p) && AllChars(b, p) {
      forall k | 0 <= k < |a + b|
        ensures p((a + b)[k])
      {
        if k < |a| {
          assert (a + b)[k] == a[k];
        } else {
          assert (a + b)[k] == b[k - |a|];
        }
      }
    }
    if AllChars(a + b, p) {
      forall k | 0 <= k < |a|
        ensures p(a[k])
      {
        assert (a + b)[k] == a[k];
      }
      forall k | 0 <= k < |b|
        ensures p(b[k])
      {
        assert (a + b)[|a| + k] == b[k];
      }
    }
  }

  /** A property held by every part and by the separator holds for the joined text. */
  lemma {:induction false} JoinAllChars(xs: seq<string>, sep: string, p: char -> bool)
    requires forall k :: 0 <= k < |xs| ==> AllChars(xs[k], p)
    requires AllChars(sep, p)
    ensures AllChars(Join(xs, sep), p)
    decreases |xs|
  {
    if |xs| > 1 {
      JoinAllChars(xs[1..], sep, p);
      AllCharsConcat(xs[0], sep, p);
      AllCharsConcat(xs[0] + sep, Join(xs[1..], sep), p);
    }
  }

  /** No two neighbouring characters both have property `p`. */
  predicate NoAdjacent(s: string, p: char -> bool) {
    forall k :: 0 <= k < |s| - 1 ==> !(p(s[k]) && p(s[k + 1]))
  }

  /** Properties of single characters and of neighbours survive taking a slice. */
  lemma SliceKeeps(s: string, a: nat, b: nat, p: char -> bool, q: char -> bool)
    requires a <= b <= |s|
    requires AllChars(s, p) && NoAdjacent(s, q)
    ensures AllChars(s[a..b], p) && NoAdjacent(s[a..b], q)
  {
    var t := s[a..b];
    forall k | 0 <= k < |t|
      ensures t[k] == s[a + k]
    {
    }
  }

  /** The characters of `s` that have property `p`, in order. */
  function Keep(s: string, p: char -> bool): (r: string)
    ensures AllChars(r, p)
    ensures |r| <= |s|
    decreases |s|
  {
    if |s| == 0 then "" else (if p(s[0]) then [s[0]] else "") + Keep(s[1..], p)
  }

  lemma {:induction false} KeepConcat(a: string, b: string, p: char -> bool)
    ensures Keep(a + b, p) == Keep(a, p) + Keep(b, p)
    decreases |a|
  {
    if |a| > 0 {
      assert (a + b)[0] == a[0] && (a + b)[1..] == a[1..] + b;
      KeepConcat(a[1..], b, p);
    } else {
      assert a + b == b;
    }
  }

  /** Nothing is kept from text none of whose characters has the property. */
  lemma {:induction false} KeepNone(s: string, p: char -> bool)
    requires forall k :: 0 <= k < |s| ==> !p(s[k])
    ensures Keep(s, p) == ""
    decreases |s|
  {
    if |s| > 0 {
      KeepNone(s[1..], p);
    }
  }

  // ---------------------------------------------------------------------------
  // Facts about Join, Split and ReplaceChar.

  lemma JoinCons(x: string, ys: seq<string>, sep: string)
    requires |ys| >= 1
    ensures Join([x] + ys, sep) == x + sep + Join(ys, sep)
  {
    assert ([x] + ys)[1..] == ys;
  }

  lemma SplitCons(a: char, t: string, c: char)
    ensures Split([a] + t, c)
      == if a == c then [""] + Split(t, c) else [[a] + Split(t, c)[0]] + Split(t, c)[1..]
  {
    assert ([a] + t)[0] == a && ([a] + t)[1..] == t;
  }

  /** Splitting a string that has no separator in its first part. */
  lemma {:induction false} SplitPrefix(x: string, t: string, c: char)
    requires c !in x
    ensures Split(x + t, c) == [x + Split(t, c)[0]] + Split(t, c)[1..]
    decreases |x|
  {
    var tail := Split(t, c);
    if |x| > 0 {
      var y := x[1..] + t;
      assert x + t == [x[0]] + y;
      assert x[0] != c by { assert x[0] == x[0..1][0]; }
      SplitPrefix(x[1..], t, c);
      var r := Split(y, c);
      assert r[0] == x[1..] + tail[0] && r[1..] == tail[1..];
      SplitCons(x[0], y, c);
      assert Split(x + t, c) == [[x[0]] + r[0]] + r[1..];
      assert [x[0]] + (x[1..] + tail[0]) == x + tail[0];
    } else {
      assert x + t == t;
      assert x + tail[0] == tail[0];
      assert tail == [tail[0]] + tail[1..];
    }
  }

  /** No part of `s.split(c)` holds `c`. */
  lemma {:induction false} SplitPartsHaveNoSep(s: string, c: char)
    ensures forall k :: 0 <= k < |Split(s, c)| ==> c !in Split(s, c)[k]
    decreases |s|
  {
    if |s| > 0 {
      SplitPartsHaveNoSep(s[1..], c);
      var rest := Split(s[1..], c);
      if s[0] != c {
        assert c !in [s[0]] + rest[0];
        assert forall k :: 1 <= k < |rest| ==> rest[1..][k - 1] == rest[k];
      }
    }
  }

  /** `c.join(s.split(c)) == s`. */
  lemma {:induction false} JoinSplit(s: string, c: char)
    ensures Join(Split(s, c), [c]) == s
    decreases |s|
  {
    if |s| > 0 {
      var rest := Split(s[1..], c);
      JoinSplit(s[1..], c);
      if s[0] == c {
        JoinCons("", rest, [c]);
      } else if |rest| == 1 {
      } else {
        var head := [s[0]] + rest[0];
        JoinCons(head, rest[1..], [c]);
        assert rest == [rest[0]] + rest[1..];
        JoinCons(rest[0], rest[1..], [c]);
      }
    }
  }

  /** `c.join(xs).split(c) == xs` when no part holds the separator. */
  lemma {:induction false} SplitJoin(xs: seq<string>, c: char)
    requires |xs| >= 1
    requires forall k :: 0 <= k < |xs| ==> c !in xs[k]
    ensures Split(Join(xs, [c]), c) == xs
    decreases |xs|
  {
    if |xs| == 1 {
      SplitPrefix(xs[0], "", c);
      assert xs[0] + "" == xs[0] && Split("", c) == [""];
      assert xs[0] + Split("", c)[0] == xs[0];
    } else {
      var t := Join(xs[1..], [c]);
      SplitJoin(xs[1..], c);
      JoinCons(xs[0], xs[1..], [c]);
      assert Join(xs, [c]) == xs[0] + ([c] + t);
      SplitPrefix(xs[0], [c] + t, c);
      assert ([c] + t)[0] == c && ([c] + t)[1..] == t;
      var u := Split([c] + t, c);
      assert u == [""] + Split(t, c);
      assert u[0] == "" && u[1..] == xs[1..];
      assert xs[0] + u[0] == xs[0];
      assert xs == [xs[0]] + xs[1..];
    }
  }

  /** `s.replace(c, w)` is `w.join(s.split(c))`. */
  lemma {:induction false} ReplaceIsJoinSplit(s: string, c: char, w: string)
    ensures ReplaceChar(s, c, w) == Join(Split(s, c), w)
    decreases |s|
  {
    if |s| > 0 {
      var rest := Split(s[1..], c);
      ReplaceIsJoinSplit(s[1..], c, w);
      if s[0] == c {
        JoinCons("", rest, w);
      } else if |rest| == 1 {
      } else {
        JoinCons([s[0]] + rest[0], rest[1..], w);
        assert rest == [rest[0]] + rest[1..];
        JoinCons(rest[0], rest[1..], w);
      }
    }
  }

  lemma {:induction false} ReplaceAppend(a: string, b: string, c: char, w: string)
    ensures ReplaceChar(a + b, c, w) == ReplaceChar(a, c, w) + ReplaceChar(b, c, w)
    decreases |a|
  {
    if |a| > 0 {
      var piece := if a[0] == c then w else [a[0]];
      assert (a + b)[0] == a[0];
      assert (a + b)[1..] == a[1..] + b;
      ReplaceAppend(a[1..], b, c, w);
      calc {
        ReplaceChar(a + b, c, w);
        piece + ReplaceChar(a[1..] + b, c, w);
        piece + (ReplaceChar(a[1..], c, w) + ReplaceChar(b, c, w));
        (piece + ReplaceChar(a[1..], c, w)) + ReplaceChar(b, c, w);
        ReplaceChar(a, c, w) + ReplaceChar(b, c, w);
      }
    } else {
      assert a + b == b;
    }
  }

  lemma {:induction false} ReplaceAbsent(s: string, c: char, w: string)
    requires c !in s
    ensures ReplaceChar(s, c, w) == s
    decreases |s|
  {
    if |s| > 0 {
      ReplaceAbsent(s[1..], c, w);
    }
  }

}
