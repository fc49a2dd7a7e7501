/**
 A model of `re.sub(pattern, callback, text)` for one pattern.

 The pattern and its callback are fused into a `Rewriter`: asked at position
 `i` of the ORIGINAL text, it either declines or reports where the match ends
 and what replaces it. Scanning goes left to right; a match is replaced and
 scanning resumes at its end, otherwise one character is copied. Because the
 rewriter sees the whole original text, look-behind and `\b` are expressible.
 */
module Scanner {
  import opened Wrappers
  import opened Chars
  import opened Strings

  /** A match ending (exclusively) at `end`, to be replaced by `out`. */
  datatype Match = Match(end: nat, out: string)

  type Rewriter = (string, nat) -> Option<Match>

  /** The rewriter reports a non-empty match at `i` that lies inside `s`. */
  predicate Fires(rw: Rewriter, s: string, i: nat) {
    i < |s| && rw(s, i).Some? && i < rw(s, i).value.end <= |s|
  }

  /** The text produced from position `i` on. */
  function Scan(rw: Rewriter, s: string, i: nat): string
    requires i <= |s|
    decreases |s| - i
  {
    if i == |s| then ""
    else if Fires(rw, s, i) then rw(s, i).value.out + Scan(rw, s, rw(s, i).value.end)
    else [s[i]] + Scan(rw, s, i + 1)
  }

  /** `re.sub` over the whole text. */
  function Sub(rw: Rewriter, s: string): string {
    Scan(rw, s, 0)
  }

  /** A match at `j`, if any, is replaced by the text it matched. */
  predicate Inert(rw: Rewriter, s: string, j: nat) {
    Fires(rw, s, j) ==> rw(s, j).value.out == s[j..rw(s, j).value.end]
  }

  /** When every match gives back its own text, the substitution changes nothing. */
  lemma {:induction false} ScanIdentity(rw: Rewriter, s: string, i: nat)
    requires i <= |s|
    requires forall j :: i <= j < |s| ==> Inert(rw, s, j)
    ensures Scan(rw, s, i) == s[i..]
    decreases |s| - i
  {
    if i < |s| {
      assert Inert(rw, s, i);
      if Fires(rw, s, i) {
        var e := rw(s, i).value.end;
        ScanIdentity(rw, s, e);
        assert s[i..] == s[i..e] + s[e..];
      } else {
        ScanIdentity(rw, s, i + 1);
        assert s[i..] == [s[i]] + s[i + 1..];
      }
    }
  }

  /** A character property held by the copied text and by every replacement holds for the result. */
  lemma {:induction false} ScanAllChars(rw: Rewriter, s: string, i: nat, p: char -> bool)
    requires i <= |s|
    requires forall k :: i <= k < |s| ==> p(s[k])
    requires forall j :: i <= j < |s| && Fires(rw, s, j) ==> AllChars(rw(s, j).value.out, p)
    ensures AllChars(Scan(rw, s, i), p)
    decreases |s| - i
  {
    if i < |s| {
      if Fires(rw, s, i) {
        ScanAllChars(rw, s, rw(s, i).value.end, p);
        AllCharsConcat(rw(s, i).value.out, Scan(rw, s, rw(s, i).value.end), p);
      } else {
        ScanAllChars(rw, s, i + 1, p);
        AllCharsConcat([s[i]], Scan(rw, s, i + 1), p);
      }
    }
  }

  /**
   When every replacement keeps the same `p`-characters as the text it
   replaces, the substitution keeps the `p`-characters of the whole text.
   */
  lemma {:induction false} ScanKeeps(rw: Rewriter, s: string, i: nat, p: char -> bool)
    requires i <= |s|
    requires forall j :: i <= j < |s| && Fires(rw, s, j) ==> Keep(rw(s, j).value.out, p) == Keep(s[j..rw(s, j).value.end], p)
    ensures Keep(Scan(rw, s, i), p) == Keep(s[i..], p)
    decreases |s| - i
  {
    if i < |s| {
      if Fires(rw, s, i) {
        var e := rw(s, i).value.end;
        ScanKeeps(rw, s, e, p);
        KeepConcat(rw(s, i).value.out, Scan(rw, s, e), p);
        assert s[i..] == s[i..e] + s[e..];
        KeepConcat(s[i..e], s[e..], p);
      } else {
        ScanKeeps(rw, s, i + 1, p);
        KeepConcat([s[i]], Scan(rw, s, i + 1), p);
        assert s[i..] == [s[i]] + s[i + 1..];
        KeepConcat([s[i]], s[i + 1..], p);
      }
    }
  }

  /** One step of the scan: a match is replaced, otherwise one character is copied. */
  lemma ScanStep(rw: Rewriter, s: string, i: nat)
    requires i < |s|
    ensures Fires(rw, s, i) ==> Scan(rw, s, i) == rw(s, i).value.out + Scan(rw, s, rw(s, i).value.end)
    ensures !Fires(rw, s, i) ==> Scan(rw, s, i) == [s[i]] + Scan(rw, s, i + 1)
  {
  }

  /** A match at the start, and nothing changed after it: the replacement followed by the rest as written. */
  lemma ScanPrefix(rw: Rewriter, s: string, e: nat)
    requires 0 < e <= |s| && rw(s, 0).Some? && rw(s, 0).value.end == e
    requires forall j :: e <= j < |s| ==> Inert(rw, s, j)
    ensures Sub(rw, s) == rw(s, 0).value.out + s[e..]
  {
    ScanStep(rw, s, 0);
    ScanIdentity(rw, s, e);
  }

  /** Two matches around one copied character: the text `x c y` with `x` and `y` matched whole. */
  lemma ScanAround(rw: Rewriter, s: string, n: nat)
    requires n + 1 < |s|
    requires rw(s, 0).Some? && rw(s, 0).value.end == n && n > 0
    requires !Fires(rw, s, n)
    requires rw(s, n + 1).Some? && rw(s, n + 1).value.end == |s|
    ensures Sub(rw, s) == rw(s, 0).value.out + [s[n]] + rw(s, n + 1).value.out
  {
    ScanStep(rw, s, 0);
    ScanStep(rw, s, n);
    ScanStep(rw, s, n + 1);
    assert Scan(rw, s, |s|) == "";
  }

  /** When the pattern matches the whole text, the result is that match's replacement. */
  lemma ScanWhole(rw: Rewriter, s: string)
    requires |s| > 0 && rw(s, 0).Some? && rw(s, 0).value.end == |s|
    ensures Sub(rw, s) == rw(s, 0).value.out
  {
    assert Fires(rw, s, 0);
    assert Scan(rw, s, |s|) == "";
  }

  /** Where the scan goes after position `i`: past the match there, or to the next character. */
  function Next(rw: Rewriter, s: string, i: nat): (n: nat)
    requires i < |s|
    ensures i < n <= |s|
  {
    if Fires(rw, s, i) then rw(s, i).value.end else i + 1
  }

  /** The scan from `i` stops at `j`: `j` is not inside a match it replaced. */
  predicate Visits(rw: Rewriter, s: string, i: nat, j: nat)
    requires i <= |s|
    decreases |s| - i
  {
    if j <= i then j == i
    else if i == |s| then false
    else Visits(rw, s, Next(rw, s, i), j)
  }

  /** The substitution over the whole text replaces a match at `j`. */
  predicate Replaced(rw: Rewriter, s: string, j: nat) {
    j < |s| && Visits(rw, s, 0, j) && Fires(rw, s, j)
  }

  /** A position the scan stops at is followed by the next one it stops at. */
  lemma {:induction false} VisitsNext(rw: Rewriter, s: string, a: nat, i: nat)
    requires a <= i < |s| && Visits(rw, s, a, i)
    ensures Visits(rw, s, a, Next(rw, s, i))
    decreases i - a
  {
    if a < i {
      VisitsNext(rw, s, Next(rw, s, a), i);
    }
  }

  /** Two rewriters that agree at every position from `i` on produce the same text. */
  lemma {:induction false} ScanAgree(rw: Rewriter, rw2: Rewriter, s: string, i: nat)
    requires i <= |s|
    requires forall j :: i <= j < |s| ==> rw(s, j) == rw2(s, j)
    ensures Scan(rw, s, i) == Scan(rw2, s, i)
    decreases |s| - i
  {
    if i < |s| {
      assert rw(s, i) == rw2(s, i);
      if Fires(rw, s, i) {
        ScanAgree(rw, rw2, s, rw(s, i).value.end);
      } else {
        ScanAgree(rw, rw2, s, i + 1);
      }
    }
  }

  /** The end of the run of characters satisfying `p` that starts at `j`. */
  function RunEnd(s: string, j: nat, p: char -> bool): (k: nat)
    requires j <= |s|
    ensures j <= k <= |s|
    ensures forall m :: j <= m < k ==> p(s[m])
    ensures k == |s| || !p(s[k])
    decreases |s| - j
  {
    if j < |s| && p(s[j]) then RunEnd(s, j + 1, p) else j
  }

  /** A run is determined by its characters: the maximal run from `j` ends at `k`. */
  lemma {:induction false} RunEndIs(s: string, j: nat, k: nat, p: char -> bool)
    requires j <= k <= |s|
    requires forall m :: j <= m < k ==> p(s[m])
    requires k == |s| || !p(s[k])
    ensures RunEnd(s, j, p) == k
    decreases k - j
  {
    if j < k {
      RunEndIs(s, j + 1, k, p);
    }
  }

  /** Position `p` holds a word character (`\w`); positions outside the text do not. */
  predicate WordAt(s: string, p: int) {
    0 <= p < |s| && IsWordChar(s[p])
  }

  /** `\b` at position `p`: exactly one side of `p` is a word character. */
  predicate Boundary(s: string, p: int) {
    WordAt(s, p - 1) != WordAt(s, p)
  }

}
