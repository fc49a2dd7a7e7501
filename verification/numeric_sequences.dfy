/**
 The numeric-sequence pass (`normalize_numeric_sequences`): document numbers
 such as "123.456.789-00" are read one character at a time.

 The pattern is `\b\d+(?:[.\-]\d+)*\b`. A digit run never ends at a word
 boundary except where the run ends, so the possible matches from a start are
 exactly the prefixes that stop at the end of one of the chain's digit runs
 and are followed by a non-word character; the greedy `*` with backtracking
 takes the longest of them.
 */
module NumericSequences {
  import opened Wrappers
  import opened Chars
  import opened Strings
  import opened Scanner
  import opened Lexicon

  predicate IsSeqSeparator(c: char) {
    c == '.' || c == '-'
  }

  /** `s[j..e]` is `\d+(?:[.\-]\d+)*`: digits, with single separators between digits. */
  predicate ChainChars(s: string, j: nat, e: nat) {
    && j < e <= |s| && IsDigit(s[j]) && IsDigit(s[e - 1])
    && forall k {:trigger s[k]} :: j <= k < e ==>
         IsDigit(s[k]) || (j < k < e - 1 && IsSeqSeparator(s[k]) && IsDigit(s[k - 1]) && IsDigit(s[k + 1]))
  }

  /** The whole of `t` is a chain. */
  predicate IsChain(t: string) {
    ChainChars(t, 0, |t|)
  }

  /** `s[j..e]` is a chain that stops at the end of a digit run. */
  predicate ChainSpan(s: string, j: nat, e: nat) {
    ChainChars(s, j, e) && (e == |s| || !IsDigit(s[e]))
  }

  /** Every character is a digit or a separator. */
  predicate SeqChars(m: string) {
    forall k :: 0 <= k < |m| ==> IsDigit(m[k]) || IsSeqSeparator(m[k])
  }

  lemma ChainCharsSeqChars(s: string, j: nat, e: nat)
    requires ChainChars(s, j, e)
    ensures SeqChars(s[j..e])
  {
    var m := s[j..e];
    forall k | 0 <= k < |m|
      ensures IsDigit(m[k]) || IsSeqSeparator(m[k])
    {
      var c := s[j + k];
      assert m[k] == c;
      assert IsDigit(c) || IsSeqSeparator(c);
    }
  }

  /** A chain written at offset `off` of `s` is a chain there too. */
  lemma ChainCharsAt(s: string, off: nat, t: string)
    requires IsChain(t) && off + |t| <= |s| && s[off..off + |t|] == t
    ensures ChainChars(s, off, off + |t|)
  {
    var e := off + |t|;
    assert s[off] == t[0] && s[e - 1] == t[|t| - 1];
    forall k | off <= k < e
      ensures IsDigit(s[k]) || (off < k < e - 1 && IsSeqSeparator(s[k]) && IsDigit(s[k - 1]) && IsDigit(s[k + 1]))
    {
      var c := t[k - off];
      assert s[k] == c;
      if !IsDigit(c) {
        assert 0 < k - off < |t| - 1 && IsSeqSeparator(c) && IsDigit(t[k - off - 1]) && IsDigit(t[k - off + 1]);
        assert s[k - 1] == t[k - off - 1] && s[k + 1] == t[k - off + 1];
      }
    }
  }

  /** The first digit run of a chain starting at `j` is itself a chain span. */
  lemma ChainSpanRun(s: string, j: nat)
    requires j < |s| && IsDigit(s[j])
    ensures ChainSpan(s, j, RunEnd(s, j, IsDigit))
  {
  }

  /** A chain span either is the first digit run or continues past a separator with a shorter span. */
  lemma ChainSpanSplit(s: string, j: nat, e: nat)
    requires ChainSpan(s, j, e)
    ensures var k := RunEnd(s, j, IsDigit);
      && k <= e
      && (k == e || (k + 1 < e && IsSeqSeparator(s[k]) && IsDigit(s[k + 1]) && ChainSpan(s, k + 1, e)))
  {
    var k := RunEnd(s, j, IsDigit);
    if e < k {
      assert false;
    }
    if k < e {
      var c := s[k];
      assert !IsDigit(c);
      assert j < k < e - 1 && IsSeqSeparator(c) && IsDigit(s[k + 1]);
      forall m | k + 1 <= m < e
        ensures IsDigit(s[m]) || (k + 1 < m < e - 1 && IsSeqSeparator(s[m]) && IsDigit(s[m - 1]) && IsDigit(s[m + 1]))
      {
        var d := s[m];
        assert IsDigit(d) || (j < m < e - 1 && IsSeqSeparator(d) && IsDigit(s[m - 1]) && IsDigit(s[m + 1]));
      }
    }
  }

  /** A separator followed by a chain span extends the first digit run into a longer span. */
  lemma ChainSpanJoin(s: string, j: nat, e: nat)
    requires j < |s| && IsDigit(s[j])
    requires var k := RunEnd(s, j, IsDigit);
      k + 1 < |s| && IsSeqSeparator(s[k]) && ChainSpan(s, k + 1, e)
    ensures ChainSpan(s, j, e)
  {
    var k := RunEnd(s, j, IsDigit);
    assert k > j && IsDigit(s[k - 1]);
    assert IsDigit(s[k + 1]);
    forall m | j <= m < e
      ensures IsDigit(s[m]) || (j < m < e - 1 && IsSeqSeparator(s[m]) && IsDigit(s[m - 1]) && IsDigit(s[m + 1]))
    {
      if m < k {
        assert IsDigit(s[m]);
      } else if m == k {
        assert IsSeqSeparator(s[m]) && IsDigit(s[m - 1]) && IsDigit(s[m + 1]);
      } else {
        var d := s[m];
        assert IsDigit(d) || (k + 1 < m < e - 1 && IsSeqSeparator(d) && IsDigit(s[m - 1]) && IsDigit(s[m + 1]));
      }
    }
  }

  /**
   Where the match that starts with the digit at `j` ends: the longest chain
   span from `j` followed by a non-word character, if any.
   */
  function ChainEnd(s: string, j: nat): (r: Option<nat>)
    requires j < |s| && IsDigit(s[j])
    ensures r.Some? ==> ChainSpan(s, j, r.value) && !WordAt(s, r.value)
    decreases |s| - j
  {
    var k := RunEnd(s, j, IsDigit);
    ChainSpanRun(s, j);
    if k + 1 < |s| && IsSeqSeparator(s[k]) && IsDigit(s[k + 1]) then
      match ChainEnd(s, k + 1)
      case Some(e) =>
        ChainSpanJoin(s, j, e);
        Some(e)
      case None =>
        if !WordAt(s, k) then Some(k) else None
    else if !WordAt(s, k) then Some(k)
    else None
  }

  /** `ChainEnd` is the longest admissible end, and it fails only when no chain span ends at a boundary. */
  lemma {:induction false} ChainEndIsLongest(s: string, j: nat, e: nat)
    requires j < |s| && IsDigit(s[j])
    requires ChainSpan(s, j, e) && !WordAt(s, e)
    ensures ChainEnd(s, j).Some? && e <= ChainEnd(s, j).value
    decreases |s| - j
  {
    var k := RunEnd(s, j, IsDigit);
    ChainSpanSplit(s, j, e);
    if k < e {
      ChainEndIsLongest(s, k + 1, e);
    }
  }

  /** The word for one character of a sequence. */
  function SeqWord(c: char): string
    requires IsDigit(c) || IsSeqSeparator(c)
  {
    if IsDigit(c) then DigitWord(c) else if c == '.' then "ponto" else "traço"
  }

  predicate HasSeparator(m: string) {
    '.' in m || '-' in m
  }

  /** The word list of a sequence, one word per character. */
  function SeqWordList(m: string): (ws: seq<string>)
    requires SeqChars(m)
    ensures |ws| == |m|
  {
    seq(|m|, k requires 0 <= k < |m| => SeqWord(m[k]))
  }

  /** `replace_numeric_sequence`: plain numbers are left for the number pass. */
  function SpokenSequence(m: string): (r: string)
    requires SeqChars(m)
    ensures !HasSeparator(m) ==> r == m
  {
    if '.' !in m && '-' !in m then m else Join(SeqWordList(m), " ")
  }

  /** The character one word of a spoken sequence stands for. */
  function ReadSeqWord(w: string): (r: Option<char>)
    ensures r.Some? ==> (IsDigit(r.value) || IsSeqSeparator(r.value)) && SeqWord(r.value) == w
  {
    if w == "ponto" then Some('.')
    else if w == "traço" then Some('-')
    else ReadDigitWord(w)
  }

  /** Reads a spoken sequence back, one word per character. */
  function ReadSequence(t: string): Option<string> {
    var ws := Split(t, ' ');
    if forall k :: 0 <= k < |ws| ==> ReadSeqWord(ws[k]).Some? then
      Some(seq(|ws|, k requires 0 <= k < |ws| => ReadSeqWord(ws[k]).value))
    else None
  }

  lemma ReadSeqWordInverse(c: char)
    requires IsDigit(c) || IsSeqSeparator(c)
    ensures ReadSeqWord(SeqWord(c)) == Some(c)
    ensures ' ' !in SeqWord(c)
  {
    if IsDigit(c) {
      ReadDigitWordInverse(c);
      var v := DigitValue(c);
      assert v == 0 || v == 1 || v == 2 || v == 3 || v == 4 || v == 5 || v == 6 || v == 7 || v == 8 || v == 9;
    }
  }

  /**
   A sequence with a separator is spoken one word per character, and the
   words read back to exactly that sequence.
   */
  lemma SpokenSequenceRoundTrip(m: string)
    requires SeqChars(m)
    requires HasSeparator(m)
    ensures |Split(SpokenSequence(m), ' ')| == |m|
    ensures ReadSequence(SpokenSequence(m)) == Some(m)
  {
    var ws := SeqWordList(m);
    forall k | 0 <= k < |ws|
      ensures ' ' !in ws[k] && ReadSeqWord(ws[k]) == Some(m[k])
    {
      ReadSeqWordInverse(m[k]);
    }
    SplitJoin(ws, ' ');
    assert Split(SpokenSequence(m), ' ') == ws;
    assert seq(|ws|, k requires 0 <= k < |ws| => ReadSeqWord(ws[k]).value) == m;
  }

  function SequenceRewriter(): Rewriter {
    (s: string, i: nat) =>
      if i < |s| && IsDigit(s[i]) && !WordAt(s, i - 1) then
        match ChainEnd(s, i)
        case Some(e) =>
          ChainCharsSeqChars(s, i, e);
          Some(Match(e, SpokenSequence(s[i..e])))
        case None => None
      else None
  }

  /** `normalize_numeric_sequences`. */
  function NormalizeNumericSequences(text: string): string {
    Sub(SequenceRewriter(), text)
  }

  /** Text without '.' or '-' is left to the number pass untouched. */
  lemma NoSeparatorUnchanged(text: string)
    requires '.' !in text && '-' !in text
    ensures NormalizeNumericSequences(text) == text
  {
    var rw := SequenceRewriter();
    forall j | 0 <= j < |text|
      ensures Inert(rw, text, j)
    {
      if Fires(rw, text, j) {
        var e := rw(text, j).value.end;
        var m := text[j..e];
        assert forall k :: 0 <= k < |m| ==> m[k] == text[j + k];
        assert !HasSeparator(m);
      }
    }
    ScanIdentity(rw, text, 0);
  }

  /** A chain followed by the end of the text or a non-word, non-chain character is matched whole. */
  lemma ChainMatchedWhole(s: string, j: nat, e: nat)
    requires ChainChars(s, j, e) && !WordAt(s, j - 1) && !WordAt(s, e)
    requires e < |s| ==> !IsSeqSeparator(s[e])
    ensures SeqChars(s[j..e])
    ensures SequenceRewriter()(s, j) == Some(Match(e, SpokenSequence(s[j..e])))
  {
    ChainCharsSeqChars(s, j, e);
    ChainEndIsLongest(s, j, e);
    ChainStopsAt(s, j, e, ChainEnd(s, j).value);
    SequenceAt(s, j, e);
  }

  /** Where `ChainEnd` stops, the rewriter replaces the chain by its reading. */
  lemma SequenceAt(s: string, j: nat, e: nat)
    requires j < |s| && IsDigit(s[j]) && !WordAt(s, j - 1) && ChainEnd(s, j) == Some(e)
    ensures SeqChars(s[j..e])
    ensures SequenceRewriter()(s, j) == Some(Match(e, SpokenSequence(s[j..e])))
  {
    ChainCharsSeqChars(s, j, e);
  }

  /** No chain span from `j` runs past a character that is neither digit nor separator. */
  lemma ChainStopsAt(s: string, j: nat, e: nat, r: nat)
    requires ChainSpan(s, j, r) && j < e <= |s|
    requires e < |s| ==> !IsDigit(s[e]) && !IsSeqSeparator(s[e])
    ensures r <= e
  {
  }

  /** A document number written alone is read one word per character. */
  lemma NormalizeWrittenChain(a: string)
    requires IsChain(a)
    ensures SeqChars(a)
    ensures NormalizeNumericSequences(a) == SpokenSequence(a)
  {
    assert a[0..|a|] == a;
    ChainMatchedWhole(a, 0, |a|);
    ScanWhole(SequenceRewriter(), a);
  }

  /**
   '/' is never part of a sequence: two chains around a slash, such as
   "12.345.678/0001-90", are read separately and the slash is kept.
   */
  lemma SlashSeparatesChains(a: string, b: string)
    requires IsChain(a) && IsChain(b)
    ensures SeqChars(a) && SeqChars(b)
    ensures NormalizeNumericSequences(a + "/" + b) == SpokenSequence(a) + "/" + SpokenSequence(b)
  {
    var s := a + "/" + b;
    var n := |a|;
    assert s[0..n] == a && s[n + 1..|s|] == b && s[n] == '/';
    ChainCharsAt(s, 0, a);
    ChainCharsAt(s, n + 1, b);
    var rw := SequenceRewriter();
    ChainMatchedWhole(s, 0, n);
    ChainMatchedWhole(s, n + 1, |s|);
    assert rw(s, 0) == Some(Match(n, SpokenSequence(a)));
    assert rw(s, n + 1) == Some(Match(|s|, SpokenSequence(b)));
    NoSequenceAtNonDigit(s, n);
    ScanAround(rw, s, n);
  }

  lemma NoSequenceAtNonDigit(s: string, i: nat)
    requires i < |s| && !IsDigit(s[i])
    ensures !Fires(SequenceRewriter(), s, i)
  {
  }

  /** Text without digits holds no sequence, whatever separators it has. */
  lemma NoDigitsUnchanged(text: string)
    requires forall k :: 0 <= k < |text| ==> !IsDigit(text[k])
    ensures NormalizeNumericSequences(text) == text
  {
    forall j | 0 <= j < |text|
      ensures Inert(SequenceRewriter(), text, j)
    {
      NoSequenceAtNonDigit(text, j);
    }
    ScanIdentity(SequenceRewriter(), text, 0);
  }

}
