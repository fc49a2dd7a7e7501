/**
 The sanitizer (`remove_non_alphanumeric`): four steps in order.
   1. `[@#]\w+` is removed: a mention or hashtag together with its word.
   2. Each of the symbols `$%&*+=[]{}|\<>~^`` and the backtick is removed.
   3. Every whitespace run `\s+` becomes one space.
   4. Leading and trailing whitespace is stripped.
 Everything else, basic punctuation included, is kept.
 */
module Sanitizer {
  import opened Wrappers
  import opened Chars
  import opened Strings
  import opened Scanner

  predicate IsTagMark(c: char) {
    c == '@' || c == '#'
  }

  /** The symbols step 2 removes: `$%&*+=[]{}|\<>~^` and the backtick. */
  predicate IsDroppedSymbol(c: char) {
    || c == '$' || c == '%' || c == '&' || c == '*' || c == '+' || c == '='
    || c == '[' || c == ']' || c == '{' || c == '}' || c == '|' || c == '\\'
    || c == '<' || c == '>' || c == '~' || c == '^' || c == '`'
  }

  predicate NotDropped(c: char) {
    !IsDroppedSymbol(c)
  }

  /** A character that is neither whitespace nor a dropped symbol: what the sanitizer never removes on its own. */
  predicate Visible(c: char) {
    !IsSpace(c) && !IsDroppedSymbol(c)
  }

  /** A whitespace character can only be the plain space. */
  predicate PlainSpace(c: char) {
    IsSpace(c) ==> c == ' '
  }

  /** Whitespace is single spaces between other characters. */
  predicate Tidy(s: string) {
    && (|s| > 0 ==> !IsSpace(s[0]) && !IsSpace(s[|s| - 1]))
    && AllChars(s, PlainSpace)
    && NoAdjacent(s, IsSpace)
  }

  /** Step 1: `re.sub(r'[@#]\w+', '', text)`. */
  function TagRewriter(): Rewriter {
    (s: string, i: nat) =>
      if i + 1 < |s| && IsTagMark(s[i]) && IsWordChar(s[i + 1]) then
        Some(Match(RunEnd(s, i + 1, IsWordChar), ""))
      else None
  }

  function DropTags(s: string): string {
    Sub(TagRewriter(), s)
  }

  /** Step 2: the dropped symbols are removed and every other character is kept in order. */
  function DropSymbols(s: string): (r: string)
    ensures AllChars(r, NotDropped)
  {
    Keep(s, NotDropped)
  }

  /** Step 3: `re.sub(r'\s+', ' ', text)`. */
  function SpaceRewriter(): Rewriter {
    (s: string, i: nat) =>
      if i < |s| && IsSpace(s[i]) then Some(Match(RunEnd(s, i, IsSpace), " ")) else None
  }

  function CollapseSpaces(s: string): string {
    Sub(SpaceRewriter(), s)
  }

  /**
   `remove_non_alphanumeric`. Whatever the input, the result has no dropped
   symbol, and its whitespace is single plain spaces between other
   characters, with none at either end.
   */
  function RemoveNonAlphanumeric(s: string): (r: string)
    ensures AllChars(r, NotDropped)
    ensures Tidy(r)
  {
    var d := DropSymbols(DropTags(s));
    assert NotDropped(' ');
    ScanAllChars(SpaceRewriter(), d, 0, NotDropped);
    CollapseFrom(d, 0);
    StripTidy(CollapseSpaces(d), NotDropped);
    Strip(CollapseSpaces(d))
  }

  // ---------------------------------------------------------------------------
  // Step 3 leaves single spaces between non-whitespace characters.

  /** From `i` on, collapsing leaves no two whitespace characters side by side, and only spaces. */
  lemma {:induction false} CollapseFrom(s: string, i: nat)
    requires i <= |s|
    ensures var c := Scan(SpaceRewriter(), s, i);
      && AllChars(c, PlainSpace)
      && NoAdjacent(c, IsSpace)
      && (|c| == 0 <==> i == |s|)
      && (|c| > 0 ==> (IsSpace(c[0]) <==> IsSpace(s[i])))
    decreases |s| - i
  {
    var rw := SpaceRewriter();
    if i < |s| {
      var c := Scan(rw, s, i);
      ScanStep(rw, s, i);
      if IsSpace(s[i]) {
        var e := RunEnd(s, i, IsSpace);
        assert Fires(rw, s, i);
        CollapseFrom(s, e);
        var t := Scan(rw, s, e);
        assert c == " " + t;
        assert |t| > 0 ==> !IsSpace(t[0]);
        forall k | 0 <= k < |c| - 1
          ensures !(IsSpace(c[k]) && IsSpace(c[k + 1]))
        {
          if k > 0 {
            assert c[k] == t[k - 1] && c[k + 1] == t[k];
          }
        }
      } else {
        assert !Fires(rw, s, i);
        CollapseFrom(s, i + 1);
        var t := Scan(rw, s, i + 1);
        assert c == [s[i]] + t;
        forall k | 0 <= k < |c| - 1
          ensures !(IsSpace(c[k]) && IsSpace(c[k + 1]))
        {
          if k > 0 {
            assert c[k] == t[k - 1] && c[k + 1] == t[k];
          }
        }
      }
    }
  }

  /** Stripping whitespace-clean text leaves it tidy, and keeps any property all its characters have. */
  lemma StripTidy(x: string, p: char -> bool)
    requires AllChars(x, PlainSpace) && NoAdjacent(x, IsSpace) && AllChars(x, p)
    ensures Tidy(Strip(x)) && AllChars(Strip(x), p)
  {
    StripLeftClean(x, p);
    StripRightTidy(StripLeft(x), p);
  }

  /** Dropping leading whitespace keeps the spacing facts and starts on a non-space. */
  lemma StripLeftClean(x: string, p: char -> bool)
    requires AllChars(x, PlainSpace) && NoAdjacent(x, IsSpace) && AllChars(x, p)
    ensures var l := StripLeft(x);
      AllChars(l, PlainSpace) && NoAdjacent(l, IsSpace) && AllChars(l, p)
  {
    var l := StripLeft(x);
    assert l == x[|x| - |l|..|x|];
    SliceKeeps(x, |x| - |l|, |x|, PlainSpace, IsSpace);
    SliceKeeps(x, |x| - |l|, |x|, p, IsSpace);
  }

  /** Dropping trailing whitespace from text that starts on a non-space leaves it tidy. */
  lemma StripRightTidy(l: string, p: char -> bool)
    requires AllChars(l, PlainSpace) && NoAdjacent(l, IsSpace) && AllChars(l, p)
    requires |l| > 0 ==> !IsSpace(l[0])
    ensures Tidy(StripRight(l)) && AllChars(StripRight(l), p)
  {
    var r := StripRight(l);
    assert r == l[0..|r|];
    SliceKeeps(l, 0, |r|, PlainSpace, IsSpace);
    SliceKeeps(l, 0, |r|, p, IsSpace);
    if |r| > 0 {
      assert r[0] == l[0];
    }
  }

  // ---------------------------------------------------------------------------
  // What the sanitizer guarantees.

  /** Removing whitespace at either end keeps every character with a property whitespace lacks. */
  lemma StripKeeps(x: string, p: char -> bool)
    requires forall c :: p(c) ==> !IsSpace(c)
    ensures Keep(Strip(x), p) == Keep(x, p)
  {
    StripLeftKeeps(x, p);
    StripRightKeeps(StripLeft(x), p);
  }

  lemma StripLeftKeeps(x: string, p: char -> bool)
    requires forall c :: p(c) ==> !IsSpace(c)
    ensures Keep(StripLeft(x), p) == Keep(x, p)
  {
    var l := StripLeft(x);
    var off := |x| - |l|;
    var front := x[..off];
    assert x == front + x[off..];
    KeepConcat(front, l, p);
    forall k | 0 <= k < |front|
      ensures !p(front[k])
    {
      assert front[k] == x[k];
      assert IsSpace(x[k]);
    }
    KeepNone(front, p);
  }

  lemma StripRightKeeps(l: string, p: char -> bool)
    requires forall c :: p(c) ==> !IsSpace(c)
    ensures Keep(StripRight(l), p) == Keep(l, p)
  {
    var r := StripRight(l);
    var back := l[|r|..];
    assert l == l[..|r|] + back;
    KeepConcat(r, back, p);
    forall k | 0 <= k < |back|
      ensures !p(back[k])
    {
      assert back[k] == l[|r| + k];
      assert IsSpace(l[|r| + k]);
    }
    KeepNone(back, p);
  }

  /** Tidy text is its own strip. */
  lemma StripTidyIdentity(x: string)
    requires |x| > 0 ==> !IsSpace(x[0]) && !IsSpace(x[|x| - 1])
    ensures Strip(x) == x
  {
  }

  /** Collapsing whitespace keeps every character with a property whitespace lacks. */
  lemma CollapseKeeps(d: string, p: char -> bool)
    requires forall c :: p(c) ==> !IsSpace(c)
    ensures Keep(CollapseSpaces(d), p) == Keep(d, p)
  {
    var rw := SpaceRewriter();
    forall j | 0 <= j < |d| && Fires(rw, d, j)
      ensures Keep(rw(d, j).value.out, p) == Keep(d[j..rw(d, j).value.end], p)
    {
      var e := RunEnd(d, j, IsSpace);
      forall k | 0 <= k < e - j
        ensures !p(d[j..e][k])
      {
        assert IsSpace(d[j + k]);
      }
      KeepNone(d[j..e], p);
      KeepNone(" ", p);
    }
    ScanKeeps(rw, d, 0, p);
  }

  /** Single spaces are left as they are by step 3. */
  lemma CollapseIdentity(d: string)
    requires AllChars(d, PlainSpace) && NoAdjacent(d, IsSpace)
    ensures CollapseSpaces(d) == d
  {
    var rw := SpaceRewriter();
    forall j | 0 <= j < |d|
      ensures Inert(rw, d, j)
    {
      if IsSpace(d[j]) {
        var e := RunEnd(d, j, IsSpace);
        assert j + 1 < |d| ==> !IsSpace(d[j + 1]);
        assert e == j + 1;
        assert d[j] == ' ';
      }
    }
    ScanIdentity(rw, d, 0);
  }

  /** Without '@' or '#' step 1 changes nothing. */
  lemma NoTagMarkUnchanged(s: string)
    requires '@' !in s && '#' !in s
    ensures DropTags(s) == s
  {
    forall j | 0 <= j < |s|
      ensures Inert(TagRewriter(), s, j)
    {
      assert !IsTagMark(s[j]);
    }
    ScanIdentity(TagRewriter(), s, 0);
  }

  /** Dropping symbols keeps the visible characters. */
  lemma {:induction false} DropSymbolsKeeps(s: string)
    ensures Keep(DropSymbols(s), Visible) == Keep(s, Visible)
    decreases |s|
  {
    if |s| > 0 {
      DropSymbolsKeeps(s[1..]);
      KeepConcat(if NotDropped(s[0]) then [s[0]] else "", Keep(s[1..], NotDropped), Visible);
    }
  }

  /**
   Without mentions or hashtags the sanitizer only removes whitespace and the
   dropped symbols: the visible characters come out exactly as they went in.
   */
  lemma SanitizerKeepsVisible(s: string)
    requires '@' !in s && '#' !in s
    ensures Keep(RemoveNonAlphanumeric(s), Visible) == Keep(s, Visible)
  {
    NoTagMarkUnchanged(s);
    var d := DropSymbols(s);
    DropSymbolsKeeps(s);
    CollapseKeeps(d, Visible);
    StripKeeps(CollapseSpaces(d), Visible);
  }

  /** Clean, tidy text without tag marks passes through unchanged. */
  lemma SanitizedUnchanged(s: string)
    requires '@' !in s && '#' !in s
    requires AllChars(s, NotDropped) && Tidy(s)
    ensures RemoveNonAlphanumeric(s) == s
  {
    NoTagMarkUnchanged(s);
    KeepAll(s, NotDropped);
    CollapseIdentity(s);
    StripTidyIdentity(s);
  }

  /** A filter that removes nothing. */
  lemma {:induction false} KeepAll(s: string, p: char -> bool)
    requires AllChars(s, p)
    ensures Keep(s, p) == s
    decreases |s|
  {
    if |s| > 0 {
      KeepAll(s[1..], p);
    }
  }

  /** In "@$abc" the '@' is not followed by a word character, so step 1 keeps it. */
  lemma TagBeforeSymbolKept()
    ensures DropTags("@$abc") == "@$abc"
  {
    var s := "@$abc";
    forall j | 0 <= j < |s|
      ensures Inert(TagRewriter(), s, j)
    {
      if j == 0 {
        assert !IsWordChar(s[1]);
      } else {
        assert !IsTagMark(s[j]);
      }
    }
    ScanIdentity(TagRewriter(), s, 0);
  }

  /** "@abc" is a mention: step 1 removes all of it. */
  lemma MentionDropped()
    ensures DropTags("@abc") == ""
  {
    var t := "@abc";
    RunEndIs(t, 1, 4, IsWordChar);
    ScanWhole(TagRewriter(), t);
  }

  /** The '$' is the only dropped symbol of "@$abc". */
  lemma DollarDropped()
    ensures DropSymbols("@$abc") == "@abc"
  {
    assert AllChars("abc", NotDropped);
    KeepSkipsSecond('@', '$', "abc", NotDropped);
    assert "@$abc" == ['@', '$'] + "abc";
    assert "@abc" == ['@'] + "abc";
  }

  /** Of `a b t`, with `b` lacking the property and the rest having it, `a t` is kept. */
  lemma KeepSkipsSecond(a: char, b: char, t: string, p: char -> bool)
    requires p(a) && !p(b) && AllChars(t, p)
    ensures Keep([a, b] + t, p) == [a] + t
  {
    var s := [a, b] + t;
    var u := [b] + t;
    assert s[0] == a && s[1..] == u;
    assert u[0] == b && u[1..] == t;
    assert Keep(u, p) == Keep(t, p);
    KeepAll(t, p);
  }

  /** "@abc" has no whitespace to collapse or strip. */
  lemma NoSpaceToTidy()
    ensures Strip(CollapseSpaces("@abc")) == "@abc"
  {
    var t := "@abc";
    assert AllChars(t, PlainSpace) && NoAdjacent(t, IsSpace);
    CollapseIdentity(t);
    StripTidyIdentity(t);
  }

  /**
   The sanitizer is not idempotent: in "@$abc" the '@' is not followed by a
   word character until the '$' has gone, so a second run removes "@abc".
   */
  lemma NotIdempotent()
    ensures RemoveNonAlphanumeric("@$abc") == "@abc"
    ensures RemoveNonAlphanumeric("@abc") == ""
  {
    TagBeforeSymbolKept();
    DollarDropped();
    NoSpaceToTidy();
    MentionDropped();
    assert DropSymbols("") == "";
    assert CollapseSpaces("") == "";
  }

}
