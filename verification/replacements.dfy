/**
 Chains of one-character `str.replace` calls, as `convert_path` and
 `replace_email` write them: `s.replace(c1, w1).replace(c2, w2)...`.

 When no replacement word holds a character that a later step replaces, the
 chain acts on each character independently: every character is looked up in
 the table once, and the words are concatenated. `ChainIsTranslation` proves
 that the sequential chain and the per-character table agree.
 */
module Replacements {
  import opened Strings

  /** One step of the chain: the character and the word that replaces it. */
  type Table = seq<(char, string)>

  /** The chain of `str.replace` calls, applied in table order. */
  function ReplaceAll(s: string, rs: Table): string
    decreases |rs|
  {
    if |rs| == 0 then s else ReplaceAll(ReplaceChar(s, rs[0].0, rs[0].1), rs[1..])
  }

  /** What the table makes of one character: the word of its first entry, or the character itself. */
  function Lookup(c: char, rs: Table): (r: string)
    ensures r == [c] || exists i :: 0 <= i < |rs| && rs[i] == (c, r)
    ensures (forall i :: 0 <= i < |rs| ==> rs[i].0 != c) ==> r == [c]
    decreases |rs|
  {
    if |rs| == 0 then [c] else if rs[0].0 == c then rs[0].1 else Lookup(c, rs[1..])
  }

  /** The per-character reading: each character replaced by its word, independently. */
  function Translate(s: string, rs: Table): (r: string)
    decreases |s|
  {
    if |s| == 0 then "" else Lookup(s[0], rs) + Translate(s[1..], rs)
  }

  /** No word introduces a character that a later step would replace again. */
  predicate Clean(rs: Table) {
    forall i, j :: 0 <= i < j < |rs| ==> rs[j].0 !in rs[i].1
  }

  lemma {:induction false} ReplaceAllAppend(a: string, b: string, rs: Table)
    ensures ReplaceAll(a + b, rs) == ReplaceAll(a, rs) + ReplaceAll(b, rs)
    decreases |rs|
  {
    if |rs| > 0 {
      ReplaceAppend(a, b, rs[0].0, rs[0].1);
      ReplaceAllAppend(ReplaceChar(a, rs[0].0, rs[0].1), ReplaceChar(b, rs[0].0, rs[0].1), rs[1..]);
    }
  }

  /** Text without any of the table's characters passes the chain unchanged. */
  lemma {:induction false} ReplaceAllAbsent(s: string, rs: Table)
    requires forall j :: 0 <= j < |rs| ==> rs[j].0 !in s
    ensures ReplaceAll(s, rs) == s
    decreases |rs|
  {
    if |rs| > 0 {
      ReplaceAbsent(s, rs[0].0, rs[0].1);
      ReplaceAllAbsent(s, rs[1..]);
    }
  }

  /** On one character the chain gives the table's word for it. */
  lemma {:induction false} ReplaceAllChar(c: char, rs: Table)
    requires Clean(rs)
    ensures ReplaceAll([c], rs) == Lookup(c, rs)
    decreases |rs|
  {
    if |rs| > 0 {
      var w := rs[0].1;
      if rs[0].0 == c {
        assert [c][1..] == [];
        assert ReplaceChar([c], c, w) == w;
        forall j | 0 <= j < |rs[1..]|
          ensures rs[1..][j].0 !in w
        {
          assert rs[1..][j] == rs[j + 1];
          assert rs[j + 1].0 !in rs[0].1;
        }
        ReplaceAllAbsent(w, rs[1..]);
      } else {
        assert [c][1..] == [];
        assert ReplaceChar([c], rs[0].0, w) == [c];
        ReplaceAllChar(c, rs[1..]);
      }
    }
  }

  /** The sequential chain equals the per-character table on every input. */
  lemma {:induction false} ChainIsTranslation(s: string, rs: Table)
    requires Clean(rs)
    ensures ReplaceAll(s, rs) == Translate(s, rs)
    decreases |s|
  {
    if |s| == 0 {
      ReplaceAllAbsent(s, rs);
    } else {
      assert s == [s[0]] + s[1..];
      ReplaceAllAppend([s[0]], s[1..], rs);
      ReplaceAllChar(s[0], rs);
      ChainIsTranslation(s[1..], rs);
    }
  }

  /** A property every word of the table has, and every untouched character has, holds of the translation. */
  lemma {:induction false} TranslateAllChars(s: string, rs: Table, p: char -> bool)
    requires forall k :: 0 <= k < |s| ==> AllChars(Lookup(s[k], rs), p)
    ensures AllChars(Translate(s, rs), p)
    decreases |s|
  {
    if |s| > 0 {
      TranslateAllChars(s[1..], rs, p);
      AllCharsConcat(Lookup(s[0], rs), Translate(s[1..], rs), p);
    }
  }

  /** A property of every word, and of a character the table leaves alone, holds of its lookup. */
  lemma {:induction false} LookupAllChars(c: char, rs: Table, p: char -> bool)
    requires forall i :: 0 <= i < |rs| ==> AllChars(rs[i].1, p)
    requires (forall i :: 0 <= i < |rs| ==> rs[i].0 != c) ==> p(c)
    ensures AllChars(Lookup(c, rs), p)
    decreases |rs|
  {
    if |rs| > 0 && rs[0].0 != c {
      forall i | 0 <= i < |rs[1..]|
        ensures AllChars(rs[1..][i].1, p)
      {
        assert rs[1..][i] == rs[i + 1];
      }
      if forall i :: 0 <= i < |rs[1..]| ==> rs[1..][i].0 != c {
        forall i | 0 <= i < |rs|
          ensures rs[i].0 != c
        {
          if i > 0 {
            assert rs[i] == rs[1..][i - 1];
          }
        }
      }
      LookupAllChars(c, rs[1..], p);
    }
  }

  /**
   Everything the per-character reading gives for a table: the chain is the
   translation, it is empty only on empty text, and a property shared by every
   lookup holds of the whole result.
   */
  lemma ChainFacts(s: string, rs: Table, p: char -> bool)
    requires Clean(rs)
    requires forall i :: 0 <= i < |rs| ==> |rs[i].1| >= 1
    requires forall c :: AllChars(Lookup(c, rs), p)
    ensures ReplaceAll(s, rs) == Translate(s, rs)
    ensures ReplaceAll(s, rs) == "" <==> s == ""
    ensures AllChars(ReplaceAll(s, rs), p)
  {
    ChainIsTranslation(s, rs);
    TranslateEmpty(s, rs);
    TranslateAllChars(s, rs, p);
  }

  /** Translation is empty exactly on empty text when no word is empty. */
  lemma TranslateEmpty(s: string, rs: Table)
    requires forall i :: 0 <= i < |rs| ==> |rs[i].1| >= 1
    ensures Translate(s, rs) == "" <==> s == ""
  {
    if |s| > 0 {
      assert |Lookup(s[0], rs)| >= 1;
    }
  }

}
