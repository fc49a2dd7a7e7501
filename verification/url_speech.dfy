/**
 How the URL pass speaks the parts it recognizes: `convert_domain_part`,
 `convert_path` and the local part of an e-mail address (`replace_email`).
 */
module UrlSpeech {
  import opened Wrappers
  import opened Chars
  import opened Strings
  import opened Replacements

  // ---------------------------------------------------------------------------
  // Domains.

  /** `c` is not the '.' that separates the labels of a domain. */
  predicate NotDot(c: char) {
    c != '.'
  }

  /**
   The spoken form of a top-level label, looked up in lower case: only
   lower-case labels are in the table, and every word it gives is a non-empty
   word without '.', so a spoken label never brings back the dots of a domain.
   */
  function TldWord(t: string): (r: Option<string>)
    ensures r.Some? ==> Lower(t) == t
    ensures r.Some? ==> |r.value| > 0 && AllChars(r.value, NotDot)
  {
    TldKeysLower(t);
    TldWordsNoDot(t);
    if TldTable(t).Some? then LowerOfLower(t); TldTable(t) else None
  }

  /** Every label in the table is written in lower case. */
  lemma TldKeysLower(t: string)
    ensures TldTable(t).Some? ==> forall k :: 0 <= k < |t| ==> !('A' <= t[k] <= 'Z')
  {
  }

  /** Every word in the table is non-empty and has no '.'. */
  lemma TldWordsNoDot(t: string)
    ensures TldTable(t).Some? ==> |TldTable(t).value| > 0 && AllChars(TldTable(t).value, NotDot)
  {
  }

  /** `TLD_MAP`, from label to spoken word. */
  function TldTable(t: string): Option<string> {
    if t == "com" then Some("com")
    else if t == "org" then Some("org")
    else if t == "net" then Some("net")
    else if t == "edu" then Some("edu")
    else if t == "gov" then Some("gov")
    else if t == "mil" then Some("mil")
    else if t == "br" then Some("bê érre")
    else if t == "uk" then Some("u kê")
    else if t == "jp" then Some("jê pê")
    else if t == "de" then Some("dê ê")
    else if t == "fr" then Some("êfe érre")
    else if t == "it" then Some("i tê")
    else if t == "es" then Some("ê ésse")
    else None
  }

  /** One label of a domain: a known top-level label by its table word, any other with its hyphens spoken. */
  function SpeakLabel(l: string): string {
    match TldWord(Lower(l))
    case Some(w) => w
    case None => ReplaceAll(l, HyphenTable)
  }

  /** `part.replace('-', ' hífen ')`. */
  const HyphenTable: Table := [('-', " hífen ")]

  function SpeakLabels(ls: seq<string>): (r: seq<string>)
    ensures |r| == |ls|
    ensures forall k :: 0 <= k < |ls| ==> r[k] == SpeakLabel(ls[k])
  {
    seq(|ls|, k requires 0 <= k < |ls| => SpeakLabel(ls[k]))
  }

  /** `convert_domain_part`: the labels split at '.', each spoken, joined by " ponto ". */
  function ConvertDomain(d: string): string {
    Join(SpeakLabels(Split(d, '.')), " ponto ")
  }

  /** The table lookup ignores case: "COM", "Com" and "com" are read alike. */
  lemma SpeakLabelIgnoresCaseOfTld(l: string)
    requires TldWord(Lower(l)).Some?
    ensures SpeakLabel(l) == SpeakLabel(Lower(l)) == TldWord(Lower(l)).value
  {
    LowerIdempotent(l);
  }

  lemma LowerIdempotent(s: string)
    ensures Lower(Lower(s)) == Lower(s)
  {
  }

  /** A label that is not a known top-level label is read character by character, case kept, with '-' spoken. */
  lemma SpeakLabelOther(l: string)
    requires TldWord(Lower(l)).None?
    ensures SpeakLabel(l) == Translate(l, HyphenTable)
    ensures '-' !in l ==> SpeakLabel(l) == l
  {
    assert Clean(HyphenTable);
    ChainIsTranslation(l, HyphenTable);
    if '-' !in l {
      ReplaceAllAbsent(l, HyphenTable);
    }
  }

  /** A label without '.' is spoken without one. */
  lemma SpeakLabelNoDot(l: string)
    requires '.' !in l
    ensures AllChars(SpeakLabel(l), NotDot)
  {
    if TldWord(Lower(l)).None? {
      SpeakLabelOther(l);
      HyphenReadingNoDot(l);
    }
  }

  /** Reading the hyphens of a dot-free label adds no '.'. */
  lemma HyphenReadingNoDot(l: string)
    requires '.' !in l
    ensures AllChars(Translate(l, HyphenTable), NotDot)
  {
    assert AllChars(HyphenTable[0].1, NotDot);
    forall k | 0 <= k < |l|
      ensures AllChars(Lookup(l[k], HyphenTable), NotDot)
    {
      assert l[k] != '.';
      LookupAllChars(l[k], HyphenTable, NotDot);
    }
    TranslateAllChars(l, HyphenTable, NotDot);
  }

  /**
   One spoken label per label: a domain written as labels joined by '.' is
   spoken as those labels, each read on its own, joined by " ponto ".
   */
  lemma ConvertDomainLabels(labels: seq<string>)
    requires |labels| >= 1
    requires forall k :: 0 <= k < |labels| ==> '.' !in labels[k]
    ensures |Split(Join(labels, "."), '.')| == |labels|
    ensures ConvertDomain(Join(labels, ".")) == Join(SpeakLabels(labels), " ponto ")
  {
    SplitJoin(labels, '.');
  }

  /** Prefixing a label: `a.rest` is spoken as `a`, " ponto ", then `rest`. */
  lemma ConvertDomainCons(a: string, rest: string)
    requires '.' !in a
    ensures ConvertDomain(a + "." + rest) == SpeakLabel(a) + " ponto " + ConvertDomain(rest)
  {
    var tail := Split(rest, '.');
    assert a + "." + rest == a + ("." + rest);
    SplitPrefix(a, "." + rest, '.');
    assert ("." + rest)[0] == '.' && ("." + rest)[1..] == rest;
    var u := Split("." + rest, '.');
    assert u == [""] + tail;
    assert u[0] == "" && u[1..] == tail;
    assert a + u[0] == a;
    assert Split(a + "." + rest, '.') == [a] + tail;
    assert SpeakLabels([a] + tail) == [SpeakLabel(a)] + SpeakLabels(tail);
    JoinCons(SpeakLabel(a), SpeakLabels(tail), " ponto ");
  }

  /** A domain without '.' is one label. */
  lemma ConvertDomainSingle(a: string)
    requires '.' !in a
    ensures ConvertDomain(a) == SpeakLabel(a)
  {
    SplitPrefix(a, "", '.');
    assert a + "" == a;
    assert Split(a, '.') == [a];
  }

  // ---------------------------------------------------------------------------
  // Paths.

  /** The replacements of `convert_path`, in the order the source applies them. */
  const PathTable: Table := [
    ('/', " barra "), ('?', " interrogação "), ('&', " e comercial "), ('=', " igual "),
    ('#', " sustenido "), ('%', " por cento "), ('-', " hífen "), ('_', " sublinhado ")]

  predicate IsPathSymbol(c: char) {
    c == '/' || c == '?' || c == '&' || c == '=' || c == '#' || c == '%' || c == '-' || c == '_'
  }

  predicate NotPathSymbol(c: char) {
    !IsPathSymbol(c)
  }

  /** `convert_path`. */
  function ConvertPath(path: string): string {
    if path == "" || path == "/" then ""
    else
      var p := ReplaceAll(LStrip(path, '/'), PathTable);
      if p != "" then " " + p else ""
  }

  /** No word of the path table brings back a character the later steps replace. */
  lemma PathTableClean()
    ensures Clean(PathTable)
  {
    PathWordsClean();
    forall i, j | 0 <= i < j < |PathTable|
      ensures PathTable[j].0 !in PathTable[i].1
    {
      var w := PathTable[i].1;
      var c := PathTable[j].0;
      assert IsPathSymbol(c);
      assert forall k :: 0 <= k < |w| ==> w[k] != c;
    }
  }

  lemma PathWordsClean()
    ensures forall i :: 0 <= i < |PathTable| ==> AllChars(PathTable[i].1, NotPathSymbol)
  {
    forall i | 0 <= i < |PathTable|
      ensures AllChars(PathTable[i].1, NotPathSymbol)
    {
      var w := PathTable[i].1;
      forall k | 0 <= k < |w|
        ensures NotPathSymbol(w[k])
      {
      }
    }
  }

  lemma PathLookupNoDot(c: char)
    requires c != '.'
    ensures AllChars(Lookup(c, PathTable), NotDot)
  {
    forall i | 0 <= i < |PathTable|
      ensures AllChars(PathTable[i].1, NotDot)
    {
      var w := PathTable[i].1;
      forall k | 0 <= k < |w|
        ensures NotDot(w[k])
      {
      }
    }
    LookupAllChars(c, PathTable, NotDot);
  }

  /** Every word of the path table, and every character it leaves alone, is free of path symbols. */
  lemma PathLookupClean(c: char)
    ensures AllChars(Lookup(c, PathTable), NotPathSymbol)
  {
    PathWordsClean();
    if IsPathSymbol(c) {
      var k := if c == '/' then 0 else if c == '?' then 1 else if c == '&' then 2 else if c == '=' then 3
        else if c == '#' then 4 else if c == '%' then 5 else if c == '-' then 6 else 7;
      assert PathTable[k].0 == c;
    }
    LookupAllChars(c, PathTable, NotPathSymbol);
  }

  /** The path after its leading slashes, read through the table character by character. */
  lemma PathTranslation(l: string)
    ensures ReplaceAll(l, PathTable) == Translate(l, PathTable)
    ensures ReplaceAll(l, PathTable) == "" <==> l == ""
    ensures AllChars(ReplaceAll(l, PathTable), NotPathSymbol)
  {
    PathTableClean();
    forall c
      ensures AllChars(Lookup(c, PathTable), NotPathSymbol)
    {
      PathLookupClean(c);
    }
    ChainFacts(l, PathTable, NotPathSymbol);
  }

  /** `convert_path` says nothing exactly when the path is empty or all slashes. */
  lemma ConvertPathSilent(path: string)
    ensures ConvertPath(path) == "" <==> forall k :: 0 <= k < |path| ==> path[k] == '/'
  {
    var l := LStrip(path, '/');
    PathTranslation(l);
    var p := ReplaceAll(l, PathTable);
    if path == "" || path == "/" {
      assert ConvertPath(path) == "";
      assert l == "";
    } else {
      assert ConvertPath(path) == if p != "" then " " + p else "";
    }
    if l != "" {
      assert path[|path| - |l|] != '/';
    }
  }

  /** What `convert_path` says otherwise: a space, then the path after its leading slashes read through the table. */
  lemma ConvertPathReading(path: string)
    ensures ConvertPath(path) != "" ==> ConvertPath(path) == " " + Translate(LStrip(path, '/'), PathTable)
  {
    PathTranslation(LStrip(path, '/'));
  }

  /** No path symbol survives `convert_path`. */
  lemma ConvertPathClean(path: string)
    ensures AllChars(ConvertPath(path), NotPathSymbol)
  {
    var p := ReplaceAll(LStrip(path, '/'), PathTable);
    PathTranslation(LStrip(path, '/'));
    AllCharsConcat(" ", p, NotPathSymbol);
  }

  /**
   What `convert_path` says: nothing for an empty path or one made only of
   slashes; otherwise a space, then each character after the leading slashes
   read through the table on its own. No path symbol survives.
   */
  lemma ConvertPathSpoken(path: string)
    ensures ConvertPath(path) == "" <==> forall k :: 0 <= k < |path| ==> path[k] == '/'
    ensures ConvertPath(path) != "" ==> ConvertPath(path) == " " + Translate(LStrip(path, '/'), PathTable)
    ensures AllChars(ConvertPath(path), NotPathSymbol)
  {
    ConvertPathSilent(path);
    ConvertPathReading(path);
    ConvertPathClean(path);
  }

  // ---------------------------------------------------------------------------
  // E-mail local parts.

  /** The replacements of `replace_email` on the local part, in the source's order. */
  const LocalTable: Table := [('.', " ponto "), ('_', " sublinhado "), ('-', " hífen "), ('+', " mais ")]

  function SpeakLocal(local: string): string {
    ReplaceAll(local, LocalTable)
  }

  /** The local part is read character by character: "user.name" is "user ponto name". */
  lemma SpeakLocalPerChar(local: string)
    ensures SpeakLocal(local) == Translate(local, LocalTable)
  {
    assert Clean(LocalTable);
    ChainIsTranslation(local, LocalTable);
  }

  /** Nothing but '.', '_', '-' and '+' is spoken differently, and those never survive. */
  lemma SpeakLocalDropsSymbols(local: string)
    ensures AllChars(SpeakLocal(local), NotLocalSymbol)
  {
    SpeakLocalPerChar(local);
    forall k | 0 <= k < |local|
      ensures AllChars(Lookup(local[k], LocalTable), NotLocalSymbol)
    {
      LocalLookupClean(local[k]);
    }
    TranslateAllChars(local, LocalTable, NotLocalSymbol);
  }

  predicate NotLocalSymbol(c: char) {
    c != '.' && c != '_' && c != '-' && c != '+'
  }

  lemma LocalLookupClean(c: char)
    ensures AllChars(Lookup(c, LocalTable), NotLocalSymbol)
  {
    assert forall i :: 0 <= i < |LocalTable| ==> AllChars(LocalTable[i].1, NotLocalSymbol);
    if !NotLocalSymbol(c) {
      var k := if c == '.' then 0 else if c == '_' then 1 else if c == '-' then 2 else 3;
      assert LocalTable[k].0 == c;
    }
    LookupAllChars(c, LocalTable, NotLocalSymbol);
  }

  // ---------------------------------------------------------------------------
  // Fixed phrases.

  /** `convert_protocol`. */
  function ProtocolWords(secure: bool): string {
    if secure then "agá tê tê pê ésse" else "agá tê tê pê"
  }

  /** `convert_www()` followed by " ponto ". */
  const WwwWords: string := "dábliu dábliu dábliu ponto "

}
