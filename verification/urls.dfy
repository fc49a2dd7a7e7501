/**
 The URL pass (`normalize_urls`): four substitutions in order.
   1. Full URLs `https?://(?:www\.)?(domain)(path)?`, ignoring case.
   2. URLs starting `www.` (not after a word character), ignoring case.
   3. E-mail addresses `\b[a-zA-Z0-9._%+-]+@domain\b`.
   4. Bare domains `label.suffix` for a fixed list of suffixes, ignoring case.

 The domain group `[a-zA-Z0-9\-\.]+\.[a-zA-Z]{2,}` is resolved the way the
 regex engine's backtracking resolves it: the first part is greedy, so the
 domain ends at the letters after the LAST '.' of the domain-character run
 that is followed by at least two letters (and, in an address, by `\b`).
 */
module Urls {
  import opened Wrappers
  import opened Chars
  import opened Strings
  import opened Scanner
  import opened Replacements
  import opened UrlSpeech

  /** `[a-zA-Z0-9\-\.]`. */
  predicate IsDomainChar(c: char) {
    IsAsciiAlnum(c) || c == '-' || c == '.'
  }

  /** `[a-zA-Z0-9\-]`. */
  predicate IsLabelChar(c: char) {
    IsAsciiAlnum(c) || c == '-'
  }

  /** `[a-zA-Z0-9._%+-]`. */
  predicate IsLocalChar(c: char) {
    IsAsciiAlnum(c) || c == '.' || c == '_' || c == '%' || c == '+' || c == '-'
  }

  /** `[^\s]`. */
  predicate NotSpace(c: char) {
    !IsSpace(c)
  }

  // ---------------------------------------------------------------------------
  // The domain group.

  /** `\.[a-zA-Z]{2,}` at `q`; when `bounded`, the letters are followed by `\b`. */
  predicate TldAt(s: string, q: nat, bounded: bool) {
    && q + 2 < |s| && s[q] == '.' && IsAsciiLetter(s[q + 1]) && IsAsciiLetter(s[q + 2])
    && (bounded ==> !WordAt(s, RunEnd(s, q + 1, IsAsciiLetter)))
  }

  /** The last position in `(p, q)` where a top-level part can start. */
  function LastTld(s: string, p: nat, q: nat, bounded: bool): (r: Option<nat>)
    requires q <= |s|
    ensures r.Some? ==> p < r.value < q && TldAt(s, r.value, bounded)
    ensures r.Some? ==> forall k :: r.value < k < q ==> !TldAt(s, k, bounded)
    ensures r.None? ==> forall k :: p < k < q ==> !TldAt(s, k, bounded)
    decreases q
  {
    if q <= p + 1 then None
    else if TldAt(s, q - 1, bounded) then Some(q - 1)
    else LastTld(s, p, q - 1, bounded)
  }

  /**
   The '.' before the top-level part of a domain starting at `p`: the last one
   in the run of domain characters, as greedy matching with backtracking finds.
   */
  function DomainDot(s: string, p: nat, bounded: bool): (r: Option<nat>)
    requires p <= |s|
    ensures r.Some? ==> p < r.value < RunEnd(s, p, IsDomainChar) && TldAt(s, r.value, bounded)
    ensures r.Some? ==> forall k :: r.value < k < RunEnd(s, p, IsDomainChar) ==> !TldAt(s, k, bounded)
    ensures r.None? ==> forall k :: p < k < RunEnd(s, p, IsDomainChar) ==> !TldAt(s, k, bounded)
  {
    LastTld(s, p, RunEnd(s, p, IsDomainChar), bounded)
  }

  /** Where the letters after the dot at `q` end: the end of the domain. */
  function LetterEnd(s: string, q: nat): (e: nat)
    requires q < |s|
    ensures q + 1 <= e <= |s|
  {
    RunEnd(s, q + 1, IsAsciiLetter)
  }

  // ---------------------------------------------------------------------------
  // 1. Full URLs.

  /** A match of a URL pattern: the domain group, the path group and the end. */
  datatype Link = Link(domain: string, path: string, end: nat)

  /**
   The groups of a link whose domain starts at `start`: the domain runs to the
   end of the letters after its dot, and the path is the whole run of
   non-space characters after it.
   */
  predicate LinkGroups(s: string, start: nat, link: Link) {
    && start <= |s| && DomainDot(s, start, false).Some?
    && var d := LetterEnd(s, DomainDot(s, start, false).value);
    && link.domain == s[start..d]
    && d <= link.end <= |s| && link.path == s[d..link.end]
    && (forall k :: d <= k < link.end ==> NotSpace(s[k]))
    && (link.end == |s| || IsSpace(s[link.end]))
  }

  /**
   Where the domain group starts after `://`: the optional "www." is taken
   exactly when it is there and a domain follows it.
   */
  function DomainStart(s: string, p: nat): (r: nat)
    requires p <= |s|
    ensures r == p || r == p + 4
    ensures r == p + 4 <==> MatchesAtCI(s, p, "www.") && DomainDot(s, p + 4, false).Some?
  {
    if MatchesAtCI(s, p, "www.") && DomainDot(s, p + 4, false).Some? then p + 4 else p
  }

  /** The domain group from `start` and the path after it (`[^\s]*`). */
  function LinkFrom(s: string, start: nat): (r: Option<Link>)
    requires start <= |s|
    ensures r.Some? <==> DomainDot(s, start, false).Some?
    ensures r.Some? ==> LinkGroups(s, start, r.value)
  {
    match DomainDot(s, start, false)
    case None => None
    case Some(q) =>
      var d := LetterEnd(s, q);
      var e := RunEnd(s, d, NotSpace);
      Some(Link(s[start..d], s[d..e], e))
  }

  /** Where `https?` ends after "http" at `i`: past the 's' when there is one. */
  function SchemeEnd(s: string, i: nat): nat {
    if i + 4 < |s| && LowerChar(s[i + 4]) == 's' then i + 5 else i + 4
  }

  /** `https?://` at `i`, ignoring case. */
  predicate SchemeAt(s: string, i: nat) {
    MatchesAtCI(s, i, "http") && OccursAt(s, "://", SchemeEnd(s, i))
  }

  /**
   The full-URL pattern anchored at `i`. It matches exactly when the scheme
   is there and a domain follows it (after "www." when that leaves a domain);
   the groups are the domain up to the end of its top-level letters and the
   whole non-space run after it.
   */
  function FindFullUrl(s: string, i: nat): (r: Option<Link>)
    ensures r.Some? <==>
      SchemeAt(s, i) && DomainDot(s, DomainStart(s, SchemeEnd(s, i) + 3), false).Some?
    ensures r.Some? ==> MatchesAtCI(s, i, "http") && i < r.value.end <= |s| && s[SchemeEnd(s, i)] == ':'
    ensures r.Some? ==> LinkGroups(s, DomainStart(s, SchemeEnd(s, i) + 3), r.value)
  {
    if SchemeAt(s, i) then
      var a := SchemeEnd(s, i);
      assert s[a] == s[a..a + 3][0] == ':';
      LinkFrom(s, DomainStart(s, a + 3))
    else None
  }

  /**
   A full URL present at `i` is found: after the scheme, a run of domain
   characters with a '.' followed by two letters inside it is enough, with or
   without "www." in front.
   */
  lemma FullUrlFound(s: string, i: nat, q: nat)
    requires SchemeAt(s, i)
    requires SchemeEnd(s, i) + 3 < q < RunEnd(s, SchemeEnd(s, i) + 3, IsDomainChar) && TldAt(s, q, false)
    ensures FindFullUrl(s, i).Some?
  {
    var p := SchemeEnd(s, i) + 3;
    assert DomainDot(s, p, false).Some?;
  }

  /** `replace_full_url`, given the matched text. */
  function SpokenFullUrl(full: string, link: Link): string {
    var lower := Lower(full);
    ProtocolWords(StartsWith(lower, "https")) + " dois pontos barra barra "
      + (if Contains(lower, "www.") then WwwWords else "")
      + ConvertDomain(link.domain) + ConvertPath(link.path)
  }

  function FullUrlRewriter(): Rewriter {
    (s: string, i: nat) =>
      match FindFullUrl(s, i)
      case Some(link) => Some(Match(link.end, SpokenFullUrl(s[i..link.end], link)))
      case None => None
  }

  // ---------------------------------------------------------------------------
  // 2. URLs starting with www.

  /**
   The www pattern anchored at `i`: it matches exactly when no word character
   precedes "www." and a domain follows it, with the groups of a link.
   */
  function FindWwwUrl(s: string, i: nat): (r: Option<Link>)
    ensures r.Some? <==> !WordAt(s, i - 1) && MatchesAtCI(s, i, "www.") && DomainDot(s, i + 4, false).Some?
    ensures r.Some? ==> i + 4 < r.value.end <= |s| && LinkGroups(s, i + 4, r.value)
  {
    if !WordAt(s, i - 1) && MatchesAtCI(s, i, "www.") then
      LinkFrom(s, i + 4)
    else None
  }

  /** `replace_www_url`. */
  function SpokenWwwUrl(link: Link): string {
    WwwWords + ConvertDomain(link.domain) + ConvertPath(link.path)
  }

  function WwwUrlRewriter(): Rewriter {
    (s: string, i: nat) =>
      match FindWwwUrl(s, i)
      case Some(link) => Some(Match(link.end, SpokenWwwUrl(link)))
      case None => None
  }

  // ---------------------------------------------------------------------------
  // 3. E-mail addresses.

  /** A match of the address pattern: the part before '@', the part after, and the end. */
  datatype Address = Address(local: string, domain: string, end: nat)

  /** `\b[a-zA-Z0-9._%+-]+@` at `i`, with '@' ending the run of local characters. */
  predicate LocalAt(s: string, i: nat) {
    i <= |s| && Boundary(s, i) && i < RunEnd(s, i, IsLocalChar) < |s| && s[RunEnd(s, i, IsLocalChar)] == '@'
  }

  /**
   The address pattern anchored at `i`. It matches exactly when a run of
   local characters starting at a boundary ends at '@' and a bounded domain
   follows; the domain ends at the letters after its last such dot.
   */
  function FindEmail(s: string, i: nat): (r: Option<Address>)
    ensures r.Some? <==> LocalAt(s, i) && DomainDot(s, RunEnd(s, i, IsLocalChar) + 1, true).Some?
    ensures r.Some? ==>
      var at := RunEnd(s, i, IsLocalChar);
      && at == i + |r.value.local|
      && r.value.end == LetterEnd(s, DomainDot(s, at + 1, true).value)
    ensures r.Some? ==>
      var at := i + |r.value.local|;
      && Boundary(s, i) && at < |s| && s[at] == '@'
      && |r.value.local| >= 1 && r.value.local == s[i..at]
      && (forall k :: 0 <= k < |r.value.local| ==> IsLocalChar(r.value.local[k]))
      && at + 1 < r.value.end <= |s| && r.value.domain == s[at + 1..r.value.end]
      && !WordAt(s, r.value.end)
  {
    if LocalAt(s, i) then
      var at := RunEnd(s, i, IsLocalChar);
      match DomainDot(s, at + 1, true)
      case None => None
      case Some(q) =>
        var d := LetterEnd(s, q);
        AddressShape(s, i, at, q);
        Some(Address(s[i..at], s[at + 1..d], d))
    else None
  }

  /** The groups of an address whose '@' is at `at` and whose domain's dot is at `q`. */
  lemma AddressShape(s: string, i: nat, at: nat, q: nat)
    requires LocalAt(s, i) && at == RunEnd(s, i, IsLocalChar)
    requires DomainDot(s, at + 1, true) == Some(q)
    ensures var d := LetterEnd(s, q);
      && at + 1 < d <= |s| && !WordAt(s, d)
      && forall k :: 0 <= k < |s[i..at]| ==> IsLocalChar(s[i..at][k])
  {
  }

  /** `replace_email`: `email.split('@')` gives back the two groups, as there is exactly one '@'. */
  function SpokenEmail(a: Address): string {
    SpeakLocal(a.local) + " arroba " + ConvertDomain(a.domain)
  }

  function EmailRewriter(): Rewriter {
    (s: string, i: nat) =>
      match FindEmail(s, i)
      case Some(a) => Some(Match(a.end, SpokenEmail(a)))
      case None => None
  }

  // ---------------------------------------------------------------------------
  // 4. Bare domains.

  /** The suffix alternatives, in the order the pattern tries them. */
  const Suffixes: seq<string> :=
    ["com.br", "co.uk", "co.jp", "com", "org", "net", "edu", "gov", "mil", "br", "de", "fr", "it", "es"]

  /** Alternative `x` matches at `t` and is followed by `\b(?![a-zA-Z0-9])`. */
  predicate SuffixFits(s: string, t: nat, x: string) {
    MatchesAtCI(s, t, x) && !WordAt(s, t + |x|)
  }

  /** The first alternative, from index `k` on, that fits at `t`. */
  function FirstSuffix(s: string, t: nat, k: nat): (r: Option<nat>)
    ensures r.Some? ==> k <= r.value < |Suffixes| && SuffixFits(s, t, Suffixes[r.value])
    ensures r.Some? ==> forall j :: k <= j < r.value ==> !SuffixFits(s, t, Suffixes[j])
    ensures r.None? ==> forall j :: k <= j < |Suffixes| ==> !SuffixFits(s, t, Suffixes[j])
    decreases |Suffixes| - k
  {
    if k >= |Suffixes| then None
    else if SuffixFits(s, t, Suffixes[k]) then Some(k)
    else FirstSuffix(s, t, k + 1)
  }

  /** `(?<![\w])[a-zA-Z0-9\-]+\.` at `i`: a label run after no word character, ending at '.'. */
  predicate LabelDotAt(s: string, i: nat) {
    i < |s| && !WordAt(s, i - 1) && i < RunEnd(s, i, IsLabelChar) < |s| && s[RunEnd(s, i, IsLabelChar)] == '.'
  }

  /**
   The bare-domain pattern anchored at `i`: the end of the match. It matches
   exactly when a label run ends at '.' and some suffix fits after it, and it
   ends after the first suffix in pattern order that fits.
   */
  function FindBareDomain(s: string, i: nat): (r: Option<nat>)
    ensures r.Some? <==> LabelDotAt(s, i) && FirstSuffix(s, RunEnd(s, i, IsLabelChar) + 1, 0).Some?
    ensures r.Some? ==>
      var q := RunEnd(s, i, IsLabelChar);
      r.value == q + 1 + |Suffixes[FirstSuffix(s, q + 1, 0).value]| && r.value <= |s|
  {
    if LabelDotAt(s, i) then
      var q := RunEnd(s, i, IsLabelChar);
      match FirstSuffix(s, q + 1, 0)
      case None => None
      case Some(k) =>
        SuffixInside(s, q + 1, Suffixes[k]);
        Some(q + 1 + |Suffixes[k]|)
    else None
  }

  /** A suffix that fits at `t` lies inside the text. */
  lemma SuffixInside(s: string, t: nat, x: string)
    requires SuffixFits(s, t, x)
    ensures t + |x| <= |s|
  {
  }

  function BareDomainRewriter(): Rewriter {
    (s: string, i: nat) =>
      match FindBareDomain(s, i)
      case Some(e) => Some(Match(e, ConvertDomain(s[i..e])))
      case None => None
  }

  // ---------------------------------------------------------------------------
  // The pass.

  /** `normalize_urls`. */
  function NormalizeUrls(text: string): string {
    Sub(BareDomainRewriter(), Sub(EmailRewriter(), Sub(WwwUrlRewriter(), Sub(FullUrlRewriter(), text))))
  }

  /** Without a '.' none of the four substitutions finds anything. */
  lemma NoDotPasses(text: string)
    requires '.' !in text
    ensures Sub(FullUrlRewriter(), text) == text && Sub(WwwUrlRewriter(), text) == text
    ensures Sub(EmailRewriter(), text) == text && Sub(BareDomainRewriter(), text) == text
  {
    forall j | 0 <= j < |text|
      ensures Inert(FullUrlRewriter(), text, j) && Inert(WwwUrlRewriter(), text, j)
      ensures Inert(EmailRewriter(), text, j) && Inert(BareDomainRewriter(), text, j)
    {
      assert FindFullUrl(text, j).None?;
      assert FindWwwUrl(text, j).None?;
      NoDotNoEmail(text, j);
      assert FindBareDomain(text, j).None?;
    }
    ScanIdentity(FullUrlRewriter(), text, 0);
    ScanIdentity(WwwUrlRewriter(), text, 0);
    ScanIdentity(EmailRewriter(), text, 0);
    ScanIdentity(BareDomainRewriter(), text, 0);
  }

  /** Every pattern of the pass needs a '.': text without one is left alone. */
  lemma NoDotUnchanged(text: string)
    requires '.' !in text
    ensures NormalizeUrls(text) == text
  {
    NoDotPasses(text);
  }

  /** Full URLs need "://". */
  lemma NoColonNoFullUrl(text: string)
    requires ':' !in text
    ensures Sub(FullUrlRewriter(), text) == text
  {
    forall j | 0 <= j < |text|
      ensures Inert(FullUrlRewriter(), text, j)
    {
      assert FindFullUrl(text, j).None?;
    }
    ScanIdentity(FullUrlRewriter(), text, 0);
  }

  /** `www.` at `j`, in any case, is seen by `in` on the lower-cased text. */
  lemma MatchesAtCIContains(text: string, j: nat, p: string)
    requires MatchesAtCI(text, j, p)
    ensures Contains(Lower(text), p)
  {
    assert Lower(text)[j..j + |p|] == Lower(text[j..j + |p|]);
    assert OccursAt(Lower(text), p, j);
  }

  /** URLs starting "www." need "www." somewhere. */
  lemma NoWwwNoWwwUrl(text: string)
    requires !Contains(Lower(text), "www.")
    ensures Sub(WwwUrlRewriter(), text) == text
  {
    forall j | 0 <= j < |text|
      ensures Inert(WwwUrlRewriter(), text, j)
    {
      if FindWwwUrl(text, j).Some? {
        MatchesAtCIContains(text, j, "www.");
      }
    }
    ScanIdentity(WwwUrlRewriter(), text, 0);
  }

  lemma NoDotNoEmail(text: string, j: nat)
    requires '.' !in text
    ensures FindEmail(text, j).None?
  {
    if j <= |text| && Boundary(text, j) {
      var at := RunEnd(text, j, IsLocalChar);
      if j < at < |text| && text[at] == '@' {
        assert DomainDot(text, at + 1, true).None?;
      }
    }
  }

  /** A spoken domain has no '.': every label is read without its dots. */
  lemma ConvertDomainNoDot(d: string)
    ensures AllChars(ConvertDomain(d), NotDot)
  {
    var parts := Split(d, '.');
    SplitPartsHaveNoSep(d, '.');
    forall k | 0 <= k < |parts|
      ensures AllChars(SpeakLabels(parts)[k], NotDot)
    {
      SpeakLabelNoDot(parts[k]);
    }
    JoinAllChars(SpeakLabels(parts), " ponto ", NotDot);
  }

  /** A path without '.' is spoken without one. */
  lemma ConvertPathNoDot(path: string)
    requires '.' !in path
    ensures AllChars(ConvertPath(path), NotDot)
  {
    var l := LStrip(path, '/');
    ConvertPathReading(path);
    forall k | 0 <= k < |l|
      ensures AllChars(Lookup(l[k], PathTable), NotDot)
    {
      assert l[k] == path[|path| - |l| + k];
      PathLookupNoDot(l[k]);
    }
    TranslateAllChars(l, PathTable, NotDot);
    AllCharsConcat(" ", Translate(l, PathTable), NotDot);
  }

  // ---------------------------------------------------------------------------
  // Written URLs, addresses and domains.

  lemma {:induction false} LastTldIs(s: string, p: nat, q: nat, b: bool, r: nat)
    requires q <= |s| && p < r < q && TldAt(s, r, b)
    requires forall k :: r < k < q ==> !TldAt(s, k, b)
    ensures LastTld(s, p, q, b) == Some(r)
    decreases q
  {
    if q - 1 != r {
      LastTldIs(s, p, q - 1, b, r);
    }
  }

  predicate DomainChars(t: string) {
    forall k :: 0 <= k < |t| ==> IsDomainChar(t[k])
  }

  predicate Letters(t: string) {
    forall k :: 0 <= k < |t| ==> IsAsciiLetter(t[k])
  }

  /**
   A written domain `host.tld` at `start`, not followed by a domain character:
   the domain group ends after the letters of `tld`, its dot is the one before `tld`.
   */
  lemma WrittenDomain(s: string, start: nat, host: string, tld: string, b: bool)
    requires |host| >= 1 && DomainChars(host) && |tld| >= 2 && Letters(tld)
    requires start + |host| + 1 + |tld| <= |s|
    requires s[start..start + |host| + 1 + |tld|] == host + "." + tld
    requires start + |host| + 1 + |tld| == |s| || !IsDomainChar(s[start + |host| + 1 + |tld|])
    requires b ==> !WordAt(s, start + |host| + 1 + |tld|)
    ensures DomainDot(s, start, b) == Some(start + |host|)
    ensures LetterEnd(s, start + |host|) == start + |host| + 1 + |tld|
  {
    var dot := start + |host|;
    var e := dot + 1 + |tld|;
    DomainPieces(s, start, host, tld);
    RunEndIs(s, start, e, IsDomainChar);
    RunEndIs(s, dot + 1, e, IsAsciiLetter);
    assert TldAt(s, dot, b);
    LastTldIs(s, start, e, b, dot);
  }

  /** The characters of a written `host.tld`, by position. */
  lemma DomainPieces(s: string, start: nat, host: string, tld: string)
    requires DomainChars(host) && Letters(tld)
    requires start + |host| + 1 + |tld| <= |s|
    requires s[start..start + |host| + 1 + |tld|] == host + "." + tld
    ensures var dot := start + |host|;
      var e := dot + 1 + |tld|;
      && s[dot] == '.'
      && (forall k :: start <= k < e ==> IsDomainChar(s[k]))
      && (forall k :: dot + 1 <= k < e ==> IsAsciiLetter(s[k]) && s[k] != '.')
  {
    var dot := start + |host|;
    var e := dot + 1 + |tld|;
    var d := host + "." + tld;
    forall k | start <= k < e
      ensures s[k] == d[k - start]
    {
    }
    forall k | dot + 1 <= k < e
      ensures s[k] == tld[k - dot - 1]
    {
    }
  }

  predicate LocalChars(t: string) {
    forall k :: 0 <= k < |t| ==> IsLocalChar(t[k])
  }

  /** A written address whose local part starts with a letter or digit is recognized whole. */
  lemma FindWrittenEmail(local: string, host: string, tld: string)
    requires |local| >= 1 && LocalChars(local) && IsAsciiAlnum(local[0])
    requires |host| >= 1 && DomainChars(host) && |tld| >= 2 && Letters(tld)
    ensures var s := local + "@" + host + "." + tld;
      FindEmail(s, 0) == Some(Address(local, host + "." + tld, |s|))
  {
    var s := local + "@" + host + "." + tld;
    var at := |local|;
    EmailParts(local, host, tld);
    WrittenDomain(s, at + 1, host, tld, true);
    assert WordAt(s, 0);
  }

  /** The pieces of a written address, by position, and the run of local characters. */
  lemma EmailParts(local: string, host: string, tld: string)
    requires LocalChars(local)
    ensures var s := local + "@" + host + "." + tld;
      var at := |local|;
      && at < |s| && s[0..at] == local && s[at] == '@' && s[at + 1..|s|] == host + "." + tld
      && s[at + 1..at + 1 + |host| + 1 + |tld|] == host + "." + tld
      && RunEnd(s, 0, IsLocalChar) == at
  {
    var s := local + "@" + host + "." + tld;
    var at := |local|;
    assert s == local + "@" + (host + "." + tld);
    assert s[..at] == local && s[at] == '@' && s[at + 1..] == host + "." + tld;
    forall k | 0 <= k < at
      ensures IsLocalChar(s[k])
    {
      assert s[k] == local[k];
    }
    RunEndIs(s, 0, at, IsLocalChar);
  }

  lemma WrittenEmailNoColon(local: string, host: string, tld: string)
    requires LocalChars(local) && DomainChars(host) && Letters(tld)
    ensures ':' !in local + "@" + host + "." + tld
  {
    var s := local + "@" + host + "." + tld;
    forall k | 0 <= k < |s|
      ensures s[k] != ':'
    {
      if k < |local| {
        assert s[k] == local[k];
      } else if k > |local| {
        assert s[k] == (host + "." + tld)[k - |local| - 1];
        assert DomainChars(host + "." + tld);
      }
    }
  }

  /** The spoken address has no '.' left. */
  lemma SpokenEmailNoDot(a: Address)
    ensures '.' !in SpokenEmail(a)
  {
    SpeakLocalDropsSymbols(a.local);
    ConvertDomainNoDot(a.domain);
    AllCharsConcat(SpeakLocal(a.local), " arroba ", NotDot);
    AllCharsConcat(SpeakLocal(a.local) + " arroba ", ConvertDomain(a.domain), NotDot);
  }

  /** The address pass reads a written address as its spoken form. */
  lemma NormalizeWrittenEmail(local: string, host: string, tld: string)
    requires |local| >= 1 && LocalChars(local) && IsAsciiAlnum(local[0])
    requires |host| >= 1 && DomainChars(host) && |tld| >= 2 && Letters(tld)
    requires !Contains(Lower(local + "@" + host + "." + tld), "www.")
    ensures NormalizeUrls(local + "@" + host + "." + tld)
      == SpeakLocal(local) + " arroba " + ConvertDomain(host + "." + tld)
  {
    var s := local + "@" + host + "." + tld;
    WrittenEmailNoColon(local, host, tld);
    NoColonNoFullUrl(s);
    NoWwwNoWwwUrl(s);
    FindWrittenEmail(local, host, tld);
    ScanWhole(EmailRewriter(), s);
    var a := Address(local, host + "." + tld, |s|);
    SpokenEmailNoDot(a);
    NoDotPasses(SpokenEmail(a));
  }

  /** A URL as written: the scheme, "://", an optional "www.", `host.tld`, then a path. */
  function WrittenUrl(secure: bool, www: bool, host: string, tld: string, path: string): string {
    "http" + (if secure then "s" else "") + "://" + (if www then "www." else "") + host + "." + tld + path
  }

  /** A path group that ends the domain where it starts: no whitespace, and not a domain character first. */
  predicate PathLike(path: string) {
    && (forall k :: 0 <= k < |path| ==> NotSpace(path[k]))
    && (|path| > 0 ==> !IsDomainChar(path[0]))
  }

  /** `host.tld` followed by a path at `start`: the domain and path groups. */
  lemma LinkFromWritten(s: string, start: nat, host: string, tld: string, path: string)
    requires |host| >= 1 && DomainChars(host) && |tld| >= 2 && Letters(tld) && PathLike(path)
    requires start <= |s| && s[start..] == host + "." + tld + path
    ensures DomainDot(s, start, false).Some?
    ensures LinkFrom(s, start) == Some(Link(host + "." + tld, path, |s|))
  {
    var d := start + |host| + 1 + |tld|;
    var q := start + |host|;
    assert DomainDot(s, start, false) == Some(q) && LetterEnd(s, q) == d && s[start..d] == host + "." + tld by {
      LinkParts(s, start, host, tld, path);
      WrittenDomain(s, start, host, tld, false);
    }
    assert RunEnd(s, d, NotSpace) == |s| && s[d..|s|] == path by {
      LinkParts(s, start, host, tld, path);
      PathRun(s, d, path);
    }
    LinkFromAt(s, start, q, d);
  }

  /** The link found from `start` once its dot and the end of its letters are known. */
  lemma LinkFromAt(s: string, start: nat, q: nat, d: nat)
    requires start <= q < |s| && DomainDot(s, start, false) == Some(q) && LetterEnd(s, q) == d
    ensures LinkFrom(s, start) == Some(Link(s[start..d], s[d..RunEnd(s, d, NotSpace)], RunEnd(s, d, NotSpace)))
  {
  }

  lemma LinkParts(s: string, start: nat, host: string, tld: string, path: string)
    requires start <= |s| && s[start..] == host + "." + tld + path
    ensures var d := start + |host| + 1 + |tld|;
      && d <= |s| && s[start..d] == host + "." + tld && s[d..] == path
      && (d < |s| ==> s[d] == path[0])
  {
    var d := start + |host| + 1 + |tld|;
    assert s[start..d] == s[start..][..d - start];
    assert s[d..] == s[start..][d - start..];
  }

  /** A path group that runs to the end of the text. */
  lemma PathRun(s: string, d: nat, path: string)
    requires d <= |s| && s[d..] == path && PathLike(path)
    ensures RunEnd(s, d, NotSpace) == |s| && s[d..|s|] == path
  {
    forall k | d <= k < |s|
      ensures NotSpace(s[k])
    {
      assert s[k] == s[d..][k - d];
    }
    RunEndIs(s, d, |s|, NotSpace);
  }

  /** The scheme of a written URL: "http", then "s" when secure, then "://". */
  lemma WrittenUrlScheme(secure: bool, www: bool, host: string, tld: string, path: string)
    ensures var s := WrittenUrl(secure, www, host, tld, path);
      var a := if secure then 5 else 4;
      && MatchesAtCI(s, 0, "http") && a + 3 <= |s| && OccursAt(s, "://", a)
      && a == (if 4 < |s| && LowerChar(s[4]) == 's' then 5 else 4)
  {
    LowerOfLower("http");
    var s := WrittenUrl(secure, www, host, tld, path);
    var a := if secure then 5 else 4;
    var sec := if secure then "s" else "";
    var w := if www then "www." else "";
    assert s == "http" + sec + "://" + (w + host + "." + tld + path);
    assert s[0..4] == "http";
    assert s[4] == (if secure then 's' else ':');
    assert s[a..a + 3] == "://";
  }

  lemma DomainStartPastWww(s: string, p: nat)
    requires p + 4 <= |s| && s[p..p + 4] == "www." && DomainDot(s, p + 4, false).Some?
    ensures DomainStart(s, p) == p + 4
  {
    LowerOfLower("www.");
  }

  lemma DomainStartHere(s: string, p: nat)
    requires p <= |s| && !MatchesAtCI(s[p..], 0, "www.")
    ensures DomainStart(s, p) == p
  {
    if p + 4 <= |s| {
      assert s[p..][0..4] == s[p..p + 4];
    }
  }

  /** After "://", the domain group starts past a written "www." and nowhere else. */
  lemma WrittenUrlDomainStart(secure: bool, www: bool, host: string, tld: string, path: string)
    requires |host| >= 1 && DomainChars(host) && |tld| >= 2 && Letters(tld) && PathLike(path)
    requires !www ==> !MatchesAtCI(host + "." + tld + path, 0, "www.")
    ensures var s := WrittenUrl(secure, www, host, tld, path);
      var p := if secure then 8 else 7;
      var start := p + (if www then 4 else 0);
      && start <= |s| && s[start..] == host + "." + tld + path
      && DomainStart(s, p) == start
  {
    var s := WrittenUrl(secure, www, host, tld, path);
    var sec := if secure then "s" else "";
    var w := if www then "www." else "";
    var pre := "http" + sec + "://" + w;
    var rest := host + "." + tld + path;
    assert s == pre + rest;
    var p := if secure then 8 else 7;
    var start := |pre|;
    assert s[start..] == rest;
    if www {
      assert s[p..p + 4] == "www.";
      LinkFromWritten(s, start, host, tld, path);
      DomainStartPastWww(s, p);
    } else {
      DomainStartHere(s, p);
    }
  }

  /**
   A written URL is recognized whole, with `host.tld` as its domain and the
   rest as its path. Without "www." written, the domain must not itself start
   with "www." (the pattern would take that as the prefix).
   */
  lemma FindWrittenUrl(secure: bool, www: bool, host: string, tld: string, path: string)
    requires |host| >= 1 && DomainChars(host) && |tld| >= 2 && Letters(tld) && PathLike(path)
    requires !www ==> !MatchesAtCI(host + "." + tld + path, 0, "www.")
    ensures var s := WrittenUrl(secure, www, host, tld, path);
      FindFullUrl(s, 0) == Some(Link(host + "." + tld, path, |s|))
  {
    var s := WrittenUrl(secure, www, host, tld, path);
    WrittenUrlScheme(secure, www, host, tld, path);
    WrittenUrlDomainStart(secure, www, host, tld, path);
    var start := (if secure then 8 else 7) + (if www then 4 else 0);
    LinkFromWritten(s, start, host, tld, path);
  }

  /** The protocol the replacement names is the one written, and a written "www." is seen. */
  lemma WrittenUrlProtocol(secure: bool, www: bool, host: string, tld: string, path: string)
    ensures var s := WrittenUrl(secure, www, host, tld, path);
      && StartsWith(Lower(s), "https") == secure
      && (www ==> Contains(Lower(s), "www."))
  {
    var s := WrittenUrl(secure, www, host, tld, path);
    assert StartsWith(Lower(s), "https") == secure by {
      WrittenUrlSecure(secure, www, host, tld, path);
    }
    if www {
      assert Contains(Lower(s), "www.") by {
        WrittenUrlWww(secure, host, tld, path);
      }
    }
  }

  lemma WrittenUrlSecure(secure: bool, www: bool, host: string, tld: string, path: string)
    ensures StartsWith(Lower(WrittenUrl(secure, www, host, tld, path)), "https") == secure
  {
    LowerOfLower("https");
    var s := WrittenUrl(secure, www, host, tld, path);
    var l := Lower(s);
    var sec := if secure then "s" else "";
    assert s == "http" + sec + "://" + ((if www then "www." else "") + host + "." + tld + path);
    if secure {
      assert s[..5] == "https";
      assert l[..5] == Lower(s[..5]);
    } else {
      assert l[4] == LowerChar(s[4]) == ':';
    }
  }

  lemma WrittenUrlWww(secure: bool, host: string, tld: string, path: string)
    ensures Contains(Lower(WrittenUrl(secure, true, host, tld, path)), "www.")
  {
    var s := WrittenUrl(secure, true, host, tld, path);
    var sec := if secure then "s" else "";
    assert s == "http" + sec + "://" + "www." + (host + "." + tld + path);
    var p := if secure then 8 else 7;
    assert s[p..p + 4] == "www.";
    LowerOfLower("www.");
    MatchesAtCIContains(s, p, "www.");
  }

  /** The words before the domain of a spoken URL have no '.'. */
  lemma UrlHeadNoDot(secure: bool, www: bool)
    ensures AllChars(ProtocolWords(secure) + " dois pontos barra barra " + (if www then WwwWords else ""), NotDot)
  {
    var p := ProtocolWords(secure);
    var w := if www then WwwWords else "";
    assert AllChars(p, NotDot);
    assert AllChars(" dois pontos barra barra ", NotDot);
    assert AllChars(w, NotDot);
    AllCharsConcat(p, " dois pontos barra barra ", NotDot);
    AllCharsConcat(p + " dois pontos barra barra ", w, NotDot);
  }

  /** The spoken URL has no '.' left when its path had none. */
  lemma SpokenFullUrlNoDot(full: string, link: Link)
    requires '.' !in link.path
    ensures '.' !in SpokenFullUrl(full, link)
  {
    var lower := Lower(full);
    var head := ProtocolWords(StartsWith(lower, "https")) + " dois pontos barra barra "
      + (if Contains(lower, "www.") then WwwWords else "");
    UrlHeadNoDot(StartsWith(lower, "https"), Contains(lower, "www."));
    ConvertDomainNoDot(link.domain);
    ConvertPathNoDot(link.path);
    AllCharsConcat(head, ConvertDomain(link.domain), NotDot);
    AllCharsConcat(head + ConvertDomain(link.domain), ConvertPath(link.path), NotDot);
  }

  /**
   The URL pass reads a written URL as its spoken form: the protocol, "dois
   pontos barra barra", the www words when "www." appears, the domain and the
   path. The path here has no '.', so no later substitution applies.
   */
  lemma NormalizeWrittenUrl(secure: bool, www: bool, host: string, tld: string, path: string)
    requires |host| >= 1 && DomainChars(host) && |tld| >= 2 && Letters(tld) && PathLike(path)
    requires !www ==> !MatchesAtCI(host + "." + tld + path, 0, "www.")
    requires '.' !in path
    ensures var s := WrittenUrl(secure, www, host, tld, path);
      NormalizeUrls(s)
        == ProtocolWords(secure) + " dois pontos barra barra "
          + (if Contains(Lower(s), "www.") then WwwWords else "")
          + ConvertDomain(host + "." + tld) + ConvertPath(path)
    ensures www ==> Contains(Lower(WrittenUrl(secure, www, host, tld, path)), "www.")
  {
    var s := WrittenUrl(secure, www, host, tld, path);
    var link := Link(host + "." + tld, path, |s|);
    FindWrittenUrl(secure, www, host, tld, path);
    WrittenUrlProtocol(secure, www, host, tld, path);
    assert s[0..|s|] == s;
    ScanWhole(FullUrlRewriter(), s);
    SpokenFullUrlNoDot(s, link);
    NoDotPasses(SpokenFullUrl(s, link));
  }

  // ---------------------------------------------------------------------------
  // Written "www." links and bare domains.

  /** A link written from "www." on is recognized whole, with `host.tld` as its domain and the rest as its path. */
  lemma FindWrittenWwwUrl(host: string, tld: string, path: string)
    requires |host| >= 1 && DomainChars(host) && |tld| >= 2 && Letters(tld) && PathLike(path)
    ensures var s := "www." + host + "." + tld + path;
      FindWwwUrl(s, 0) == Some(Link(host + "." + tld, path, |s|))
  {
    var s := "www." + host + "." + tld + path;
    assert LinkFrom(s, 4) == Some(Link(host + "." + tld, path, |s|)) by {
      assert s[4..] == host + "." + tld + path;
      LinkFromWritten(s, 4, host, tld, path);
    }
    assert MatchesAtCI(s, 0, "www.") && !WordAt(s, -1) by {
      WwwAtStart(s);
    }
  }

  /** Text that starts with "www." is where the www pattern may begin. */
  lemma WwwAtStart(s: string)
    requires |s| >= 4 && s[0..4] == "www."
    ensures MatchesAtCI(s, 0, "www.") && !WordAt(s, -1)
  {
    LowerOfLower("www.");
  }

  /** A link written from "www." on, with no scheme, is read as its www words, domain and path. */
  lemma NormalizeWrittenWwwUrl(host: string, tld: string, path: string)
    requires |host| >= 1 && DomainChars(host) && |tld| >= 2 && Letters(tld) && PathLike(path)
    requires ':' !in path && '.' !in path
    ensures NormalizeUrls("www." + host + "." + tld + path)
      == WwwWords + ConvertDomain(host + "." + tld) + ConvertPath(path)
  {
    var s := "www." + host + "." + tld + path;
    var link := Link(host + "." + tld, path, |s|);
    WrittenNoColon(s, host, tld, path);
    NoColonNoFullUrl(s);
    FindWrittenWwwUrl(host, tld, path);
    ScanWhole(WwwUrlRewriter(), s);
    SpokenWwwUrlNoDot(link);
    NoDotPasses(SpokenWwwUrl(link));
  }

  lemma WrittenNoColon(s: string, host: string, tld: string, path: string)
    requires DomainChars(host) && Letters(tld) && ':' !in path
    requires s == "www." + host + "." + tld + path
    ensures ':' !in s
  {
    var a := 4 + |host|;
    var b := a + 1 + |tld|;
    forall k | 0 <= k < |s|
      ensures s[k] != ':'
    {
      if 4 <= k < a {
        assert s[k] == host[k - 4];
      } else if a < k < b {
        assert s[k] == tld[k - a - 1];
      } else if b <= k {
        assert s[k] == path[k - b];
      }
    }
  }

  lemma SpokenWwwUrlNoDot(link: Link)
    requires '.' !in link.path
    ensures '.' !in SpokenWwwUrl(link)
  {
    assert AllChars(WwwWords, NotDot);
    ConvertDomainNoDot(link.domain);
    ConvertPathNoDot(link.path);
    AllCharsConcat(WwwWords, ConvertDomain(link.domain), NotDot);
    AllCharsConcat(WwwWords + ConvertDomain(link.domain), ConvertPath(link.path), NotDot);
  }

  /** Without an '@' there is no address. */
  lemma NoAtNoEmail(text: string)
    requires '@' !in text
    ensures Sub(EmailRewriter(), text) == text
  {
    forall j | 0 <= j < |text|
      ensures Inert(EmailRewriter(), text, j)
    {
      assert FindEmail(text, j).None?;
    }
    ScanIdentity(EmailRewriter(), text, 0);
  }

  /** Alternative `y` fits at the start of text that continues with exactly `x`. */
  predicate FitsBefore(y: string, x: string) {
    |y| <= |x| && x[..|y|] == y && (|y| < |x| ==> !IsWordChar(x[|y|]))
  }

  lemma FitsBeforeAgrees(y: string, x: string)
    ensures FitsBefore(y, x) && |y| >= 2 ==> x[0] == y[0] && x[1] == y[1]
    ensures FitsBefore(y, x) && |y| >= 4 ==> x[2] == y[2] && x[3] == y[3]
  {
    if FitsBefore(y, x) {
      assert forall i :: 0 <= i < |y| ==> x[..|y|][i] == x[i];
    }
  }

  /** No alternative fits in front of a later one: a written suffix is the one the pattern picks. */
  lemma SuffixesOrdered()
    ensures forall j, k :: 0 <= j < k < |Suffixes| ==> !FitsBefore(Suffixes[j], Suffixes[k])
  {
    forall k | 0 <= k < |Suffixes|
      ensures forall j :: 0 <= j < k ==> !FitsBefore(Suffixes[j], Suffixes[k])
    {
      forall j | 0 <= j < k
        ensures !FitsBefore(Suffixes[j], Suffixes[k])
      {
        FitsBeforeAgrees(Suffixes[j], Suffixes[k]);
      }
    }
  }

  lemma SuffixesLower()
    ensures forall k :: 0 <= k < |Suffixes| ==> Lower(Suffixes[k]) == Suffixes[k]
  {
    forall k | 0 <= k < |Suffixes|
      ensures Lower(Suffixes[k]) == Suffixes[k]
    {
      LowerOfLower(Suffixes[k]);
    }
  }

  /** At the start of a written suffix the first alternative that fits is that suffix. */
  lemma WrittenSuffixFirst(s: string, t: nat, k: nat)
    requires k < |Suffixes| && t <= |s| && s[t..] == Suffixes[k]
    ensures FirstSuffix(s, t, 0) == Some(k)
  {
    var x := Suffixes[k];
    SuffixesLower();
    SuffixesOrdered();
    assert s[t..t + |x|] == x;
    assert SuffixFits(s, t, x);
    forall j | 0 <= j < k
      ensures !SuffixFits(s, t, Suffixes[j])
    {
      FitsOnText(s, t, x, Suffixes[j]);
    }
  }

  /** An alternative that fits on text continuing with lower-case `x` fits before `x`. */
  lemma FitsOnText(s: string, t: nat, x: string, y: string)
    requires t <= |s| && s[t..] == x && Lower(x) == x
    ensures SuffixFits(s, t, y) ==> FitsBefore(y, x)
  {
    if SuffixFits(s, t, y) {
      var n := |y|;
      assert s[t..t + n] == x[..n];
      forall m | 0 <= m < n
        ensures x[m] == y[m]
      {
        assert Lower(s[t..t + n])[m] == LowerChar(x[m]) == Lower(x)[m];
      }
      assert x[..n] == y;
      if n < |x| {
        assert s[t + n] == x[n];
      }
    }
  }

  predicate LabelChars(t: string) {
    forall m :: 0 <= m < |t| ==> IsLabelChar(t[m])
  }

  /** `name.suffix`, written alone, is matched whole by the bare-domain pattern. */
  lemma FindWrittenBareDomain(name: string, k: nat)
    requires |name| >= 1 && LabelChars(name)
    requires k < |Suffixes|
    ensures FindBareDomain(name + "." + Suffixes[k], 0) == Some(|name + "." + Suffixes[k]|)
  {
    var s := name + "." + Suffixes[k];
    var q := |name|;
    RunEndIs(s, 0, q, IsLabelChar);
    assert s[q + 1..] == Suffixes[k];
    WrittenSuffixFirst(s, q + 1, k);
  }

  /**
   A bare domain such as "exemplo.com.br", written alone, is read label by
   label. The text must not hold "www." (that prefix is the www pattern's).
   */
  lemma NormalizeWrittenBareDomain(name: string, k: nat)
    requires |name| >= 1 && LabelChars(name)
    requires k < |Suffixes|
    requires !Contains(Lower(name + "." + Suffixes[k]), "www.")
    ensures NormalizeUrls(name + "." + Suffixes[k]) == ConvertDomain(name + "." + Suffixes[k])
  {
    var s := name + "." + Suffixes[k];
    BareNoColonNoAt(name, k);
    NoColonNoFullUrl(s);
    NoWwwNoWwwUrl(s);
    NoAtNoEmail(s);
    FindWrittenBareDomain(name, k);
    assert s[0..|s|] == s;
    ScanWhole(BareDomainRewriter(), s);
  }

  lemma BareNoColonNoAt(name: string, k: nat)
    requires LabelChars(name)
    requires k < |Suffixes|
    ensures ':' !in name + "." + Suffixes[k] && '@' !in name + "." + Suffixes[k]
  {
    var s := name + "." + Suffixes[k];
    assert ':' !in Suffixes[k] && '@' !in Suffixes[k];
    forall m | 0 <= m < |s|
      ensures s[m] != ':' && s[m] != '@'
    {
      if m < |name| {
        assert s[m] == name[m];
      } else if m > |name| {
        assert s[m] == Suffixes[k][m - |name| - 1];
      }
    }
  }

}
