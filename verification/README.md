# Text normalizer for Brazilian-Portuguese speech — a Dafny model

`text_normalizer/normalizer.py` rewrites written Portuguese text into words that
a speech synthesizer can read aloud. `normalize_text` applies seven passes in
a fixed order:

1. currency amounts (`R$ 1,50`);
2. dates (`05/01/2026`, `12/2025`);
3. dotted or hyphenated digit sequences (`123.456.789-00`);
4. clock times (`14h30`, `9:15`);
5. URLs, `www.` addresses, e-mail addresses and bare domains;
6. plain numbers (`123`, `25,5`);
7. a sanitizer that drops problematic symbols and tidies whitespace.

This project models each pass as a pure Dafny function over `string`
(`seq<char>`), and the whole normalizer as their composition.

Every pass is a `re.sub`. `Scanner` gives it one generic model:
- a *rewriter* inspects the original text at a position;
- it either matches, giving the match's end and its replacement, or does not;
- `Scan` walks the text left to right, resuming after each replacement.

Each pattern is modelled by a `Find…` function that resolves the regex
backtracking by hand. Two examples:
- digit groups under `\b` are whole maximal digit runs;
- a URL's domain ends at the last dot that is followed by at least two letters.

Each `Find…` function's contract states what a match returns: its groups and
where they lie. Every recognizer is also complete: an occurrence of the
pattern at a position is found there. This is stated either by an
if-and-only-if in the finder's own contract or by a `…Found` lemma beside it.

The number speller (`num2words(n, lang='pt_BR')`) is a parameter
`spell: nat -> string`. Every property holds for every speller.

Modules:
- `Chars`, `Strings`, `Wrappers`: character classes (`\d`, `\w`, `\s` over
  Latin-1), Python string operations (`split`, `join`, `replace`, `lstrip`,
  `strip`, `lower`) and `Option`.
- `Scanner`: the model of `re.sub`.
- `Replacements`: chains of one-character `str.replace` calls, and when they
  equal a per-character translation table.
- `Lexicon`: digit names, spelled digit-by-digit numbers, and the choice
  between the speller and digit names at 10000.
- `Currency`, `Dates`, `NumericSequences`, `Time`, `Numbers`, `Sanitizer`: the
  passes of the same names.
- `UrlSpeech` (`convert_domain_part`, `convert_path`, the e-mail local part)
  and `Urls` (the four URL substitutions).
- `Pipeline`: `normalize_text` as written (`NormalizeText`), and the same
  passes with the corrected dates pass (`NormalizeTextCorrected`, see Findings).

The corrected dates pass, `Dates.NormalizeDatesGuarded`, finds full dates
exactly where the code's first substitution finds them. It reads month/year
only in the text between those full dates.

Where the docstrings and the code disagree, the model follows the code:
- A '-' inside a digit sequence is read "traço". The docstring example says
  "hífen".
- Two-digit years are always expanded: below 50 to 20xx, otherwise to 19xx.
  So "25/12/99" ends "de mil novecentos e noventa e nove", not "de noventa e
  nove" as in the docstring.
- `convert_path` strips every leading '/' (`lstrip`), not just one.

## Model

| member | source | states |
|---|---|---|
| Scanner.ScanIdentity | text_normalizer/normalizer.py:83 | `re.sub` changes nothing when every match it replaces gives back its own text (in particular when there is no match) |
| Scanner.ScanAllChars | text_normalizer/normalizer.py:309 | a character property of the text kept and of every replacement holds for the whole result |
| Scanner.ScanKeeps | text_normalizer/normalizer.py:309 | replacements that keep the characters of a kind that they replace keep those of the whole text, in order |
| Scanner.ScanAgree | text_normalizer/normalizer.py:167-170 | two patterns with the same matches and replacements at every position give the same result |
| Currency.FindAmount | text_normalizer/normalizer.py:48 | a currency match exists exactly when `R$`, optional whitespace and a digit follow, so a bare `R$` with no digits is never replaced. The reais group is the whole digit run. The cents group is one or two digits after ',' or '.'. A one-digit cents group ends the digit run. |
| Currency.Cents | text_normalizer/normalizer.py:65-68 | the right-padded cents group is the hundredths its digits denote, below 100 |
| Currency.SpokenAmount | text_normalizer/normalizer.py:54-81 | the full decision table. Zero reais without cents gives "zero reais", 1 gives "um real" and n gives "<n> reais". Zero reais gives "um centavo" for one cent and "<c> centavos" otherwise. Both non-zero are joined by " e ". Zero cents are ignored. |
| Currency.NoMarkerUnchanged | text_normalizer/normalizer.py:48-83 | text without '$' passes the currency pass unchanged |
| Currency.NoDigitsUnchanged | text_normalizer/normalizer.py:48-83 | text without digits passes the currency pass unchanged |
| Currency.FindWrittenAmount | text_normalizer/normalizer.py:48 | `R$ <reais>[,<cents>]` is matched whole, with the written groups |
| Currency.NormalizeWrittenAmount | text_normalizer/normalizer.py:42-83 | a written amount is replaced by the spoken amount of its reais value and cents |
| Currency.ThousandsSeparatorReadAsCents | text_normalizer/normalizer.py:48 | in "R$ 1.234,56" the match is "R$ 1.23": reais "1", cents "23" |
| Currency.ThousandsSeparatorLeavesRest | text_normalizer/normalizer.py:42-83 | "R$ 1.234,56" becomes the spoken amount of one real and 23 centavos, followed by the untouched "4,56" |
| Dates.FindFullDate | text_normalizer/normalizer.py:102 | a full-date match consists of 1-2, 1-2 and 2-4 digit groups between two '/'. Each group is a maximal digit run, with word boundaries on both sides. |
| Dates.FindMonthYear | text_normalizer/normalizer.py:105 | a month/year match is a 1-2 digit group, '/', and a 2-4 digit group, each a maximal run, with word boundaries on both sides |
| Dates.MonthYearFound | text_normalizer/normalizer.py:105 | any occurrence of the month/year pattern at a position is found there, with the same two groups |
| Dates.FullDateFound | text_normalizer/normalizer.py:102 | any occurrence of the full-date pattern at a position is found there, with the same three groups |
| Dates.ExpandYear | text_normalizer/normalizer.py:129-133 | a year below 100 becomes the year in 1950..2049 with the same last two digits; other years are kept |
| Dates.ExpandYearUnique | text_normalizer/normalizer.py:129-133 | that year in 1950..2049 is the only one with those last two digits |
| Dates.SpokenFullDate | text_normalizer/normalizer.py:107-140 | an invalid month (outside 1..12) or day (outside 1..31) gives back the matched text. Otherwise the result is "<day> de <month name> de <year words>". |
| Dates.SpokenMonthYear | text_normalizer/normalizer.py:142-164 | an invalid month gives back the matched text; otherwise "<month name> de <year words>" |
| Dates.FullDateNeedsSlash | text_normalizer/normalizer.py:102 | the full-date substitution leaves text without '/' unchanged |
| Dates.MonthYearNeedsSlash | text_normalizer/normalizer.py:105 | the month/year substitution leaves text without '/' unchanged |
| Dates.NoSlashUnchanged | text_normalizer/normalizer.py:166-172 | the date pass leaves text without '/' unchanged |
| Dates.NoDigitsUnchanged | text_normalizer/normalizer.py:166-172 | the date pass leaves text without digits unchanged |
| Dates.FindWrittenFullDate | text_normalizer/normalizer.py:102 | a written `d/m/y` with group widths in range is matched whole, with its three groups |
| Dates.FindWrittenMonthYear | text_normalizer/normalizer.py:102-105 | a written `m/y` is matched whole by the month/year pattern and nowhere by the full-date pattern |
| Dates.WrittenFullDateRuns | text_normalizer/normalizer.py:102-105 | inside a written full date, neither pattern can start except at the starts of its digit groups |
| Dates.NormalizeWrittenFullDate | text_normalizer/normalizer.py:85-172 | a valid written full date becomes "<day> de <month name> de <year words>" after both substitutions. This holds when the speller writes no '/'. |
| Dates.SpokenDateHasNoSlash | text_normalizer/normalizer.py:140 | a spoken date contains no '/', so the second substitution cannot re-read it |
| Dates.NormalizeWrittenMonthYear | text_normalizer/normalizer.py:142-172 | a written `m/y` with a valid month becomes "<month name> de <year words>" |
| Dates.FullDatePassKeepsInvalid | text_normalizer/normalizer.py:112-118 | an invalid full date, with a year of any width from 2 to 4 digits, survives the first substitution unchanged |
| Dates.MonthYearInFullDate | text_normalizer/normalizer.py:105 | in `d/mm/yy[yy]` the month/year pattern matches `d/mm` and nothing after it |
| Dates.InvalidFullDateReadAsMonthYear | text_normalizer/normalizer.py:166-170 | an invalid full date whose day is a valid month loses its head to the second substitution. The result is "<month of day> de <year of mm>/yyyy". This is the code as written. |
| Dates.GuardedWithoutFullDate | text_normalizer/normalizer.py:166-170 | the corrected pass is the month/year substitution on text where the full-date pattern matches nowhere |
| Dates.GuardedWithoutMonthYear | text_normalizer/normalizer.py:166-170 | the corrected pass is the full-date substitution on text where the month/year pattern matches nowhere |
| Dates.GuardedFullDateNotPreempted | text_normalizer/normalizer.py:166-170 | in "1/22/3/2025" the corrected pass speaks the full date "22/3/2025" that the first substitution captures, and does not read "1/22" as a month/year |
| Dates.GuardedWrittenFullDate | text_normalizer/normalizer.py:107-140 | in the corrected pass, a valid full date is spoken and an invalid one is kept whole |
| Dates.GuardedWrittenMonthYear | text_normalizer/normalizer.py:142-164 | in the corrected pass, a written `m/y` is spoken exactly as by `replace_month_year` |
| Dates.GuardedKeepsInvalidFullDate | text_normalizer/normalizer.py:169 | the corrected pass leaves "05/13/2025" unchanged |
| Dates.GuardedNoSlashUnchanged | text_normalizer/normalizer.py:166-172 | the corrected pass leaves text without '/' unchanged |
| Dates.GuardedNoDigitsUnchanged | text_normalizer/normalizer.py:166-172 | the corrected pass leaves text without digits unchanged |
| NumericSequences.ChainEnd | text_normalizer/normalizer.py:12 | a sequence match is digit runs joined by single '.' or '-', ending at a word boundary |
| NumericSequences.ChainEndIsLongest | text_normalizer/normalizer.py:12 | the match found is the longest such chain, as the greedy `*` takes it |
| NumericSequences.SeqWordList | text_normalizer/normalizer.py:29-36 | one word per character of the match |
| NumericSequences.SpokenSequence | text_normalizer/normalizer.py:26-27 | a match without '.' or '-' is returned unchanged |
| NumericSequences.ReadSeqWordInverse | text_normalizer/normalizer.py:14-20 | each digit, '.' and '-' has its own space-free word ("ponto", "traço"), and reading the word back gives the character |
| NumericSequences.SpokenSequenceRoundTrip | text_normalizer/normalizer.py:29-38 | splitting the spoken sequence at spaces gives one word per character, and reading the words back recovers the written sequence |
| NumericSequences.NoSeparatorUnchanged | text_normalizer/normalizer.py:22-40 | text with no '.' and no '-' passes unchanged |
| NumericSequences.NoDigitsUnchanged | text_normalizer/normalizer.py:12 | text without digits passes unchanged |
| NumericSequences.NoSequenceAtNonDigit | text_normalizer/normalizer.py:12 | no match starts at a non-digit |
| NumericSequences.ChainMatchedWhole | text_normalizer/normalizer.py:12 | a chain with word boundaries on both sides, not followed by a separator, is matched whole and spoken |
| NumericSequences.NormalizeWrittenChain | text_normalizer/normalizer.py:22-40 | a written chain becomes its spoken sequence |
| NumericSequences.SlashSeparatesChains | text_normalizer/normalizer.py:12 | '/' is never consumed: `a/b` becomes spoken a, '/', spoken b |
| Time.FindClock | text_normalizer/normalizer.py:255 | a time match is 1-2 hour digits (a whole run) and 'h' or ':'. Two minute digits are taken when a word boundary follows them; otherwise the match needs a boundary right after the marker. |
| Time.ClockFound | text_normalizer/normalizer.py:255 | any occurrence of the time pattern is found: with minutes when two digits and a boundary follow the marker, otherwise without them exactly when a boundary follows the marker |
| Time.SpokenClock | text_normalizer/normalizer.py:257-292 | the full decision table. Hours above 23 or minutes above 59 give back the matched text. Minutes absent or 0 give only the hour words. Otherwise the result is "<hours> e um minuto" or "<hours> e <m> minutos". |
| Time.NoMarkerUnchanged | text_normalizer/normalizer.py:255 | text with no 'h' and no ':' passes unchanged |
| Time.NoDigitsUnchanged | text_normalizer/normalizer.py:255 | text without digits passes unchanged |
| Time.FindWrittenClock | text_normalizer/normalizer.py:255 | a written `HhMM`, `H:MM` or `Hh` is matched whole with its groups |
| Time.NormalizeWrittenClock | text_normalizer/normalizer.py:249-294 | a written time becomes the spoken clock of its hour and minute values |
| Time.ColonMatchedAlone | text_normalizer/normalizer.py:255 | before three or more digits, the minutes group is skipped and only `H:` is matched |
| Time.DigitsAfterColonInert | text_normalizer/normalizer.py:255 | no time match starts inside the digit run after the marker |
| Time.ColonBeforeLongRun | text_normalizer/normalizer.py:255-292 | "H:DDD…" becomes the hour words directly followed by the untouched digits |
| Numbers.FindNumeral | text_normalizer/normalizer.py:183 | a number match is a whole digit run, optionally ',' or '.' and a digit run, with word boundaries on both sides |
| Numbers.NumeralFractionFound | text_normalizer/normalizer.py:183 | any occurrence of the decimal form is found with its fraction: the longer form wins when a boundary follows it |
| Numbers.NumeralWholeFound | text_normalizer/normalizer.py:183 | any bounded digit run where the decimal form does not match is found as a whole number |
| Numbers.RoundHalfEven | text_normalizer/normalizer.py:204 | the result is the nearest integer to x/d, ties going to the even one |
| Numbers.Hundredths | text_normalizer/normalizer.py:199-204 | the rounded hundredths of a fraction are at most 100. For one or two fraction digits they are exact and equal to the currency pass's cents. |
| Numbers.SpokenInteger | text_normalizer/normalizer.py:237-243 | below 10000 the speller's words; otherwise digit names that read back to the written digits (leading zeros included) |
| Numbers.SpokenDecimal | text_normalizer/normalizer.py:206-233 | the decision table: "zero"; the whole part alone; "zero vírgula <hundredths>"; or "<whole> vírgula <hundredths>" |
| Numbers.SpokenNumeral | text_normalizer/normalizer.py:196-245 | a whole number longer than 4300 digits is given back as written. Any other whole number is spelled below 10000, or else read as digit names that read back to its digits. A decimal with one or two fraction digits is read from its whole value and the cents the currency pass would read. Any decimal is read with at most 100 hundredths. |
| Numbers.LeadingZeroIgnored | text_normalizer/normalizer.py:238-241 | a leading zero does not change a spelled number below 10000 |
| Numbers.NoDigitsUnchanged | text_normalizer/normalizer.py:183 | text without digits passes unchanged |
| Numbers.NormalizeWrittenInteger | text_normalizer/normalizer.py:236-247 | a written digit run becomes its spoken integer, or stays as written when it is longer than 4300 digits |
| Numbers.FindWrittenDecimal | text_normalizer/normalizer.py:183 | `w,f` is matched whole with both groups |
| Numbers.NormalizeWrittenDecimal | text_normalizer/normalizer.py:197-233 | `w,f` becomes the spoken decimal of w and the rounded hundredths of f |
| Lexicon.SpellNumber | text_normalizer/normalizer.py:209-213 | below 10000 the speller's words; otherwise digit names that read back to the decimal digits of the value |
| Lexicon.ReadDigitWordInverse | text_normalizer/normalizer.py:185-191 | every digit has a space-free name that reads back to it |
| Lexicon.DigitWordsRoundTrip | text_normalizer/normalizer.py:243 | reading the space-joined digit names back gives the digits |
| Lexicon.DigitWordList | text_normalizer/normalizer.py:243 | one name per digit |
| Sanitizer.DropSymbols | text_normalizer/normalizer.py:306 | the result has none of `$%&*+=[]{}|\<>~^` and the backquote |
| Sanitizer.DropSymbolsKeeps | text_normalizer/normalizer.py:306 | dropping symbols removes no letter, digit, punctuation or other visible character |
| Sanitizer.CollapseFrom | text_normalizer/normalizer.py:309 | after collapsing, every whitespace is a single plain space, and no two are adjacent |
| Sanitizer.CollapseKeeps | text_normalizer/normalizer.py:309 | collapsing whitespace keeps every non-space character in order |
| Sanitizer.CollapseIdentity | text_normalizer/normalizer.py:309 | collapsing leaves text with only single plain spaces unchanged |
| Sanitizer.StripKeeps | text_normalizer/normalizer.py:311 | stripping keeps every non-space character in order |
| Sanitizer.StripTidy | text_normalizer/normalizer.py:311 | stripping collapsed text leaves it tidy: single plain spaces, none at either end |
| Sanitizer.StripTidyIdentity | text_normalizer/normalizer.py:311 | stripping leaves text without leading or trailing whitespace unchanged |
| Sanitizer.NoTagMarkUnchanged | text_normalizer/normalizer.py:303 | text with no '@' and no '#' loses no tag |
| Sanitizer.RemoveNonAlphanumeric | text_normalizer/normalizer.py:296-311 | the sanitizer's output has no dropped symbol and tidy whitespace, for every input |
| Sanitizer.SanitizerKeepsVisible | text_normalizer/normalizer.py:296-311 | on text without tags, every visible character other than a dropped symbol survives, in order (punctuation is kept) |
| Sanitizer.SanitizedUnchanged | text_normalizer/normalizer.py:296-311 | clean, tidy text without '@' or '#' passes unchanged |
| Sanitizer.MentionDropped | text_normalizer/normalizer.py:303 | "@abc" is removed as a tag |
| Sanitizer.TagBeforeSymbolKept | text_normalizer/normalizer.py:303 | "@$abc" has no tag, since '$' is not a word character |
| Sanitizer.DollarDropped | text_normalizer/normalizer.py:306 | the symbol step turns "@$abc" into "@abc" |
| Sanitizer.NotIdempotent | text_normalizer/normalizer.py:296-311 | the sanitizer is not idempotent: "@$abc" gives "@abc", and "@abc" gives "" |
| UrlSpeech.TldWord | text_normalizer/normalizer.py:351-373 | every key of the TLD table is lower case, which is why labels are looked up lower-cased. Every word in it is non-empty and has no '.'. |
| UrlSpeech.SpeakLabelIgnoresCaseOfTld | text_normalizer/normalizer.py:372-373 | a label whose lower-case form is in the table is spoken as the table says, whatever its case |
| UrlSpeech.SpeakLabelOther | text_normalizer/normalizer.py:374-377 | any other label keeps its characters, with each '-' read " hífen " |
| UrlSpeech.ConvertDomainLabels | text_normalizer/normalizer.py:367-379 | a domain of dot-free labels is split into exactly those labels, and spoken as their words joined by " ponto " |
| UrlSpeech.ConvertDomainCons | text_normalizer/normalizer.py:367-379 | the first label is spoken, then " ponto ", then the rest of the domain |
| UrlSpeech.SpeakLabelNoDot | text_normalizer/normalizer.py:371-377 | a spoken label has no '.' |
| UrlSpeech.PathTableClean | text_normalizer/normalizer.py:389-397 | no replacement word contains a character a later `replace` rewrites, so the chain acts per character |
| UrlSpeech.PathTranslation | text_normalizer/normalizer.py:389-397 | the replace chain equals the per-character table, is empty only on empty text, and leaves none of / ? & = # % - _ |
| UrlSpeech.ConvertPathSilent | text_normalizer/normalizer.py:383-399 | the spoken path is empty exactly when the path is empty or only slashes |
| UrlSpeech.ConvertPathReading | text_normalizer/normalizer.py:386-399 | otherwise it is a space followed by the per-character reading of the path without its leading slashes |
| UrlSpeech.ConvertPathClean | text_normalizer/normalizer.py:389-399 | the spoken path contains none of / ? & = # % - _ |
| UrlSpeech.SpeakLocalPerChar | text_normalizer/normalizer.py:437-441 | the e-mail local part is read character by character ('.', '_', '-', '+' by their names) |
| UrlSpeech.SpeakLocalDropsSymbols | text_normalizer/normalizer.py:437-441 | the spoken local part has none of . _ - + |
| Replacements.ChainIsTranslation | text_normalizer/normalizer.py:389-397 | a chain of `replace` calls whose words introduce no later-replaced character equals the per-character table |
| Strings.LStrip | text_normalizer/normalizer.py:387 | `lstrip('/')` removes every leading '/' and nothing else |
| Strings.SplitJoin | text_normalizer/normalizer.py:368 | splitting a join of separator-free parts gives back the parts |
| Strings.JoinSplit | text_normalizer/normalizer.py:368 | joining the parts of a split with the separator gives back the text |
| Strings.ReplaceIsJoinSplit | text_normalizer/normalizer.py:376 | replacing a character is splitting at it and joining with the word |
| Urls.FindFullUrl | text_normalizer/normalizer.py:325 | a full URL matches exactly when `https?://` is there and a domain follows it. The optional "www." is taken only when a domain still follows. The domain group ends at the letters after its last qualifying dot; the path group is the whole non-space run after it. |
| Urls.FullUrlFound | text_normalizer/normalizer.py:325 | a scheme followed by a domain-character run with a '.' and two letters inside it is always found |
| Urls.DomainDot | text_normalizer/normalizer.py:325-331 | the domain's dot is the last dot followed by two letters within the domain-character run; there is none exactly when no dot in the run qualifies |
| Urls.DomainStart | text_normalizer/normalizer.py:325 | the optional "www." is taken exactly when it is written and a domain follows it |
| Urls.LinkFrom | text_normalizer/normalizer.py:325-328 | a link exists exactly when a domain does; its domain runs to the end of the top-level letters, and its path is the whole non-space run after it |
| Urls.LastTld | text_normalizer/normalizer.py:325 | the domain's final dot is the last dot followed by two or more letters within the domain run |
| Urls.FindWwwUrl | text_normalizer/normalizer.py:328 | a www URL matches exactly when "www." (any case) has no word character before it and a domain follows, with the domain and path groups of a link |
| Urls.FindEmail | text_normalizer/normalizer.py:331 | an address matches exactly when the run of local characters from a word boundary ends at '@' and a bounded domain follows. The match ends at the letters after the domain's last qualifying dot. |
| Urls.FirstSuffix | text_normalizer/normalizer.py:334 | the suffix chosen is the first alternative in pattern order that fits |
| Urls.FindBareDomain | text_normalizer/normalizer.py:334 | a bare domain matches exactly when a label run after no word character ends at '.' and a suffix fits. The match ends after the first fitting suffix in pattern order. |
| Urls.NoDotPasses | text_normalizer/normalizer.py:325-334 | none of the four URL patterns matches in text without '.' |
| Urls.NoDotUnchanged | text_normalizer/normalizer.py:452-465 | text without '.' passes the URL pass unchanged |
| Urls.NoColonNoFullUrl | text_normalizer/normalizer.py:325 | text without ':' has no full URL |
| Urls.NoWwwNoWwwUrl | text_normalizer/normalizer.py:328 | text without "www." in any case has no www URL |
| Urls.NoAtNoEmail | text_normalizer/normalizer.py:331 | text without '@' has no e-mail |
| Urls.ConvertDomainNoDot | text_normalizer/normalizer.py:348-379 | a spoken domain has no '.' |
| Urls.ConvertPathNoDot | text_normalizer/normalizer.py:381-399 | a spoken dot-free path has no '.' |
| Urls.FindWrittenUrl | text_normalizer/normalizer.py:325 | a written `http[s]://[www.]host.tld[path]` is matched whole, with domain `host.tld` and the path |
| Urls.WrittenUrlProtocol | text_normalizer/normalizer.py:408-414 | the scheme test sees "https" exactly when the URL is secure, and "www." when it has one |
| Urls.NormalizeWrittenUrl | text_normalizer/normalizer.py:401-419 | a written URL becomes the protocol words, " dois pontos barra barra ", the www words, the spoken domain and the spoken path |
| Urls.SpokenFullUrlNoDot | text_normalizer/normalizer.py:401-419 | a spoken URL has no '.', so the later URL substitutions leave it alone |
| Urls.FindWrittenWwwUrl | text_normalizer/normalizer.py:328 | a written `www.host.tld[path]` is matched whole |
| Urls.NormalizeWrittenWwwUrl | text_normalizer/normalizer.py:421-430 | it becomes the www words, the spoken domain and the spoken path |
| Urls.SpokenWwwUrlNoDot | text_normalizer/normalizer.py:421-430 | a spoken www URL has no '.' |
| Urls.FindWrittenEmail | text_normalizer/normalizer.py:331 | a written `local@host.tld` is matched whole with its local part and domain |
| Urls.NormalizeWrittenEmail | text_normalizer/normalizer.py:432-445 | it becomes the spoken local part, " arroba " and the spoken domain |
| Urls.SpokenEmailNoDot | text_normalizer/normalizer.py:432-445 | a spoken e-mail has no '.' |
| Urls.SuffixesOrdered | text_normalizer/normalizer.py:334 | no alternative of the suffix list is a proper prefix of a later one |
| Urls.WrittenSuffixFirst | text_normalizer/normalizer.py:334 | so a written suffix is chosen as itself, not as a shorter alternative |
| Urls.FindWrittenBareDomain | text_normalizer/normalizer.py:334 | a written `name.suffix` is matched whole |
| Urls.NormalizeWrittenBareDomain | text_normalizer/normalizer.py:447-450 | it becomes the spoken domain |
| Pipeline.NormalizeText | text_normalizer/normalizer.py:467-503 | empty or whitespace-only text is returned unchanged; any other text comes out with no dropped symbol and tidy whitespace |
| Pipeline.NormalizeTextCorrected | text_normalizer/normalizer.py:467-503 | the same guarantees with the corrected dates pass |
| Pipeline.PlainSpokenUnchanged | text_normalizer/normalizer.py:484-500 | text without digits, '.' or '$' passes the six rewriting passes unchanged |
| Pipeline.PlainTextUnchanged | text_normalizer/normalizer.py:478-503 | plain, clean, tidy prose without digits, '.', '@' or '#' is returned unchanged |
| Pipeline.NormalizeBareNumber | text_normalizer/normalizer.py:478-503 | a bare digit string is normalized to its spoken integer, sanitized; one longer than 4300 digits is returned as written |

## Left out

- The number speller `num2words(n, lang='pt_BR')` is a parameter, not a model of the library.
  Properties are stated for every speller; the date lemmas assume only that the speller writes no '/'.
- Numbers.NormalizeWrittenDecimal: the decimal branch of `replace_number` uses `float`, `int` and `round`; the model uses the exact value of the whole part and the exact hundredths of the fraction, rounded half to even.
  The two readings are the same only while the float keeps a hundredth apart. That holds for one or two fraction digits and a whole part below 2^46; "100000000000000,01" reads 2 hundredths in the source and 1 here.
  With three or more fraction digits, rounding error can tip a tie. A whole part above 2^53 is read by the source from its float approximation.
  A whole part too large for a float (about 309 digits or more) makes `int(inf)` raise an uncaught `OverflowError`, so `normalize_text` raises. The model reads such a number instead.
- Numbers.SpokenNumeral: the same float differences for decimals; whole numbers are exact.
- Numbers.NormalizeWrittenInteger: models `int`'s default limit of 4300 digits (`IntDigitLimit`). Past that limit the `ValueError` branch gives the digits back as written.
  The limit is Python's default since 3.11 (and 3.10.7, 3.9.14, 3.8.14). `sys.set_int_max_str_digits` or `PYTHONINTMAXSTRDIGITS` can change it, and older interpreters have none.
- Pipeline.NormalizeBareNumber: the same 4300-digit limit, with the same caveats.
- Currency.NormalizeWrittenAmount: reais longer than 4300 digits make `int(reais_str)` raise an uncaught `ValueError`, so `normalize_text` raises. The model reads the amount instead.
- Character classes cover Latin-1 only:
  - `\w` and `\d` are exact on U+0000..U+00FF.
  - Characters above U+00FF count as non-word.
  - `\d` is ASCII digits, so non-ASCII decimal digits (which Python's `\d` and `int` accept) are not modelled.
- `re.IGNORECASE` and `str.lower` are modelled as ASCII case folding. Non-ASCII case pairs are left out.
- `normalize_text(None)` (the `not text` test on a non-string) is not modelled. Strings only.
- The URL lemmas describe written URLs, e-mails and domains of the shapes their requires give, not every text the patterns can meet.
- Urls.NormalizeWrittenUrl, Urls.NormalizeWrittenWwwUrl: require a dot-free path (and for www URLs a colon-free one), so that no later URL substitution fires inside the spoken form.
- Urls.NormalizeWrittenEmail, Urls.NormalizeWrittenBareDomain: require that the text holds no "www.", which the www pattern would take first.
- `url_demo.py`, `setup.py` and the package `__init__.py` are not part of this model. They are a demo, packaging and a re-export.

## Findings

| source | as written | input that shows it | evidently intended | confidence | as-written member | corrected member |
|---|---|---|---|---|---|---|
| text_normalizer/normalizer.py:166-170 | the month/year substitution runs over the whole output of the full-date one, so an invalid full date that was handed back unchanged is read again as month/year | "05/13/2025" becomes "maio de dois mil e treze/2025" | the comment on line 169 says month/year applies only where the full-date pattern did not match, so an invalid full date stays as written | high, not executed | Dates.InvalidFullDateReadAsMonthYear | Dates.GuardedKeepsInvalidFullDate |
