# suttacentral-ssr lookup engine and interface helpers, in Dafny

This project models the server-side core of the SuttaCentral reader:

- **The dictionary lookup engine** (`src/utils/lookup.ts`). A Pali word is
  cleaned and looked up in two ways:
  - the Digital Pali Dictionary (DPD) tables: inflection to headword, and
    compound deconstruction;
  - failing those, the compound decomposer. It tries complete readings
    under the pi/vy/ti spelling variants, strips the negation prefix
    (an-/a-), then resolves a chain of longest dictionary prefixes,
    re-inserting vowels elided by sandhi at each join.

  Classical Chinese text is normalised character by character through a
  variant table.
- **The `/api/lookup` POST handler** (`src/pages/api/lookup.ts`):
  - a 404 when the dictionary for the language pair is missing;
  - the Chinese substring scan;
  - the per-word Pali loop, with the English dictionary as a fallback.
- **The interface-string system** (`src/i18n/index.ts`): the merge of
  translation files into one record per locale, and `t()` with its
  locale → English → key fallback, `{name}` substitution and trimming.
- **`Accept-Language` parsing** (`src/utils/language.ts`) and **sentence
  casing** (`src/utils/strings.ts`).

Each loop of the source is a `method` with the same loop, proved equal to
a recursive specification function. Each property the code promises is
stated as a lemma about that function. Pure source functions are Dafny
functions. Layout, by module:

| Module | Contents |
|---|---|
| `Wrappers` | the `Option` type |
| `Chars` | white space, letters, case mappings |
| `Text` | `split(c)[0]`, `trim`, `includes`, `endsWith`, `substring`, literal `replace` |
| `LookupTypes` | entries, `PaliMatch`, the fixed glosses, ending rules |
| `Normalize` | `normalizeHanzi`, `cleanPaliWord`, `normalizeDpdWord` |
| `Matchers` | `exactMatch`, `fuzzyMatch`, `matchComplete`, `matchPartial` |
| `Dpd`, `DpdLookup` | `lookupDpd` |
| `Compound` | `lookupCompound` |
| `Pali` | `lookupPali`, `serializeMatch` |
| `LookupApi` | the POST handler |
| `I18n` | locale files, the merge and `t` |
| `Language` | `getPreferredLanguage`, `getPreferredLocale` |
| `Strings` | `toSentenceCase` |

`cleanPaliWord` is not idempotent. It trims (src/utils/lookup.ts:27)
before it removes soft hyphens (U+00AD) and syllable breakers (U+2027,
line 28), so white space next to one of those marks survives the first
cleaning and is trimmed by the second:

- a soft hyphen, a space and "a" cleans to " a";
- " a" cleans to "a".

`Normalize.CleanPaliWordNotIdempotent` proves this. Idempotence is proved
for words without those two marks.

## Model

| member | source | states |
|---|---|---|
| Chars.LowerStr | src/utils/lookup.ts:27 | `toLowerCase`: same length, each character lower-cased on its own by the one-character mappings of Latin-1, Latin Extended-A and -B and Latin Extended Additional |
| Chars.UpperStr | src/utils/strings.ts:16 | `toUpperCase` of a match: same length, each character upper-cased on its own by the same tables |
| Chars.CaseMappingKeepsLetters | src/utils/strings.ts:15-16 | case mappings send letters to letters and leave every non-letter unchanged |
| Chars.SpaceIsCaseless | src/utils/strings.ts:16 | white space is not a letter and has no case |
| Chars.LowerIdempotent | src/utils/strings.ts:15 | lower-casing twice is lower-casing once |
| Chars.UpperIdempotent | src/utils/strings.ts:16 | upper-casing twice is upper-casing once |
| Chars.UpperLowerRoundTrip | src/utils/strings.ts:15-16 | a character that lower-casing changes is restored by upper-casing, except ẞ and the title-case digraphs ǅ ǈ ǋ ǲ |
| Chars.LowerUpperRoundTrip | src/utils/strings.ts:15-16 | a character that upper-casing changes is restored by lower-casing, except ı, ſ, ẛ and the title-case digraphs |
| Chars.CapitalIsStable | src/utils/strings.ts:15-16 | the capital of a lower-cased character survives another lower-casing and upper-casing |
| Text.BeforeFirst | src/utils/language.ts:6-7 | `split(sep)[0]`: a prefix of the input without `sep`, ending just before the first `sep` when there is one |
| Text.BeforeFirstAppend | src/utils/language.ts:6-9 | text without the separator passes through `split(sep)[0]` unchanged |
| Text.BeforeFirstAt | src/utils/language.ts:9 | `split(sep)[0]` stops at the first separator |
| Text.TrimStart | src/utils/lookup.ts:27 | what is cut off the front is white space, and what is kept is the rest of the input, starting with none |
| Text.TrimEnd | src/utils/lookup.ts:27 | what is cut off the back is white space, and what is kept is the front of the input, ending with none |
| Text.Trim | src/utils/lookup.ts:27 | `trim`: the result is a slice of the input with only white space before and after it, and it has no white space at either end |
| Text.TrimChars | src/utils/language.ts:7 | trimming adds no character |
| Text.TrimFixed | src/i18n/index.ts:68 | a string without outer white space is its own trim |
| Text.TrimBlank | src/utils/lookup.ts:27 | a string of white space trims to "" |
| Text.ContainsIffOccurs | src/utils/lookup.ts:90 | `includes` holds exactly when the pattern occurs at some index |
| Text.RemoveAllMembers | src/utils/lookup.ts:23-26 | deleting a character class keeps exactly the characters outside it |
| Text.RemoveAllAppend | src/utils/lookup.ts:23-26 | deleting works piece by piece, so the characters kept stay in their order |
| Text.RemoveAllChar | src/utils/lookup.ts:23-26 | one character is deleted exactly when it is in the class |
| Text.ReplaceAll | src/utils/lookup.ts:29 | a global literal `replace` with an equal-length replacement keeps the length |
| Text.ReplaceAllAbsent | src/utils/lookup.ts:29 | replacing an absent pattern changes nothing |
| Text.ReplaceCharPointwise | src/utils/lookup.ts:38 | replacing one character by another changes exactly the positions holding it |
| Text.ReplacePairPointwise | src/utils/lookup.ts:29 | replacing `xy` by `zy` (x ≠ y) keeps the length and puts `z` at exactly the positions holding an `x` followed by a `y`, every other character kept |
| Text.ReplacePairRemovesPair | src/utils/lookup.ts:29 | after replacing `xy` by `zy`, no `xy` is left |
| Normalize.NormalizeHanzi | src/utils/lookup.ts:17-19 | same length; each character is its variant-table image, or itself when the table has none |
| Normalize.NormalizeDpdWord | src/utils/lookup.ts:37-39 | no ṁ and no straight quote is left; a word without quotes keeps its length and has each ṁ replaced by ṃ, every other character kept |
| Normalize.NormalizeDpdWordAppend | src/utils/lookup.ts:37-39 | the normalisation works character by character: a concatenation normalises to the concatenation of the results |
| Normalize.NormalizeDpdWordChar | src/utils/lookup.ts:37-39 | on one character: a straight quote is deleted, ṁ becomes ṃ, anything else is kept |
| Normalize.CleanPaliWord | src/utils/lookup.ts:22-31 | `cleanPaliWord` deletes or replaces characters one for one, so the word never grows |
| Normalize.CleanPaliWordIsClean | src/utils/lookup.ts:22-31 | the cleaned word holds no listed punctuation, soft hyphen or syllable breaker, only lower-case characters, and no "ṁg" or "ṁk" |
| Normalize.BlankCleansToEmpty | src/utils/lookup.ts:23-27 | a word of punctuation and white space cleans to "" |
| Normalize.CleanOutputIsTrimmed | src/utils/lookup.ts:27-29 | without break marks, the cleaned word has no outer white space |
| Normalize.CleanPaliWordFixedPoint | src/utils/lookup.ts:22-31 | a clean, trimmed word without "ṁg"/"ṁk" is left unchanged by cleaning |
| Normalize.CleanPaliWordIdempotent | src/utils/lookup.ts:22-31 | cleaning is idempotent on words without soft hyphens or syllable breakers |
| Normalize.CleanPaliWordNotIdempotent | src/utils/lookup.ts:27-28 | soft hyphen, space, "a" cleans to " a", which cleans to "a": cleaning twice differs from cleaning once |
| Normalize.ReplacingKeepsPairAbsent | src/utils/lookup.ts:29 | the "ṁk" rewrite cannot create a "ṁg" |
| Matchers.ExactMatch | src/utils/lookup.ts:41-47 | a result exactly when the word is a key, and then it is the hit on the word with its entry |
| Matchers.RuleFiresIffSuffix | src/utils/lookup.ts:54-57 | the rule's `substring` test is exactly: longer than `minLen` and ending in the rule's ending |
| Matchers.Fuzzy | src/utils/lookup.ts:49-64 | any result is a hit on a key with that key's entry |
| Matchers.FuzzyMatch | src/utils/lookup.ts:49-64 | the rule loop with its early return computes `Fuzzy` |
| Matchers.FuzzyPicksFirstHit | src/utils/lookup.ts:53-61 | the stem of the first rule, in table order, that fires and whose stem is a key is returned; rules whose stem is absent are skipped |
| Matchers.FuzzyNoneIffNoHit | src/utils/lookup.ts:49-64 | no result exactly when no rule fires with a key as its stem |
| Matchers.Probe | src/utils/lookup.ts:94 | `exactMatch || fuzzyMatch`: any result is a hit on a key with its entry |
| Matchers.Swap | src/utils/lookup.ts:89-93 | the vy/by interchange applies exactly when "vy" or "by" occurs, and keeps the length |
| Matchers.SwapRemovesReplaced | src/utils/lookup.ts:90-91 | after the interchange the spelling that was replaced is gone |
| Matchers.Outcome | src/utils/lookup.ts:76-99 | one pass yields a hit, followed by the "pi" gloss exactly under the pi flag |
| Matchers.FirstOf | src/utils/lookup.ts:95-98 | the first present of two outcomes: present iff one is, and the first wins |
| Matchers.Complete | src/utils/lookup.ts:66-102 | any result is a complete reading: a dictionary hit, alone or followed by the "pi" gloss |
| Matchers.LoopLevels | src/utils/lookup.ts:73-75 | the three loops unroll into their eight passes, pi outermost and ti innermost |
| Matchers.TryCombination | src/utils/lookup.ts:76-99 | one pass of the loop body computes `Outcome` for its flags |
| Matchers.PassWord | src/utils/lookup.ts:76-93 | the word a pass probes, or none where the source `continue`s |
| Matchers.MatchComplete | src/utils/lookup.ts:66-102 | the triple loop with its early return computes `Complete` |
| Matchers.CompleteNoneIffNoHit | src/utils/lookup.ts:66-102 | null exactly when none of the eight passes hits |
| Matchers.CompleteIsFirstHit | src/utils/lookup.ts:73-99 | a result is the outcome of the first hitting pass in loop order, with the "pi" gloss iff that pass removed "pi" |
| Matchers.LongestKeyPrefix | src/utils/lookup.ts:117-127 | the longest prefix length, from the full length down to 4, that is a key; no longer one is |
| Matchers.PrefixMatch | src/utils/lookup.ts:117-127 | a prefix hit of at least 4 characters whose base followed by its leftover spells the word |
| Matchers.Partial | src/utils/lookup.ts:104-130 | a prefix hit whose base and leftover together are as long as the word |
| Matchers.LongestPrefixHit | src/utils/lookup.ts:117-127 | the prefix loop with its `break` computes `PrefixMatch` |
| Matchers.MatchPartial | src/utils/lookup.ts:104-130 | the spelling and prefix loops compute `Partial` |
| Matchers.PartialIsLongestPrefix | src/utils/lookup.ts:104-130 | the base is the longest key prefix of the word, or of its vy/by interchange when the word has none; null iff neither has one |
| Dpd.Root | src/utils/lookup.ts:145 | `split(' ')[0]`: the tag's prefix before its first space |
| Dpd.AddUniqueProps | src/utils/lookup.ts:146 | the push-if-absent keeps the list repeat-free and adds exactly the new headword |
| Dpd.RootsProps | src/utils/lookup.ts:142-148 | the collected roots never repeat and are exactly the roots of the tags |
| Dpd.RootsInFirstAppearanceOrder | src/utils/lookup.ts:142-148 | the roots come in order of first appearance: for two collected roots, a tag with the earlier one precedes every tag with the later one |
| Dpd.FirstComponent | src/utils/lookup.ts:151 | the first '+' component holds no '+' |
| Dpd.HeadwordsProps | src/utils/lookup.ts:142-152 | the candidates never repeat and are exactly the tag roots and the analysis's first component; the roots come first in their order, and the component, when new, last |
| Dpd.Normalized | src/utils/lookup.ts:158 | ṃ becomes ṁ position by position, and no ṃ is left |
| Dpd.Hits | src/utils/lookup.ts:156-162 | every hit is a dictionary hit on a ṃ-free key, without meaning or leftover |
| Dpd.HitsMembers | src/utils/lookup.ts:156-162 | the hits are exactly the hits on those candidates whose ṁ spelling is a key |
| Dpd.HitsAppend | src/utils/lookup.ts:156-162 | the hits keep the candidates' order: the hits of two lists in a row are those of the first, then those of the second |
| Dpd.HitsOfOne | src/utils/lookup.ts:156-162 | one candidate gives its hit exactly when its ṁ spelling is a key |
| Dpd.DpdMatches | src/utils/lookup.ts:133-165 | the DPD result: complete matches only, at most one per headword plus the analysis gloss, and every match after the first a dictionary hit |
| Dpd.DpdEmptyWhenUnknown | src/utils/lookup.ts:133-165 | a word in neither table gets no matches |
| Dpd.DpdShape | src/utils/lookup.ts:150-162 | the analysis gloss comes first; every other match is a hit on a ṁ-spelt candidate; every such candidate gives one |
| DpdLookup.CollectHeadwords | src/utils/lookup.ts:139-152 | the tag loop and the analysis step compute `Headwords` |
| DpdLookup.HeadwordHits | src/utils/lookup.ts:156-162 | the headword loop computes `Hits` |
| DpdLookup.LookupDpd | src/utils/lookup.ts:133-165 | `lookupDpd` computes `DpdMatches` |
| Compound.Unquoted | src/utils/lookup.ts:176-180 | no straight quote is left, and the word does not grow |
| Compound.UnquotedCutsTi | src/utils/lookup.ts:176-180 | a quote and "ti" at the end are cut off, then the straight quotes of the rest are deleted |
| Compound.UnquotedPlain | src/utils/lookup.ts:176-180 | without a quoted-ti ending only the straight quotes are deleted; a word without them is kept whole |
| Compound.NegationStem | src/utils/lookup.ts:191-196 | a stem is a proper suffix of a word starting with "a", shorter by 2 after "an" or "a" plus a doubled character, else by 1 |
| Compound.NegationStemEmpty | src/utils/lookup.ts:191-197 | no stem exactly for "", a word not starting with "a", "a" and "an" |
| Compound.VowelStarts | src/utils/lookup.ts:255-257 | one start per vowel, in order: the vowel, then the first leftover character |
| Compound.Starts | src/utils/lookup.ts:249-257 | 3 fixed starts plus one per vowel; every start is at most 2 characters |
| Compound.TryStarts | src/utils/lookup.ts:259-274 | a complete reading found is a reading; a prefix hit found is at most 2 characters longer than the leftover |
| Compound.TryStartsUnresolved | src/utils/lookup.ts:259-276 | nothing found exactly when no start gives a complete reading or a prefix hit |
| Compound.NextStep | src/utils/lookup.ts:237-274 | a further prefix hit leaves a leftover at least 3 characters shorter, so the `while` loop ends |
| Compound.Resolve | src/utils/lookup.ts:226-283 | the chain from a prefix hit starts with that hit |
| Compound.ResolvePieces | src/utils/lookup.ts:226-283 | every match of the chain is a dictionary hit, the "pi" gloss or a "?" rest other than "ṁ" |
| Compound.ResolveAtEnd | src/utils/lookup.ts:241-246 | the loop stops at a prefix hit without leftover |
| Compound.ResolveCompleted | src/utils/lookup.ts:261-266 | a complete reading of the rest is appended and ends the loop |
| Compound.ResolveContinued | src/utils/lookup.ts:268-272 | a prefix hit on the rest continues the loop from it |
| Compound.ResolveUnresolved | src/utils/lookup.ts:276-282 | otherwise the rest becomes a "?" gloss, unless it is exactly "ṁ" |
| Compound.DecomposeStart | src/utils/lookup.ts:210-222 | the stem's prefix hit wins only when strictly longer, then behind the negation gloss; ties keep the plain word |
| Compound.DecomposePieces | src/utils/lookup.ts:208-283 | the decomposition holds pieces, led by the negation gloss and a hit when the stem won |
| Compound.AnalysisPieces | src/utils/lookup.ts:184-283 | every match is a piece, except a leading negation gloss, present only with a stem and followed by a hit |
| Compound.GlossesAreNotPieces | src/utils/lookup.ts:200 | the negation and "iti" glosses are not pieces and differ |
| Compound.CompoundPrefersComplete | src/utils/lookup.ts:184-206 | a complete reading of the unquoted word is the answer, plus "iti" after a quoted ti |
| Compound.NegationGlossLeads | src/utils/lookup.ts:187-221 | the negation gloss comes first, only once, only with a stem, and before the hit it qualifies |
| Compound.EndQuoteLast | src/utils/lookup.ts:286-288 | "iti" is appended exactly when a quoted ti was cut and a match exists, and then last and only once |
| Compound.BuildStarts | src/utils/lookup.ts:249-257 | builds `Starts` as the source does |
| Compound.ScanStarts | src/utils/lookup.ts:259-274 | the `for` scan with its two breaks computes `TryStarts` |
| Compound.ScanAfter | src/utils/lookup.ts:249-274 | the scan at one join: a complete reading it finds consists of pieces, and a further prefix hit is a genuine prefix hit whose base and leftover exceed the rest by at most the two characters of its start |
| Compound.ScanJoin | src/utils/lookup.ts:249-274 | building the starts for a join and scanning them in order gives the scan at that join |
| Compound.NextStepScans | src/utils/lookup.ts:237-274 | one pass of the loop body splits off the leftover's first character and scans the join after the last character of the prefix hit |
| Compound.ChainStep | src/utils/lookup.ts:226-283 | one pass appends what `Resolve` prescribes, and the next hit has a shorter leftover |
| Compound.RunChain | src/utils/lookup.ts:225-283 | the `while` loop appends the chain from the start hit |
| Compound.ChooseStart | src/utils/lookup.ts:210-223 | the first prefix hit: the stem's when it is strictly longer, else the word's |
| Compound.Decomposition | src/utils/lookup.ts:208-284 | the partial branch computes `Decompose` |
| Compound.ReadNegated | src/utils/lookup.ts:197-202 | the stem's complete reading, behind the negation gloss, or nothing |
| Compound.ReadWhole | src/utils/lookup.ts:184-206 | the complete readings tried first, with the stem they used |
| Compound.Compound | src/utils/lookup.ts:168-291 | the analysis of the unquoted word, kept whole and in order, plus at most one gloss; empty exactly when the analysis is |
| Compound.LookupCompound | src/utils/lookup.ts:168-291 | `lookupCompound` computes `Compound` |
| Pali.Pali | src/utils/lookup.ts:293-311 | only a word that cleans to something non-empty has matches |
| Pali.FallsBackToCompound | src/utils/lookup.ts:303-310 | without a DPD answer, the answer is the compound lookup of the cleaned word |
| Pali.LookupPali | src/utils/lookup.ts:293-311 | `lookupPali` computes `Pali` |
| Pali.CleanedWordIsUnquoted | src/utils/lookup.ts:176-180 | a cleaned word never ends in a quoted ti and has no quote to delete |
| Pali.CleanCharsAreUnquoted | src/utils/lookup.ts:24 | a word of clean characters holds no quote mark |
| Pali.BlankWordHasNoMatches | src/utils/lookup.ts:299-300 | a word of punctuation and white space has no matches |
| Pali.DpdFirst | src/utils/lookup.ts:303-306 | with both tables, a non-empty DPD result is the answer |
| Pali.CompoundFallback | src/utils/lookup.ts:309-310 | otherwise the answer is the compound analysis of the cleaned word, without "iti" |
| Pali.SerializeMatch | src/utils/lookup.ts:313-321 | keeps the base; carries the entry exactly when the match has one |
| Pali.SerializeIgnoresLeftover | src/utils/lookup.ts:313-321 | the leftover does not affect serialization |
| Pali.SerializeHitsAndGlosses | src/utils/lookup.ts:319-320 | a hit gives its key's entry, a gloss its meaning, and a bare match "?" |
| LookupApi.KeysAtMembers | src/pages/api/lookup.ts:73-75 | the keys at a position are the keys of the allowed lengths occurring there |
| LookupApi.ScannedMembers | src/pages/api/lookup.ts:72-77 | the keys found before position i are the keys of 1 to 20 characters occurring before it |
| LookupApi.HanziFoundKeys | src/pages/api/lookup.ts:67-77 | exactly the keys of 1 to 20 characters that occur in the text, each with its own entry |
| LookupApi.ScanPosition | src/pages/api/lookup.ts:73-76 | the `len` loop adds exactly the keys at position i, each with its own entry |
| LookupApi.ScanHanzi | src/pages/api/lookup.ts:69-77 | the nested loops compute `HanziFound` |
| LookupApi.SerializeAll | src/pages/api/lookup.ts:119 | `map(serializeMatch)`: same length, in order |
| LookupApi.PaliResultsKeys | src/pages/api/lookup.ts:111-121 | a word is a key iff asked for and matched; it maps to its matches serialized in order |
| LookupApi.EnglishOnlyAsFallback | src/pages/api/lookup.ts:112-116 | the English dictionary is used only when in play and the primary one found nothing |
| LookupApi.MatchWord | src/pages/api/lookup.ts:112-116 | one pass of the word loop computes the word's matches |
| LookupApi.LookupWords | src/pages/api/lookup.ts:106-121 | the per-word loop computes `PaliResults` |
| LookupApi.MissingDictionaryIs404 | src/pages/api/lookup.ts:60-65 | 404 with "{}" exactly when the dictionary is missing; otherwise a 200 carrying the Chinese results for "lzh" and the Pali results for any other source language |
| LookupApi.ChineseBranch | src/pages/api/lookup.ts:67-82 | the lzh answer ignores the Pali tables and reports exactly the keys of 1 to 20 characters in the normalised text |
| LookupApi.PaliBranch | src/pages/api/lookup.ts:84-125 | the Pali answer records exactly the words with matches; the English dictionary is in play only when the target is not "en" |
| LookupApi.Post | src/pages/api/lookup.ts:56-126 | the status is 200 or 404, and a 404 carries the empty object |
| LookupApi.HandlePost | src/pages/api/lookup.ts:56-126 | the handler computes `Post` |
| I18n.MatchHereSound | src/i18n/index.ts:20 | a match at the start means the string is `./locales/<locale>/<file>.json` with slash-free, non-empty names |
| I18n.MatchHereComplete | src/i18n/index.ts:20 | every such path matches at its start, giving back its names |
| I18n.NoNestedLocaleFile | src/i18n/index.ts:20 | a locale file's path is never a proper suffix of another one |
| I18n.NoEarlierMatch | src/i18n/index.ts:20 | no match starts before the suffix that is a locale file's path |
| I18n.MatchFromFinds | src/i18n/index.ts:20 | the unanchored search finds the leftmost match |
| I18n.MatchFromSound | src/i18n/index.ts:20 | a successful search found a match at or after its start |
| I18n.ParsePathIff | src/i18n/index.ts:20-22 | `(locale, file)` exactly when both are non-empty and slash-free and the path ends in their locale file's path |
| I18n.ParsePath | src/i18n/index.ts:20 | `path.match`: a locale and a file name, both non-empty and slash-free, or nothing |
| I18n.MatchFromLocaleFile | src/i18n/index.ts:20-22 | what the search returns names a locale file the path ends in |
| I18n.ParsePathComplete | src/i18n/index.ts:20-22 | a path ending in a locale file's path yields that locale and name |
| I18n.NonJsonSkipped | src/i18n/index.ts:20-21 | a path not ending in ".json" is skipped |
| I18n.Merged | src/i18n/index.ts:19-34 | every locale of the merged translations is a name the path pattern accepts |
| I18n.LoadTranslations | src/i18n/index.ts:19-34 | the loading loop computes `Merged` over the files in visiting order |
| I18n.MergedLookup | src/i18n/index.ts:19-34 | a locale's merged record has a key iff one of its files has it, with the last such file's value |
| I18n.MergedLocales | src/i18n/index.ts:19-34 | a locale has a record iff one of its files is in the list |
| I18n.UnmatchedIgnored | src/i18n/index.ts:20-21 | a file whose path does not match changes nothing, wherever it comes |
| I18n.NatToString | src/i18n/index.ts:64 | `String(n)`: non-empty decimal digits without leading zero |
| I18n.NatToStringRoundTrip | src/i18n/index.ts:64 | reading the digits back gives the number |
| I18n.Show | src/i18n/index.ts:64 | a truthy value's text is non-empty |
| I18n.Replacement | src/i18n/index.ts:62-64 | the replacement is non-empty exactly when the variable is present and truthy |
| I18n.WordRun | src/i18n/index.ts:61 | the maximal run of `\w` characters |
| I18n.WordRunOf | src/i18n/index.ts:61 | a word run stops exactly at the end of a name followed by a non-word character |
| I18n.Substitute | src/i18n/index.ts:61-65 | a string without '{' is its own substitution |
| I18n.SubstitutePlain | src/i18n/index.ts:61 | text without '{' passes through substitution unchanged |
| I18n.SubstitutePlaceholder | src/i18n/index.ts:61-65 | `{name}` becomes its replacement and the scan resumes after the brace |
| I18n.InsertedVerbatim | src/i18n/index.ts:61 | a single pass: an inserted string is not scanned again |
| I18n.LoneBraceKept | src/i18n/index.ts:61 | a brace not starting a placeholder stays |
| I18n.FalsyErased | src/i18n/index.ts:62-63 | a missing or falsy value erases its placeholder |
| I18n.Choose | src/i18n/index.ts:57-58 | the result is the locale's string, the English one or the key; "" only for an empty key |
| I18n.T | src/i18n/index.ts:52-69 | the result has no outer white space |
| I18n.LocaleFirst | src/i18n/index.ts:57-58 | a non-empty string of the locale is used |
| I18n.FallsBackToEnglish | src/i18n/index.ts:57-58 | without one, `t` answers as for English |
| I18n.UnknownKey | src/i18n/index.ts:57-58 | a key translated nowhere comes back trimmed |
| I18n.VariablesNeedPlaceholders | src/i18n/index.ts:60-66 | variables change nothing in a string without '{' |
| Language.FirstRangeShape | src/utils/language.ts:6-7 | the first range has no ',' or ';' and no outer white space |
| Language.PreferredLanguage | src/utils/language.ts:1-10 | `getPreferredLanguage`: the language contains no ',', ';' or '-' |
| Language.PreferredLocale | src/utils/language.ts:12-18 | `getPreferredLocale`: the locale contains no ',' or ';' and has no outer white space |
| Language.SubtagChars | src/utils/language.ts:9 | the part before the first '-' brings in no character the range lacks |
| Language.LanguageOfLocale | src/utils/language.ts:6-9 | with a header, the language is the locale cut at its first '-' |
| Language.DefaultsAgree | src/utils/language.ts:4 | without a header: "en" and "en-US", the first the language of the second |
| Language.LocaleWithRegion | src/utils/language.ts:17 | a first range `lang-region` before ',' or ';' is the locale, region kept |
| Language.LanguageWithRegion | src/utils/language.ts:6-9 | for such a header the language is `lang` |
| Language.FirstRangeOf | src/utils/language.ts:6-7 | a trimmed range without ',' or ';' is the first range of any header it starts |
| Strings.SpaceRun | src/utils/strings.ts:16 | `\s*`: the maximal run of white space |
| Strings.PrevNonSpace | src/utils/strings.ts:16 | the last non-space index before a position, white space only in between |
| Strings.CapitalizeFrom | src/utils/strings.ts:16 | the global replace keeps the length |
| Strings.CapitalizeFromExpected | src/utils/strings.ts:16 | the replace scan produces the expected character at every position |
| Strings.SentenceCase | src/utils/strings.ts:11-17 | `toSentenceCase` keeps the length |
| Strings.SentenceCasePointwise | src/utils/strings.ts:11-17 | same length; every character lower-cased, except letters at the start or after '.', '!', '?' and white space, which are upper-cased |
| Strings.NoSpaceNoCapital | src/utils/strings.ts:16 | a letter straight after '.', '!' or '?' stays lower-case |
| Strings.SentenceCaseIdempotent | src/utils/strings.ts:11-17 | sentence-casing twice is sentence-casing once |

## Left out

- Loading the tables (`loadAsset` and its cache, src/pages/api/lookup.ts:9-35) is not modelled. The dictionary, the DPD tables and the English dictionary are inputs, `None` when absent. This covers the file system, the `ASSETS` fetch, JSON parsing and the benign first-load race.
- The request's JSON body, `JSON.stringify` and the `Content-Type` header are not modelled. A response is a status and a structured body.
- The `PALI_ENDINGS` and `HANZI_VARIANTS` tables are inputs: `~/constants/lookup` is not part of this model.
- `import.meta.glob` is replaced by an ordered list of (path, record) pairs in the order the loop visits them. Records are string-to-string maps; nested values are not modelled.
- `getLanguageName` and `Intl.DisplayNames` are not part of this model.
- json-ld, sc-map, cookies, middleware, the configuration and the scripts are not part of this model.
- Strings are sequences of code points. JavaScript indexes UTF-16 units, so for text outside the Basic Multilingual Plane the Chinese scan's positions and lengths differ from the model's.
- Letters come from a finite table: ASCII, Latin-1, Latin Extended-A and -B and Latin Extended Additional, which cover every Pali letter. Other scripts have no letters or case here. The white-space set is exact.
- LowerStr: lower-cases by the one-character mappings whose two partners are both among the modelled letters. Latin Extended-B capitals whose small letter lies in IPA Extensions or Latin Extended-C (Ɓ Ɔ Ɖ Ɗ Ə Ɛ Ɠ Ɣ Ɩ Ɨ Ɯ Ɲ Ɵ Ʀ Ʃ Ʈ Ʊ Ʋ Ʒ Ⱥ Ⱦ Ʉ Ʌ) keep their case. So does İ, whose JavaScript lower-case form is two characters, because the model keeps lengths.
- UpperStr: upper-cases by the same tables. The small letters whose capital lies elsewhere (µ, whose capital is Greek; ȿ and ɀ, whose capitals are in Latin Extended-C) keep their case. So do those whose JavaScript upper-case form is two characters (ß, ŉ, ǰ, ẖ, ẗ, ẘ, ẙ, ẚ).
- `\w` is ASCII, as in JavaScript regular expressions without the `u` flag.
- Keys inherited from `Object.prototype` are not modelled. Every record is a map holding only its own keys. This matters in these places:
  - a dictionary key is present exactly when its entry is truthy, which holds for own keys, since entries are objects;
  - `word in dpdI2h` (src/utils/lookup.ts:141) is true in the program for a word such as "constructor", which then fails iterating a function; in the model it is simply absent;
  - `result[word] = …` (src/pages/api/lookup.ts:119) does not record a word "__proto__" in the program, since that assignment sets the prototype; the model records it;
  - `t`'s variables are looked up the same way (`variables[varName]`, src/i18n/index.ts:62), so an inherited name such as "constructor" is a missing variable in the model.
- `t`'s variables are strings, integers, booleans or null. Objects, arrays, floating-point numbers and `undefined` are not modelled.
- `I18n.NatToString` prints only naturals. `I18n.Show` prints a negative integer as "-" followed by its digits. Exponent notation for large numbers is not modelled.
- `Compound.NegationStem`: "" also stands for `null`. The source only tests `unword` for truthiness, so the two are never told apart.
- `Compound.RunChain` models only the single-match form of `matchResult`. The array branches at src/utils/lookup.ts:227-235 are dead: after line 210, `matchResult` is always a single `matchPartial` result.
- The quoted-ti branch of `lookupCompound` is modelled, but it cannot be reached from `lookupPali`, because cleaning deletes the quotes (`Pali.CleanedWordIsUnquoted`).
- `Pali.CompoundFallback` states the fallback for the cleaned word only. Raw words reach `lookupCompound` only through `lookupPali`.
- `LookupApi.LookupWords` takes the per-word lookup as a function value, which is `WordLookup` for the handler.
- The quote class `[''""]` of src/utils/lookup.ts:38 and 180 is read as the straight quotes `'` and `"`. The class of line 176 also has the curly single quotes.
