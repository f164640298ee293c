# WordTree core, modelled in Dafny

WordTree is a reading aid. The user selects a word in a text editor, and a panel
shows the word's dictionary meanings, synonyms, translations into other
languages and, on request, its etymology. This project models the logic behind
that panel:

- the lookup route (`GET /api/lookup`). It detects the script of the word and
  resolves the word to WordNet synsets in three tiers. It groups dictionary
  definitions by part of speech and scans for same-synset synonyms. It merges
  the synsets' translations, then normalises and validates the word for the
  etymology query. Finally it merges the settled tasks into one response;
- the translate route (`POST /api/translate`). It validates the request and
  fans out over the sixteen target languages. It keeps a cache of at most ten
  translation models, evicting the least recently used;
- the two offline table builders. One turns the Japanese WordNet tab files
  into the word table, the other turns the Open Multilingual Wordnet lexicons
  into the synset → language → lemmas table. The lookup route reads both
  tables;
- the client logic: the search history (newest first, no repeated word, at
  most twenty), the cleaning of selected text in the editor, and the
  word-lookup hook's guards and retry back-off.

The route's two tables are immutable values passed in as parameters. Every
answer of an upstream service (Datamuse, DBnary) is a parameter of type
`FetchResult` (network failure, HTTP error status, or a parsed body). The clock
is a parameter. JavaScript objects and `Map`s are insertion-ordered
association lists. Strings are sequences of Unicode scalar values. The
character classes, trimming, splitting and deletions modelled here give the same
result on scalar values as on UTF-16 code units for well-formed text.

Modules: `Collections` (association lists, `Distinct`, grouping and union) and
`Text` (JavaScript white space, `trim`, `includes`, `split`) are shared;
`Lexicon` and `LookupTypes` hold the table schema and the route's values;
`SynsetResolver`, `Translations`, `Dictionary`, `Synonyms`, `Etymology` and
`LookupHandler` follow the lookup route; `JapaneseWordNetBuilder` and
`OmwBuilder` follow the two scripts; `TranslateRoute`, `SearchHistory`,
`TextEditor` and `WordLookup` follow their source files.

Where the source changes state step by step, the model does too. The loops
are methods proved equal to a specification function. The translation-model
cache, the search-history hook and the editor's composition flag are classes.

## Model

| member | source | states |
|---|---|---|
| LookupTypes.DetectLanguage | src/app/api/lookup/route.ts:195-199 | Japanese exactly when some character is hiragana, katakana or in U+4E00–U+9FAF |
| LookupTypes.ScanJapanese | src/app/api/lookup/route.ts:197-198 | the character scan finds a match exactly when the word has a Japanese-script character |
| LookupTypes.InputLanguageCode | src/app/api/lookup/route.ts:519 | the excluded code is `ja` for Japanese input and `en` otherwise |
| LookupTypes.DetectLanguageExamples | src/app/api/lookup/route.ts:195-199 | 美しい and tree木 are Japanese, cat is English |
| LookupTypes.ItemWords | src/app/api/lookup/route.ts:396 | one word per Datamuse item, in order |
| SynsetResolver.ExactIdsMembers | src/app/api/lookup/route.ts:438-444 | a synset is an exact hit exactly when its English lemmas include the word |
| SynsetResolver.FuzzyIdsMembers | src/app/api/lookup/route.ts:447-458 | a synset is a fuzzy hit exactly when one of its English lemmas contains the word or is contained in it, ignoring ASCII case |
| SynsetResolver.ExactWithinFuzzy | src/app/api/lookup/route.ts:438-458 | every exact hit is also a fuzzy hit |
| SynsetResolver.SynsetIdsSpec | src/app/api/lookup/route.ts:422-500 | no id twice; Japanese words: exactly the synsets of their senses, each kept at its first occurrence in sense order; English: the exact hits when there are any, else the fuzzy hits when there are any, else, for a successful Datamuse answer, exactly the exact hits of its related words; the expansion answer matters only when both tiers are empty; a failed expansion gives no ids |
| SynsetResolver.ExpansionIdsMembers | src/app/api/lookup/route.ts:478-491 | the expansion tier finds a synset exactly when it is an exact hit of one of the related words |
| SynsetResolver.GetSynsetIds | src/app/api/lookup/route.ts:422-500 | the nested push-unless-present loops compute `SynsetIds`, and the Datamuse request is made exactly when both local tiers are empty for English input |
| SynsetResolver.CollectSenses | src/app/api/lookup/route.ts:426-435 | the Japanese tier's loop yields the distinct synset ids of the senses |
| SynsetResolver.AnyFuzzyMatch | src/app/api/lookup/route.ts:449-452 | the `some` loop answers whether some lemma matches fuzzily |
| SynsetResolver.CollectFuzzy | src/app/api/lookup/route.ts:447-458 | the fuzzy tier's loop yields the distinct fuzzy hits in table order |
| SynsetResolver.CollectExpansion | src/app/api/lookup/route.ts:478-491 | the expansion loop yields the distinct exact hits of each related word in turn |
| SynsetResolver.CollectExact | src/app/api/lookup/route.ts:438-444 | the exact loop appends the new exact hits to the ids collected so far |
| Translations.SynsetEntriesMembers | src/app/api/lookup/route.ts:508-516 | a (language, lemmas) entry is visited exactly when one of the synsets lists it; unknown ids contribute nothing |
| Translations.TranslationsSpec | src/app/api/lookup/route.ts:503-542 | the input's own language is never a key; every other language of the synsets maps to the first five of its distinct lemmas in first-seen order; a lemma is merged exactly when a synset lists it; no synsets give no translations |
| Translations.TranslationsWellFormed | src/app/api/lookup/route.ts:519-528 | no language twice; every list is duplicate-free and at most five long |
| Translations.FetchTranslationData | src/app/api/lookup/route.ts:503-542 | the Set-filling loops, the `delete` and the `slice(0, 5)` compute `MergedTranslations`; the task never rejects |
| Translations.AddLemmas | src/app/api/lookup/route.ts:514 | adding lemmas to a Set appends the ones not yet present, in order |
| Collections.GroupedSpec | src/app/api/lookup/route.ts:237-247 | the `meaningsMap` grouping has each key once in first-seen order, with all of that key's values in order |
| Collections.UnionBySpec | src/app/api/lookup/route.ts:505-516 | the per-language Set union has each key once in first-seen order, with the distinct values of all its entries in first-seen order |
| Collections.DistinctOrder | src/app/api/lookup/route.ts:505-516 | a `Set` fed with a list keeps each element at its first occurrence, in the order of those occurrences |
| Dictionary.MeaningsOfPairs | src/app/api/lookup/route.ts:237-256 | meanings follow the first-seen order of the parts of speech; each holds exactly that part's definitions, in order, and none is empty |
| Dictionary.DefinitionText | src/app/api/lookup/route.ts:287 | a missing or empty definition becomes 定義がありません; a present one is kept |
| Dictionary.MeaningPairs | src/app/api/lookup/route.ts:282-290 | one (part of speech, definition text) pair per sense, in order |
| Dictionary.FirstRelatedKey | src/app/api/lookup/route.ts:307-308 | the first table key, in table order, that contains the word or is contained in it |
| Dictionary.JapaneseDictionary | src/app/api/lookup/route.ts:268-359 | the answer is about the input word; an exact entry is grouped by part of speech; otherwise the first related key's senses; otherwise one 不明 meaning |
| Dictionary.SenseMeaningsSpec | src/app/api/lookup/route.ts:280-295 | meanings in first-seen part-of-speech order, each with that part's definition texts, none empty |
| Dictionary.RelatedKeyOfWord | src/app/api/lookup/route.ts:307-308 | a key equal to the word is related, so a word the table lists never gets the placeholder |
| Dictionary.GroupSenses | src/app/api/lookup/route.ts:280-295 | the `forEach`/`push` loop computes the grouped meanings |
| Dictionary.FetchJapaneseDictionaryData | src/app/api/lookup/route.ts:268-359 | the exact, related-key and placeholder steps compute `JapaneseDictionary`; it never rejects |
| Dictionary.EnglishPairShape | src/app/api/lookup/route.ts:240-241 | `pos\tdef` parses into its two parts; a string without a tab is dropped |
| Dictionary.EnglishPairsMembers | src/app/api/lookup/route.ts:239-247 | a pair is kept exactly when some `defs` string yields it |
| Dictionary.EnglishDictionarySpec | src/app/api/lookup/route.ts:223-261 | fulfils exactly when the request succeeds with a non-empty array whose first item has `defs`; the word comes from that item; an empty `defs` gives no meanings |
| Dictionary.FetchEnglishDictionaryData | src/app/api/lookup/route.ts:211-266 | the guards and the grouping loop compute `EnglishDictionary` |
| Dictionary.DictionaryTask | src/app/api/lookup/route.ts:201-209 | Japanese words take the table path and always fulfil; others take the Datamuse path |
| Synonyms.WordsSharingMembers | src/app/api/lookup/route.ts:555-565 | a word is listed exactly when it is another table word with a sense in one of the synsets |
| Synonyms.WordsSharingSpec | src/app/api/lookup/route.ts:551-566 | the words sharing a sense are exactly the table words, other than the input, that share a synset with one of its senses, in table order |
| Synonyms.JapaneseSynonymsSpec | src/app/api/lookup/route.ts:545-581 | the synonyms are the first min(15, n) of the n table words sharing a synset with the word, in table order, never the word itself; all of them when n is at most fifteen; no antonyms; a word the table lacks has no synonyms |
| Synonyms.AnySharedSynset | src/app/api/lookup/route.ts:557-559 | the `some` loop answers whether an entry's synset is among the word's |
| Synonyms.FetchJapaneseWordNetData | src/app/api/lookup/route.ts:545-581 | the scan computes `JapaneseSynonyms`; it never rejects |
| Synonyms.NoSynsetsNoWords | src/app/api/lookup/route.ts:551-566 | with no synset ids no word is listed |
| Synonyms.EnglishSynonyms | src/app/api/lookup/route.ts:378-419 | fulfils exactly when the synonym request succeeds with an array and the antonym request neither throws nor returns a non-array; the synonyms are the first min(15, n) words of the n synonym items; antonyms absent exactly when the antonym request failed with a status or returned no items, else the first min(10, m) words of its m items |
| Synonyms.SynonymsTask | src/app/api/lookup/route.ts:361-376 | Japanese words take the table path and always fulfil; others take the Datamuse path |
| Etymology.FallbackTableLetterKeys | src/app/api/lookup/route.ts:701-895 | every key of the modelled table is a non-empty lower-case ASCII word |
| Etymology.FallbackEtymology | src/app/api/lookup/route.ts:700-898 | a hit is a non-empty string stored under the word; a miss means no non-empty string is stored under it |
| Etymology.FallbackFind | src/app/api/lookup/route.ts:897 | the lookup finds the entry of its key |
| Etymology.FallbackExample | src/app/api/lookup/route.ts:703 | `cat` is answered with its table string, `Cat` with nothing |
| Etymology.StripNonWord | src/app/api/lookup/route.ts:587 | a character remains exactly when it is in the input and is a `\w`, apostrophe or hyphen character; the result is a subsequence of the input, so those characters keep their order |
| Etymology.StripNonWordCounts | src/app/api/lookup/route.ts:587 | each `\w`, apostrophe or hyphen character remains as often as it occurs in the input |
| Etymology.StripLowerCommute | src/app/api/lookup/route.ts:587 | lower-casing then stripping equals stripping then lower-casing |
| Etymology.StripNonWordKeeps | src/app/api/lookup/route.ts:587 | a string of kept characters is unchanged |
| Etymology.Normalize | src/app/api/lookup/route.ts:587 | the normalised word is the lower-cased `StripNonWord` of the word: its `\w`, apostrophe and hyphen characters, in order, lower-cased; it has no upper-case ASCII letter |
| Etymology.FirstEtymology | src/app/api/lookup/route.ts:651-653 | only a present, non-empty value of the first binding counts |
| Etymology.CatchLookupRedundant | src/app/api/lookup/route.ts:674-687 | when the `catch` block's table lookup would hit, normalisation changed nothing and the format test passed, so the hit was already answered before the query |
| Etymology.EtymologySpec | src/app/api/lookup/route.ts:584-697 | the format test fails exactly for an empty or `_`-holding normalised word, which gets the `catch` answer; a table hit answers with no query; otherwise DBnary's first non-empty binding or no etymology; the clock reading is stamped; it never rejects |
| LookupHandler.ValueOf | src/app/api/lookup/route.ts:147-160 | a field is present exactly when its task fulfilled, with that value |
| LookupHandler.Lookup | src/app/api/lookup/route.ts:113-192 | 400 exactly for a missing or empty word and no other failure (the all-rejected 500 is unreachable); each field present exactly when its task fulfilled; translations always present; etymology exactly when the parameter is `true` |
| LookupHandler.SeedTableExample | src/app/api/lookup/route.ts:84-94 | with the seed table, 美しい has one adjective meaning, synset 00217728-a and no synonyms |
| LookupHandler.Get | src/app/api/lookup/route.ts:113-192 | the handler, assigning fields one by one, answers `Lookup` |
| JapaneseWordNetBuilder.NonBlankLines | scripts/process-japanese-wordnet.js:37-39 | exactly the lines of the file that are not blank, each as often as it occurs, in file order |
| JapaneseWordNetBuilder.ParseWordRowFields | scripts/process-japanese-wordnet.js:41 | a three-field row parses into its fields |
| JapaneseWordNetBuilder.ParseWordRows | scripts/process-japanese-wordnet.js:37-43 | a parsed row never has a confidence without a word |
| JapaneseWordNetBuilder.ParseWordRowShape | scripts/process-japanese-wordnet.js:41 | a row never has a confidence without a word |
| JapaneseWordNetBuilder.HighConfidenceOnlyAppend | scripts/process-japanese-wordnet.js:92-94 | filtering distributes over concatenation, so entries keep their file order |
| JapaneseWordNetBuilder.SensesAppend | scripts/process-japanese-wordnet.js:92-94 | the entries of two row lists, concatenated, are the entries of the concatenated rows |
| JapaneseWordNetBuilder.DefinitionIndexLastWins | scripts/process-japanese-wordnet.js:46-57 | the last line that supplies a definition for an id decides its entry |
| JapaneseWordNetBuilder.DefinitionIndexAbsent | scripts/process-japanese-wordnet.js:46-57 | an id no line supplies has no entry |
| JapaneseWordNetBuilder.BuildDefinitionIndex | scripts/process-japanese-wordnet.js:46-57 | the `set` loop computes `DefinitionIndex` |
| JapaneseWordNetBuilder.DefinitionFor | scripts/process-japanese-wordnet.js:84 | an empty definition counts as none |
| JapaneseWordNetBuilder.PartOfSpeechOfSynsetId | scripts/process-japanese-wordnet.js:60-69 | the letter after the first `-` decides: n, v, a, r give 名詞, 動詞, 形容詞, 副詞; `s` gives その他 |
| JapaneseWordNetBuilder.PartOfSpeechWithoutDash | scripts/process-japanese-wordnet.js:60-69 | an id without `-` gives その他 |
| JapaneseWordNetBuilder.KeyedEntries | scripts/process-japanese-wordnet.js:74-86 | each row is keyed by its word and carries its part of speech and definition |
| JapaneseWordNetBuilder.HighConfidenceOnly | scripts/process-japanese-wordnet.js:92-94 | the entries are the word's rows tagged hand or mono (`Filter(es, IsKept)`), every one of them, one for one and in row order, each as an entry of the word |
| JapaneseWordNetBuilder.HighConfidenceTableValid | scripts/process-japanese-wordnet.js:89-99 | the output table has non-empty lists of high-confidence entries of their own word, each word once |
| JapaneseWordNetBuilder.HighConfidenceTableFind | scripts/process-japanese-wordnet.js:89-99 | a word is in the output exactly when it has a kept entry, with exactly its kept entries in order |
| JapaneseWordNetBuilder.FilterHighConfidence | scripts/process-japanese-wordnet.js:89-99 | the `forEach` that assigns `filteredData[word]` computes `HighConfidenceTable` |
| JapaneseWordNetBuilder.WordNetTableFind | scripts/process-japanese-wordnet.js:37-99 | a word is in the output exactly when one of its rows is tagged hand or mono, with those rows in file order |
| JapaneseWordNetBuilder.WordNetTableValid | scripts/process-japanese-wordnet.js:37-99 | the written table satisfies the schema the lookup route relies on |
| JapaneseWordNetBuilder.PosTallyCounts | scripts/process-japanese-wordnet.js:120-123 | the tally holds, under each part of speech, the number of senses with it |
| JapaneseWordNetBuilder.TallyStep | scripts/process-japanese-wordnet.js:122 | one increment changes only its own part of speech's count |
| JapaneseWordNetBuilder.SumCountsPut | scripts/process-japanese-wordnet.js:122 | assigning a count changes the total by the difference from the old count |
| JapaneseWordNetBuilder.PosTallyTotal | scripts/process-japanese-wordnet.js:114-123 | the per-part-of-speech counts sum to `totalEntries` |
| JapaneseWordNetBuilder.ComputeStats | scripts/process-japanese-wordnet.js:114-123 | the statistics loop gives the word count, the entry count and the tally |
| JapaneseWordNetBuilder.ProcessJapaneseWordNet | scripts/process-japanese-wordnet.js:23-136 | nothing is built without the word file; otherwise the filtered table and its statistics |
| JapaneseWordNetBuilder.KeyedEntriesKept | scripts/process-japanese-wordnet.js:74-99 | a kept entry always sits under a present word |
| OmwBuilder.LowerRun | scripts/process-omw.js:89 | the longest run of lower-case ASCII letters at the start |
| OmwBuilder.StripSynsetPrefix | scripts/process-omw.js:89 | removes exactly one leading `omw-<letters>-` match and leaves other ids unchanged |
| OmwBuilder.StripSynsetPrefixExample | scripts/process-omw.js:88-89 | `omw-en-08641944-n` becomes `08641944-n` |
| OmwBuilder.EntryPair | scripts/process-omw.js:80-87 | only an entry with a lemma and a sense, both attributes non-empty, contributes, and only its first lemma and first sense count |
| OmwBuilder.SenseLemmas | scripts/process-omw.js:78-101 | each contributing entry yields one non-empty lemma |
| OmwBuilder.LemmaMapSpec | scripts/process-omw.js:91-98 | one key per contributing synset in first-seen order; each list holds its distinct lemmas in first-seen order and is non-empty |
| OmwBuilder.ExtractLemmas | scripts/process-omw.js:69-104 | the `LexicalEntry` loop computes `LemmaMap` |
| OmwBuilder.ShortCodeOfDirectory | scripts/process-omw.js:149 | `omw-<code>` shortens to `<code>` |
| OmwBuilder.MergeLanguageFind | scripts/process-omw.js:151-156 | after merging, a synset of the language maps the code to the language's list; other codes and synsets are unchanged |
| OmwBuilder.MergeLanguageValid | scripts/process-omw.js:151-156 | merging a well-formed language keeps every synset with at least one language and non-empty duplicate-free lists |
| OmwBuilder.PutLanguageValid | scripts/process-omw.js:155 | setting one language's list keeps a synset's languages well formed |
| OmwBuilder.PutTableValid | scripts/process-omw.js:152-155 | setting one synset's languages keeps the table well formed |
| OmwBuilder.MergeInto | scripts/process-omw.js:151-156 | the `forEach` merge loop computes `MergeLanguage` |
| OmwBuilder.TargetDirectories | scripts/process-omw.js:123-125 | exactly the listed directories named in the target list, in listing order |
| OmwBuilder.TargetDirectoriesCounts | scripts/process-omw.js:123-125 | each target directory is kept as often as it is listed |
| OmwBuilder.MergeAllValid | scripts/process-omw.js:134-162 | the output table is well formed |
| OmwBuilder.SkippedDirectory | scripts/process-omw.js:137-161 | a missing or unreadable file leaves the table as it was |
| OmwBuilder.LemmaCountAbsent | scripts/process-omw.js:180-182 | a code no synset has counts zero lemmas |
| OmwBuilder.LanguageStats | scripts/process-omw.js:177-184 | every processed directory gets the total number of lemmas under its code |
| OmwBuilder.StatsPut | scripts/process-omw.js:183 | recording one directory's count keeps the others' counts |
| OmwBuilder.ProcessOmwData | scripts/process-omw.js:109-209 | nothing is built exactly when the directory is missing; otherwise the merged table, its synset count, the processed directories, and for each processed directory (and no other) a `languageStats` entry with its lemma total |
| TranslateRoute.SupportedLanguagesShape | src/app/api/translate/route.ts:5-8 | seventeen distinct codes, none holding `_` |
| TranslateRoute.ModelKeyParts | src/app/api/translate/route.ts:24-26 | a key splits back into its source and target |
| TranslateRoute.ModelKeyInjective | src/app/api/translate/route.ts:24-26 | two pairs share a key exactly when they are the same pair |
| TranslateRoute.Translate | src/app/api/translate/route.ts:67-104 | never empty; the dictionary's word for the text in the model's target when it lists a non-empty one, else the text in brackets, so a word the dictionary lacks always comes back bracketed |
| TranslateRoute.TranslateListed | src/app/api/translate/route.ts:71-72 | 自由 into German is Freiheit |
| TranslateRoute.TranslateUnlisted | src/app/api/translate/route.ts:103 | an unlisted word into Japanese is bracketed |
| TranslateRoute.TranslateMissingTarget | src/app/api/translate/route.ts:83-103 | a listed word with no entry for the target (freedom into English) is bracketed |
| TranslateRoute.DetectSource | src/app/api/translate/route.ts:123-126 | `ja` exactly when the text has a Japanese-script character, else `en` |
| TranslateRoute.OldestIndex | src/app/api/translate/route.ts:33 | the first entry among those with the smallest `lastUsed` |
| TranslateRoute.SortByLastUsedMembers | src/app/api/translate/route.ts:32-33 | the stable sort keeps exactly the cache's entries |
| TranslateRoute.SortByLastUsedSpec | src/app/api/translate/route.ts:32-33 | the stable sort is a reordering of the entries, non-decreasing in `lastUsed`, with keys still distinct |
| TranslateRoute.SortStep | src/app/api/translate/route.ts:33 | putting the least recent entry before the sorted rest keeps the order sorted |
| TranslateRoute.ToRemoveSpec | src/app/api/translate/route.ts:32-36 | `size - 10` distinct cache entries are deleted, none used more recently than a kept entry |
| TranslateRoute.EvictedSpec | src/app/api/translate/route.ts:29-40 | nothing changes at ten or fewer; otherwise exactly ten entries stay, unchanged; every deleted entry is no more recent than every kept one |
| TranslateRoute.EvictedInOrder | src/app/api/translate/route.ts:29-40 | the entries eviction keeps stay in their insertion order |
| TranslateRoute.EvictedOne | src/app/api/translate/route.ts:29-40 | a deleted entry is no more recent than a kept one |
| TranslateRoute.RemovedKey | src/app/api/translate/route.ts:37-39 | an entry missing after eviction had its key deleted |
| TranslateRoute.KeptEntry | src/app/api/translate/route.ts:37-39 | a kept entry is an unchanged cache entry whose key was not deleted |
| TranslateRoute.SortedLast | src/app/api/translate/route.ts:33 | the most recent entry, inserted last, is sorted last |
| TranslateRoute.OldestBeforeLast | src/app/api/translate/route.ts:33 | with the last entry the most recent, the least recent entry is found before it |
| TranslateRoute.RemoveAtLast | src/app/api/translate/route.ts:33-36 | taking out an earlier entry keeps the most recent entry last |
| TranslateRoute.NewestSurvives | src/app/api/translate/route.ts:107-113 | a model inserted with a clock reading no earlier than any cached one survives eviction |
| TranslateRoute.NewestNotRemoved | src/app/api/translate/route.ts:36 | the most recent last entry is not among those deleted |
| TranslateRoute.HitKeepsValid | src/app/api/translate/route.ts:49-53 | refreshing `lastUsed` keeps the cache invariant and the key |
| TranslateRoute.MissKeepsValid | src/app/api/translate/route.ts:107-113 | inserting a new model and evicting keeps at most ten entries with distinct keys |
| TranslateRoute.MissNewestSurvives | src/app/api/translate/route.ts:107-113 | a model loaded for an uncached pair, at a clock reading no earlier than every cached model's, is still cached after the eviction that follows |
| TranslateRoute.ModelCache.constructor | src/app/api/translate/route.ts:20 | the cache starts empty |
| TranslateRoute.ModelCache.EvictOldModels | src/app/api/translate/route.ts:29-40 | the delete loop leaves the entries `Evicted` describes |
| TranslateRoute.ModelCache.LoadModel | src/app/api/translate/route.ts:43-120 | returns the pair's model; a hit only refreshes that entry's `lastUsed`; a miss appends and evicts; the new entries are `CacheAfterLoad`; at most ten entries stay; with a non-decreasing clock the requested key is cached afterwards |
| TranslateRoute.CacheAfterLoadSpec | src/app/api/translate/route.ts:43-120 | one `loadModel` keeps the cache invariant, leaves only untouched entries and entries used at the current clock reading, and with a non-decreasing clock caches the pair |
| TranslateRoute.CacheAfterLoadsSpec | src/app/api/translate/route.ts:159-163 | loading the models of the targets in turn keeps the invariant, leaves only untouched entries and entries used at the current clock reading, and with a non-decreasing clock caches the last pair |
| TranslateRoute.Without | src/app/api/translate/route.ts:152 | the filter keeps exactly the other languages |
| TranslateRoute.WithoutCounts | src/app/api/translate/route.ts:152 | each language other than the source is kept as often as it is listed |
| TranslateRoute.WithoutSize | src/app/api/translate/route.ts:152 | filtering a duplicate-free list removes exactly one entry when the source is listed |
| TranslateRoute.TargetLanguages | src/app/api/translate/route.ts:152 | the targets are the supported codes other than the source |
| TranslateRoute.TranslationsFor | src/app/api/translate/route.ts:154-168 | one result per target in order, each the toy model's translation |
| TranslateRoute.TranslationsForStep | src/app/api/translate/route.ts:162 | each assignment adds a new key at the end |
| TranslateRoute.TranslateAnswerSpec | src/app/api/translate/route.ts:130-185 | 500 exactly for an unreadable body; 400 for a missing, empty or non-string `q`; source is `src` when truthy, else detected; 400 for an unsupported source; otherwise sixteen translations, the target is a key exactly when it is supported and not the source, and no `errors` |
| TranslateRoute.Post | src/app/api/translate/route.ts:130-185 | the handler answers `TranslateAnswerOf`, keeps the cache invariant, leaves the cache alone when it refuses, and after a translation leaves exactly the cache `CacheAfterLoads` gives for the targets in order |
| SearchHistory.WithoutWord | src/hooks/useSearchHistory.ts:47 | keeps exactly the entries with another word, in their order, never growing |
| SearchHistory.WithoutWordCounts | src/hooks/useSearchHistory.ts:47 | each entry with another word is kept as often as it occurs |
| SearchHistory.WithoutWordSpec | src/hooks/useSearchHistory.ts:47 | distinct words stay distinct; a list without the word is unchanged |
| SearchHistory.WithoutWordDistinct | src/hooks/useSearchHistory.ts:47 | filtering a list whose words are distinct keeps them distinct |
| SearchHistory.WithoutWordAbsent | src/hooks/useSearchHistory.ts:47 | filtering out a word no entry has returns the list unchanged |
| SearchHistory.AddedHistory | src/hooks/useSearchHistory.ts:37-60 | a blank word changes nothing; otherwise the trimmed word with the clock reading comes first and the list has one to twenty entries |
| SearchHistory.AddedHistorySpec | src/hooks/useSearchHistory.ts:40-53 | the word appears only first; the rest is a prefix of the older entries without it, which keep their order; exact length; distinct words stay distinct |
| SearchHistory.FrontOfFiltered | src/hooks/useSearchHistory.ts:47-53 | an item placed before the first nineteen of the filtered entries appears only first, the rest is a prefix of the filtered list, and distinct words stay distinct |
| SearchHistory.ReAddMovesToFront | src/hooks/useSearchHistory.ts:40-53 | a word searched again moves to the front and appears once |
| SearchHistory.RemovedHistory | src/hooks/useSearchHistory.ts:63-69 | keeps exactly the entries with another word, in their order |
| SearchHistory.RemovedHistorySpec | src/hooks/useSearchHistory.ts:63-69 | removing an absent word changes nothing; distinct words stay distinct; never grows; the kept entries stay in their order, each as often as it occurs |
| SearchHistory.SearchHistoryState.constructor | src/hooks/useSearchHistory.ts:12 | the first render has an empty list |
| SearchHistory.SearchHistoryState.LoadStored | src/hooks/useSearchHistory.ts:15-25 | a saved list replaces the empty one |
| SearchHistory.SearchHistoryState.AddToHistory | src/hooks/useSearchHistory.ts:37-60 | the list becomes `AddedHistory` and is saved unless the word is blank |
| SearchHistory.SearchHistoryState.RemoveFromHistory | src/hooks/useSearchHistory.ts:63-69 | the list becomes `RemovedHistory` and is saved |
| SearchHistory.SearchHistoryState.ClearHistory | src/hooks/useSearchHistory.ts:72-75 | the list is emptied and the storage entry removed |
| Text.Trim | src/components/TextEditor.tsx:35 | the trim is the middle of the string, empty exactly for a blank string, with no white space at either end |
| Text.TrimIdempotent | src/hooks/useSearchHistory.ts:41 | trimming twice changes nothing |
| Text.IncludesSpec | src/app/api/lookup/route.ts:308 | `includes` holds exactly when the substring occurs at some position |
| Text.Split | src/app/api/lookup/route.ts:240 | `split` on one character gives at least one piece, none holding the separator |
| Text.SplitJoin | src/app/api/lookup/route.ts:240 | joining the pieces of a split gives back the string |
| Text.LowerAscii | src/app/api/lookup/route.ts:450-451 | `toLowerCase` maps each ASCII capital to its small letter and keeps every other character |
| Collections.RemoveKeysFind | src/app/api/translate/route.ts:37-39 | after deleting keys exactly those are absent, every other key keeps its value, and keys stay unique |
| TextEditor.DropWideSpaces | src/components/TextEditor.tsx:42 | a character remains exactly when it is in the input and is not U+3000, U+2000–U+200F, U+2028–U+202F or U+205F–U+206F; every other character keeps its count and order |
| TextEditor.KeepWordChars | src/components/TextEditor.tsx:43 | a character remains exactly when it is in the input and is a word part or white space; those keep their count and order |
| TextEditor.CollapseSpaces | src/components/TextEditor.tsx:44 | white space only as single spaces, no two adjacent, a non-space first character kept |
| TextEditor.CollapseSpacesSpec | src/components/TextEditor.tsx:44 | collapsing is the per-character rule `Squeezed`: a white-space character after white space is dropped, any other becomes one space, every other character is kept; the characters that are not white space survive, in order |
| TextEditor.CleanWordSpec | src/components/TextEditor.tsx:41-45 | the cleaned word has no deleted space, only word parts from the selection and single spaces, and no white space at either end; its word parts are exactly the selection's word parts (the Japanese characters among them), in order, and they are all of its characters other than the spaces |
| TextEditor.CleanWordParts | src/components/TextEditor.tsx:41-45 | every step keeps the selection's word parts, in order |
| TextEditor.TrimNonSpaces | src/components/TextEditor.tsx:45 | trimming removes white space only |
| TextEditor.TrimmedClean | src/components/TextEditor.tsx:45 | trimming a string of word parts and single spaces gives a cleaned word |
| TextEditor.DropWideSpacesKeeps | src/components/TextEditor.tsx:42 | a string without those spaces is unchanged |
| TextEditor.KeepWordCharsKeeps | src/components/TextEditor.tsx:43 | a string of kept characters is unchanged |
| TextEditor.CollapseSpacesKeeps | src/components/TextEditor.tsx:44 | a string with single spaces only is unchanged |
| TextEditor.CleanIsFixed | src/components/TextEditor.tsx:41-45 | every step leaves a cleaned word alone |
| TextEditor.CleanWordIdempotent | src/components/TextEditor.tsx:41-45 | cleaning twice changes nothing |
| TextEditor.MouseUpSelection | src/components/TextEditor.tsx:28-54 | nothing during a composition or without a selection; otherwise the cleaned trimmed selection exactly when it is non-empty |
| TextEditor.KeyDownSelection | src/components/TextEditor.tsx:56-67 | Ctrl+Shift+K with a non-blank selection reports the trimmed selection, uncleaned |
| TextEditor.ShortcutKeepsHyphen | src/components/TextEditor.tsx:58-65 | the shortcut passes `a-b` as it is |
| TextEditor.MouseUpDropsHyphen | src/components/TextEditor.tsx:39-52 | the mouse path reports `ab` for `a-b` |
| TextEditor.CleanHyphenated | src/components/TextEditor.tsx:41-45 | the cleaning chain turns `a-b` into `ab` |
| TextEditor.KeepHyphenated | src/components/TextEditor.tsx:43 | the hyphen is deleted |
| TextEditor.TrimNoSpaces | src/components/TextEditor.tsx:45 | a string without white space at its ends is its own trim |
| TextEditor.Editor.constructor | src/components/TextEditor.tsx:12 | no composition at first |
| TextEditor.Editor.CompositionStart | src/components/TextEditor.tsx:20-22 | a composition is in progress |
| TextEditor.Editor.CompositionEnd | src/components/TextEditor.tsx:24-26 | no composition is in progress |
| TextEditor.Editor.MouseUp | src/components/TextEditor.tsx:28-54 | reports `MouseUpSelection` for the current state: only a non-empty word, never during a composition |
| WordLookup.Pow2Monotone | src/hooks/useWordLookup.ts:62 | powers of two grow with the exponent |
| WordLookup.RetryDelay | src/hooks/useWordLookup.ts:62 | between 1000 and 30000, never more than `1000 * 2^n`, and equal to it below the cap |
| WordLookup.RetryDelayMonotone | src/hooks/useWordLookup.ts:62 | a later attempt never waits less |
| WordLookup.RetryDelayValues | src/hooks/useWordLookup.ts:62 | 1000, 2000, 4000, 8000, 16000 for attempts 0 to 4, then 30000 |
| WordLookup.Enabled | src/hooks/useWordLookup.ts:59 | enabled exactly when the word has a character that is not white space |
| WordLookup.NatToString | src/hooks/useWordLookup.ts:44 | a non-empty string of decimal digits |
| WordLookup.NatToStringValue | src/hooks/useWordLookup.ts:44 | the digits read back as the number |
| WordLookup.IntToString | src/hooks/useWordLookup.ts:44 | a minus sign exactly for a negative status |
| WordLookup.Served | src/app/api/lookup/route.ts:120-125 | a lookup answer is sent with status 200 and its body, a refusal with its status and `{ error }` |
| WordLookup.FetchWordLookup | src/hooks/useWordLookup.ts:27-50 | a blank word is rejected with no request; otherwise the trimmed word is requested; fulfils exactly for a 2xx response, with its body; other statuses reject with the status in the message |
| WordLookup.EnabledMatchesGuard | src/hooks/useWordLookup.ts:30-33 | the query is enabled exactly for the words the fetch sends |
| WordLookup.HookNeverRefused | src/hooks/useWordLookup.ts:35 | the route answers the trimmed word of a non-blank selection with 200, so the fetch fulfils with translations and no etymology |
| WordLookup.RefusalMessage | src/hooks/useWordLookup.ts:42-45 | a 400 would reject with `HTTP error! status: 400` |
| WordLookup.StatusText400 | src/hooks/useWordLookup.ts:44 | the status 400 is written `400` |

## Left out

- Network I/O (Datamuse, DBnary, `fetch` in the hook), AbortController timeouts and cache options: every answer is a parameter. The 5-second and 8-second timeouts show up only as a failed fetch.
- The module-load reads of the two JSON tables in the lookup route: the tables are parameters, and the built-in seed table is a constant.
- `Promise.allSettled` concurrency: the three tasks are plain values that are fulfilled or rejected.
- TranslateRoute.ModelCache: the source's `modelCache` is a module-level `Map` shared by every request, and concurrent `POST` requests can interleave their loads and evictions at each `await`. The model runs one request at a time.
- File system, `xmldom` parsing, `JSON.stringify` output and the file-size warning of both scripts: file contents and the parsed `LexicalEntry` lists are inputs. `getLanguageDisplayName` only labels log lines and is not modelled.
- `Date.now()` and `toISOString()`: the clock reading is a parameter. The translate route reads the clock once per loaded model; the model takes one reading per request.
- Text.LowerAscii: `toLowerCase` is modelled for ASCII letters only; Unicode case mapping is left out.
- JavaScript object-key quirks: integer-like keys enumerating first, and prototype keys such as `constructor` being truthy in the etymology table. The tables are insertion-ordered association lists.
- Etymology.FallbackEtymology: the table holds four of the source's entries (`etymology`, `cat`, `dog`, `house`), not all of them.
- Etymology.EtymologyOf: the error text of a failed DBnary request is not modelled; only that the `catch` answer is used.
- TranslateRoute.ModelCache.LoadModel: the toy model never throws, so the `catch` of `loadModel` and the error branch of the `POST` loop are not modelled; `errors` is therefore always omitted.
- TranslateRoute.TranslateAnswerOf: request bodies that are not JSON, or are JSON `null`, are one case (500). Any other JSON value is read through its `q` and `src` fields.
- The comparator sort of `evictOldModels` is modelled as a stable selection sort (`TranslateRoute.SortByLastUsed`). Engines must sort stably, so equal `lastUsed` values keep insertion order.
- The `OPTIONS` handler of the translate route returns fixed CORS headers and has no logic.
- WordLookup.FetchWordLookup: `encodeURIComponent` and the server's decoding cancel out, so the requested word is modelled as the decoded trimmed word. A rejected `fetch` is modelled with a fixed reason. A failing `response.json()` is not modelled.
- react-query's retry execution, stale time and caching: only `retryDelay`, `retry: 2` and `enabled` are modelled.
- `localStorage` is a field of the search-history class. A corrupt stored value (a `JSON.parse` failure) is not modelled; `LoadStored` takes the stored list as given.
- `window.getSelection` is modelled by the text of the selection's first range (`None` when nothing is selected).
- All console logging, and the UI components (panel, history list, header, footer, pages, query provider).
- Synonyms.EnglishSynonyms: the antonym request is not guarded (src/app/api/lookup/route.ts:399-410). A network failure, or a body that is not an array, rejects the whole synonym task; only a non-ok status is ignored. The model does the same.
