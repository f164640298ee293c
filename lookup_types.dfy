/** The values the word-lookup route (src/app/api/lookup/route.ts) exchanges:
    its answers, the answers of the upstream services it calls, and the script
    test that decides between the Japanese and the English path.

    Every call to an upstream service is an input of type `FetchResult`: the
    request failed (`fetch` threw or timed out), the service answered with a
    status outside 200–299, or it answered and the body was read. */
module LookupTypes {
  import opened Collections
  import opened Text

  datatype FetchResult<+T> = NetworkError | HttpError(status: int) | HttpOk(body: T)

  /** One element of a Datamuse answer. */
  datatype DatamuseItem = DatamuseItem(word: string, defs: Option<seq<string>>)

  /** A Datamuse body: a JSON array of items, or anything else (a body that is not
      JSON, or JSON that is not an array). */
  datatype DatamuseBody = Malformed | Items(items: seq<DatamuseItem>)

  /** A DBnary SPARQL body: not JSON, or the `ety` value (absent or present) of
      each binding of `results.bindings`; a body without that path has none. */
  datatype SparqlBody = Unparseable | Results(etymologies: seq<Option<string>>)

  /** One part of speech of a dictionary answer with its definitions. */
  datatype Meaning = Meaning(partOfSpeech: string, definitions: seq<string>)

  datatype DictionaryResponse = DictionaryResponse(word: string, meanings: seq<Meaning>)

  datatype SynonymResponse = SynonymResponse(word: string, synonyms: seq<string>, antonyms: Option<seq<string>>)

  /** Language code → translated lemmas. */
  datatype TranslationResponse = TranslationResponse(word: string, translations: seq<(string, seq<string>)>)

  /** `source` is always `dbnary`; `retrievedAt` is the clock reading. */
  datatype EtymologyResponse = EtymologyResponse(word: string, etymology: Option<string>, retrievedAt: string)

  datatype LookupResponse = LookupResponse(
    dictionary: Option<DictionaryResponse>,
    synonyms: Option<SynonymResponse>,
    translations: Option<TranslationResponse>,
    etymology: Option<EtymologyResponse>)

  /** The words of a Datamuse answer (`data.map(item => item.word)`). */
  function ItemWords(items: seq<DatamuseItem>): (ws: seq<string>)
    ensures |ws| == |items|
    ensures forall i :: 0 <= i < |items| ==> ws[i] == items[i].word
  {
    seq(|items|, i requires 0 <= i < |items| => items[i].word)
  }

  datatype Language = Japanese | English

  /** The regular-expression scan of `detectLanguage`: does some character of
      `s` fall in the Japanese-script class? */
  function ScanJapanese(s: string): (found: bool)
    ensures found <==> HasJapaneseChar(s)
    decreases |s|
  {
    if s == [] then false
    else if IsJapaneseChar(s[0]) then true
    else
      var found := ScanJapanese(s[1..]);
      assert found <==> HasJapaneseChar(s) by {
        if HasJapaneseChar(s) {
          var i :| 0 <= i < |s| && IsJapaneseChar(s[i]);
          assert s[1..][i - 1] == s[i];
        }
      }
      found
  }

  /** `detectLanguage`: Japanese exactly when some character is hiragana,
      katakana or one of the ideographs U+4E00–U+9FAF. */
  function DetectLanguage(word: string): (l: Language)
    ensures l == Japanese <==> exists i :: 0 <= i < |word| && IsJapaneseChar(word[i])
  {
    if ScanJapanese(word) then Japanese else English
  }

  /** The language code the translations of an input leave out. */
  function InputLanguageCode(word: string): (code: string)
    ensures code == "ja" || code == "en"
    ensures code == "ja" <==> DetectLanguage(word) == Japanese
  {
    if DetectLanguage(word) == Japanese then "ja" else "en"
  }

  /** Two examples: kana or kanji anywhere make the input Japanese. */
  lemma DetectLanguageExamples()
    ensures DetectLanguage("美しい") == Japanese
    ensures DetectLanguage("cat") == English
    ensures DetectLanguage("tree木") == Japanese
  {
    assert IsJapaneseChar("美しい"[0]);
    assert IsJapaneseChar("tree木"[4]);
  }
}
