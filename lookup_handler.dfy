/** The `GET` handler of the lookup route: resolve synsets, settle the dictionary,
    synonym and translation tasks, copy the fulfilled ones into the response,
    optionally add the etymology, and pick the status. */
module LookupHandler {
  import opened Collections
  import opened Lexicon
  import opened LookupTypes
  import opened SynsetResolver
  import opened Translations
  import opened Dictionary
  import opened Synonyms
  import opened Etymology

  /** The answers the upstream services give for this request: the related-word
      query of the synset resolver, the Datamuse definition, synonym and antonym
      queries, and the DBnary query. */
  datatype Upstream = Upstream(
    related: FetchResult<DatamuseBody>,
    definitions: FetchResult<DatamuseBody>,
    synonyms: FetchResult<DatamuseBody>,
    antonyms: FetchResult<DatamuseBody>,
    etymology: FetchResult<SparqlBody>)

  /** The HTTP answer: a JSON body with status 200, or an error status with its
      message. */
  datatype RouteAnswer = Ok(body: LookupResponse) | Failure(status: int, error: string)

  /** `response.x = settled.value` when the task fulfilled. */
  function ValueOf<T>(s: Settled<T>): (o: Option<T>)
    ensures o.Some? <==> s.Fulfilled?
    ensures o.Some? ==> s == Fulfilled(o.value)
  {
    if s.Fulfilled? then Some(s.value) else None
  }

  /** What the handler answers for the `word` and `etymology` query parameters.
      A missing or empty word is refused with 400, and nothing else is: the
      all-failed 500 can never be answered, because the translation task always
      fulfils. Each of the dictionary, synonym and translation fields is present
      exactly when its task fulfilled, with that task's value; the etymology is
      present exactly when the parameter is the string `true`. */
  function Lookup(jwn: WordTable, omw: SynsetTable, wordParam: Option<string>, etymologyParam: Option<string>,
                  up: Upstream, now: string): (r: RouteAnswer)
    ensures r.Failure? <==> wordParam.None? || wordParam.value == []
    ensures r.Failure? ==> r.status == 400
    ensures r.Ok? ==>
      var word := wordParam.value;
      && (r.body.dictionary.Some? <==> DictionaryTask(jwn, word, up.definitions).Fulfilled?)
      && (r.body.dictionary.Some? ==> DictionaryTask(jwn, word, up.definitions) == Fulfilled(r.body.dictionary.value))
      && (r.body.synonyms.Some? <==> SynonymsTask(jwn, word, up.synonyms, up.antonyms).Fulfilled?)
      && (r.body.synonyms.Some? ==> SynonymsTask(jwn, word, up.synonyms, up.antonyms) == Fulfilled(r.body.synonyms.value))
      && r.body.translations == Some(TranslationResponse(word, MergedTranslations(omw, word, SynsetIds(jwn, omw, word, up.related))))
      && (r.body.etymology.Some? <==> etymologyParam == Some("true"))
      && (r.body.etymology.Some? ==> r.body.etymology.value == EtymologyOf(word, up.etymology, now))
  {
    if wordParam.None? || wordParam.value == [] then Failure(400, "Word parameter is required")
    else
      var word := wordParam.value;
      var synsetIds := SynsetIds(jwn, omw, word, up.related);
      var dictionaryData := DictionaryTask(jwn, word, up.definitions);
      var synonymsData := SynonymsTask(jwn, word, up.synonyms, up.antonyms);
      var translationsData: Settled<TranslationResponse> := Fulfilled(TranslationResponse(word, MergedTranslations(omw, word, synsetIds)));
      var etymology := if etymologyParam == Some("true") then Some(EtymologyOf(word, up.etymology, now)) else None;
      if dictionaryData.Rejected? && synonymsData.Rejected? && translationsData.Rejected? then
        Failure(500, "Failed to fetch data for the word")
      else
        Ok(LookupResponse(ValueOf(dictionaryData), ValueOf(synonymsData), ValueOf(translationsData), etymology))
  }

  /** With the built-in one-word table, 美しい is answered from it: one adjective
      meaning, its synset as the only sense, and no synonyms. */
  lemma SeedTableExample(omw: SynsetTable, up: Upstream, now: string)
    ensures JapaneseDictionary(SeedWordTable, "美しい") ==
      DictionaryResponse("美しい", [Meaning("形容詞", ["感覚を活気づけ、知的情緒的賞賛を喚起する"])])
    ensures SynsetIds(SeedWordTable, omw, "美しい", up.related) == ["00217728-a"]
    ensures JapaneseSynonyms(SeedWordTable, "美しい").synonyms == []
  {
    var es := FindOr(SeedWordTable, "美しい", []);
    assert DetectLanguage("美しい") == Japanese by {
      DetectLanguageExamples();
    }
    var pairs := [("形容詞", "感覚を活気づけ、知的情緒的賞賛を喚起する")];
    assert MeaningPairs(es) == pairs;
    assert Grouped(pairs) == [("形容詞", ["感覚を活気づけ、知的情緒的賞賛を喚起する"])] by {
      assert pairs[..|pairs| - 1] == [];
      assert Grouped(pairs[..|pairs| - 1]) == [];
      var empty: seq<(string, seq<string>)> := [];
      assert FindOr(empty, "形容詞", []) + ["感覚を活気づけ、知的情緒的賞賛を喚起する"] == ["感覚を活気づけ、知的情緒的賞賛を喚起する"];
      assert Grouped(pairs) == Put(empty, "形容詞", FindOr(empty, "形容詞", []) + ["感覚を活気づけ、知的情緒的賞賛を喚起する"]);
      assert Put(empty, "形容詞", ["感覚を活気づけ、知的情緒的賞賛を喚起する"]) == [("形容詞", ["感覚を活気づけ、知的情緒的賞賛を喚起する"])];
    }
    assert SenseSynsets(es) == ["00217728-a"];
    assert Distinct(SenseSynsets(es)) == ["00217728-a"] by {
      assert SenseSynsets(es)[..0] == [];
    }
    assert SeedWordTable[..0] == [];
  }

  /** `GET`: the 400 guard, the synset ids, the three settled tasks, the fields
      assigned one by one, the optional etymology, the status. */
  method Get(jwn: WordTable, omw: SynsetTable, wordParam: Option<string>, etymologyParam: Option<string>,
             up: Upstream, now: string) returns (answer: RouteAnswer)
    ensures answer == Lookup(jwn, omw, wordParam, etymologyParam, up, now)
  {
    var includeEtymology := etymologyParam == Some("true");
    if wordParam.None? || wordParam.value == [] {
      return Failure(400, "Word parameter is required");
    }
    var word := wordParam.value;
    var synsetIds, _ := GetSynsetIds(jwn, omw, word, up.related);

    var dictionaryData: Settled<DictionaryResponse>;
    var synonymsData: Settled<SynonymResponse>;
    if DetectLanguage(word) == Japanese {
      var d := FetchJapaneseDictionaryData(jwn, word);
      dictionaryData := Fulfilled(d);
      var s := FetchJapaneseWordNetData(jwn, word);
      synonymsData := Fulfilled(s);
    } else {
      dictionaryData := FetchEnglishDictionaryData(up.definitions);
      synonymsData := EnglishSynonyms(word, up.synonyms, up.antonyms);
    }
    var t := FetchTranslationData(omw, word, synsetIds);
    var translationsData: Settled<TranslationResponse> := Fulfilled(t);

    var response := LookupResponse(None, None, None, None);
    if dictionaryData.Fulfilled? {
      response := response.(dictionary := Some(dictionaryData.value));
    }
    if synonymsData.Fulfilled? {
      response := response.(synonyms := Some(synonymsData.value));
    }
    if translationsData.Fulfilled? {
      response := response.(translations := Some(translationsData.value));
    }
    if includeEtymology {
      response := response.(etymology := Some(EtymologyOf(word, up.etymology, now)));
    }
    if dictionaryData.Rejected? && synonymsData.Rejected? && translationsData.Rejected? {
      return Failure(500, "Failed to fetch data for the word");
    }
    return Ok(response);
  }
}
