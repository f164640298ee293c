/** The dictionary task of the lookup route: `fetchJapaneseDictionaryData` reads
    the word table (exact key, then the first key related by substring, then a
    placeholder) and `fetchEnglishDictionaryData` parses the `pos<TAB>definition`
    strings of a Datamuse answer. Both group definitions by part of speech in
    first-seen order. */
module Dictionary {
  import opened Collections
  import opened Text
  import opened Lexicon
  import opened LookupTypes

  const NoDefinition := "定義がありません"
  const UnknownPartOfSpeech := "不明"
  const NotInDictionary := "辞書に登録されていない単語です"

  /** The meanings of a part-of-speech → definitions grouping, in its order. */
  function ToMeanings(groups: seq<(string, seq<string>)>): (ms: seq<Meaning>)
    ensures |ms| == |groups|
    ensures forall i :: 0 <= i < |groups| ==> ms[i] == Meaning(groups[i].0, groups[i].1)
  {
    seq(|groups|, i requires 0 <= i < |groups| => Meaning(groups[i].0, groups[i].1))
  }

  /** The parts of speech of a list of meanings, in order. */
  function PartsOfSpeech(ms: seq<Meaning>): (ps: seq<string>)
    ensures |ps| == |ms|
    ensures forall i :: 0 <= i < |ms| ==> ps[i] == ms[i].partOfSpeech
  {
    seq(|ms|, i requires 0 <= i < |ms| => ms[i].partOfSpeech)
  }

  /** Grouping `(part of speech, definition)` pairs as the route's `meaningsMap`
      does yields one meaning per part of speech, in first-seen order, holding
      exactly that part's definitions in their order; none is empty. */
  lemma MeaningsOfPairs(pairs: seq<(string, string)>, i: nat)
    requires i < |ToMeanings(Grouped(pairs))|
    ensures PartsOfSpeech(ToMeanings(Grouped(pairs))) == Distinct(Keys(pairs))
    ensures ToMeanings(Grouped(pairs))[i].definitions == ValuesAt(pairs, ToMeanings(Grouped(pairs))[i].partOfSpeech)
    ensures ToMeanings(Grouped(pairs))[i].definitions != []
  {
    var g := Grouped(pairs);
    GroupedSpec(pairs, g[i].0);
    GroupedWellFormed(pairs);
    FindUnique(g, i);
    assert PartsOfSpeech(ToMeanings(g)) == Keys(g);
  }

  // Japanese dictionary

  /** `entry.definition || '定義がありません'`. */
  function DefinitionText(e: SenseEntry): (d: string)
    ensures d != []
    ensures e.definition.Some? && e.definition.value != [] ==> d == e.definition.value
  {
    if e.definition.Some? && e.definition.value != [] then e.definition.value else NoDefinition
  }

  function MeaningPairs(es: seq<SenseEntry>): (pairs: seq<(string, string)>)
    ensures |pairs| == |es|
    ensures forall i :: 0 <= i < |es| ==> pairs[i] == (es[i].partOfSpeech, DefinitionText(es[i]))
  {
    seq(|es|, i requires 0 <= i < |es| => (es[i].partOfSpeech, DefinitionText(es[i])))
  }

  /** The meanings of a list of senses. */
  function SenseMeanings(es: seq<SenseEntry>): seq<Meaning> {
    ToMeanings(Grouped(MeaningPairs(es)))
  }

  /** The substring relation of the second step: either word contains the other. */
  predicate RelatedKey(key: string, word: string) {
    Includes(key, word) || Includes(word, key)
  }

  /** The position of the first key, in table order, related to `word`. */
  function FirstRelatedKey(jwn: WordTable, word: string): (r: Option<nat>)
    ensures r.Some? ==> r.value < |jwn| && RelatedKey(jwn[r.value].0, word)
    ensures r.Some? ==> forall j :: 0 <= j < r.value ==> !RelatedKey(jwn[j].0, word)
    ensures r.None? ==> forall j :: 0 <= j < |jwn| ==> !RelatedKey(jwn[j].0, word)
    decreases |jwn|
  {
    if jwn == [] then None
    else
      var r := FirstRelatedKey(jwn[..|jwn| - 1], word);
      if r.Some? then r
      else if RelatedKey(jwn[|jwn| - 1].0, word) then Some(|jwn| - 1)
      else None
  }

  /** The Japanese dictionary answer for `word`, always about the input word. A
      word the table lists with senses gets the meanings of those senses.
      Otherwise the first key, in table order, that contains the word or is
      contained in it supplies the senses; when there is none, a single 不明
      meaning says the word is not in the dictionary. */
  function JapaneseDictionary(jwn: WordTable, word: string): (r: DictionaryResponse)
    ensures r.word == word
    ensures FindOr(jwn, word, []) != [] ==> r.meanings == SenseMeanings(FindOr(jwn, word, []))
    ensures forall i :: (&& FindOr(jwn, word, []) == [] && 0 <= i < |jwn| && RelatedKey(jwn[i].0, word)
                         && (forall j :: 0 <= j < i ==> !RelatedKey(jwn[j].0, word))) ==>
      r.meanings == SenseMeanings(jwn[i].1)
    ensures FindOr(jwn, word, []) == [] && (forall j :: 0 <= j < |jwn| ==> !RelatedKey(jwn[j].0, word)) ==>
      r.meanings == [Meaning("不明", ["辞書に登録されていない単語です"])]
  {
    var es := FindOr(jwn, word, []);
    if es != [] then DictionaryResponse(word, SenseMeanings(es))
    else
      match FirstRelatedKey(jwn, word)
      case Some(i) => DictionaryResponse(word, SenseMeanings(jwn[i].1))
      case None => DictionaryResponse(word, [Meaning(UnknownPartOfSpeech, [NotInDictionary])])
  }

  /** The meanings of a list of senses, part by part. */
  lemma SenseMeaningsSpec(es: seq<SenseEntry>, i: nat)
    requires i < |SenseMeanings(es)|
    ensures PartsOfSpeech(SenseMeanings(es)) == Distinct(Keys(MeaningPairs(es)))
    ensures SenseMeanings(es)[i].definitions == ValuesAt(MeaningPairs(es), SenseMeanings(es)[i].partOfSpeech)
    ensures SenseMeanings(es)[i].definitions != []
    ensures forall d :: d in SenseMeanings(es)[i].definitions ==> d != []
  {
    MeaningsOfPairs(MeaningPairs(es), i);
    var p := SenseMeanings(es)[i].partOfSpeech;
    forall d | d in SenseMeanings(es)[i].definitions ensures d != [] {
      ValuesAtFrom(MeaningPairs(es), p, d);
    }
  }

  /** A value stored under a key comes from a pair with that key. */
  lemma {:induction false} ValuesAtFrom<K, V>(ps: seq<(K, V)>, k: K, v: V)
    requires v in ValuesAt(ps, k)
    ensures (k, v) in ps
    decreases |ps|
  {
    var init := ps[..|ps| - 1];
    if v in ValuesAt(init, k) {
      ValuesAtFrom(init, k, v);
    }
  }

  /** A key equal to the word is related to it, so a word the table lists with
      no senses never gets the placeholder. */
  lemma RelatedKeyOfWord(jwn: WordTable, word: string, i: nat)
    requires i < |jwn| && jwn[i].0 == word
    ensures FirstRelatedKey(jwn, word).Some?
  {
    IncludesSelf(word);
    assert RelatedKey(jwn[i].0, word);
  }

  /** `meaningsMap` filled from a list of senses with `forEach`/`push`. */
  method GroupSenses(es: seq<SenseEntry>) returns (meanings: seq<Meaning>)
    ensures meanings == SenseMeanings(es)
  {
    var meaningsMap: seq<(string, seq<string>)> := [];
    var k := 0;
    while k < |es|
      invariant 0 <= k <= |es|
      invariant meaningsMap == Grouped(MeaningPairs(es[..k]))
    {
      assert MeaningPairs(es[..k + 1])[..k] == MeaningPairs(es[..k]);
      var entry := es[k];
      var group := FindOr(meaningsMap, entry.partOfSpeech, []);
      meaningsMap := Put(meaningsMap, entry.partOfSpeech, group + [DefinitionText(entry)]);
      k := k + 1;
    }
    assert es[..k] == es;
    meanings := ToMeanings(meaningsMap);
  }

  /** `fetchJapaneseDictionaryData`: the exact entry, else the first related key
      found by scanning the table, else the placeholder. It never rejects. */
  method FetchJapaneseDictionaryData(jwn: WordTable, word: string) returns (response: DictionaryResponse)
    ensures response == JapaneseDictionary(jwn, word)
  {
    var entries := FindOr(jwn, word, []);
    if entries != [] {
      var meanings := GroupSenses(entries);
      return DictionaryResponse(word, meanings);
    }
    var n := 0;
    while n < |jwn|
      invariant 0 <= n <= |jwn|
      invariant forall j :: 0 <= j < n ==> !RelatedKey(jwn[j].0, word)
    {
      var (key, keyEntries) := jwn[n];
      if Includes(key, word) || Includes(word, key) {
        var meanings := GroupSenses(keyEntries);
        return DictionaryResponse(word, meanings);
      }
      n := n + 1;
    }
    return DictionaryResponse(word, [Meaning(UnknownPartOfSpeech, [NotInDictionary])]);
  }

  // English dictionary

  /** The `(part of speech, definition)` pair of one Datamuse `defs` string, kept
      only when both the text before the first tab and the text after it (up to
      a second tab) are non-empty. */
  function EnglishPair(def: string): Option<(string, string)> {
    var parts := Split(def, '\t');
    if parts[0] != [] && Truthy(Field(parts, 1)) then Some((parts[0], parts[1])) else None
  }

  /** The kept pairs of a `defs` array, in order. */
  function EnglishPairs(defs: seq<string>): seq<(string, string)>
    decreases |defs|
  {
    if defs == [] then []
    else
      var init := EnglishPairs(defs[..|defs| - 1]);
      match EnglishPair(defs[|defs| - 1])
      case Some(p) => init + [p]
      case None => init
  }

  /** A string made of a part of speech, a tab and a definition parses into that
      pair; a string with an empty side or no tab at all is dropped. */
  lemma EnglishPairShape(pos: string, definition: string)
    requires '\t' !in pos && '\t' !in definition
    ensures EnglishPair(pos + "\t" + definition) ==
      if pos != [] && definition != [] then Some((pos, definition)) else None
    ensures EnglishPair(pos) == None
  {
    JoinSplit([pos, definition], '\t');
    assert Join([pos, definition], '\t') == pos + "\t" + definition by {
      assert [pos, definition][1..] == [definition];
    }
    JoinSplit([pos], '\t');
  }

  /** A pair is kept exactly when some string of `defs` yields it. */
  lemma {:induction false} EnglishPairsMembers(defs: seq<string>, p: (string, string))
    ensures p in EnglishPairs(defs) <==> exists i :: 0 <= i < |defs| && EnglishPair(defs[i]) == Some(p)
    decreases |defs|
  {
    if defs != [] {
      var init := defs[..|defs| - 1];
      EnglishPairsMembers(init, p);
      if exists i :: 0 <= i < |defs| && EnglishPair(defs[i]) == Some(p) {
        var i :| 0 <= i < |defs| && EnglishPair(defs[i]) == Some(p);
        if i < |init| {
          assert init[i] == defs[i];
        }
      }
    }
  }

  /** The English dictionary task's outcome for a Datamuse answer. */
  function EnglishDictionary(answer: FetchResult<DatamuseBody>): Settled<DictionaryResponse> {
    match answer
    case NetworkError => Rejected("fetch failed")
    case HttpError(_) => Rejected("Datamuse API error")
    case HttpOk(Malformed) => Rejected("No dictionary data found")
    case HttpOk(Items(items)) =>
      if items == [] || items[0].defs.None? then Rejected("No dictionary data found")
      else Fulfilled(DictionaryResponse(items[0].word, ToMeanings(Grouped(EnglishPairs(items[0].defs.value)))))
  }

  /** The task fulfils exactly when the request succeeds with a non-empty array
      whose first item carries `defs`; the answer is about that item's word, and
      its meanings are the kept pairs grouped by first-seen part of speech. An
      empty `defs` gives no meanings rather than a failure. */
  lemma EnglishDictionarySpec(answer: FetchResult<DatamuseBody>)
    ensures EnglishDictionary(answer).Fulfilled? <==>
      answer.HttpOk? && answer.body.Items? && answer.body.items != [] && answer.body.items[0].defs.Some?
    ensures EnglishDictionary(answer).Fulfilled? ==>
      var entry := answer.body.items[0];
      && EnglishDictionary(answer).value.word == entry.word
      && PartsOfSpeech(EnglishDictionary(answer).value.meanings) == Distinct(Keys(EnglishPairs(entry.defs.value)))
      && (forall i :: 0 <= i < |EnglishDictionary(answer).value.meanings| ==>
            EnglishDictionary(answer).value.meanings[i].definitions ==
              ValuesAt(EnglishPairs(entry.defs.value), EnglishDictionary(answer).value.meanings[i].partOfSpeech))
      && (entry.defs.value == [] ==> EnglishDictionary(answer).value.meanings == [])
  {
    if EnglishDictionary(answer).Fulfilled? {
      var pairs := EnglishPairs(answer.body.items[0].defs.value);
      var ms := ToMeanings(Grouped(pairs));
      if ms != [] {
        MeaningsOfPairs(pairs, 0);
      } else {
        assert PartsOfSpeech(ms) == Keys(Grouped(pairs));
        GroupedSpec(pairs, "");
      }
      forall i | 0 <= i < |ms| ensures ms[i].definitions == ValuesAt(pairs, ms[i].partOfSpeech) {
        MeaningsOfPairs(pairs, i);
      }
    }
  }

  /** `fetchEnglishDictionaryData`: the guards, then the `forEach` that fills
      `meaningsMap`. */
  method FetchEnglishDictionaryData(answer: FetchResult<DatamuseBody>) returns (outcome: Settled<DictionaryResponse>)
    ensures outcome == EnglishDictionary(answer)
  {
    if answer.NetworkError? {
      return Rejected("fetch failed");
    }
    if answer.HttpError? {
      return Rejected("Datamuse API error");
    }
    if answer.body.Malformed? || answer.body.items == [] || answer.body.items[0].defs.None? {
      return Rejected("No dictionary data found");
    }
    var entry := answer.body.items[0];
    var definitions := entry.defs.value;
    var meaningsMap: seq<(string, seq<string>)> := [];
    var k := 0;
    while k < |definitions|
      invariant 0 <= k <= |definitions|
      invariant meaningsMap == Grouped(EnglishPairs(definitions[..k]))
    {
      assert definitions[..k + 1][..k] == definitions[..k];
      var parts := Split(definitions[k], '\t');
      var partOfSpeech, definition := parts[0], Field(parts, 1);
      if partOfSpeech != [] && Truthy(definition) {
        var group := FindOr(meaningsMap, partOfSpeech, []);
        meaningsMap := Put(meaningsMap, partOfSpeech, group + [definition.value]);
      }
      k := k + 1;
    }
    assert definitions[..k] == definitions;
    return Fulfilled(DictionaryResponse(entry.word, ToMeanings(meaningsMap)));
  }

  /** `fetchDictionaryData`: the script of the word picks the path. */
  function DictionaryTask(jwn: WordTable, word: string, answer: FetchResult<DatamuseBody>): (s: Settled<DictionaryResponse>)
    ensures DetectLanguage(word) == Japanese ==> s == Fulfilled(JapaneseDictionary(jwn, word))
    ensures DetectLanguage(word) == English ==> s == EnglishDictionary(answer)
  {
    if DetectLanguage(word) == Japanese then Fulfilled(JapaneseDictionary(jwn, word)) else EnglishDictionary(answer)
  }
}
