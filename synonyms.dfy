/** The synonym task of the lookup route: `fetchJapaneseWordNetData` scans the
    word table for other words sharing a synset with the input, and
    `fetchEnglishWordNetData` assembles two Datamuse answers (synonyms, then
    antonyms). */
module Synonyms {
  import opened Collections
  import opened Lexicon
  import opened LookupTypes
  import opened SynsetResolver

  const MaxSynonyms: nat := 15
  const MaxAntonyms: nat := 10

  // Japanese synonyms

  /** `otherEntries.some(entry => synsetIds.includes(entry.synsetId))`. */
  predicate SharesSynset(otherEntries: seq<SenseEntry>, synsetIds: seq<string>) {
    exists i :: 0 <= i < |otherEntries| && otherEntries[i].synsetId in synsetIds
  }

  /** The other table words, in table order, with a sense in one of `synsetIds`. */
  function WordsSharing(jwn: WordTable, word: string, synsetIds: seq<string>): seq<string>
    decreases |jwn|
  {
    if jwn == [] then []
    else
      var init := WordsSharing(jwn[..|jwn| - 1], word, synsetIds);
      var (otherWord, otherEntries) := jwn[|jwn| - 1];
      if otherWord != word && SharesSynset(otherEntries, synsetIds) then init + [otherWord] else init
  }

  /** The Japanese synonym answer: at most fifteen words, never antonyms. */
  function JapaneseSynonyms(jwn: WordTable, word: string): SynonymResponse {
    var synsetIds := SenseSynsets(SensesOf(jwn, word));
    SynonymResponse(word, Take(WordsSharing(jwn, word, synsetIds), MaxSynonyms), None)
  }

  lemma {:induction false} WordsSharingMembers(jwn: WordTable, word: string, synsetIds: seq<string>, w: string)
    ensures w in WordsSharing(jwn, word, synsetIds) <==>
      w != word && exists i :: 0 <= i < |jwn| && jwn[i].0 == w && SharesSynset(jwn[i].1, synsetIds)
    decreases |jwn|
  {
    if jwn != [] {
      var init := jwn[..|jwn| - 1];
      WordsSharingMembers(init, word, synsetIds, w);
      if w != word && exists i :: 0 <= i < |jwn| && jwn[i].0 == w && SharesSynset(jwn[i].1, synsetIds) {
        var i :| 0 <= i < |jwn| && jwn[i].0 == w && SharesSynset(jwn[i].1, synsetIds);
        if i < |init| {
          assert init[i] == jwn[i];
        }
      }
    }
  }

  /** A table word other than `word` with a sense in a synset of one of the
      senses of `word`. */
  predicate SharesSenseWith(jwn: WordTable, word: string, w: string) {
    && w != word
    && exists i, j, k :: 0 <= i < |jwn| && 0 <= j < |jwn[i].1| && 0 <= k < |SensesOf(jwn, word)|
         && jwn[i].0 == w && jwn[i].1[j].synsetId == SensesOf(jwn, word)[k].synsetId
  }

  /** The words sharing a sense are exactly the table's words that share one
      with `word`, in table order. */
  lemma WordsSharingSpec(jwn: WordTable, word: string, w: string)
    ensures var all := WordsSharing(jwn, word, SenseSynsets(SensesOf(jwn, word)));
      && (w in all <==> SharesSenseWith(jwn, word, w))
      && IsSubsequence(all, Keys(jwn))
  {
    var synsetIds := SenseSynsets(SensesOf(jwn, word));
    WordsSharingMembers(jwn, word, synsetIds, w);
    if w in WordsSharing(jwn, word, synsetIds) {
      var i :| 0 <= i < |jwn| && jwn[i].0 == w && SharesSynset(jwn[i].1, synsetIds);
      var j :| 0 <= j < |jwn[i].1| && jwn[i].1[j].synsetId in synsetIds;
      var k :| 0 <= k < |synsetIds| && synsetIds[k] == jwn[i].1[j].synsetId;
    }
    if SharesSenseWith(jwn, word, w) {
      var i, j, k :| 0 <= i < |jwn| && 0 <= j < |jwn[i].1| && 0 <= k < |SensesOf(jwn, word)|
         && jwn[i].0 == w && jwn[i].1[j].synsetId == SensesOf(jwn, word)[k].synsetId;
      assert synsetIds[k] == jwn[i].1[j].synsetId;
      assert SharesSynset(jwn[i].1, synsetIds);
    }
    WordsSharingOrder(jwn, word, synsetIds);
  }

  /** The sharing words keep the table's order. */
  lemma {:induction false} WordsSharingOrder(jwn: WordTable, word: string, synsetIds: seq<string>)
    ensures IsSubsequence(WordsSharing(jwn, word, synsetIds), Keys(jwn))
    decreases |jwn|
  {
    if jwn == [] {
      EmptySubsequence(Keys(jwn));
    } else {
      var init := jwn[..|jwn| - 1];
      WordsSharingOrder(init, word, synsetIds);
      assert Keys(jwn) == Keys(init) + [jwn[|jwn| - 1].0];
      SubsequenceSnoc(WordsSharing(init, word, synsetIds), Keys(init), jwn[|jwn| - 1].0);
    }
  }

  /** The Japanese answer holds the first fifteen of the table's words that share
      a synset with one of the input's senses, in table order, never the input
      itself; it has no antonyms. When at most fifteen words share one, every
      one of them is listed. A word the table does not list has no synonyms. */
  lemma JapaneseSynonymsSpec(jwn: WordTable, word: string, w: string)
    ensures var all := WordsSharing(jwn, word, SenseSynsets(SensesOf(jwn, word)));
      && JapaneseSynonyms(jwn, word).word == word
      && JapaneseSynonyms(jwn, word).antonyms == None
      && JapaneseSynonyms(jwn, word).synonyms <= all
      && |JapaneseSynonyms(jwn, word).synonyms| == Min(MaxSynonyms, |all|)
      && (w in all <==> SharesSenseWith(jwn, word, w))
      && IsSubsequence(all, Keys(jwn))
    ensures w in JapaneseSynonyms(jwn, word).synonyms ==> SharesSenseWith(jwn, word, w)
    ensures |WordsSharing(jwn, word, SenseSynsets(SensesOf(jwn, word)))| <= MaxSynonyms ==>
      (w in JapaneseSynonyms(jwn, word).synonyms <==> SharesSenseWith(jwn, word, w))
    ensures word !in JapaneseSynonyms(jwn, word).synonyms
    ensures SensesOf(jwn, word) == [] ==> JapaneseSynonyms(jwn, word).synonyms == []
  {
    var entries := SensesOf(jwn, word);
    var synsetIds := SenseSynsets(entries);
    var all := WordsSharing(jwn, word, synsetIds);
    WordsSharingSpec(jwn, word, w);
    WordsSharingMembers(jwn, word, synsetIds, word);
    if entries == [] && all != [] {
      WordsSharingMembers(jwn, word, synsetIds, all[0]);
    }
  }

  /** The `some` test of the scan. */
  method AnySharedSynset(otherEntries: seq<SenseEntry>, synsetIds: seq<string>) returns (shared: bool)
    ensures shared <==> SharesSynset(otherEntries, synsetIds)
  {
    shared := false;
    var m := 0;
    while m < |otherEntries|
      invariant 0 <= m <= |otherEntries|
      invariant shared <==> exists i :: 0 <= i < m && otherEntries[i].synsetId in synsetIds
    {
      if otherEntries[m].synsetId in synsetIds {
        shared := true;
      }
      m := m + 1;
    }
  }

  /** `fetchJapaneseWordNetData`: the `for` loop over the table pushing every other
      word that shares a synset. It never rejects. */
  method FetchJapaneseWordNetData(jwn: WordTable, word: string) returns (response: SynonymResponse)
    ensures response == JapaneseSynonyms(jwn, word)
  {
    var entries := SensesOf(jwn, word);
    var synsetIds := SenseSynsets(entries);
    var synonyms: seq<string> := [];
    if entries != [] {
      var n := 0;
      while n < |jwn|
        invariant 0 <= n <= |jwn|
        invariant synonyms == WordsSharing(jwn[..n], word, synsetIds)
      {
        assert jwn[..n + 1][..n] == jwn[..n];
        var (otherWord, otherEntries) := jwn[n];
        if otherWord != word {
          var hasSameSynset := AnySharedSynset(otherEntries, synsetIds);
          if hasSameSynset {
            synonyms := synonyms + [otherWord];
          }
        }
        n := n + 1;
      }
      assert jwn[..n] == jwn;
    } else {
      NoSynsetsNoWords(jwn, word, synsetIds);
    }
    response := SynonymResponse(word, Take(synonyms, MaxSynonyms), None);
  }

  /** With no synset ids to match, no word shares one. */
  lemma {:induction false} NoSynsetsNoWords(jwn: WordTable, word: string, synsetIds: seq<string>)
    requires synsetIds == []
    ensures WordsSharing(jwn, word, synsetIds) == []
    decreases |jwn|
  {
    if jwn != [] {
      NoSynsetsNoWords(jwn[..|jwn| - 1], word, synsetIds);
    }
  }

  // English synonyms

  /** The antonym words, or the failure of the antonym request: a request that
      throws or a body that is not an array propagates, a refused one gives none. */
  function AntonymWords(answer: FetchResult<DatamuseBody>): Option<seq<string>> {
    match answer
    case NetworkError => None
    case HttpError(_) => Some([])
    case HttpOk(Malformed) => None
    case HttpOk(Items(items)) => Some(ItemWords(items))
  }

  /** The English synonym task's outcome for the synonym and antonym answers. It
      fulfils exactly when the synonym request succeeds with an array and the
      antonym request neither throws nor returns a non-array; a refused antonym
      request only means no antonyms. The answer holds the first fifteen synonym
      words, and antonyms only when there are some, then the first ten. */
  function EnglishSynonyms(word: string, synonymAnswer: FetchResult<DatamuseBody>, antonymAnswer: FetchResult<DatamuseBody>): (s: Settled<SynonymResponse>)
    ensures s.Fulfilled? <==>
      && synonymAnswer.HttpOk? && synonymAnswer.body.Items?
      && !antonymAnswer.NetworkError?
      && !(antonymAnswer.HttpOk? && antonymAnswer.body.Malformed?)
    ensures s.Fulfilled? ==>
      && s.value.word == word
      && s.value.synonyms <= ItemWords(synonymAnswer.body.items)
      && |s.value.synonyms| == Min(MaxSynonyms, |synonymAnswer.body.items|)
      && (s.value.antonyms.None? <==> antonymAnswer.HttpError? || antonymAnswer.body.items == [])
      && (s.value.antonyms.Some? ==>
            && s.value.antonyms.value <= ItemWords(antonymAnswer.body.items)
            && |s.value.antonyms.value| == Min(MaxAntonyms, |antonymAnswer.body.items|))
  {
    if !(synonymAnswer.HttpOk? && synonymAnswer.body.Items?) then Rejected("English WordNet API error")
    else
      var synonyms := ItemWords(synonymAnswer.body.items);
      match AntonymWords(antonymAnswer)
      case None => Rejected("antonym request failed")
      case Some(antonyms) =>
        Fulfilled(SynonymResponse(word, Take(synonyms, MaxSynonyms),
          if antonyms == [] then None else Some(Take(antonyms, MaxAntonyms))))
  }

  /** `fetchSynonymsData`: the script of the word picks the path. */
  function SynonymsTask(jwn: WordTable, word: string, synonymAnswer: FetchResult<DatamuseBody>, antonymAnswer: FetchResult<DatamuseBody>): (s: Settled<SynonymResponse>)
    ensures DetectLanguage(word) == Japanese ==> s == Fulfilled(JapaneseSynonyms(jwn, word))
    ensures DetectLanguage(word) == English ==> s == EnglishSynonyms(word, synonymAnswer, antonymAnswer)
  {
    if DetectLanguage(word) == Japanese then Fulfilled(JapaneseSynonyms(jwn, word))
    else EnglishSynonyms(word, synonymAnswer, antonymAnswer)
  }
}
