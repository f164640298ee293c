/** `getSynsetIds` of the lookup route: the synsets whose translations are
    gathered for a word, found in tiers that each run only when the previous
    ones found nothing. */
module SynsetResolver {
  import opened Collections
  import opened Text
  import opened Lexicon
  import opened LookupTypes

  /** The synset ids of a word's senses, in order. */
  function SenseSynsets(es: seq<SenseEntry>): (ids: seq<string>)
    ensures |ids| == |es|
    ensures forall i :: 0 <= i < |es| ==> ids[i] == es[i].synsetId
  {
    seq(|es|, i requires 0 <= i < |es| => es[i].synsetId)
  }

  /** The senses the word table lists for a word; none when the word is absent. */
  function SensesOf(jwn: WordTable, word: string): seq<SenseEntry> {
    FindOr(jwn, word, [])
  }

  /** The English lemmas of a synset (`synsetData.en`), none when it has no `en` list. */
  function EnglishLemmas(langs: LanguageLemmas): seq<string> {
    FindOr(langs, "en", [])
  }

  /** The case-insensitive two-way substring test of the second tier. */
  predicate FuzzyMatch(form: string, word: string) {
    Includes(LowerAscii(form), LowerAscii(word)) || Includes(LowerAscii(word), LowerAscii(form))
  }

  predicate SomeFuzzyMatch(lemmas: seq<string>, word: string) {
    exists i :: 0 <= i < |lemmas| && FuzzyMatch(lemmas[i], word)
  }

  /** The synsets, in table order, whose English lemmas include `word` exactly. */
  function ExactIds(omw: SynsetTable, word: string): seq<string>
    decreases |omw|
  {
    if omw == [] then []
    else
      var init := ExactIds(omw[..|omw| - 1], word);
      if word in EnglishLemmas(omw[|omw| - 1].1) then init + [omw[|omw| - 1].0] else init
  }

  /** The synsets, in table order, with an English lemma that contains `word` or is
      contained in it, ignoring case. */
  function FuzzyIds(omw: SynsetTable, word: string): seq<string>
    decreases |omw|
  {
    if omw == [] then []
    else
      var init := FuzzyIds(omw[..|omw| - 1], word);
      if SomeFuzzyMatch(EnglishLemmas(omw[|omw| - 1].1), word) then init + [omw[|omw| - 1].0] else init
  }

  /** The exact-tier synsets of each related word in turn. */
  function ExpansionIds(omw: SynsetTable, words: seq<string>): seq<string>
    decreases |words|
  {
    if words == [] then []
    else ExpansionIds(omw, words[..|words| - 1]) + ExactIds(omw, words[|words| - 1])
  }

  /** The related words the expansion tier searches for: those of a successful
      Datamuse answer; none when the request fails, is refused or is not an array. */
  function ExpansionWords(related: FetchResult<DatamuseBody>): seq<string> {
    match related
    case HttpOk(Items(items)) => ItemWords(items)
    case _ => []
  }

  /** The answer of `getSynsetIds`. */
  function SynsetIds(jwn: WordTable, omw: SynsetTable, word: string, related: FetchResult<DatamuseBody>): seq<string> {
    if DetectLanguage(word) == Japanese then Distinct(SenseSynsets(SensesOf(jwn, word)))
    else if ExactIds(omw, word) != [] then Distinct(ExactIds(omw, word))
    else if FuzzyIds(omw, word) != [] then Distinct(FuzzyIds(omw, word))
    else Distinct(ExpansionIds(omw, ExpansionWords(related)))
  }

  /** The Datamuse expansion is requested only for English input that neither the
      exact nor the fuzzy tier resolves. */
  predicate QueriesRelatedWords(omw: SynsetTable, word: string) {
    DetectLanguage(word) == English && ExactIds(omw, word) == [] && FuzzyIds(omw, word) == []
  }

  lemma {:induction false} ExactIdsMembers(omw: SynsetTable, word: string, id: string)
    ensures id in ExactIds(omw, word) <==>
      exists i :: 0 <= i < |omw| && omw[i].0 == id && word in EnglishLemmas(omw[i].1)
    decreases |omw|
  {
    if omw != [] {
      var init := omw[..|omw| - 1];
      ExactIdsMembers(init, word, id);
      if id in ExactIds(omw, word) && id !in ExactIds(init, word) {
        assert omw[|omw| - 1].0 == id;
      }
      if exists i :: 0 <= i < |omw| && omw[i].0 == id && word in EnglishLemmas(omw[i].1) {
        var i :| 0 <= i < |omw| && omw[i].0 == id && word in EnglishLemmas(omw[i].1);
        if i < |omw| - 1 {
          assert init[i] == omw[i];
        }
      }
    }
  }

  lemma {:induction false} FuzzyIdsMembers(omw: SynsetTable, word: string, id: string)
    ensures id in FuzzyIds(omw, word) <==>
      exists i :: 0 <= i < |omw| && omw[i].0 == id && SomeFuzzyMatch(EnglishLemmas(omw[i].1), word)
    decreases |omw|
  {
    if omw != [] {
      var init := omw[..|omw| - 1];
      FuzzyIdsMembers(init, word, id);
      if id in FuzzyIds(omw, word) && id !in FuzzyIds(init, word) {
        assert omw[|omw| - 1].0 == id;
      }
      if exists i :: 0 <= i < |omw| && omw[i].0 == id && SomeFuzzyMatch(EnglishLemmas(omw[i].1), word) {
        var i :| 0 <= i < |omw| && omw[i].0 == id && SomeFuzzyMatch(EnglishLemmas(omw[i].1), word);
        if i < |omw| - 1 {
          assert init[i] == omw[i];
        }
      }
    }
  }

  /** Every exact hit is also a fuzzy hit, so the fuzzy tier only ever runs when
      it has something new to look at. */
  lemma {:induction false} ExactWithinFuzzy(omw: SynsetTable, word: string, id: string)
    requires id in ExactIds(omw, word)
    ensures id in FuzzyIds(omw, word)
  {
    ExactIdsMembers(omw, word, id);
    FuzzyIdsMembers(omw, word, id);
    var i :| 0 <= i < |omw| && omw[i].0 == id && word in EnglishLemmas(omw[i].1);
    var lemmas := EnglishLemmas(omw[i].1);
    var j :| 0 <= j < |lemmas| && lemmas[j] == word;
    IncludesSelf(LowerAscii(word));
    assert FuzzyMatch(lemmas[j], word);
  }

  /** A synset one of whose English lemmas is `w`. */
  predicate ExactHit(omw: SynsetTable, w: string, id: string) {
    exists i :: 0 <= i < |omw| && omw[i].0 == id && w in EnglishLemmas(omw[i].1)
  }

  /** A synset one of whose English lemmas matches `w` fuzzily. */
  predicate FuzzyHit(omw: SynsetTable, w: string, id: string) {
    exists i :: 0 <= i < |omw| && omw[i].0 == id && SomeFuzzyMatch(EnglishLemmas(omw[i].1), w)
  }

  /** The expansion tier finds exactly the exact hits of the related words. */
  lemma {:induction false} ExpansionIdsMembers(omw: SynsetTable, words: seq<string>, id: string)
    ensures id in ExpansionIds(omw, words) <==> exists k :: 0 <= k < |words| && ExactHit(omw, words[k], id)
    decreases |words|
  {
    if words != [] {
      var init := words[..|words| - 1];
      var last := words[|words| - 1];
      ExpansionIdsMembers(omw, init, id);
      ExactIdsMembers(omw, last, id);
      if exists k :: 0 <= k < |words| && ExactHit(omw, words[k], id) {
        var k :| 0 <= k < |words| && ExactHit(omw, words[k], id);
        if k < |init| {
          assert init[k] == words[k];
        }
      }
      if exists k :: 0 <= k < |init| && ExactHit(omw, init[k], id) {
        var k :| 0 <= k < |init| && ExactHit(omw, init[k], id);
        assert words[k] == init[k];
      }
    }
  }

  /** The answer never repeats a synset. A Japanese word's synsets are those of
      its own senses, in the order of their first occurrence. An English word's
      synsets come from the first tier that finds any: its exact hits, else its
      fuzzy hits, else the exact hits of the related words of a successful
      Datamuse answer, and none when that request fails. */
  lemma SynsetIdsSpec(jwn: WordTable, omw: SynsetTable, word: string, related: FetchResult<DatamuseBody>, id: string)
    ensures NoDup(SynsetIds(jwn, omw, word, related))
    ensures DetectLanguage(word) == Japanese ==>
      && (id in SynsetIds(jwn, omw, word, related) <==> exists i :: 0 <= i < |SensesOf(jwn, word)| && SensesOf(jwn, word)[i].synsetId == id)
      && KeepsFirstOccurrences(SynsetIds(jwn, omw, word, related), SenseSynsets(SensesOf(jwn, word)))
    ensures DetectLanguage(word) == English && ExactIds(omw, word) != [] ==>
      (id in SynsetIds(jwn, omw, word, related) <==> ExactHit(omw, word, id))
    ensures DetectLanguage(word) == English && ExactIds(omw, word) == [] && FuzzyIds(omw, word) != [] ==>
      (id in SynsetIds(jwn, omw, word, related) <==> FuzzyHit(omw, word, id))
    ensures QueriesRelatedWords(omw, word) && related.HttpOk? && related.body.Items? ==>
      (id in SynsetIds(jwn, omw, word, related) <==>
        exists k :: 0 <= k < |related.body.items| && ExactHit(omw, related.body.items[k].word, id))
    ensures !QueriesRelatedWords(omw, word) ==> SynsetIds(jwn, omw, word, related) == SynsetIds(jwn, omw, word, NetworkError)
    ensures QueriesRelatedWords(omw, word) && !related.HttpOk? ==> SynsetIds(jwn, omw, word, related) == []
  {
    var r := SynsetIds(jwn, omw, word, related);
    if DetectLanguage(word) == Japanese {
      var es := SensesOf(jwn, word);
      DistinctMembers(SenseSynsets(es), id);
      DistinctOrder(SenseSynsets(es));
      if id in SenseSynsets(es) {
        var i :| 0 <= i < |es| && SenseSynsets(es)[i] == id;
      }
    } else if ExactIds(omw, word) != [] {
      DistinctMembers(ExactIds(omw, word), id);
      ExactIdsMembers(omw, word, id);
    } else if FuzzyIds(omw, word) != [] {
      DistinctMembers(FuzzyIds(omw, word), id);
      FuzzyIdsMembers(omw, word, id);
    } else if related.HttpOk? && related.body.Items? {
      var words := ExpansionWords(related);
      DistinctMembers(ExpansionIds(omw, words), id);
      ExpansionIdsMembers(omw, words, id);
      assert forall k :: 0 <= k < |words| ==> words[k] == related.body.items[k].word;
    }
  }

  /** `getSynsetIds`: the three tiers in turn, each pushing a synset id unless it
      is already there. `queried` tells whether the Datamuse request was made. */
  method GetSynsetIds(jwn: WordTable, omw: SynsetTable, word: string, related: FetchResult<DatamuseBody>)
    returns (synsetIds: seq<string>, queried: bool)
    ensures synsetIds == SynsetIds(jwn, omw, word, related)
    ensures queried == QueriesRelatedWords(omw, word)
  {
    queried := false;
    if DetectLanguage(word) == Japanese {
      synsetIds := CollectSenses(SensesOf(jwn, word));
      return;
    }
    synsetIds := CollectExact(omw, word, [], []);
    assert [] + ExactIds(omw, word) == ExactIds(omw, word);
    DistinctEmpty(ExactIds(omw, word));
    if synsetIds != [] {
      return;
    }
    synsetIds := CollectFuzzy(omw, word);
    DistinctEmpty(FuzzyIds(omw, word));
    if synsetIds != [] {
      return;
    }
    queried := true;
    synsetIds := CollectExpansion(omw, ExpansionWords(related));
  }

  lemma DistinctEmpty(xs: seq<string>)
    ensures Distinct(xs) == [] <==> xs == []
  {
    if xs != [] {
      DistinctMembers(xs, xs[0]);
    }
  }

  /** The Japanese tier: the synset of each sense of the word, first occurrence kept. */
  method CollectSenses(entries: seq<SenseEntry>) returns (synsetIds: seq<string>)
    ensures synsetIds == Distinct(SenseSynsets(entries))
  {
    synsetIds := [];
    var k := 0;
    while k < |entries|
      invariant 0 <= k <= |entries|
      invariant synsetIds == Distinct(SenseSynsets(entries[..k]))
    {
      assert SenseSynsets(entries[..k + 1]) == SenseSynsets(entries[..k]) + [entries[k].synsetId];
      DistinctSnoc(SenseSynsets(entries[..k]), entries[k].synsetId);
      if entries[k].synsetId !in synsetIds {
        synsetIds := synsetIds + [entries[k].synsetId];
      }
      k := k + 1;
    }
    assert entries[..k] == entries;
  }

  /** `synsetData.en.some(...)`: does some lemma match the word fuzzily? */
  method AnyFuzzyMatch(lemmas: seq<string>, word: string) returns (matched: bool)
    ensures matched <==> SomeFuzzyMatch(lemmas, word)
  {
    matched := false;
    var m := 0;
    while m < |lemmas|
      invariant 0 <= m <= |lemmas|
      invariant matched <==> SomeFuzzyMatch(lemmas[..m], word)
    {
      assert forall x :: 0 <= x < m ==> lemmas[..m + 1][x] == lemmas[..m][x];
      if FuzzyMatch(lemmas[m], word) {
        matched := true;
      }
      m := m + 1;
    }
    assert lemmas[..m] == lemmas;
  }

  /** The fuzzy tier over the whole table. */
  method CollectFuzzy(omw: SynsetTable, word: string) returns (synsetIds: seq<string>)
    ensures synsetIds == Distinct(FuzzyIds(omw, word))
  {
    synsetIds := [];
    var j := 0;
    while j < |omw|
      invariant 0 <= j <= |omw|
      invariant synsetIds == Distinct(FuzzyIds(omw[..j], word))
    {
      assert omw[..j + 1][..j] == omw[..j];
      var matched := AnyFuzzyMatch(EnglishLemmas(omw[j].1), word);
      DistinctSnoc(FuzzyIds(omw[..j], word), omw[j].0);
      if matched && omw[j].0 !in synsetIds {
        synsetIds := synsetIds + [omw[j].0];
      }
      j := j + 1;
    }
    assert omw[..j] == omw;
  }

  /** The expansion tier: the exact search repeated for each related word. */
  method CollectExpansion(omw: SynsetTable, searchWords: seq<string>) returns (synsetIds: seq<string>)
    ensures synsetIds == Distinct(ExpansionIds(omw, searchWords))
  {
    synsetIds := [];
    var a := 0;
    while a < |searchWords|
      invariant 0 <= a <= |searchWords|
      invariant synsetIds == Distinct(ExpansionIds(omw, searchWords[..a]))
    {
      assert searchWords[..a + 1][..a] == searchWords[..a];
      synsetIds := CollectExact(omw, searchWords[a], synsetIds, ExpansionIds(omw, searchWords[..a]));
      a := a + 1;
    }
    assert searchWords[..a] == searchWords;
  }

  /** The inner loop over the table shared by the exact and the expansion tiers:
      push onto the ids collected so far, `acc`, every synset whose English
      lemmas include `word` and that `acc` does not hold yet. `before` is the
      list of hits `acc` was collected from. */
  method CollectExact(omw: SynsetTable, word: string, acc: seq<string>, ghost before: seq<string>) returns (synsetIds: seq<string>)
    requires acc == Distinct(before)
    ensures synsetIds == Distinct(before + ExactIds(omw, word))
  {
    synsetIds := acc;
    var b := 0;
    assert before + [] == before;
    while b < |omw|
      invariant 0 <= b <= |omw|
      invariant synsetIds == Distinct(before + ExactIds(omw[..b], word))
    {
      var (synsetId, synsetData) := omw[b];
      ExactIdsStep(omw, word, before, b);
      DistinctSnoc(before + ExactIds(omw[..b], word), synsetId);
      if word in EnglishLemmas(synsetData) && synsetId !in synsetIds {
        synsetIds := synsetIds + [synsetId];
      }
      b := b + 1;
    }
    assert omw[..b] == omw;
  }

  /** One more synset of the table: its id is appended exactly when it is an
      exact hit. */
  lemma ExactIdsStep(omw: SynsetTable, word: string, before: seq<string>, b: nat)
    requires b < |omw|
    ensures before + ExactIds(omw[..b + 1], word) ==
      if word in EnglishLemmas(omw[b].1) then (before + ExactIds(omw[..b], word)) + [omw[b].0]
      else before + ExactIds(omw[..b], word)
  {
    assert omw[..b + 1][..b] == omw[..b];
  }
}
