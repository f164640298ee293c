/** `fetchTranslationData` of the lookup route: the lemmas of every language of
    the resolved synsets, merged per language, without the input's own language,
    at most five per language. */
module Translations {
  import opened Collections
  import opened Lexicon
  import opened LookupTypes

  /** At most this many lemmas are kept per language. */
  const MaxPerLanguage: nat := 5

  /** The `(language, lemmas)` entries of the synsets, synset by synset, in table
      order within each synset; an id missing from the table brings none. */
  function SynsetEntries(omw: SynsetTable, ids: seq<string>): seq<(string, seq<string>)>
    decreases |ids|
  {
    if ids == [] then []
    else SynsetEntries(omw, ids[..|ids| - 1]) + FindOr(omw, ids[|ids| - 1], [])
  }

  /** The translations the route answers for `word` and its synsets. */
  function MergedTranslations(omw: SynsetTable, word: string, ids: seq<string>): seq<(string, seq<string>)> {
    TakeEach(Remove(UnionBy(SynsetEntries(omw, ids)), InputLanguageCode(word)), MaxPerLanguage)
  }

  /** An entry comes from the language list of one of the synsets. */
  lemma {:induction false} SynsetEntriesMembers(omw: SynsetTable, ids: seq<string>, e: (string, seq<string>))
    ensures e in SynsetEntries(omw, ids) <==> exists j :: 0 <= j < |ids| && e in FindOr(omw, ids[j], [])
    decreases |ids|
  {
    if ids != [] {
      var init := ids[..|ids| - 1];
      var last := FindOr(omw, ids[|ids| - 1], []);
      assert SynsetEntries(omw, ids) == SynsetEntries(omw, init) + last;
      SynsetEntriesMembers(omw, init, e);
      if e in SynsetEntries(omw, ids) {
        if e in last {
          assert e in FindOr(omw, ids[|ids| - 1], []);
        } else {
          assert e in SynsetEntries(omw, init);
          var j :| 0 <= j < |init| && e in FindOr(omw, init[j], []);
          assert ids[j] == init[j];
        }
      }
      if exists j :: 0 <= j < |ids| && e in FindOr(omw, ids[j], []) {
        var j :| 0 <= j < |ids| && e in FindOr(omw, ids[j], []);
        if j < |init| {
          assert init[j] == ids[j];
          assert e in SynsetEntries(omw, init);
        } else {
          assert e in last;
        }
      }
    }
  }

  /** The translations never hold the input's own language; every other language
      of the synsets is kept with the first five of its lemmas, taken without
      repetition in first-seen order across the synsets; a lemma is among those
      merged exactly when one of the synsets lists it under that language; no
      synsets means no translations. */
  lemma TranslationsSpec(omw: SynsetTable, word: string, ids: seq<string>, lang: string, x: string)
    ensures Find(MergedTranslations(omw, word, ids), InputLanguageCode(word)) == None
    ensures lang != InputLanguageCode(word) ==>
      Find(MergedTranslations(omw, word, ids), lang) ==
        if lang in Keys(SynsetEntries(omw, ids))
        then Some(Take(Distinct(Flatten(ValuesAt(SynsetEntries(omw, ids), lang))), MaxPerLanguage))
        else None
    ensures x in Distinct(Flatten(ValuesAt(SynsetEntries(omw, ids), lang))) <==>
      exists i :: 0 <= i < |SynsetEntries(omw, ids)| && SynsetEntries(omw, ids)[i].0 == lang && x in SynsetEntries(omw, ids)[i].1
    ensures ids == [] ==> MergedTranslations(omw, word, ids) == []
  {
    var es := SynsetEntries(omw, ids);
    var u := UnionBy(es);
    var r := Remove(u, InputLanguageCode(word));
    UnionBySpec(es, lang);
    RemoveFind(u, InputLanguageCode(word), lang);
    RemoveFind(u, InputLanguageCode(word), InputLanguageCode(word));
    TakeEachFind(r, MaxPerLanguage, lang);
    TakeEachFind(r, MaxPerLanguage, InputLanguageCode(word));
    DistinctMembers(Flatten(ValuesAt(es, lang)), x);
    FlattenValuesAtMembers(es, lang, x);
  }

  /** Every list of the translations is duplicate-free and at most five long, and
      no language occurs twice. */
  lemma TranslationsWellFormed(omw: SynsetTable, word: string, ids: seq<string>)
    ensures UniqueKeys(MergedTranslations(omw, word, ids))
    ensures forall i :: 0 <= i < |MergedTranslations(omw, word, ids)| ==>
      |MergedTranslations(omw, word, ids)[i].1| <= MaxPerLanguage && NoDup(MergedTranslations(omw, word, ids)[i].1)
  {
    var es := SynsetEntries(omw, ids);
    var u := UnionBy(es);
    var r := Remove(u, InputLanguageCode(word));
    var t := MergedTranslations(omw, word, ids);
    assert UniqueKeys(u) by {
      if u != [] {
        UnionBySpec(es, u[0].0);
      }
    }
    RemoveUniqueKeys(u, InputLanguageCode(word));
    TakeEachFind(r, MaxPerLanguage, InputLanguageCode(word));
    RemoveFind(u, InputLanguageCode(word), InputLanguageCode(word));
    forall i | 0 <= i < |t| ensures |t[i].1| <= MaxPerLanguage && NoDup(t[i].1) {
      assert t[i].1 == Take(r[i].1, MaxPerLanguage);
      assert r[i] in u;
      var j :| 0 <= j < |u| && u[j] == r[i];
      FindUnique(u, j);
      UnionBySpec(es, u[j].0);
      TakeNoDup(r[i].1, MaxPerLanguage);
    }
  }

  /** `fetchTranslationData`: for each synset, for each of its languages, add the
      lemmas to that language's set; then drop the input's language and cut
      every list to five. It never rejects. */
  method FetchTranslationData(omw: SynsetTable, word: string, synsetIds: seq<string>)
    returns (response: TranslationResponse)
    ensures response == TranslationResponse(word, MergedTranslations(omw, word, synsetIds))
  {
    var translations: seq<(string, seq<string>)> := [];
    var i := 0;
    while i < |synsetIds|
      invariant 0 <= i <= |synsetIds|
      invariant translations == UnionBy(SynsetEntries(omw, synsetIds[..i]))
    {
      var langs := FindOr(omw, synsetIds[i], []);
      var before := SynsetEntries(omw, synsetIds[..i]);
      var j := 0;
      assert before + langs[..0] == before;
      while j < |langs|
        invariant 0 <= j <= |langs|
        invariant translations == UnionBy(before + langs[..j])
      {
        var (lang, lemmas) := langs[j];
        UnionByPrefixStep(before, langs, j);
        var acc := AddLemmas(FindOr(translations, lang, []), lemmas);
        translations := Put(translations, lang, acc);
        j := j + 1;
      }
      assert langs[..j] == langs;
      SynsetEntriesStep(omw, synsetIds, i);
      i := i + 1;
    }
    assert synsetIds[..i] == synsetIds;
    translations := Remove(translations, InputLanguageCode(word));
    response := TranslationResponse(word, TakeEach(translations, MaxPerLanguage));
  }

  /** The entries of one more synset follow those of the synsets before it. */
  lemma SynsetEntriesStep(omw: SynsetTable, ids: seq<string>, i: nat)
    requires i < |ids|
    ensures SynsetEntries(omw, ids[..i + 1]) == SynsetEntries(omw, ids[..i]) + FindOr(omw, ids[i], [])
  {
    assert ids[..i + 1][..i] == ids[..i];
  }

  /** Merging one more language entry of a synset. */
  lemma UnionByPrefixStep(before: seq<(string, seq<string>)>, langs: seq<(string, seq<string>)>, j: nat)
    requires j < |langs|
    ensures UnionBy(before + langs[..j + 1]) ==
      Put(UnionBy(before + langs[..j]), langs[j].0, AddAll(FindOr(UnionBy(before + langs[..j]), langs[j].0, []), langs[j].1))
  {
    assert before + langs[..j + 1] == (before + langs[..j]) + [(langs[j].0, langs[j].1)];
    UnionBySnoc(before + langs[..j], langs[j].0, langs[j].1);
  }

  /** `lemmas.forEach(l => set.add(l))`. */
  method AddLemmas(acc: seq<string>, lemmas: seq<string>) returns (r: seq<string>)
    ensures r == AddAll(acc, lemmas)
  {
    r := acc;
    var k := 0;
    while k < |lemmas|
      invariant 0 <= k <= |lemmas|
      invariant r == AddAll(acc, lemmas[..k])
    {
      assert lemmas[..k + 1][..k] == lemmas[..k];
      if lemmas[k] !in r {
        r := r + [lemmas[k]];
      }
      k := k + 1;
    }
    assert lemmas[..k] == lemmas;
  }
}
