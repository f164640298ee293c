/** The translate route: `POST` translates a query from its source language into
    every other supported language, loading one model per language pair through
    a cache of at most ten models from which the least recently used are
    evicted. The models are the route's built-in toy dictionary. */
module TranslateRoute {
  import opened Collections
  import opened Text
  import opened LookupTypes

  /** `SUPPORTED_LANGUAGES`. */
  const SupportedLanguages: seq<string> := [
    "en", "ja", "de", "fr", "es", "it", "pt", "ru", "zh", "ko",
    "ar", "hi", "tr", "nl", "el", "sv", "pl"
  ]

  /** `MAX_CACHE_SIZE`. */
  const MaxCacheSize: nat := 10

  /** The seventeen codes are distinct and none holds the key separator `_`. */
  lemma SupportedLanguagesShape()
    ensures |SupportedLanguages| == 17
    ensures NoDup(SupportedLanguages)
    ensures forall i :: 0 <= i < |SupportedLanguages| ==> '_' !in SupportedLanguages[i]
  {
  }

  // Language pairs and their models

  /** `getModelKey`: the cache key of a language pair. */
  function ModelKey(src: string, tgt: string): string {
    src + "_" + tgt
  }

  /** The target language a cache key names: what follows its one `_`. */
  function KeyTarget(key: string): string {
    var parts := Split(key, '_');
    if |parts| == 2 then parts[1] else []
  }

  /** A key splits back into its pair, so distinct pairs of codes never share a
      key and the key tells the target. */
  lemma ModelKeyParts(src: string, tgt: string)
    requires '_' !in src && '_' !in tgt
    ensures Split(ModelKey(src, tgt), '_') == [src, tgt]
    ensures KeyTarget(ModelKey(src, tgt)) == tgt
  {
    assert Join([src, tgt], '_') == ModelKey(src, tgt) by {
      assert [src, tgt][1..] == [tgt];
    }
    JoinSplit([src, tgt], '_');
  }

  /** Two pairs of codes have the same key exactly when they are the same pair. */
  lemma ModelKeyInjective(src: string, tgt: string, src': string, tgt': string)
    requires '_' !in src && '_' !in tgt && '_' !in src' && '_' !in tgt'
    ensures ModelKey(src, tgt) == ModelKey(src', tgt') <==> src == src' && tgt == tgt'
  {
    ModelKeyParts(src, tgt);
    ModelKeyParts(src', tgt');
  }

  /** A loaded model. The toy model of a pair depends on its target only. */
  datatype Model = Model(target: string)

  /** The toy dictionary the model looks words up in: word, then target language. */
  const ToyTranslations: seq<(string, seq<(string, string)>)> := [
    ("自由", JiyuuRow),
    ("美しい", UtsukushiiRow),
    ("freedom", FreedomRow),
    ("beautiful", BeautifulRow),
    ("on", OnRow)
  ]

  const JiyuuRow: seq<(string, string)> := [
    ("en", "freedom"), ("de", "Freiheit"), ("fr", "liberté"), ("es", "libertad"),
    ("it", "libertà"), ("pt", "liberdade"), ("ru", "свобода"), ("zh", "自由"),
    ("ko", "자유"), ("ar", "حرية"), ("hi", "स्वतंत्रता"), ("tr", "özgürlük"),
    ("nl", "vrijheid"), ("el", "ελευθερία"), ("sv", "frihet"), ("pl", "wolność")]

  const UtsukushiiRow: seq<(string, string)> := [
    ("en", "beautiful"), ("de", "schön"), ("fr", "beau"), ("es", "hermoso"),
    ("it", "bello"), ("pt", "belo"), ("ru", "красивый"), ("zh", "美丽"),
    ("ko", "아름다운"), ("ar", "جميل"), ("hi", "सुंदर"), ("tr", "güzel"),
    ("nl", "mooi"), ("el", "όμορφος"), ("sv", "vacker"), ("pl", "piękny")]

  const FreedomRow: seq<(string, string)> := [
    ("ja", "自由"), ("de", "Freiheit"), ("fr", "liberté"), ("es", "libertad"),
    ("it", "libertà"), ("pt", "liberdade"), ("ru", "свобода"), ("zh", "自由"),
    ("ko", "자유"), ("ar", "حرية"), ("hi", "स्वतंत्रता"), ("tr", "özgürlük"),
    ("nl", "vrijheid"), ("el", "ελευθερία"), ("sv", "frihet"), ("pl", "wolność")]

  const BeautifulRow: seq<(string, string)> := [
    ("ja", "美しい"), ("de", "schön"), ("fr", "beau"), ("es", "hermoso"),
    ("it", "bello"), ("pt", "belo"), ("ru", "красивый"), ("zh", "美丽"),
    ("ko", "아름다운"), ("ar", "جميل"), ("hi", "सुंदर"), ("tr", "güzel"),
    ("nl", "mooi"), ("el", "όμορφος"), ("sv", "vacker"), ("pl", "piękny")]

  const OnRow: seq<(string, string)> := [
    ("ja", "オン"), ("de", "an"), ("fr", "sur"), ("es", "en"),
    ("it", "su"), ("pt", "em"), ("ru", "на"), ("zh", "在"),
    ("ko", "에"), ("ar", "على"), ("hi", "पर"), ("tr", "üzerinde"),
    ("nl", "op"), ("el", "επί"), ("sv", "på"), ("pl", "na")]

  /** `translations[text]?.[tgt]`: the dictionary's entry for `text` in
      `target`, if it has one. */
  function ToyEntry(text: string, target: string): Option<string> {
    match Find(ToyTranslations, text)
    case None => None
    case Some(row) => Find(row, target)
  }

  /** `r` is the dictionary's entry for `text` in `target` when there is one and
      it is not empty, and `text` in square brackets otherwise. */
  predicate IsToyTranslation(text: string, target: string, r: string) {
    var e := ToyEntry(text, target);
    if e.Some? && e.value != [] then r == e.value else r == "[" + text + "]"
  }

  /** `model.translate(text)`: the dictionary's word for `text` in the model's
      target language, or the text in square brackets when there is none (no row
      for the text, no entry for the language, or an empty entry). The answer is
      never empty, and a text the dictionary does not list always comes back
      bracketed. */
  function Translate(m: Model, text: string): (r: string)
    ensures r != []
    ensures text !in Keys(ToyTranslations) ==> r == "[" + text + "]"
    ensures IsToyTranslation(text, m.target, r)
  {
    FindKeys(ToyTranslations, text);
    var w := FindOr(FindOr(ToyTranslations, text, []), m.target, "");
    if w != "" then w else "[" + text + "]"
  }

  /** A listed word in a listed language. */
  lemma TranslateListed()
    ensures Translate(Model("de"), "自由") == "Freiheit"
  {
    assert Find(ToyTranslations, "自由") == Some(JiyuuRow);
    assert Find(JiyuuRow, "de") == Some("Freiheit");
  }

  /** A listed word without an entry for the target language comes back
      bracketed. */
  lemma TranslateMissingTarget()
    ensures Translate(Model("en"), "freedom") == "[freedom]"
  {
    FreedomEntryEnglish();
  }

  /** The dictionary has no English entry for "freedom". */
  lemma FreedomEntryEnglish()
    ensures ToyEntry("freedom", "en") == None
  {
    FreedomRowFound();
    FreedomRowLacksEnglish();
  }

  /** "freedom" is the third word of the dictionary. */
  lemma FreedomRowFound()
    ensures Find(ToyTranslations, "freedom") == Some(FreedomRow)
  {
    var t := ToyTranslations;
    assert Find(t, "freedom") == Find(t[1..], "freedom") == Find(t[2..], "freedom");
    assert t[2..][0] == ("freedom", FreedomRow);
  }

  /** The row of "freedom" lists no `en`. */
  lemma FreedomRowLacksEnglish()
    ensures Find(FreedomRow, "en") == None
  {
    assert "en" !in Keys(FreedomRow) by {
      forall i | 0 <= i < |FreedomRow| ensures FreedomRow[i].0 != "en" {
      }
    }
    FindKeys(FreedomRow, "en");
  }

  /** An unlisted word comes back bracketed. */
  lemma TranslateUnlisted()
    ensures Translate(Model("ja"), "cat") == "[cat]"
  {
    assert "cat" !in Keys(ToyTranslations);
  }

  /** `detectLanguage` of this route: `ja` for a text with a character of the
      Japanese-script class, `en` otherwise. */
  function DetectSource(text: string): (code: string)
    ensures code == "ja" <==> HasJapaneseChar(text)
    ensures code == "ja" || code == "en"
  {
    InputLanguageCode(text)
  }

  // The model cache

  /** A cached model and when it was last used, in milliseconds. */
  datatype CachedModel = CachedModel(model: Model, lastUsed: int)

  type CacheEntry = (string, CachedModel)

  /** The position of the least recently used entry, the first one among equals. */
  function OldestIndex(s: seq<CacheEntry>): (i: nat)
    requires s != []
    ensures i < |s|
    ensures forall j :: 0 <= j < |s| ==> s[i].1.lastUsed <= s[j].1.lastUsed
    ensures forall j :: 0 <= j < i ==> s[j].1.lastUsed > s[i].1.lastUsed
    decreases |s|
  {
    if |s| == 1 then 0
    else
      var k := OldestIndex(s[..|s| - 1]);
      if s[|s| - 1].1.lastUsed < s[k].1.lastUsed then |s| - 1 else k
  }

  function RemoveAt<T>(s: seq<T>, i: nat): (r: seq<T>)
    requires i < |s|
    ensures |r| == |s| - 1
  {
    s[..i] + s[i + 1..]
  }

  /** Removing one entry keeps the others, which still have distinct keys that
      all differ from the removed entry's key. */
  lemma RemoveAtEntries(s: seq<CacheEntry>, i: nat)
    requires i < |s|
    ensures forall x :: x in RemoveAt(s, i) ==> x in s
    ensures forall x :: x in s ==> x == s[i] || x in RemoveAt(s, i)
    ensures UniqueKeys(s) ==> UniqueKeys(RemoveAt(s, i)) && forall x :: x in RemoveAt(s, i) ==> x.0 != s[i].0
  {
    var r := RemoveAt(s, i);
    forall x | x in s ensures x == s[i] || x in r {
      var j :| 0 <= j < |s| && s[j] == x;
      if j < i {
        assert r[j] == x;
      } else if j > i {
        assert r[j - 1] == x;
      }
    }
    if UniqueKeys(s) {
      assert forall j :: 0 <= j < |r| ==> r[j] == if j < i then s[j] else s[j + 1];
      forall a, b | 0 <= a < b < |r| ensures Keys(r)[a] != Keys(r)[b] {
        var a' := if a < i then a else a + 1;
        var b' := if b < i then b else b + 1;
        assert Keys(s)[a'] != Keys(s)[b'];
      }
      forall x | x in r ensures x.0 != s[i].0 {
        var j :| 0 <= j < |r| && r[j] == x;
        var j' := if j < i then j else j + 1;
        assert Keys(s)[j'] != Keys(s)[i];
      }
    }
  }

  /** Non-decreasing in `lastUsed`. */
  predicate SortedByLastUsed(s: seq<CacheEntry>) {
    forall a, b :: 0 <= a < b < |s| ==> s[a].1.lastUsed <= s[b].1.lastUsed
  }

  /** The entries ordered by `lastUsed`, equal times kept in insertion order:
      `entries.sort((a, b) => a[1].lastUsed - b[1].lastUsed)`, a stable sort,
      repeatedly taking the first of the least recent entries. */
  function SortByLastUsed(s: seq<CacheEntry>): (r: seq<CacheEntry>)
    ensures |r| == |s|
    decreases |s|
  {
    if s == [] then []
    else
      var i := OldestIndex(s);
      [s[i]] + SortByLastUsed(RemoveAt(s, i))
  }

  /** The sort keeps exactly the entries it is given. */
  lemma {:induction false} SortByLastUsedMembers(s: seq<CacheEntry>)
    ensures forall x :: x in SortByLastUsed(s) <==> x in s
    decreases |s|
  {
    if s != [] {
      var i := OldestIndex(s);
      SortByLastUsedMembers(RemoveAt(s, i));
      RemoveAtEntries(s, i);
      assert SortByLastUsed(s) == [s[i]] + SortByLastUsed(RemoveAt(s, i));
    }
  }

  /** The sort is a permutation (same entries, and distinct keys stay distinct)
      and is non-decreasing in `lastUsed`. */
  lemma {:induction false} SortByLastUsedSpec(s: seq<CacheEntry>)
    ensures forall x :: x in SortByLastUsed(s) <==> x in s
    ensures SortedByLastUsed(SortByLastUsed(s))
    ensures UniqueKeys(s) ==> UniqueKeys(SortByLastUsed(s))
    decreases |s|
  {
    SortByLastUsedMembers(s);
    if s != [] {
      var i := OldestIndex(s);
      var smaller := RemoveAt(s, i);
      var rest := SortByLastUsed(smaller);
      SortByLastUsedSpec(smaller);
      RemoveAtEntries(s, i);
      SortUnfold(s);
      SortStep(s, i, smaller, rest, SortByLastUsed(s));
    }
  }

  /** Putting the least recent entry in front of the sorted others keeps the
      order, and its key, which no other entry has, keeps the keys distinct. */
  lemma SortStep(s: seq<CacheEntry>, i: nat, smaller: seq<CacheEntry>, rest: seq<CacheEntry>, r: seq<CacheEntry>)
    requires i < |s| && r == [s[i]] + rest
    requires forall j :: 0 <= j < |s| ==> s[i].1.lastUsed <= s[j].1.lastUsed
    requires forall x :: x in rest <==> x in smaller
    requires forall x :: x in smaller ==> x in s
    requires SortedByLastUsed(rest)
    requires UniqueKeys(s) ==> UniqueKeys(smaller) && forall x :: x in smaller ==> x.0 != s[i].0
    requires UniqueKeys(smaller) ==> UniqueKeys(rest)
    ensures SortedByLastUsed(r)
    ensures UniqueKeys(s) ==> UniqueKeys(r)
  {
    forall j | 0 <= j < |rest| ensures s[i].1.lastUsed <= rest[j].1.lastUsed {
      assert rest[j] in rest;
      var k :| 0 <= k < |s| && s[k] == rest[j];
    }
    assert forall j :: 0 < j < |r| ==> r[j] == rest[j - 1];
    if UniqueKeys(s) {
      forall a, b | 0 <= a < b < |r| ensures Keys(r)[a] != Keys(r)[b] {
        if a == 0 {
          assert rest[b - 1] in rest;
        } else {
          assert Keys(rest)[a - 1] != Keys(rest)[b - 1];
        }
      }
    }
  }

  /** The entries `evictOldModels` deletes: none while there are at most ten,
      otherwise the first `size - 10` of the sorted entries. */
  function ToRemove(entries: seq<CacheEntry>): seq<CacheEntry> {
    if |entries| <= MaxCacheSize then [] else SortByLastUsed(entries)[..|entries| - MaxCacheSize]
  }

  /** `evictOldModels` on the entries: the keys of `ToRemove` deleted one by one. */
  function Evicted(entries: seq<CacheEntry>): seq<CacheEntry> {
    RemoveKeys(entries, Keys(ToRemove(entries)))
  }

  /** Deleting the key of one more entry of `es`. */
  lemma RemoveKeysStep(t: seq<CacheEntry>, es: seq<CacheEntry>, k: nat)
    requires k < |es|
    ensures RemoveKeys(t, Keys(es[..k + 1])) == Remove(RemoveKeys(t, Keys(es[..k])), es[k].0)
  {
    var ks := Keys(es[..k + 1]);
    assert ks[..k] == Keys(es[..k]);
    assert ks[k] == es[k].0;
  }

  /** In a list with distinct keys, two entries with the same key are the same. */
  lemma SameKeySameEntry(t: seq<CacheEntry>, x: CacheEntry, y: CacheEntry)
    requires UniqueKeys(t) && x in t && y in t && x.0 == y.0
    ensures x == y
  {
    var i :| 0 <= i < |t| && t[i] == x;
    var j :| 0 <= j < |t| && t[j] == y;
    assert Keys(t)[i] == Keys(t)[j];
  }

  /** The entries to delete are `size - 10` distinct entries of the cache, and
      none was used later than any entry that stays. */
  lemma ToRemoveSpec(entries: seq<CacheEntry>)
    requires UniqueKeys(entries)
    ensures |ToRemove(entries)| == if |entries| <= MaxCacheSize then 0 else |entries| - MaxCacheSize
    ensures UniqueKeys(ToRemove(entries))
    ensures forall i :: 0 <= i < |ToRemove(entries)| ==> ToRemove(entries)[i] in entries
    ensures forall a, x :: 0 <= a < |ToRemove(entries)| && x in entries && x.0 !in Keys(ToRemove(entries)) ==>
      ToRemove(entries)[a].1.lastUsed <= x.1.lastUsed
  {
    if |entries| > MaxCacheSize {
      var s := SortByLastUsed(entries);
      var m := |entries| - MaxCacheSize;
      SortByLastUsedSpec(entries);
      PrefixUnique(s, m);
      forall i | 0 <= i < m ensures s[..m][i] in entries {
        assert s[..m][i] == s[i] && s[i] in s;
      }
      forall a, x | 0 <= a < m && x in entries && x.0 !in Keys(s[..m])
        ensures s[..m][a].1.lastUsed <= x.1.lastUsed
      {
        SortedPrefixFirst(s, m, a, x);
      }
    }
  }

  /** A prefix of a list with distinct keys has distinct keys. */
  lemma PrefixUnique(s: seq<CacheEntry>, m: nat)
    requires m <= |s| && UniqueKeys(s)
    ensures UniqueKeys(s[..m])
  {
    assert Keys(s[..m]) == Keys(s)[..m];
  }

  /** In a sorted list, an entry of a prefix was used no later than an entry
      whose key the prefix lacks. */
  lemma SortedPrefixFirst(s: seq<CacheEntry>, m: nat, a: nat, x: CacheEntry)
    requires a < m <= |s| && x in s && x.0 !in Keys(s[..m])
    requires SortedByLastUsed(s)
    ensures s[..m][a].1.lastUsed <= x.1.lastUsed
  {
    var b :| 0 <= b < |s| && s[b] == x;
    PrefixKeys(s, m, b);
  }

  /** An entry of a prefix has its key among the prefix's keys. */
  lemma PrefixKeys(s: seq<CacheEntry>, m: nat, b: nat)
    requires m <= |s| && b < |s|
    ensures b < m ==> s[b].0 in Keys(s[..m])
  {
    if b < m {
      assert Keys(s[..m])[b] == s[b].0;
    }
  }

  /** Eviction, for a cache whose keys are distinct. At most ten entries are left
      alone. Beyond ten, exactly ten remain: they are entries of the cache,
      unchanged, with distinct keys, and none of them was used less recently
      than any evicted entry. */
  lemma EvictedSpec(entries: seq<CacheEntry>, k: string)
    requires UniqueKeys(entries)
    ensures |entries| <= MaxCacheSize ==> Evicted(entries) == entries
    ensures |entries| > MaxCacheSize ==> |Evicted(entries)| == MaxCacheSize
    ensures UniqueKeys(Evicted(entries))
    ensures forall i :: 0 <= i < |Evicted(entries)| ==> Evicted(entries)[i] in entries
    ensures Find(Evicted(entries), k) == None || Find(Evicted(entries), k) == Find(entries, k)
    ensures forall i, j :: 0 <= i < |entries| && 0 <= j < |Evicted(entries)| && entries[i].0 !in Keys(Evicted(entries)) ==>
      entries[i].1.lastUsed <= Evicted(entries)[j].1.lastUsed
  {
    var r := ToRemove(entries);
    var ks := Keys(r);
    var e := Evicted(entries);
    ToRemoveSpec(entries);
    RemoveKeysFind(entries, ks, k);
    forall i | 0 <= i < |ks| ensures ks[i] in Keys(entries) {
      var j :| 0 <= j < |entries| && entries[j] == r[i];
      assert Keys(entries)[j] == ks[i];
    }
    RemoveKeysSize(entries, ks);
    forall i, j | 0 <= i < |entries| && 0 <= j < |e| && entries[i].0 !in Keys(e)
      ensures entries[i].1.lastUsed <= e[j].1.lastUsed
    {
      EvictedOne(entries, i, j);
    }
  }

  /** The entries eviction keeps stay in their insertion order. */
  lemma EvictedInOrder(entries: seq<CacheEntry>)
    ensures IsSubsequence(Evicted(entries), entries)
  {
    RemoveKeysSubsequence(entries, Keys(ToRemove(entries)));
  }

  /** One pair of the last clause of `EvictedSpec`. */
  lemma EvictedOne(entries: seq<CacheEntry>, i: nat, j: nat)
    requires UniqueKeys(entries)
    requires i < |entries| && j < |Evicted(entries)| && entries[i].0 !in Keys(Evicted(entries))
    ensures entries[i].1.lastUsed <= Evicted(entries)[j].1.lastUsed
  {
    var r := ToRemove(entries);
    ToRemoveSpec(entries);
    RemovedKey(entries, i);
    KeptEntry(entries, j);
    var a :| 0 <= a < |r| && Keys(r)[a] == entries[i].0;
    SameKeySameEntry(entries, r[a], entries[i]);
  }

  /** An entry missing after eviction had its key deleted. */
  lemma RemovedKey(entries: seq<CacheEntry>, i: nat)
    requires i < |entries| && entries[i].0 !in Keys(Evicted(entries))
    ensures entries[i].0 in Keys(ToRemove(entries))
  {
    var key := entries[i].0;
    RemoveKeysFind(entries, Keys(ToRemove(entries)), key);
    FindKeys(entries, key);
    FindKeys(Evicted(entries), key);
  }

  /** An entry left after eviction is an entry of the cache whose key was not
      deleted. */
  lemma KeptEntry(entries: seq<CacheEntry>, j: nat)
    requires j < |Evicted(entries)|
    ensures Evicted(entries)[j] in entries
    ensures Evicted(entries)[j].0 !in Keys(ToRemove(entries))
  {
    var e := Evicted(entries);
    RemoveKeysFind(entries, Keys(ToRemove(entries)), e[j].0);
    FindKeys(e, e[j].0);
  }

  /** With the last entry used no less recently than any other, the stable sort
      puts it last. */
  lemma {:induction false} SortedLast(s: seq<CacheEntry>)
    requires s != []
    requires forall j :: 0 <= j < |s| ==> s[j].1.lastUsed <= s[|s| - 1].1.lastUsed
    ensures SortByLastUsed(s) == SortByLastUsed(s[..|s| - 1]) + [s[|s| - 1]]
    decreases |s|
  {
    var init := s[..|s| - 1];
    var last := s[|s| - 1];
    if |s| > 1 {
      var i := OldestIndex(init);
      OldestBeforeLast(s);
      var r := RemoveAt(s, i);
      RemoveAtLast(s, i);
      SortedLast(r);
      SortUnfold(s);
      SortUnfold(init);
      SnocCompose(s[i], SortByLastUsed(RemoveAt(init, i)), last);
    } else {
      assert init == [];
    }
  }

  /** With the last entry the most recent, the oldest entry is found before it. */
  lemma OldestBeforeLast(s: seq<CacheEntry>)
    requires |s| > 1
    requires forall j :: 0 <= j < |s| ==> s[j].1.lastUsed <= s[|s| - 1].1.lastUsed
    ensures OldestIndex(s) == OldestIndex(s[..|s| - 1])
    ensures s[..|s| - 1][OldestIndex(s)] == s[OldestIndex(s)]
  {
    var k := OldestIndex(s[..|s| - 1]);
    assert s[..|s| - 1][k] == s[k];
  }

  /** Removing an entry before the most recent last one keeps that one last. */
  lemma RemoveAtLast(s: seq<CacheEntry>, i: nat)
    requires i < |s| - 1
    requires forall j :: 0 <= j < |s| ==> s[j].1.lastUsed <= s[|s| - 1].1.lastUsed
    ensures RemoveAt(s, i) == RemoveAt(s[..|s| - 1], i) + [s[|s| - 1]]
    ensures RemoveAt(s, i)[..|s| - 2] == RemoveAt(s[..|s| - 1], i)
    ensures RemoveAt(s, i)[|s| - 2] == s[|s| - 1]
    ensures forall j :: 0 <= j < |RemoveAt(s, i)| ==>
      RemoveAt(s, i)[j].1.lastUsed <= RemoveAt(s, i)[|RemoveAt(s, i)| - 1].1.lastUsed
  {
    var r := RemoveAt(s, i);
    assert s[i + 1..] == s[..|s| - 1][i + 1..] + [s[|s| - 1]];
    assert forall j :: 0 <= j < |r| ==> r[j] == if j < i then s[j] else s[j + 1];
  }

  /** A model inserted last and used no less recently than every cached one
      survives the eviction that follows its insertion. */
  lemma NewestSurvives(s: seq<CacheEntry>)
    requires UniqueKeys(s) && s != []
    requires forall j :: 0 <= j < |s| ==> s[j].1.lastUsed <= s[|s| - 1].1.lastUsed
    ensures s[|s| - 1].0 in Keys(Evicted(s))
  {
    var key := s[|s| - 1].0;
    FindKeys(s, key);
    NewestNotRemoved(s);
    RemoveKeysFind(s, Keys(ToRemove(s)), key);
    FindKeys(Evicted(s), key);
  }

  /** The most recent last entry is not among those to delete. */
  lemma NewestNotRemoved(s: seq<CacheEntry>)
    requires UniqueKeys(s) && s != []
    requires forall j :: 0 <= j < |s| ==> s[j].1.lastUsed <= s[|s| - 1].1.lastUsed
    ensures s[|s| - 1].0 !in Keys(ToRemove(s))
  {
    if |s| > MaxCacheSize {
      var init := s[..|s| - 1];
      var m := |s| - MaxCacheSize;
      SortedLast(s);
      SortByLastUsedMembers(init);
      LastKeyFresh(s);
      PrefixAvoids(SortByLastUsed(init), m, s[|s| - 1].0);
      PrefixOfSnoc(SortByLastUsed(init), s[|s| - 1], m);
    }
  }

  /** A prefix no longer than a list is not changed by appending to the list. */
  lemma PrefixOfSnoc(t: seq<CacheEntry>, x: CacheEntry, m: nat)
    requires m <= |t|
    ensures (t + [x])[..m] == t[..m]
  {
  }

  /** Regrouping an entry in front and one behind. */
  lemma SnocCompose(x: CacheEntry, a: seq<CacheEntry>, y: CacheEntry)
    ensures [x] + (a + [y]) == ([x] + a) + [y]
  {
  }

  /** One step of the sort: the least recent entry, then the sorted others. */
  lemma SortUnfold(s: seq<CacheEntry>)
    requires s != []
    ensures SortByLastUsed(s) == [s[OldestIndex(s)]] + SortByLastUsed(RemoveAt(s, OldestIndex(s)))
  {
  }

  /** A key no entry has is not among the keys of a prefix. */
  lemma PrefixAvoids(t: seq<CacheEntry>, m: nat, key: string)
    requires m <= |t|
    requires forall x :: x in t ==> x.0 != key
    ensures key !in Keys(t[..m])
  {
    forall a | 0 <= a < m ensures Keys(t[..m])[a] != key {
      assert t[..m][a] == t[a] && t[a] in t;
    }
  }

  /** In a list with distinct keys, no earlier entry has the last entry's key. */
  lemma LastKeyFresh(s: seq<CacheEntry>)
    requires UniqueKeys(s) && s != []
    ensures forall x :: x in s[..|s| - 1] ==> x.0 != s[|s| - 1].0
  {
    forall x | x in s[..|s| - 1] ensures x.0 != s[|s| - 1].0 {
      var j :| 0 <= j < |s| - 1 && s[j] == x;
      assert Keys(s)[j] != Keys(s)[|s| - 1];
    }
  }

  /** The cache invariant: distinct keys, at most ten models, each the model of
      the target its key names. */
  ghost predicate ValidEntries(entries: seq<CacheEntry>) {
    && UniqueKeys(entries)
    && |entries| <= MaxCacheSize
    && forall i :: 0 <= i < |entries| ==> entries[i].1.model == Model(KeyTarget(entries[i].0))
  }

  /** A hit refreshes the entry in place and keeps the invariant. */
  lemma HitKeepsValid(entries: seq<CacheEntry>, key: string, c: CachedModel, now: int)
    requires ValidEntries(entries) && Find(entries, key) == Some(c)
    ensures c.model == Model(KeyTarget(key))
    ensures ValidEntries(Put(entries, key, CachedModel(c.model, now)))
    ensures key in Keys(Put(entries, key, CachedModel(c.model, now)))
  {
    FindKeys(entries, key);
    var t := Put(entries, key, CachedModel(c.model, now));
    PutKeys(entries, key, CachedModel(c.model, now));
    PutUniqueKeys(entries, key, CachedModel(c.model, now));
    forall i | 0 <= i < |t| ensures t[i].1.model == Model(KeyTarget(t[i].0)) {
      PutEntries(entries, key, CachedModel(c.model, now), i);
    }
  }

  /** A miss appends the new model and evicts; the invariant is kept. */
  lemma MissKeepsValid(entries: seq<CacheEntry>, key: string, c: CachedModel)
    requires ValidEntries(entries) && key !in Keys(entries)
    requires c.model == Model(KeyTarget(key))
    ensures ValidEntries(Evicted(entries + [(key, c)]))
  {
    var s := entries + [(key, c)];
    assert Keys(s) == Keys(entries) + [key];
    EvictedSpec(s, key);
  }

  /** A new model used no earlier than every cached one survives its own
      eviction. */
  lemma MissNewestSurvives(entries: seq<CacheEntry>, key: string, c: CachedModel)
    requires UniqueKeys(entries) && key !in Keys(entries)
    requires forall i :: 0 <= i < |entries| ==> entries[i].1.lastUsed <= c.lastUsed
    ensures key in Keys(Evicted(entries + [(key, c)]))
  {
    var s := entries + [(key, c)];
    assert Keys(s) == Keys(entries) + [key];
    forall j | 0 <= j < |s| ensures s[j].1.lastUsed <= s[|s| - 1].1.lastUsed {
      if j < |entries| {
        assert s[j] == entries[j];
      }
    }
    NewestSurvives(s);
  }

  /** No cached model was used later than `now`. */
  predicate UsedBy(entries: seq<CacheEntry>, now: int) {
    forall i :: 0 <= i < |entries| ==> entries[i].1.lastUsed <= now
  }

  /** The cache after `loadModel(src, tgt)` at clock reading `now`: a cached
      model of the pair gets its last use set to `now` in place; otherwise the
      pair's model is appended and the cache evicted. */
  function CacheAfterLoad(entries: seq<CacheEntry>, src: string, tgt: string, now: int): seq<CacheEntry> {
    var key := ModelKey(src, tgt);
    if key in Keys(entries) then Put(entries, key, CachedModel(Model(tgt), now))
    else Evicted(entries + [(key, CachedModel(Model(tgt), now))])
  }

  /** The cache after loading the model of each target in turn. */
  function CacheAfterLoads(entries: seq<CacheEntry>, src: string, targets: seq<string>, now: int): seq<CacheEntry>
    decreases |targets|
  {
    if targets == [] then entries
    else
      var init := targets[..|targets| - 1];
      CacheAfterLoad(CacheAfterLoads(entries, src, init, now), src, targets[|targets| - 1], now)
  }

  /** Loading the models of one more target. */
  lemma CacheAfterLoadsStep(entries: seq<CacheEntry>, src: string, targets: seq<string>, k: nat, now: int)
    requires k < |targets|
    ensures CacheAfterLoads(entries, src, targets[..k + 1], now) ==
      CacheAfterLoad(CacheAfterLoads(entries, src, targets[..k], now), src, targets[k], now)
  {
    assert targets[..k + 1][..k] == targets[..k];
  }

  /** One load keeps the invariant; every entry afterwards is an untouched entry
      of the cache or one used at `now`; and when no entry was used later than
      `now`, still none is and the pair's model is cached. */
  lemma CacheAfterLoadSpec(entries: seq<CacheEntry>, src: string, tgt: string, now: int)
    requires ValidEntries(entries)
    requires '_' !in src && '_' !in tgt
    ensures ValidEntries(CacheAfterLoad(entries, src, tgt, now))
    ensures forall x :: x in CacheAfterLoad(entries, src, tgt, now) ==> x in entries || x.1.lastUsed == now
    ensures UsedBy(entries, now) ==>
      UsedBy(CacheAfterLoad(entries, src, tgt, now), now) && ModelKey(src, tgt) in Keys(CacheAfterLoad(entries, src, tgt, now))
  {
    var key := ModelKey(src, tgt);
    var c := CachedModel(Model(tgt), now);
    ModelKeyParts(src, tgt);
    FindKeys(entries, key);
    if key in Keys(entries) {
      HitKeepsValid(entries, key, Find(entries, key).value, now);
      HitEntries(entries, key, c);
    } else {
      MissKeepsValid(entries, key, c);
      MissEntries(entries, key, c);
      if UsedBy(entries, now) {
        MissNewestSurvives(entries, key, c);
      }
    }
  }

  /** After a hit every entry is an entry of the cache or the refreshed one. */
  lemma HitEntries(entries: seq<CacheEntry>, key: string, c: CachedModel)
    ensures forall x :: x in Put(entries, key, c) ==> x in entries || x == (key, c)
  {
    var r := Put(entries, key, c);
    forall x | x in r ensures x in entries || x == (key, c) {
      var i :| 0 <= i < |r| && r[i] == x;
      PutEntries(entries, key, c, i);
    }
  }

  /** After a miss every entry is an entry of the cache or the new one. */
  lemma MissEntries(entries: seq<CacheEntry>, key: string, c: CachedModel)
    requires UniqueKeys(entries) && key !in Keys(entries)
    ensures forall x :: x in Evicted(entries + [(key, c)]) ==> x in entries || x == (key, c)
  {
    var s := entries + [(key, c)];
    var r := Evicted(s);
    assert Keys(s) == Keys(entries) + [key];
    EvictedSpec(s, key);
    forall x | x in r ensures x in entries || x == (key, c) {
      var i :| 0 <= i < |r| && r[i] == x;
      assert r[i] in s;
    }
  }

  /** Loading several models keeps the invariant; every entry afterwards is an
      untouched entry of the cache or one used at `now`; and when no entry was
      used later than `now`, still none is and the last pair's model is cached. */
  lemma {:induction false} CacheAfterLoadsSpec(entries: seq<CacheEntry>, src: string, targets: seq<string>, now: int)
    requires ValidEntries(entries)
    requires '_' !in src && forall i :: 0 <= i < |targets| ==> '_' !in targets[i]
    ensures ValidEntries(CacheAfterLoads(entries, src, targets, now))
    ensures forall x :: x in CacheAfterLoads(entries, src, targets, now) ==> x in entries || x.1.lastUsed == now
    ensures UsedBy(entries, now) ==> UsedBy(CacheAfterLoads(entries, src, targets, now), now)
    ensures UsedBy(entries, now) && targets != [] ==>
      ModelKey(src, targets[|targets| - 1]) in Keys(CacheAfterLoads(entries, src, targets, now))
    decreases |targets|
  {
    if targets != [] {
      var init := targets[..|targets| - 1];
      CacheAfterLoadsSpec(entries, src, init, now);
      CacheAfterLoadSpec(CacheAfterLoads(entries, src, init, now), src, targets[|targets| - 1], now);
    }
  }

  class ModelCache {
    /** `modelCache`: the models by language-pair key, in insertion order. */
    var entries: seq<CacheEntry>

    ghost predicate Valid()
      reads this
    {
      ValidEntries(entries)
    }

    constructor ()
      ensures Valid() && entries == []
    {
      entries := [];
    }

    /** `evictOldModels`: sort a copy of the entries by last use, then delete the
        keys of all but the last ten. */
    method EvictOldModels()
      modifies this
      ensures entries == Evicted(old(entries))
    {
      if |entries| <= MaxCacheSize {
        return;
      }
      var sorted := SortByLastUsed(entries);
      var toRemove := sorted[..|sorted| - MaxCacheSize];
      var k := 0;
      while k < |toRemove|
        invariant 0 <= k <= |toRemove|
        invariant entries == RemoveKeys(old(entries), Keys(toRemove[..k]))
      {
        RemoveKeysStep(old(entries), toRemove, k);
        entries := Remove(entries, toRemove[k].0);
        k := k + 1;
      }
      assert toRemove[..k] == toRemove;
      assert toRemove == ToRemove(old(entries));
    }

    /** `loadModel` at clock reading `now`. A cached model is returned with its
        last use set to `now`, in place, without eviction; otherwise the model is
        built, appended and the cache evicted. Either way the answer is the model
        of the target, the cache keeps its invariant (so holds at most ten
        models), and, when no cached model was used later than `now`, the pair's
        model is cached afterwards. */
    method LoadModel(src: string, tgt: string, now: int) returns (model: Model)
      requires Valid()
      requires '_' !in src && '_' !in tgt
      modifies this
      ensures Valid()
      ensures model == Model(tgt)
      ensures ModelKey(src, tgt) in Keys(old(entries)) ==>
        entries == Put(old(entries), ModelKey(src, tgt), CachedModel(model, now))
      ensures ModelKey(src, tgt) !in Keys(old(entries)) ==>
        entries == Evicted(old(entries) + [(ModelKey(src, tgt), CachedModel(model, now))])
      ensures entries == CacheAfterLoad(old(entries), src, tgt, now)
      ensures (forall i :: 0 <= i < |old(entries)| ==> old(entries)[i].1.lastUsed <= now) ==>
        ModelKey(src, tgt) in Keys(entries)
    {
      var key := ModelKey(src, tgt);
      ModelKeyParts(src, tgt);
      FindKeys(entries, key);
      var cached := Find(entries, key);
      if cached.Some? {
        HitKeepsValid(entries, key, cached.value, now);
        entries := Put(entries, key, CachedModel(cached.value.model, now));
        return cached.value.model;
      }
      model := Model(tgt);
      var c := CachedModel(model, now);
      MissKeepsValid(entries, key, c);
      if forall i :: 0 <= i < |entries| ==> entries[i].1.lastUsed <= now {
        MissNewestSurvives(entries, key, c);
      }
      entries := entries + [(key, c)];
      EvictOldModels();
    }
  }

  // The POST handler

  /** A field of the parsed JSON body: absent, a string, or another value with its
      truthiness and its string form. */
  datatype JsonValue = Absent | Str(s: string) | Other(truthy: bool, shown: string)

  /** The request body: unreadable (not JSON, or JSON `null`, whose
      destructuring throws), or the `q` and `src` fields of any other JSON value
      (absent unless it is an object that has them). */
  datatype TranslateRequest = Unparseable | Body(q: JsonValue, src: JsonValue)

  /** The JSON answer: the translations with status 200, or an error status with
      its message. `errors` is present only when some pair failed. */
  datatype TranslateAnswer =
    | Translated(query: string, source: string, translations: seq<(string, string)>,
                 errors: Option<seq<string>>, timestamp: string)
    | Refused(status: int, error: string)

  predicate IsTruthy(v: JsonValue) {
    match v
    case Absent => false
    case Str(s) => s != []
    case Other(truthy, _) => truthy
  }

  /** `${v}` */
  function Shown(v: JsonValue): string {
    match v
    case Absent => "undefined"
    case Str(s) => s
    case Other(_, shown) => shown
  }

  /** `src || detectLanguage(q)`. */
  function SourceLanguage(src: JsonValue, q: string): JsonValue {
    if IsTruthy(src) then src else Str(DetectSource(q))
  }

  /** `SUPPORTED_LANGUAGES.filter(lang => lang !== source)`. */
  function Without(langs: seq<string>, source: string): (ts: seq<string>)
    ensures forall t :: t in ts <==> t in langs && t != source
    decreases |langs|
  {
    if langs == [] then []
    else
      var init := Without(langs[..|langs| - 1], source);
      if langs[|langs| - 1] != source then init + [langs[|langs| - 1]] else init
  }

  /** Every language other than the source is kept as often as it occurs. */
  lemma {:induction false} WithoutCounts(langs: seq<string>, source: string)
    ensures forall t :: t != source ==> multiset(Without(langs, source))[t] == multiset(langs)[t]
    decreases |langs|
  {
    if langs != [] {
      var init := langs[..|langs| - 1];
      var last := langs[|langs| - 1];
      WithoutCounts(init, source);
      assert langs == init + [last];
      assert multiset(langs) == multiset(init) + multiset{last};
    }
  }

  /** Filtering a list without repetitions drops exactly the occurrence of the
      source, if any. */
  lemma {:induction false} WithoutSize(langs: seq<string>, source: string)
    requires NoDup(langs)
    ensures NoDup(Without(langs, source))
    ensures |Without(langs, source)| == if source in langs then |langs| - 1 else |langs|
    decreases |langs|
  {
    if langs != [] {
      var init := langs[..|langs| - 1];
      assert langs == init + [langs[|langs| - 1]];
      WithoutSize(init, source);
      var last := langs[|langs| - 1];
      var w := Without(init, source);
      if last != source {
        assert last !in init;
        assert last !in w;
        assert Without(langs, source) == w + [last];
      }
    }
  }

  /** The languages a query from `source` is translated into. */
  function TargetLanguages(source: string): (ts: seq<string>)
    ensures forall t :: t in ts <==> t in SupportedLanguages && t != source
  {
    Without(SupportedLanguages, source)
  }

  /** The translation of `q` into each target, in order. */
  function TranslationsFor(targets: seq<string>, q: string): (r: seq<(string, string)>)
    ensures Keys(r) == targets
    ensures forall i :: 0 <= i < |r| ==> r[i].1 == Translate(Model(targets[i]), q)
  {
    seq(|targets|, i requires 0 <= i < |targets| => (targets[i], Translate(Model(targets[i]), q)))
  }

  /** One more target: its translation is assigned under a new key, so it goes
      last. */
  lemma TranslationsForStep(targets: seq<string>, k: nat, q: string)
    requires NoDup(targets) && k < |targets|
    ensures Put(TranslationsFor(targets[..k], q), targets[k], Translate(Model(targets[k]), q)) ==
      TranslationsFor(targets[..k + 1], q)
  {
    var before := TranslationsFor(targets[..k], q);
    var after := TranslationsFor(targets[..k + 1], q);
    var entry := (targets[k], Translate(Model(targets[k]), q));
    assert Keys(before) == targets[..k];
    assert targets[k] !in targets[..k] by {
      forall i | 0 <= i < k
        ensures targets[..k][i] != targets[k]
      {
        assert targets[i] != targets[k];
      }
    }
    PutNew(before, targets[k], entry.1);
    assert after[..k] == before by {
      forall i | 0 <= i < k ensures after[i] == before[i] {
        assert targets[..k + 1][i] == targets[..k][i];
      }
    }
    assert after == after[..k] + [after[k]];
  }

  /** What `POST` answers. The toy models never throw, so `errors` is always
      left out. */
  function TranslateAnswerOf(request: TranslateRequest, timestamp: string): TranslateAnswer {
    if request.Unparseable? then Refused(500, "Internal server error")
    else if !IsTruthy(request.q) || !request.q.Str? then
      Refused(400, "Query parameter \"q\" is required and must be a string")
    else
      var q := request.q.s;
      var source := SourceLanguage(request.src, q);
      if !source.Str? || source.s !in SupportedLanguages then
        Refused(400, "Unsupported source language: " + Shown(source))
      else
        Translated(q, source.s, TranslationsFor(TargetLanguages(source.s), q), None, timestamp)
  }

  /** The answer, case by case. An unreadable body gives 500; a
      missing, empty or non-string `q` gives 400; so does a source language,
      given by a truthy `src` or else detected from `q`, that is not a
      supported code. Otherwise the answer holds the query, its source, and one
      translation for each of the sixteen other supported languages, each
      language once and never the source, each the toy model's answer for that
      target; and no `errors`. */
  lemma TranslateAnswerSpec(request: TranslateRequest, timestamp: string, lang: string)
    ensures TranslateAnswerOf(request, timestamp) == Refused(500, "Internal server error") <==> request.Unparseable?
    ensures request.Body? && !(request.q.Str? && request.q.s != []) ==>
      TranslateAnswerOf(request, timestamp).Refused? && TranslateAnswerOf(request, timestamp).status == 400
    ensures request.Body? && request.q.Str? && request.q.s != [] ==>
      var source := SourceLanguage(request.src, request.q.s);
      && (IsTruthy(request.src) ==> source == request.src)
      && (!IsTruthy(request.src) ==> source == Str(DetectSource(request.q.s)))
      && (TranslateAnswerOf(request, timestamp).Translated? <==> source.Str? && source.s in SupportedLanguages)
    ensures TranslateAnswerOf(request, timestamp).Translated? ==>
      var a := TranslateAnswerOf(request, timestamp);
      && request.Body? && request.q == Str(a.query)
      && a.source in SupportedLanguages
      && |a.translations| == 16
      && UniqueKeys(a.translations)
      && (lang in Keys(a.translations) <==> lang in SupportedLanguages && lang != a.source)
      && (lang in Keys(a.translations) ==> Find(a.translations, lang) == Some(Translate(Model(lang), a.query)))
      && a.errors == None
  {
    var a := TranslateAnswerOf(request, timestamp);
    if a.Translated? {
      SupportedLanguagesShape();
      WithoutSize(SupportedLanguages, a.source);
      if lang in Keys(a.translations) {
        var i :| 0 <= i < |a.translations| && a.translations[i].0 == lang;
        FindUnique(a.translations, i);
      }
    }
  }

  /** `POST` at clock reading `now`: validate, then load the model of each pair
      and translate. The answer does not depend on what the cache held; a
      refused request leaves the cache alone. */
  method Post(cache: ModelCache, request: TranslateRequest, now: int, timestamp: string)
    returns (answer: TranslateAnswer)
    requires cache.Valid()
    modifies cache
    ensures cache.Valid()
    ensures answer == TranslateAnswerOf(request, timestamp)
    ensures answer.Refused? ==> cache.entries == old(cache.entries)
    ensures answer.Translated? ==>
      cache.entries == CacheAfterLoads(old(cache.entries), answer.source, TargetLanguages(answer.source), now)
  {
    if request.Unparseable? {
      return Refused(500, "Internal server error");
    }
    var q := request.q;
    if !IsTruthy(q) || !q.Str? {
      return Refused(400, "Query parameter \"q\" is required and must be a string");
    }
    var sourceLanguage := SourceLanguage(request.src, q.s);
    if !sourceLanguage.Str? || sourceLanguage.s !in SupportedLanguages {
      return Refused(400, "Unsupported source language: " + Shown(sourceLanguage));
    }
    var source := sourceLanguage.s;
    var targetLanguages := TargetLanguages(source);
    SupportedLanguagesShape();
    WithoutSize(SupportedLanguages, source);
    var results: seq<(string, string)> := [];
    for k := 0 to |targetLanguages|
      invariant cache.Valid()
      invariant results == TranslationsFor(targetLanguages[..k], q.s)
      invariant cache.entries == CacheAfterLoads(old(cache.entries), source, targetLanguages[..k], now)
    {
      var targetLang := targetLanguages[k];
      assert targetLang in SupportedLanguages;
      var model := cache.LoadModel(source, targetLang, now);
      CacheAfterLoadsStep(old(cache.entries), source, targetLanguages, k, now);
      var translation := Translate(model, q.s);
      TranslationsForStep(targetLanguages, k, q.s);
      results := Put(results, targetLang, translation);
    }
    assert targetLanguages[..|targetLanguages|] == targetLanguages;
    answer := Translated(q.s, source, results, None, timestamp);
  }
}
