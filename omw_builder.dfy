/** The offline builder of the multilingual synset table (scripts/process-omw.js).

    The directory listing and the parsed XML of each language directory are
    inputs; the XML parser is replaced by the list of `LexicalEntry` elements it
    would return, each reduced to the attributes the builder reads. */
module OmwBuilder {
  import opened Collections
  import opened Text
  import opened Lexicon

  /** A `LexicalEntry` element: the `writtenForm` of each of its `Lemma` elements
      and the `synset` of each of its `Sense` elements, in document order. An
      absent attribute reads as the empty string. */
  datatype LexicalEntry = LexicalEntry(writtenForms: seq<string>, senseSynsets: seq<string>)

  /** What reading one language's XML file gives. */
  datatype XmlFile = Missing | Unreadable | Parsed(entries: seq<LexicalEntry>)

  /** The statistics object: synset count, processed directories, lemma totals. */
  datatype OmwStats = OmwStats(totalSynsets: nat, languages: seq<string>, languageStats: seq<(string, nat)>)

  datatype OmwOutput = NotBuilt | Built(synsetMap: SynsetTable, stats: OmwStats)

  /** The language directories the builder handles. */
  const TargetLanguages: seq<string> := [
    "omw-en", "omw-ja", "omw-fr", "omw-es", "omw-de", "omw-it", "omw-pt", "omw-ru", "omw-cmn", "omw-ko",
    "omw-nl", "omw-sv", "omw-da", "omw-no", "omw-fi", "omw-pl", "omw-cs", "omw-sk", "omw-hu", "omw-ro",
    "omw-bg", "omw-hr", "omw-sr", "omw-sl", "omw-et", "omw-lv", "omw-lt", "omw-el", "omw-tr", "omw-ar"
  ]

  predicate IsLowerLetter(c: char) {
    'a' <= c <= 'z'
  }

  /** `s` begins with a match of `^omw-[a-z]+-` that is `n` characters long. */
  predicate OmwPrefixAt(s: string, n: nat) {
    && 6 <= n <= |s|
    && s[..4] == "omw-"
    && s[n - 1] == '-'
    && forall i :: 4 <= i < n - 1 ==> IsLowerLetter(s[i])
  }

  /** The number of lower-case ASCII letters at the start of `s`. */
  function LowerRun(s: string): (n: nat)
    ensures n <= |s|
    ensures forall i :: 0 <= i < n ==> IsLowerLetter(s[i])
    ensures n < |s| ==> !IsLowerLetter(s[n])
    decreases |s|
  {
    if s != [] && IsLowerLetter(s[0]) then 1 + LowerRun(s[1..]) else 0
  }

  /** `synset.replace(/^omw-[a-z]+-/, '')`: removes the one leading
      `omw-<letters>-` prefix when there is one and changes nothing otherwise. */
  function StripSynsetPrefix(s: string): (r: string)
    ensures forall n: nat :: OmwPrefixAt(s, n) ==> r == s[n..]
    ensures (forall n: nat :: !OmwPrefixAt(s, n)) ==> r == s
  {
    if |s| >= 4 && s[..4] == "omw-" then
      var k := LowerRun(s[4..]);
      if 1 <= k && 4 + k < |s| && s[4 + k] == '-' then
        assert OmwPrefixAt(s, 5 + k);
        s[5 + k..]
      else s
    else s
  }

  /** The example of the builder's comment: the English id keeps offset and type. */
  lemma StripSynsetPrefixExample()
    ensures StripSynsetPrefix("omw-en-08641944-n") == "08641944-n"
  {
    var s := "omw-en-08641944-n";
    assert s[..4] == "omw-";
    assert s[4..][2..] == s[6..] && s[6] == '-';
    assert LowerRun(s[4..][2..]) == 0;
    assert LowerRun(s[4..]) == 2;
    assert s[7..] == "08641944-n";
  }

  /** The pair (synset id, lemma) an entry contributes: only an entry with a
      `Lemma` and a `Sense`, both attributes non-empty, and only its first ones. */
  function EntryPair(e: LexicalEntry): (p: Option<(string, string)>)
    ensures p.Some? ==> p.value.1 != []
  {
    if e.writtenForms != [] && e.senseSynsets != [] && e.writtenForms[0] != [] && e.senseSynsets[0] != [] then
      Some((StripSynsetPrefix(e.senseSynsets[0]), e.writtenForms[0]))
    else None
  }

  /** The contributing pairs of a file in document order, each lemma as a
      one-element list. */
  function SenseLemmas(es: seq<LexicalEntry>): (ps: seq<(string, seq<string>)>)
    ensures forall i :: 0 <= i < |ps| ==> |ps[i].1| == 1 && ps[i].1[0] != []
    decreases |es|
  {
    if es == [] then []
    else
      var init := SenseLemmas(es[..|es| - 1]);
      match EntryPair(es[|es| - 1])
      case Some(p) => init + [(p.0, [p.1])]
      case None => init
  }

  /** The `lemmas` map after the loop: for each pair, create the synset's list
      when missing and push the lemma unless the list already has it. */
  function LemmaMap(es: seq<LexicalEntry>): seq<(string, seq<string>)> {
    UnionBy(SenseLemmas(es))
  }

  /** The lemma map has one key per contributing synset, in order of first
      appearance, and under it the synset's lemmas without repetitions, in
      first-seen order; no list is empty. */
  lemma LemmaMapSpec(es: seq<LexicalEntry>, id: string)
    ensures Keys(LemmaMap(es)) == Distinct(Keys(SenseLemmas(es)))
    ensures Find(LemmaMap(es), id) ==
      if id in Keys(SenseLemmas(es)) then Some(Distinct(Flatten(ValuesAt(SenseLemmas(es), id)))) else None
    ensures UniqueKeys(LemmaMap(es))
    ensures forall i :: 0 <= i < |LemmaMap(es)| ==> LemmaMap(es)[i].1 != [] && NoDup(LemmaMap(es)[i].1)
  {
    UnionBySpec(SenseLemmas(es), id);
    UnionByWellFormed(SenseLemmas(es));
  }

  /** `extractLemmasFromXML`: the loop over the `LexicalEntry` elements. */
  method ExtractLemmas(es: seq<LexicalEntry>) returns (lemmas: seq<(string, seq<string>)>)
    ensures lemmas == LemmaMap(es)
  {
    lemmas := [];
    var i := 0;
    while i < |es|
      invariant 0 <= i <= |es|
      invariant lemmas == LemmaMap(es[..i])
    {
      assert es[..i + 1][..i] == es[..i];
      var e := es[i];
      if e.writtenForms != [] && e.senseSynsets != [] {
        var writtenForm := e.writtenForms[0];
        var synset := e.senseSynsets[0];
        if writtenForm != [] && synset != [] {
          var synsetId := StripSynsetPrefix(synset);
          var list := FindOr(lemmas, synsetId, []);
          var prev := SenseLemmas(es[..i]);
          assert SenseLemmas(es[..i + 1]) == prev + [(synsetId, [writtenForm])];
          assert (prev + [(synsetId, [writtenForm])])[..|prev|] == prev;
          assert [writtenForm][..0] == [];
          assert AddAll(list, [writtenForm]) == if writtenForm in list then list else list + [writtenForm];
          assert LemmaMap(es[..i + 1]) == Put(lemmas, synsetId, AddAll(list, [writtenForm]));
          if writtenForm !in list {
            list := list + [writtenForm];
          }
          lemmas := Put(lemmas, synsetId, list);
        }
      }
      i := i + 1;
    }
    assert es[..i] == es;
  }

  /** `lang.replace('omw-', '')`: removes the first occurrence of `omw-`. */
  function ShortCode(lang: string): string
    decreases |lang|
  {
    if "omw-" <= lang then lang[4..]
    else if lang == [] then []
    else [lang[0]] + ShortCode(lang[1..])
  }

  /** The short code of a directory `omw-<code>` is `<code>`: `en`, `ja`, `cmn`, ...
      the language keys the lookup route reads. */
  lemma ShortCodeOfDirectory(code: string)
    ensures ShortCode("omw-" + code) == code
  {
    assert "omw-" <= "omw-" + code;
    assert ("omw-" + code)[4..] == code;
  }

  /** One language merged into the table: `synsetMap[id] ??= {}` and
      `synsetMap[id][code] = list` for each synset of the language, in order. */
  function MergeLanguage(m: SynsetTable, code: string, lemmas: seq<(string, seq<string>)>): SynsetTable
    decreases |lemmas|
  {
    if lemmas == [] then m
    else
      var m' := MergeLanguage(m, code, lemmas[..|lemmas| - 1]);
      var (id, list) := lemmas[|lemmas| - 1];
      Put(m', id, Put(FindOr(m', id, []), code, list))
  }

  /** After merging a language with unique synset keys: every synset of the
      language holds the language's list under `code`; its other languages and
      every other synset are as before. */
  lemma {:induction false} MergeLanguageFind(m: SynsetTable, code: string, lemmas: seq<(string, seq<string>)>, id: string, code': string)
    requires UniqueKeys(lemmas)
    ensures Find(FindOr(MergeLanguage(m, code, lemmas), id, []), code') ==
      if code' == code && id in Keys(lemmas) then Find(lemmas, id)
      else Find(FindOr(m, id, []), code')
    ensures id !in Keys(lemmas) ==> Find(MergeLanguage(m, code, lemmas), id) == Find(m, id)
    decreases |lemmas|
  {
    if lemmas != [] {
      var init := lemmas[..|lemmas| - 1];
      var (k, list) := lemmas[|lemmas| - 1];
      assert lemmas == init + [(k, list)];
      assert Keys(lemmas) == Keys(init) + [k];
      assert UniqueKeys(init) by {
        assert Keys(init) == Keys(lemmas)[..|lemmas| - 1];
      }
      MergeLanguageFind(m, code, init, id, code');
      var m' := MergeLanguage(m, code, init);
      var inner := Put(FindOr(m', k, []), code, list);
      FindAppend(init, k, list, id);
      if id == k {
        FindKeys(init, id);
        if code' != code {
          PutOther(FindOr(m', k, []), code, list, code');
        }
      } else {
        PutOther(m', k, inner, id);
      }
    }
  }

  /** Merging a well-formed language map keeps the table well formed. */
  lemma {:induction false} MergeLanguageValid(m: SynsetTable, code: string, lemmas: seq<(string, seq<string>)>)
    requires ValidSynsetTable(m)
    requires forall i :: 0 <= i < |lemmas| ==> lemmas[i].1 != [] && NoDup(lemmas[i].1)
    ensures ValidSynsetTable(MergeLanguage(m, code, lemmas))
    decreases |lemmas|
  {
    if lemmas != [] {
      var init := lemmas[..|lemmas| - 1];
      MergeLanguageValid(m, code, init);
      var m' := MergeLanguage(m, code, init);
      var (id, list) := lemmas[|lemmas| - 1];
      var inner := FindOr(m', id, []);
      assert inner == [] || ValidLanguages(inner) by {
        FindKeys(m', id);
      }
      PutLanguageValid(inner, code, list);
      PutTableValid(m', id, Put(inner, code, list));
    }
  }

  /** Setting one language's list keeps a synset's languages well formed. */
  lemma PutLanguageValid(ls: LanguageLemmas, code: string, list: seq<string>)
    requires ls == [] || ValidLanguages(ls)
    requires list != [] && NoDup(list)
    ensures ValidLanguages(Put(ls, code, list))
  {
    var r := Put(ls, code, list);
    PutUniqueKeys(ls, code, list);
    forall j | 0 <= j < |r| ensures r[j].1 != [] && NoDup(r[j].1) {
      PutEntries(ls, code, list, j);
    }
  }

  /** Setting one synset's well-formed languages keeps the table well formed. */
  lemma PutTableValid(t: SynsetTable, id: string, ls: LanguageLemmas)
    requires ValidSynsetTable(t) && ValidLanguages(ls)
    ensures ValidSynsetTable(Put(t, id, ls))
  {
    var r := Put(t, id, ls);
    PutUniqueKeys(t, id, ls);
    forall i | 0 <= i < |r| ensures ValidLanguages(r[i].1) {
      PutEntries(t, id, ls, i);
    }
  }

  /** The `lemmas.forEach` merge loop. */
  method MergeInto(m: SynsetTable, code: string, lemmas: seq<(string, seq<string>)>) returns (r: SynsetTable)
    ensures r == MergeLanguage(m, code, lemmas)
  {
    r := m;
    var i := 0;
    while i < |lemmas|
      invariant 0 <= i <= |lemmas|
      invariant r == MergeLanguage(m, code, lemmas[..i])
    {
      assert lemmas[..i + 1][..i] == lemmas[..i];
      var (id, list) := lemmas[i];
      var languages := FindOr(r, id, []);
      r := Put(r, id, Put(languages, code, list));
      i := i + 1;
    }
    assert lemmas[..i] == lemmas;
  }

  /** `readdirSync(OMW_DIR).filter(lang => TARGET_LANGUAGES.includes(lang))`:
      every listed directory named in the target list, in listing order. */
  function TargetDirectories(listing: seq<string>): (langs: seq<string>)
    ensures forall i :: 0 <= i < |langs| ==> langs[i] in TargetLanguages && langs[i] in listing
    ensures forall d :: d in listing && d in TargetLanguages ==> d in langs
    ensures IsSubsequence(langs, listing)
    decreases |listing|
  {
    if listing == [] then
      EmptySubsequence(listing);
      []
    else
      var init := TargetDirectories(listing[..|listing| - 1]);
      var d := listing[|listing| - 1];
      assert listing == listing[..|listing| - 1] + [d];
      SubsequenceSnoc(init, listing[..|listing| - 1], d);
      if d in TargetLanguages then init + [d] else init
  }

  /** Every listed target directory is kept as often as it is listed. */
  lemma {:induction false} TargetDirectoriesCounts(listing: seq<string>)
    ensures forall d :: d in TargetLanguages ==> multiset(TargetDirectories(listing))[d] == multiset(listing)[d]
    decreases |listing|
  {
    if listing != [] {
      var init := listing[..|listing| - 1];
      var d := listing[|listing| - 1];
      TargetDirectoriesCounts(init);
      assert listing == init + [d];
      assert multiset(listing) == multiset(init) + multiset{d};
    }
  }

  /** The XML file of a directory; a directory the inputs do not mention has none. */
  function XmlOf(files: seq<(string, XmlFile)>, lang: string): XmlFile {
    FindOr(files, lang, Missing)
  }

  /** `synsetMap` after the loop over the target directories: a directory
      without its XML file, or whose file cannot be read, is skipped. */
  function MergeAll(langs: seq<string>, files: seq<(string, XmlFile)>): SynsetTable
    decreases |langs|
  {
    if langs == [] then []
    else
      var m := MergeAll(langs[..|langs| - 1], files);
      var lang := langs[|langs| - 1];
      match XmlOf(files, lang)
      case Parsed(es) => MergeLanguage(m, ShortCode(lang), LemmaMap(es))
      case _ => m
  }

  /** The output table is well formed: every synset has at least one language,
      and every list is non-empty and without repetitions. */
  lemma {:induction false} MergeAllValid(langs: seq<string>, files: seq<(string, XmlFile)>)
    ensures ValidSynsetTable(MergeAll(langs, files))
    decreases |langs|
  {
    if langs != [] {
      var init := langs[..|langs| - 1];
      MergeAllValid(init, files);
      var lang := langs[|langs| - 1];
      match XmlOf(files, lang)
      case Parsed(es) =>
        LemmaMapSpec(es, "");
        MergeLanguageValid(MergeAll(init, files), ShortCode(lang), LemmaMap(es));
      case _ =>
    }
  }

  /** A directory whose file is missing or unreadable leaves the table as it was. */
  lemma SkippedDirectory(langs: seq<string>, files: seq<(string, XmlFile)>, lang: string)
    requires !XmlOf(files, lang).Parsed?
    ensures MergeAll(langs + [lang], files) == MergeAll(langs, files)
  {
    assert (langs + [lang])[..|langs|] == langs;
  }

  /** The number of lemmas filed under `code` across the synsets of `m`. */
  function LemmaCount(m: SynsetTable, code: string): nat
    decreases |m|
  {
    if m == [] then 0
    else LemmaCount(m[..|m| - 1], code) + |FindOr(m[|m| - 1].1, code, [])|
  }

  /** A code no synset has counts zero lemmas. */
  lemma {:induction false} LemmaCountAbsent(m: SynsetTable, code: string)
    requires forall i :: 0 <= i < |m| ==> Find(m[i].1, code).None?
    ensures LemmaCount(m, code) == 0
    decreases |m|
  {
    if m != [] {
      LemmaCountAbsent(m[..|m| - 1], code);
    }
  }

  /** The `languageStats` loop: for each processed directory, the lemma total of its code. */
  method LanguageStats(langs: seq<string>, m: SynsetTable) returns (stats: seq<(string, nat)>)
    ensures forall i :: 0 <= i < |langs| ==> langs[i] in Keys(stats)
    ensures forall lang :: lang in Keys(stats) ==> lang in langs && Find(stats, lang) == Some(LemmaCount(m, ShortCode(lang)))
  {
    stats := [];
    var i := 0;
    while i < |langs|
      invariant 0 <= i <= |langs|
      invariant StatsOf(stats, langs[..i], m)
    {
      var code := ShortCode(langs[i]);
      var count: nat := 0;
      var j := 0;
      while j < |m|
        invariant 0 <= j <= |m|
        invariant count == LemmaCount(m[..j], code)
      {
        LemmaCountStep(m, j, code);
        count := count + |FindOr(m[j].1, code, [])|;
        j := j + 1;
      }
      assert m[..j] == m;
      StatsPut(stats, langs, i, count, m);
      stats := Put(stats, langs[i], count);
      i := i + 1;
    }
    assert langs[..i] == langs;
  }

  /** `stats` holds, for every language of `done` and no other, its lemma total. */
  predicate StatsOf(stats: seq<(string, nat)>, done: seq<string>, m: SynsetTable) {
    && (forall l :: l in done ==> l in Keys(stats))
    && (forall l :: l in Keys(stats) ==> l in done && Find(stats, l) == Some(LemmaCount(m, ShortCode(l))))
  }

  /** Counting one more synset. */
  lemma LemmaCountStep(m: SynsetTable, j: nat, code: string)
    requires j < |m|
    ensures LemmaCount(m[..j + 1], code) == LemmaCount(m[..j], code) + |FindOr(m[j].1, code, [])|
  {
    assert m[..j + 1][..j] == m[..j];
  }

  /** Recording the total of the next language keeps `StatsOf`. */
  lemma StatsPut(stats: seq<(string, nat)>, langs: seq<string>, i: nat, count: nat, m: SynsetTable)
    requires i < |langs|
    requires count == LemmaCount(m, ShortCode(langs[i]))
    requires StatsOf(stats, langs[..i], m)
    ensures StatsOf(Put(stats, langs[i], count), langs[..i + 1], m)
  {
    var lang := langs[i];
    assert langs[..i + 1] == langs[..i] + [lang];
    PutKeys(stats, lang, count);
    forall l | l in Keys(Put(stats, lang, count)) && l != lang
      ensures Find(Put(stats, lang, count), l) == Some(LemmaCount(m, ShortCode(l)))
    {
      PutOther(stats, lang, count, l);
    }
  }

  /** `processOMWData`: nothing is built without the OMW directory; otherwise the
      target directories are merged in listing order and the statistics computed. */
  method ProcessOmwData(listing: Option<seq<string>>, files: seq<(string, XmlFile)>) returns (out: OmwOutput)
    ensures listing.None? <==> out.NotBuilt?
    ensures out.Built? ==> out.synsetMap == MergeAll(TargetDirectories(listing.value), files)
    ensures out.Built? ==> out.stats.totalSynsets == |out.synsetMap|
    ensures out.Built? ==> out.stats.languages == TargetDirectories(listing.value)
    ensures out.Built? ==> forall i :: 0 <= i < |out.stats.languages| ==> out.stats.languages[i] in Keys(out.stats.languageStats)
    ensures out.Built? ==> forall lang :: lang in Keys(out.stats.languageStats) ==>
      lang in out.stats.languages && Find(out.stats.languageStats, lang) == Some(LemmaCount(out.synsetMap, ShortCode(lang)))
  {
    if listing.None? {
      return NotBuilt;
    }
    var langs := TargetDirectories(listing.value);
    var synsetMap: SynsetTable := [];
    var i := 0;
    while i < |langs|
      invariant 0 <= i <= |langs|
      invariant synsetMap == MergeAll(langs[..i], files)
    {
      assert langs[..i + 1][..i] == langs[..i];
      var xml := XmlOf(files, langs[i]);
      if xml.Parsed? {
        var lemmas := ExtractLemmas(xml.entries);
        synsetMap := MergeInto(synsetMap, ShortCode(langs[i]), lemmas);
      }
      i := i + 1;
    }
    assert langs[..i] == langs;
    var languageStats := LanguageStats(langs, synsetMap);
    out := Built(synsetMap, OmwStats(|synsetMap|, langs, languageStats));
  }
}
