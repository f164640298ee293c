/** The offline builder of the word table (scripts/process-japanese-wordnet.js).

    The word file holds rows `synsetId \t word \t confidence`, the definition
    file rows `synsetId \t senseNumber \t englishDefinition \t japaneseDefinition`.
    File reads become the optional contents of the two files; writing the JSON
    output becomes the returned table. */
module JapaneseWordNetBuilder {
  import opened Collections
  import opened Text
  import opened Lexicon

  /** One parsed row of the word file; a missing field is `undefined`. */
  datatype WordRow = WordRow(synsetId: string, word: Option<string>, confidence: Option<string>)

  /** A row of the word file enriched with its part of speech and definition:
      the value pushed onto the word's list. */
  datatype RawEntry = RawEntry(
    synsetId: string,
    word: Option<string>,
    confidence: Option<string>,
    partOfSpeech: string,
    definition: Option<string>)

  /** Counters printed at the end of a build. */
  datatype WordNetStats = WordNetStats(totalWords: nat, totalEntries: nat, byPartOfSpeech: seq<(string, nat)>)

  datatype BuildOutput = NotBuilt | Built(table: WordTable, stats: WordNetStats)

  /** `split('\n').filter(line => line.trim())`: every line that is not blank,
      as often as it occurs and in file order. */
  function NonBlankLines(content: string): (lines: seq<string>)
    ensures forall i :: 0 <= i < |lines| ==> !IsBlank(lines[i])
    ensures forall l :: l in lines <==> l in Split(content, '\n') && !IsBlank(l)
    ensures IsSubsequence(lines, Split(content, '\n'))
    ensures forall l :: !IsBlank(l) ==> multiset(lines)[l] == multiset(Split(content, '\n'))[l]
  {
    NonBlank(Split(content, '\n'))
  }

  predicate NotBlank(l: string) {
    !IsBlank(l)
  }

  function NonBlank(ls: seq<string>): (r: seq<string>)
    ensures forall i :: 0 <= i < |r| ==> !IsBlank(r[i])
    ensures |r| <= |ls|
    ensures forall l :: l in r <==> l in ls && !IsBlank(l)
    ensures IsSubsequence(r, ls)
    ensures forall l :: !IsBlank(l) ==> multiset(r)[l] == multiset(ls)[l]
  {
    FilterCounts(ls, NotBlank);
    var r := Filter(ls, NotBlank);
    assert CountsKept(r, ls, NotBlank);
    assert forall i :: 0 <= i < |r| ==> r[i] in r;
    r
  }

  /** `const [synsetId, word, confidence] = line.split('\t')` */
  function ParseWordRow(line: string): WordRow {
    var f := Split(line, '\t');
    WordRow(f[0], Field(f, 1), Field(f, 2))
  }

  /** A well-formed three-field row parses into its three fields. */
  lemma ParseWordRowFields(synsetId: string, word: string, confidence: string)
    requires '\t' !in synsetId && '\t' !in word && '\t' !in confidence
    ensures ParseWordRow(synsetId + "\t" + word + "\t" + confidence)
         == WordRow(synsetId, Some(word), Some(confidence))
  {
    var parts := [synsetId, word, confidence];
    JoinSplit(parts, '\t');
    assert Join(parts, '\t') == synsetId + "\t" + word + "\t" + confidence by {
      assert parts[1..][1..] == [confidence];
      assert Join(parts[1..], '\t') == word + "\t" + confidence;
    }
  }

  /** A parsed row never has a confidence without a word. */
  lemma ParseWordRowShape(line: string)
    ensures ParseWordRow(line).confidence.Some? ==> ParseWordRow(line).word.Some?
  {
  }

  function ParseWordRows(content: string): (rows: seq<WordRow>)
    ensures forall i :: 0 <= i < |rows| ==> rows[i].confidence.Some? ==> rows[i].word.Some?
  {
    var lines := NonBlankLines(content);
    seq(|lines|, i requires 0 <= i < |lines| => ParseWordRow(lines[i]))
  }

  /** The index entry a definition-file line contributes: its synset id and its
      trimmed Japanese definition, when both are present and non-empty. */
  function DefinitionPair(line: string): Option<(string, string)> {
    var f := Split(line, '\t');
    if f[0] != [] && Truthy(Field(f, 3)) then Some((f[0], Trim(f[3]))) else None
  }

  /** The `definitions` map after `set` has run over the lines in order. */
  function DefinitionIndex(lines: seq<string>): map<string, string>
    decreases |lines|
  {
    if lines == [] then map[]
    else
      var m := DefinitionIndex(lines[..|lines| - 1]);
      match DefinitionPair(lines[|lines| - 1])
      case Some(p) => m[p.0 := p.1]
      case None => m
  }

  /** The index holds an id exactly when some line supplies a definition for it,
      and then the definition of the LAST such line: a later duplicate overwrites
      an earlier one. */
  lemma {:induction false} DefinitionIndexLastWins(lines: seq<string>, id: string, i: nat)
    requires i < |lines| && DefinitionPair(lines[i]).Some? && DefinitionPair(lines[i]).value.0 == id
    requires forall j :: i < j < |lines| && DefinitionPair(lines[j]).Some? ==> DefinitionPair(lines[j]).value.0 != id
    ensures id in DefinitionIndex(lines) && DefinitionIndex(lines)[id] == DefinitionPair(lines[i]).value.1
    decreases |lines|
  {
    var init := lines[..|lines| - 1];
    if i < |lines| - 1 {
      DefinitionIndexLastWins(init, id, i);
    }
  }

  lemma {:induction false} DefinitionIndexAbsent(lines: seq<string>, id: string)
    requires forall j :: 0 <= j < |lines| && DefinitionPair(lines[j]).Some? ==> DefinitionPair(lines[j]).value.0 != id
    ensures id !in DefinitionIndex(lines)
    decreases |lines|
  {
    if lines != [] {
      DefinitionIndexAbsent(lines[..|lines| - 1], id);
    }
  }

  /** The loop that fills `definitions` from the definition file. */
  method BuildDefinitionIndex(lines: seq<string>) returns (defs: map<string, string>)
    ensures defs == DefinitionIndex(lines)
  {
    defs := map[];
    var n := 0;
    while n < |lines|
      invariant 0 <= n <= |lines|
      invariant defs == DefinitionIndex(lines[..n])
    {
      assert lines[..n + 1][..n] == lines[..n];
      var pair := DefinitionPair(lines[n]);
      if pair.Some? {
        defs := defs[pair.value.0 := pair.value.1];
      }
      n := n + 1;
    }
    assert lines[..n] == lines;
  }

  /** `definitions.get(synsetId) || undefined` */
  function DefinitionFor(defs: map<string, string>, synsetId: string): (d: Option<string>)
    ensures d.Some? ==> d.value != []
  {
    if synsetId in defs && defs[synsetId] != [] then Some(defs[synsetId]) else None
  }

  /** The part-of-speech name for a synset-type letter. */
  function PosName(c: string): string {
    if c == "n" then "名詞"
    else if c == "v" then "動詞"
    else if c == "a" then "形容詞"
    else if c == "r" then "副詞"
    else "その他"
  }

  /** `getPartOfSpeech`: the segment after the first `-` of the id, named. */
  function PartOfSpeech(synsetId: string): string {
    match Field(Split(synsetId, '-'), 1)
    case Some(seg) => PosName(seg)
    case None => "その他"
  }

  /** For an id `<offset>-<letter>` the part of speech is named after the letter:
      n, v, a and r name noun, verb, adjective and adverb; every other letter,
      `s` (satellite adjective) among them, gives "その他" (other). */
  lemma PartOfSpeechOfSynsetId(offset: string, letter: char)
    requires '-' !in offset && letter != '-'
    ensures PartOfSpeech(offset + "-" + [letter]) == PosName([letter])
    ensures letter == 's' ==> PartOfSpeech(offset + "-" + [letter]) == "その他"
  {
    var parts := [offset, [letter]];
    JoinSplit(parts, '-');
    assert Join(parts, '-') == offset + "-" + [letter];
  }

  /** An id without a `-` has no type letter and gives "その他". */
  lemma PartOfSpeechWithoutDash(synsetId: string)
    requires '-' !in synsetId
    ensures PartOfSpeech(synsetId) == "その他"
  {
    JoinSplit([synsetId], '-');
  }

  /** The value the grouping loop pushes for one row. */
  function EntryOf(row: WordRow, defs: map<string, string>): RawEntry {
    RawEntry(row.synsetId, row.word, row.confidence, PartOfSpeech(row.synsetId), DefinitionFor(defs, row.synsetId))
  }

  /** The rows paired with their grouping key, the row's word. */
  function KeyedEntries(rows: seq<WordRow>, defs: map<string, string>): (ps: seq<(Option<string>, RawEntry)>)
    ensures |ps| == |rows|
    ensures forall i :: 0 <= i < |rows| ==> ps[i] == (rows[i].word, EntryOf(rows[i], defs))
  {
    seq(|rows|, i requires 0 <= i < |rows| => (rows[i].word, EntryOf(rows[i], defs)))
  }

  predicate IsKept(e: RawEntry) {
    e.confidence.Some? && IsHighConfidence(e.confidence.value)
  }

  /** The table entry of word `w` that a kept row becomes. */
  function SenseOf(e: RawEntry, w: string): SenseEntry
    requires IsKept(e)
  {
    SenseEntry(e.synsetId, w, e.confidence.value, e.partOfSpeech, e.definition)
  }

  /** `senses` are the kept rows `kept`, one for one and in order, as entries of
      word `w`. */
  predicate AreSensesOf(senses: seq<SenseEntry>, kept: seq<RawEntry>, w: string) {
    && |senses| == |kept|
    && forall j :: 0 <= j < |senses| ==> IsKept(kept[j]) && senses[j] == SenseOf(kept[j], w)
  }

  /** `entries.filter(entry => entry.confidence === 'hand' || entry.confidence === 'mono')`,
      as the table entries of word `w`: every `hand` or `mono` row, in order,
      and no other row. */
  function HighConfidenceOnly(es: seq<RawEntry>, w: string): (r: seq<SenseEntry>)
    ensures forall j :: 0 <= j < |r| ==> r[j].word == w && IsHighConfidence(r[j].confidence)
    ensures AreSensesOf(r, Filter(es, IsKept), w)
    decreases |es|
  {
    if es == [] then []
    else
      var init := HighConfidenceOnly(es[..|es| - 1], w);
      var e := es[|es| - 1];
      if IsKept(e) then init + [SenseOf(e, w)]
      else init
  }

  lemma HighConfidenceOnlyAppend(es: seq<RawEntry>, fs: seq<RawEntry>, w: string)
    ensures HighConfidenceOnly(es + fs, w) == HighConfidenceOnly(es, w) + HighConfidenceOnly(fs, w)
  {
    FilterAppend(es, fs, IsKept);
    SensesAppend(HighConfidenceOnly(es, w), Filter(es, IsKept), HighConfidenceOnly(fs, w), Filter(fs, IsKept), w);
    SensesUnique(HighConfidenceOnly(es + fs, w), HighConfidenceOnly(es, w) + HighConfidenceOnly(fs, w), Filter(es + fs, IsKept), w);
  }

  lemma SensesAppend(a: seq<SenseEntry>, ka: seq<RawEntry>, b: seq<SenseEntry>, kb: seq<RawEntry>, w: string)
    requires AreSensesOf(a, ka, w) && AreSensesOf(b, kb, w)
    ensures AreSensesOf(a + b, ka + kb, w)
  {
    forall j | |a| <= j < |a + b| ensures IsKept((ka + kb)[j]) && (a + b)[j] == SenseOf((ka + kb)[j], w) {
      assert (a + b)[j] == b[j - |a|] && (ka + kb)[j] == kb[j - |a|];
    }
  }

  /** The kept rows determine the entries. */
  lemma SensesUnique(a: seq<SenseEntry>, b: seq<SenseEntry>, kept: seq<RawEntry>, w: string)
    requires AreSensesOf(a, kept, w) && AreSensesOf(b, kept, w)
    ensures a == b
  {
  }

  /** `filteredData` after the `wordMap.forEach` loop: each word whose list keeps
      at least one entry, with the kept entries. */
  function HighConfidenceTable(wordMap: seq<(Option<string>, seq<RawEntry>)>): WordTable
    decreases |wordMap|
  {
    if wordMap == [] then []
    else
      var t := HighConfidenceTable(wordMap[..|wordMap| - 1]);
      var (k, es) := wordMap[|wordMap| - 1];
      if k.Some? && HighConfidenceOnly(es, k.value) != [] then Put(t, k.value, HighConfidenceOnly(es, k.value))
      else t
  }

  /** The filtered table satisfies the schema the lookup route depends on. */
  lemma {:induction false} HighConfidenceTableValid(wordMap: seq<(Option<string>, seq<RawEntry>)>)
    ensures ValidWordTable(HighConfidenceTable(wordMap))
    decreases |wordMap|
  {
    if wordMap != [] {
      var t := HighConfidenceTable(wordMap[..|wordMap| - 1]);
      HighConfidenceTableValid(wordMap[..|wordMap| - 1]);
      var (k, es) := wordMap[|wordMap| - 1];
      if k.Some? && HighConfidenceOnly(es, k.value) != [] {
        var kept := HighConfidenceOnly(es, k.value);
        PutUniqueKeys(t, k.value, kept);
        forall i | 0 <= i < |Put(t, k.value, kept)| ensures Put(t, k.value, kept)[i] in t || Put(t, k.value, kept)[i] == (k.value, kept) {
          PutEntries(t, k.value, kept, i);
        }
      }
    }
  }

  /** For a word map with unique keys, a word is in the filtered table exactly
      when its list keeps an entry, and then with exactly the kept entries. */
  lemma {:induction false} HighConfidenceTableFind(wordMap: seq<(Option<string>, seq<RawEntry>)>, w: string)
    requires UniqueKeys(wordMap)
    ensures Find(HighConfidenceTable(wordMap), w) ==
      match Find(wordMap, Some(w))
      case Some(es) => if HighConfidenceOnly(es, w) != [] then Some(HighConfidenceOnly(es, w)) else None
      case None => None
    decreases |wordMap|
  {
    if wordMap != [] {
      var init := wordMap[..|wordMap| - 1];
      var (k, es) := wordMap[|wordMap| - 1];
      assert wordMap == init + [(k, es)];
      assert Keys(wordMap) == Keys(init) + [k];
      assert UniqueKeys(init) by {
        assert Keys(init) == Keys(wordMap)[..|wordMap| - 1];
      }
      HighConfidenceTableFind(init, w);
      FindAppend(init, k, es, Some(w));
      var t := HighConfidenceTable(init);
      if k == Some(w) {
        FindKeys(init, Some(w));
      } else if k.Some? && HighConfidenceOnly(es, k.value) != [] {
        PutOther(t, k.value, HighConfidenceOnly(es, k.value), w);
      }
    }
  }

  /** The loop over `wordMap` that assigns `filteredData[word]`. */
  method FilterHighConfidence(wordMap: seq<(Option<string>, seq<RawEntry>)>) returns (table: WordTable)
    requires forall i, j :: 0 <= i < |wordMap| && 0 <= j < |wordMap[i].1| ==>
      (IsKept(wordMap[i].1[j]) ==> wordMap[i].0.Some?)
    ensures table == HighConfidenceTable(wordMap)
  {
    table := [];
    var n := 0;
    while n < |wordMap|
      invariant 0 <= n <= |wordMap|
      invariant table == HighConfidenceTable(wordMap[..n])
    {
      assert wordMap[..n + 1][..n] == wordMap[..n];
      var (word, entries) := wordMap[n];
      var w := if word.Some? then word.value else "";
      var kept := [];
      var j := 0;
      while j < |entries|
        invariant 0 <= j <= |entries|
        invariant kept == HighConfidenceOnly(entries[..j], w)
        invariant kept != [] ==> word.Some?
      {
        assert entries[..j + 1][..j] == entries[..j];
        var e := entries[j];
        if IsKept(e) {
          kept := kept + [SenseEntry(e.synsetId, w, e.confidence.value, e.partOfSpeech, e.definition)];
        }
        j := j + 1;
      }
      assert entries[..j] == entries;
      if kept != [] {
        table := Put(table, w, kept);
      }
      n := n + 1;
    }
    assert wordMap[..n] == wordMap;
  }

  /** The definitions map: empty when the definition file is absent. */
  function Definitions(defFile: Option<string>): map<string, string> {
    match defFile
    case Some(content) => DefinitionIndex(NonBlankLines(content))
    case None => map[]
  }

  /** The word map: the enriched rows grouped by word, words in order of first appearance. */
  function WordMap(wordFile: string, defFile: Option<string>): seq<(Option<string>, seq<RawEntry>)> {
    Grouped(KeyedEntries(ParseWordRows(wordFile), Definitions(defFile)))
  }

  /** The table the builder writes for the given file contents. */
  function WordNetTable(wordFile: string, defFile: Option<string>): WordTable {
    HighConfidenceTable(WordMap(wordFile, defFile))
  }

  /** A word is in the output exactly when one of its rows is tagged hand or mono,
      and its senses are those rows in file order, each with the part of speech
      of its synset id and the definition indexed for it. */
  lemma WordNetTableFind(wordFile: string, defFile: Option<string>, w: string)
    ensures Find(WordNetTable(wordFile, defFile), w) ==
      var kept := HighConfidenceOnly(ValuesAt(KeyedEntries(ParseWordRows(wordFile), Definitions(defFile)), Some(w)), w);
      if kept != [] then Some(kept) else None
  {
    var ps := KeyedEntries(ParseWordRows(wordFile), Definitions(defFile));
    GroupedWellFormed(ps);
    GroupedSpec(ps, Some(w));
    HighConfidenceTableFind(Grouped(ps), w);
    ValuesAtAbsent(ps, Some(w));
  }

  /** Every entry of the output table belongs to its word and is high-confidence,
      every word has an entry and no word is repeated. */
  lemma WordNetTableValid(wordFile: string, defFile: Option<string>)
    ensures ValidWordTable(WordNetTable(wordFile, defFile))
  {
    HighConfidenceTableValid(WordMap(wordFile, defFile));
  }

  /** The table's senses, word after word (`Object.values(filteredData).flat()`). */
  function Flatten(t: WordTable): seq<SenseEntry>
    decreases |t|
  {
    if t == [] then [] else Flatten(t[..|t| - 1]) + t[|t| - 1].1
  }

  /** The number of senses with part of speech `pos`. */
  function CountPos(es: seq<SenseEntry>, pos: string): nat
    decreases |es|
  {
    if es == [] then 0
    else CountPos(es[..|es| - 1], pos) + (if es[|es| - 1].partOfSpeech == pos then 1 else 0)
  }

  /** `byPartOfSpeech` after `stats.byPartOfSpeech[pos] = (stats.byPartOfSpeech[pos] || 0) + 1`
      has run over the senses in order. */
  function PosTally(es: seq<SenseEntry>): seq<(string, nat)>
    decreases |es|
  {
    if es == [] then []
    else
      var t := PosTally(es[..|es| - 1]);
      var pos := es[|es| - 1].partOfSpeech;
      Put(t, pos, FindOr(t, pos, 0) + 1)
  }

  function SumCounts(t: seq<(string, nat)>): nat
    decreases |t|
  {
    if t == [] then 0 else t[0].1 + SumCounts(t[1..])
  }

  /** The tally holds, under each part of speech, the number of senses with it. */
  lemma {:induction false} PosTallyCounts(es: seq<SenseEntry>, pos: string)
    ensures FindOr(PosTally(es), pos, 0) == CountPos(es, pos)
    decreases |es|
  {
    if es != [] {
      var init := es[..|es| - 1];
      var p := es[|es| - 1].partOfSpeech;
      var t := PosTally(init);
      PosTallyCounts(init, pos);
      TallyStep(t, p, pos);
      assert PosTally(es) == Put(t, p, FindOr(t, p, 0) + 1);
    }
  }

  /** One increment of the tally changes the count of its own part of speech only. */
  lemma TallyStep(t: seq<(string, nat)>, p: string, pos: string)
    ensures FindOr(Put(t, p, FindOr(t, p, 0) + 1), pos, 0) == FindOr(t, pos, 0) + (if p == pos then 1 else 0)
  {
    if p != pos {
      PutOther(t, p, FindOr(t, p, 0) + 1, pos);
    }
  }

  /** Assigning a count changes the total by the difference to the old count. */
  lemma {:induction false} SumCountsPut(t: seq<(string, nat)>, k: string, c: nat)
    ensures SumCounts(Put(t, k, c)) == SumCounts(t) - FindOr(t, k, 0) + c
    decreases |t|
  {
    if t != [] && t[0].0 != k {
      SumCountsPut(t[1..], k, c);
      assert ([t[0]] + Put(t[1..], k, c))[1..] == Put(t[1..], k, c);
    } else if t != [] {
      assert ([(k, c)] + t[1..])[1..] == t[1..];
    }
  }

  /** The counts of the tally add up to the number of senses. */
  lemma {:induction false} PosTallyTotal(es: seq<SenseEntry>)
    ensures SumCounts(PosTally(es)) == |es|
    decreases |es|
  {
    if es != [] {
      var init := es[..|es| - 1];
      PosTallyTotal(init);
      var t := PosTally(init);
      var p := es[|es| - 1].partOfSpeech;
      SumCountsPut(t, p, FindOr(t, p, 0) + 1);
      SumCountsAtLeast(t, p);
    }
  }

  lemma {:induction false} SumCountsAtLeast(t: seq<(string, nat)>, k: string)
    ensures FindOr(t, k, 0) <= SumCounts(t)
    decreases |t|
  {
    if t != [] {
      SumCountsAtLeast(t[1..], k);
    }
  }

  /** The statistics loop over the flattened senses. */
  method ComputeStats(table: WordTable) returns (stats: WordNetStats)
    ensures stats.totalWords == |table|
    ensures stats.totalEntries == |Flatten(table)|
    ensures stats.byPartOfSpeech == PosTally(Flatten(table))
  {
    var all := Flatten(table);
    var tally: seq<(string, nat)> := [];
    var n := 0;
    while n < |all|
      invariant 0 <= n <= |all|
      invariant tally == PosTally(all[..n])
    {
      assert all[..n + 1][..n] == all[..n];
      var pos := all[n].partOfSpeech;
      tally := Put(tally, pos, FindOr(tally, pos, 0) + 1);
      n := n + 1;
    }
    assert all[..n] == all;
    stats := WordNetStats(|table|, |all|, tally);
  }

  /** `processJapaneseWordNet`: nothing is built without the word file; otherwise
      the filtered table and its statistics. */
  method ProcessJapaneseWordNet(wordFile: Option<string>, defFile: Option<string>) returns (out: BuildOutput)
    ensures wordFile.None? <==> out.NotBuilt?
    ensures out.Built? ==> out.table == WordNetTable(wordFile.value, defFile)
    ensures out.Built? ==> out.stats.totalWords == |out.table|
    ensures out.Built? ==> out.stats.totalEntries == |Flatten(out.table)|
    ensures out.Built? ==> out.stats.byPartOfSpeech == PosTally(Flatten(out.table))
  {
    if wordFile.None? {
      return NotBuilt;
    }
    var rows := ParseWordRows(wordFile.value);
    var defs: map<string, string> := map[];
    if defFile.Some? {
      defs := BuildDefinitionIndex(NonBlankLines(defFile.value));
    }
    var wordMap := GroupByKey(KeyedEntries(rows, defs));
    forall i, j | 0 <= i < |wordMap| && 0 <= j < |wordMap[i].1| && IsKept(wordMap[i].1[j])
      ensures wordMap[i].0.Some?
    {
      var ps := KeyedEntries(rows, defs);
      GroupedWellFormed(ps);
      FindUnique(wordMap, i);
      GroupedSpec(ps, wordMap[i].0);
      KeyedEntriesKept(rows, defs, wordMap[i].0, j);
    }
    var table := FilterHighConfidence(wordMap);
    var stats := ComputeStats(table);
    out := Built(table, stats);
  }

  /** A kept entry always sits under a present word. */
  lemma {:induction false} KeyedEntriesKept(rows: seq<WordRow>, defs: map<string, string>, k: Option<string>, j: nat)
    requires forall i :: 0 <= i < |rows| ==> rows[i].confidence.Some? ==> rows[i].word.Some?
    requires j < |ValuesAt(KeyedEntries(rows, defs), k)| && IsKept(ValuesAt(KeyedEntries(rows, defs), k)[j])
    ensures k.Some?
    decreases |rows|
  {
    var ps := KeyedEntries(rows, defs);
    var init := rows[..|rows| - 1];
    assert KeyedEntries(init, defs) == ps[..|ps| - 1];
    var vs := ValuesAt(ps[..|ps| - 1], k);
    if j < |vs| {
      KeyedEntriesKept(init, defs, k, j);
    }
  }
}
