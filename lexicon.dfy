/** The two offline lookup tables: the schema the table builders write and the
    lookup route reads. Both are JSON objects on disk and are modelled as
    insertion-ordered association lists. */
module Lexicon {
  import opened Collections

  /** One sense of a word in the Japanese WordNet table. */
  datatype SenseEntry = SenseEntry(
    synsetId: string,
    word: string,
    confidence: string,
    partOfSpeech: string,
    definition: Option<string>)

  /** word → its senses, in source order. */
  type WordTable = seq<(string, seq<SenseEntry>)>

  /** language code → lemmas of one synset. */
  type LanguageLemmas = seq<(string, seq<string>)>

  /** synset id → language code → lemmas. */
  type SynsetTable = seq<(string, LanguageLemmas)>

  /** The confidence tags the builder keeps: hand-checked and monosemous senses. */
  predicate IsHighConfidence(c: string) {
    c == "hand" || c == "mono"
  }

  /** What the word-table builder guarantees of its output. */
  ghost predicate ValidWordTable(t: WordTable) {
    && UniqueKeys(t)
    && (forall i :: 0 <= i < |t| ==> t[i].1 != [])
    && (forall i, j :: 0 <= i < |t| && 0 <= j < |t[i].1| ==>
          t[i].1[j].word == t[i].0 && IsHighConfidence(t[i].1[j].confidence))
  }

  /** The languages of one synset: at least one, none twice, and under each a
      non-empty list of distinct lemmas. */
  ghost predicate ValidLanguages(ls: LanguageLemmas) {
    && ls != []
    && UniqueKeys(ls)
    && (forall j :: 0 <= j < |ls| ==> ls[j].1 != [] && NoDup(ls[j].1))
  }

  /** What the multilingual-table builder guarantees of its output. */
  ghost predicate ValidSynsetTable(t: SynsetTable) {
    && UniqueKeys(t)
    && (forall i :: 0 <= i < |t| ==> ValidLanguages(t[i].1))
  }

  /** The built-in word table used when the table file cannot be loaded. */
  const SeedWordTable: WordTable := [
    ("美しい", [SenseEntry("00217728-a", "美しい", "hand", "形容詞",
                         Some("感覚を活気づけ、知的情緒的賞賛を喚起する"))])
  ]
}
