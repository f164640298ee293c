/** The etymology task of the lookup route: `fetchEtymologyData` normalises the
    word, answers from a built-in table when it can, and otherwise asks DBnary's
    SPARQL endpoint; every failure falls back to the table and then to "no
    etymology". `getFallbackEtymology` is the table lookup. */
module Etymology {
  import opened Collections
  import opened Text
  import opened LookupTypes

  /** The built-in etymologies (`commonEtymologies`), a few of its entries. */
  const FallbackTable: seq<(string, string)> := [
    ("etymology", "From Ancient Greek ἐτυμολογία (etumología), from ἔτυμον (étumon, \"true sense\") + -λογία (-logía, \"-logy\")."),
    ("cat", "From Old English catt, from Late Latin cattus, from Latin catta, from Afro-Asiatic origin."),
    ("dog", "From Middle English dogge, from Old English docga, of uncertain origin."),
    ("house", "From Middle English hous, from Old English hūs, from Proto-Germanic *hūsą.")
  ]

  predicate IsLowerLetter(c: char) {
    'a' <= c <= 'z'
  }

  /** Every key of the table is a non-empty word of lower-case ASCII letters. */
  predicate LetterKeys(table: seq<(string, string)>) {
    forall i :: 0 <= i < |table| ==> table[i].0 != [] && forall j :: 0 <= j < |table[i].0| ==> IsLowerLetter(table[i].0[j])
  }

  lemma FallbackTableLetterKeys()
    ensures LetterKeys(FallbackTable)
  {
  }

  /** `getFallbackEtymology`: `commonEtymologies[word] || undefined`. */
  function FallbackEtymology(word: string): (e: Option<string>)
    ensures e.Some? ==> e.value != [] && (word, e.value) in FallbackTable
    ensures e.None? ==> forall i :: 0 <= i < |FallbackTable| && FallbackTable[i].0 == word ==> FallbackTable[i].1 == []
  {
    FindKeys(FallbackTable, word);
    FallbackFind(word);
    var f := Find(FallbackTable, word);
    if f.Some? && f.value != [] then f else None
  }

  /** The table has no repeated key, so a lookup finds the entry of its key. */
  lemma FallbackFind(word: string)
    ensures forall i :: 0 <= i < |FallbackTable| && FallbackTable[i].0 == word ==> Find(FallbackTable, word) == Some(FallbackTable[i].1)
  {
    forall i | 0 <= i < |FallbackTable| && FallbackTable[i].0 == word
      ensures Find(FallbackTable, word) == Some(FallbackTable[i].1)
    {
      FindUnique(FallbackTable, i);
    }
  }

  /** The table answers "cat" with its own string. */
  lemma FallbackExample()
    ensures FallbackEtymology("cat") == Some("From Old English catt, from Late Latin cattus, from Latin catta, from Afro-Asiatic origin.")
    ensures FallbackEtymology("Cat") == None
  {
    FallbackFind("cat");
  }

  /** The characters the normalisation keeps: `\w` (ASCII letters, digits and
      `_`), the apostrophe and the hyphen. */
  predicate IsWordChar(c: char) {
    'a' <= c <= 'z' || 'A' <= c <= 'Z' || '0' <= c <= '9' || c == '_' || c == '\'' || c == '-'
  }

  /** `s.replace(/[^\w'-]/g, '')`: the word characters survive, in order;
      nothing else does. */
  function StripNonWord(s: string): (r: string)
    ensures |r| <= |s|
    ensures forall i :: 0 <= i < |r| ==> IsWordChar(r[i]) && r[i] in s
    ensures forall c :: c in r <==> c in s && IsWordChar(c)
    ensures IsSubsequence(r, s)
  {
    Filter(s, IsWordChar)
  }

  /** Each word character survives as often as it occurs. */
  lemma StripNonWordCounts(s: string, c: char)
    requires IsWordChar(c)
    ensures multiset(StripNonWord(s))[c] == multiset(s)[c]
  {
    FilterCount(s, IsWordChar, c);
  }

  /** A string made only of kept characters is left as it is. */
  lemma StripNonWordKeeps(s: string)
    requires forall i :: 0 <= i < |s| ==> IsWordChar(s[i])
    ensures StripNonWord(s) == s
  {
    FilterAll(s, IsWordChar);
  }

  /** Lower-casing does not change whether a character is a word character. */
  lemma LowerWordChar(c: char)
    ensures IsWordChar(LowerChar(c)) == IsWordChar(c)
  {
  }

  /** Lower-casing and stripping commute. */
  lemma {:induction false} StripLowerCommute(s: string)
    ensures StripNonWord(LowerAscii(s)) == LowerAscii(StripNonWord(s))
    decreases |s|
  {
    if s != [] {
      var init, last := s[..|s| - 1], s[|s| - 1];
      assert s == init + [last];
      var lower := LowerAscii(s);
      assert lower == LowerAscii(init) + [LowerChar(last)];
      LowerWordChar(last);
      StripLowerCommute(init);
      var stripped := StripNonWord(init);
      if IsWordChar(last) {
        assert StripNonWord(s) == stripped + [last];
        assert LowerAscii(stripped + [last]) == LowerAscii(stripped) + [LowerChar(last)];
      } else {
        assert StripNonWord(s) == stripped;
      }
    }
  }

  /** The normalised word: lower-cased, then stripped. It is the word's `\w`,
      `'` and `-` characters, in order and lower-cased. */
  function Normalize(word: string): (n: string)
    ensures n == LowerAscii(StripNonWord(word))
    ensures forall i :: 0 <= i < |n| ==> IsWordChar(n[i]) && !('A' <= n[i] <= 'Z')
  {
    StripLowerCommute(word);
    StripNonWord(LowerAscii(word))
  }

  /** `/^[a-zA-Z0-9'-]+$/.test(s)`. */
  predicate ValidFormat(s: string) {
    s != [] && forall i :: 0 <= i < |s| ==> IsWordChar(s[i]) && s[i] != '_'
  }

  /** The answer of the `catch` block: the table consulted with the lower-cased
      (not stripped) word. */
  function CatchAnswer(word: string, now: string): EtymologyResponse {
    var w := LowerAscii(word);
    EtymologyResponse(w, FallbackEtymology(w), now)
  }

  /** The first binding's etymology, when present and non-empty. */
  function FirstEtymology(etymologies: seq<Option<string>>): (e: Option<string>)
    ensures e.Some? ==> etymologies != [] && etymologies[0] == e && e.value != []
  {
    if etymologies != [] && etymologies[0].Some? && etymologies[0].value != [] then etymologies[0] else None
  }

  /** Does the task send the SPARQL query? Only for a well-formed word the table
      does not know. */
  predicate QueriesDbnary(word: string) {
    ValidFormat(Normalize(word)) && FallbackEtymology(Normalize(word)).None?
  }

  /** `fetchEtymologyData` for the DBnary answer `answer` and the clock reading
      `now`. It never rejects: its result is a response, not an outcome. */
  function EtymologyOf(word: string, answer: FetchResult<SparqlBody>, now: string): EtymologyResponse {
    var normalized := Normalize(word);
    if !ValidFormat(normalized) then CatchAnswer(word, now)
    else
      match FallbackEtymology(normalized)
      case Some(e) => EtymologyResponse(normalized, Some(e), now)
      case None =>
        match answer
        case HttpOk(Results(etymologies)) => EtymologyResponse(normalized, FirstEtymology(etymologies), now)
        case _ => CatchAnswer(word, now)
  }

  /** The lower-cased word is a table key only when stripping changes nothing, so
      the `catch` block's table lookup can succeed only where the lookup with the
      normalised word already did. */
  lemma {:induction false} CatchLookupRedundant(word: string)
    requires FallbackEtymology(LowerAscii(word)).Some?
    ensures Normalize(word) == LowerAscii(word)
    ensures ValidFormat(Normalize(word))
  {
    var w := LowerAscii(word);
    FallbackKeyLetters(w);
    StripNonWordKeeps(w);
  }

  /** A word the table answers is a non-empty run of lower-case letters. */
  lemma FallbackKeyLetters(w: string)
    requires FallbackEtymology(w).Some?
    ensures w != [] && forall j :: 0 <= j < |w| ==> IsLowerLetter(w[j])
  {
    FallbackTableLetterKeys();
    var i :| 0 <= i < |FallbackTable| && FallbackTable[i] == (w, FallbackEtymology(w).value);
  }

  /** The outcome, case by case. After normalisation the format test fails only
      on an empty result or one holding `_`. A table hit answers with the table's
      string for the normalised word before any request, so the DBnary answer
      does not matter. An ill-formed word and a failed or refused request both
      end with no etymology, and a request answered with bindings yields the
      first binding's non-empty etymology. The answer is about the normalised
      word, except in the `catch` block, which reports the lower-cased word. */
  lemma EtymologySpec(word: string, answer: FetchResult<SparqlBody>, now: string)
    ensures EtymologyOf(word, answer, now).retrievedAt == now
    ensures ValidFormat(Normalize(word)) <==> Normalize(word) != [] && '_' !in Normalize(word)
    ensures ValidFormat(Normalize(word)) && FallbackEtymology(Normalize(word)).Some? ==>
      && !QueriesDbnary(word)
      && EtymologyOf(word, answer, now) == EtymologyOf(word, NetworkError, now)
      && EtymologyOf(word, answer, now) == EtymologyResponse(Normalize(word), FallbackEtymology(Normalize(word)), now)
    ensures !ValidFormat(Normalize(word)) ==>
      EtymologyOf(word, answer, now) == EtymologyResponse(LowerAscii(word), None, now)
    ensures QueriesDbnary(word) && !(answer.HttpOk? && answer.body.Results?) ==>
      EtymologyOf(word, answer, now) == EtymologyResponse(LowerAscii(word), None, now)
    ensures QueriesDbnary(word) && answer.HttpOk? && answer.body.Results? ==>
      EtymologyOf(word, answer, now) == EtymologyResponse(Normalize(word), FirstEtymology(answer.body.etymologies), now)
  {
    if FallbackEtymology(LowerAscii(word)).Some? {
      CatchLookupRedundant(word);
    }
  }
}
