/** The search-history hook: a newest-first list of searched words without
    repetitions, at most twenty long, mirrored into the browser's storage. */
module SearchHistory {
  import opened Collections
  import opened Text

  /** `MAX_HISTORY_ITEMS`. */
  const MaxHistoryItems: nat := 20

  /** `HISTORY_STORAGE_KEY`, the storage key the list is saved under. */
  const HistoryStorageKey: string := "wordtree_search_history"

  /** A searched word and when it was searched, in milliseconds. */
  datatype HistoryItem = HistoryItem(word: string, timestamp: int)

  /** No word occurs twice in the list. */
  predicate DistinctWords(history: seq<HistoryItem>) {
    forall i, j :: 0 <= i < j < |history| ==> history[i].word != history[j].word
  }

  /** `history.filter(item => item.word !== word)`: the entries with another
      word, in their order. */
  function WithoutWord(history: seq<HistoryItem>, word: string): (r: seq<HistoryItem>)
    ensures |r| <= |history|
    ensures forall x :: x in r <==> x in history && x.word != word
    ensures IsSubsequence(r, history)
    decreases |history|
  {
    if history == [] then
      EmptySubsequence(history);
      []
    else
      var init := WithoutWord(history[..|history| - 1], word);
      var last := history[|history| - 1];
      assert history == history[..|history| - 1] + [last];
      SubsequenceSnoc(init, history[..|history| - 1], last);
      if last.word != word then init + [last] else init
  }

  /** Every entry with another word is kept as often as it occurs. */
  lemma {:induction false} WithoutWordCounts(history: seq<HistoryItem>, word: string)
    ensures forall x: HistoryItem :: x.word != word ==> multiset(WithoutWord(history, word))[x] == multiset(history)[x]
    decreases |history|
  {
    if history != [] {
      var init := history[..|history| - 1];
      var last := history[|history| - 1];
      WithoutWordCounts(init, word);
      assert history == init + [last];
      assert multiset(history) == multiset(init) + multiset{last};
    }
  }

  /** Filtering a list whose words are distinct keeps them distinct, and leaves
      a list without the word as it is. */
  lemma WithoutWordSpec(history: seq<HistoryItem>, word: string)
    ensures DistinctWords(history) ==> DistinctWords(WithoutWord(history, word))
    ensures (forall i :: 0 <= i < |history| ==> history[i].word != word) ==> WithoutWord(history, word) == history
  {
    if DistinctWords(history) {
      WithoutWordDistinct(history, word);
    }
    if forall i :: 0 <= i < |history| ==> history[i].word != word {
      WithoutWordAbsent(history, word);
    }
  }

  lemma {:induction false} WithoutWordDistinct(history: seq<HistoryItem>, word: string)
    requires DistinctWords(history)
    ensures DistinctWords(WithoutWord(history, word))
    decreases |history|
  {
    if history != [] {
      var init := history[..|history| - 1];
      var last := history[|history| - 1];
      assert DistinctWords(init) by {
        forall i, j | 0 <= i < j < |init| ensures init[i].word != init[j].word {
          assert init[i] == history[i] && init[j] == history[j];
        }
      }
      WithoutWordDistinct(init, word);
      if last.word != word {
        var w := WithoutWord(init, word);
        forall x | x in w ensures x.word != last.word {
          var j :| 0 <= j < |init| && init[j] == x;
          assert history[j] == x;
        }
        DistinctSnoc(w, last);
      }
    }
  }

  /** Appending an item whose word the list lacks keeps the words distinct. */
  lemma DistinctSnoc(w: seq<HistoryItem>, last: HistoryItem)
    requires DistinctWords(w)
    requires forall x :: x in w ==> x.word != last.word
    ensures DistinctWords(w + [last])
  {
    forall i, j | 0 <= i < j < |w| + 1 ensures (w + [last])[i].word != (w + [last])[j].word {
      if j == |w| {
        assert w[i] in w;
      }
    }
  }

  lemma {:induction false} WithoutWordAbsent(history: seq<HistoryItem>, word: string)
    requires forall i :: 0 <= i < |history| ==> history[i].word != word
    ensures WithoutWord(history, word) == history
    decreases |history|
  {
    if history != [] {
      var init := history[..|history| - 1];
      var last := history[|history| - 1];
      assert history == init + [last];
      forall i | 0 <= i < |init| ensures init[i].word != word {
        assert init[i] == history[i];
      }
      WithoutWordAbsent(init, word);
      WithoutWordKeepsLast(history, word);
    }
  }

  /** A last entry of another word stays last. */
  lemma WithoutWordKeepsLast(history: seq<HistoryItem>, word: string)
    requires history != [] && history[|history| - 1].word != word
    ensures WithoutWord(history, word) == WithoutWord(history[..|history| - 1], word) + [history[|history| - 1]]
  {
  }

  /** The list after `addToHistory(word)` at clock reading `now`: unchanged for a
      blank word; otherwise the trimmed word first, the older entries without it
      after it, cut to twenty. */
  function AddedHistory(history: seq<HistoryItem>, word: string, now: int): (r: seq<HistoryItem>)
    ensures IsBlank(word) ==> r == history
    ensures !IsBlank(word) ==> 1 <= |r| <= MaxHistoryItems && r[0] == HistoryItem(Trim(word), now)
  {
    if Trim(word) == [] then history
    else
      var newItem := HistoryItem(Trim(word), now);
      var filtered := WithoutWord(history, newItem.word);
      Take([newItem] + filtered, MaxHistoryItems)
  }

  /** After a non-blank add, the trimmed word is first and nowhere else, the
      entries after it are the older entries without that word, in their order
      (only the oldest of them may be cut), and a history whose words were
      distinct stays so. Every entry is the new item or an older entry, and the
      older entries keep their relative order. */
  lemma AddedHistorySpec(history: seq<HistoryItem>, word: string, now: int)
    requires !IsBlank(word)
    ensures var r := AddedHistory(history, word, now);
      && (forall i :: 1 <= i < |r| ==> r[i].word != Trim(word))
      && r[1..] <= WithoutWord(history, Trim(word))
      && |r| == (if |WithoutWord(history, Trim(word))| < MaxHistoryItems then |WithoutWord(history, Trim(word))| + 1 else MaxHistoryItems)
      && (DistinctWords(history) ==> DistinctWords(r))
      && (forall i :: 1 <= i < |r| ==> r[i] in history)
      && IsSubsequence(r[1..], history)
  {
    var item := HistoryItem(Trim(word), now);
    var filtered := WithoutWord(history, item.word);
    TakeFront(item, filtered, MaxHistoryItems);
    WithoutWordSpec(history, item.word);
    FrontOfFiltered(history, filtered, item, AddedHistory(history, word, now));
  }

  /** An item in front of the first entries of a filtered list that lacks its
      word: the shape `addToHistory` builds. */
  lemma FrontOfFiltered(history: seq<HistoryItem>, filtered: seq<HistoryItem>, item: HistoryItem, r: seq<HistoryItem>)
    requires forall x :: x in filtered ==> x in history && x.word != item.word
    requires DistinctWords(history) ==> DistinctWords(filtered)
    requires IsSubsequence(filtered, history)
    requires r == [item] + Take(filtered, MaxHistoryItems - 1)
    ensures forall i :: 1 <= i < |r| ==> r[i].word != item.word
    ensures r[1..] <= filtered
    ensures |r| == (if |filtered| < MaxHistoryItems then |filtered| + 1 else MaxHistoryItems)
    ensures DistinctWords(history) ==> DistinctWords(r)
    ensures forall i :: 1 <= i < |r| ==> r[i] in history
    ensures IsSubsequence(r[1..], history)
  {
    var rest := Take(filtered, MaxHistoryItems - 1);
    assert r[1..] == rest;
    SubsequencePrefix(filtered, history, rest);
    forall i | 1 <= i < |r| ensures r[i].word != item.word && r[i] in history {
      assert r[i] == filtered[i - 1];
      assert filtered[i - 1] in filtered;
    }
    if DistinctWords(history) {
      DistinctPrefix(filtered, rest);
      DistinctCons(item, rest);
    }
  }

  /** A prefix of a list with distinct words has distinct words. */
  lemma DistinctPrefix(f: seq<HistoryItem>, r: seq<HistoryItem>)
    requires DistinctWords(f) && r <= f
    ensures DistinctWords(r)
  {
    forall i, j | 0 <= i < j < |r| ensures r[i].word != r[j].word {
      assert r[i] == f[i] && r[j] == f[j];
    }
  }

  /** An item in front of a list that lacks its word keeps the words distinct. */
  lemma DistinctCons(x: HistoryItem, rest: seq<HistoryItem>)
    requires DistinctWords(rest)
    requires forall i :: 0 <= i < |rest| ==> rest[i].word != x.word
    ensures DistinctWords([x] + rest)
  {
    forall i, j | 0 <= i < j < |rest| + 1 ensures ([x] + rest)[i].word != ([x] + rest)[j].word {
      if i > 0 {
        assert ([x] + rest)[i] == rest[i - 1];
      }
    }
  }

  /** A word searched again moves to the front and appears once, whatever its
      earlier position. */
  lemma ReAddMovesToFront(history: seq<HistoryItem>, word: string, now: int)
    requires !IsBlank(word) && DistinctWords(history)
    ensures var r := AddedHistory(history, word, now);
      r[0].word == Trim(word) && forall i :: 0 <= i < |r| && r[i].word == Trim(word) ==> i == 0
  {
    AddedHistorySpec(history, word, now);
  }

  /** The list after `removeFromHistory(word)`: the entries with another word,
      in their order. */
  function RemovedHistory(history: seq<HistoryItem>, word: string): (r: seq<HistoryItem>)
    ensures forall x :: x in r <==> x in history && x.word != word
    ensures IsSubsequence(r, history)
  {
    WithoutWord(history, word)
  }

  /** Removing a word the list does not hold changes nothing; removing keeps the
      words distinct. */
  lemma RemovedHistorySpec(history: seq<HistoryItem>, word: string)
    ensures (forall i :: 0 <= i < |history| ==> history[i].word != word) ==> RemovedHistory(history, word) == history
    ensures DistinctWords(history) ==> DistinctWords(RemovedHistory(history, word))
    ensures |RemovedHistory(history, word)| <= |history|
    ensures IsSubsequence(RemovedHistory(history, word), history)
    ensures forall x: HistoryItem :: x.word != word ==> multiset(RemovedHistory(history, word))[x] == multiset(history)[x]
  {
    WithoutWordSpec(history, word);
    WithoutWordCounts(history, word);
  }

  /** `useSearchHistory`: the `history` state and the storage entry under
      `HistoryStorageKey` (absent, or the saved list). */
  class SearchHistoryState {
    var history: seq<HistoryItem>
    var stored: Option<seq<HistoryItem>>

    /** The hook's first render: an empty list, whatever the storage holds. */
    constructor (storage: Option<seq<HistoryItem>>)
      ensures history == [] && stored == storage
    {
      history := [];
      stored := storage;
    }

    /** The mount effect: a saved list replaces the empty one. */
    method LoadStored()
      modifies this
      ensures history == if old(stored).Some? then old(stored).value else old(history)
      ensures stored == old(stored)
    {
      if stored.Some? {
        history := stored.value;
      }
    }

    /** `addToHistory`: a blank word changes nothing; otherwise the new list
        becomes the state and is saved. */
    method AddToHistory(word: string, now: int)
      modifies this
      ensures history == AddedHistory(old(history), word, now)
      ensures stored == if IsBlank(word) then old(stored) else Some(history)
    {
      if Trim(word) == [] {
        return;
      }
      var limited := AddedHistory(history, word, now);
      stored := Some(limited);
      history := limited;
    }

    /** `removeFromHistory`: the filtered list becomes the state and is saved. */
    method RemoveFromHistory(word: string)
      modifies this
      ensures history == RemovedHistory(old(history), word)
      ensures stored == Some(history)
    {
      var updated := RemovedHistory(history, word);
      stored := Some(updated);
      history := updated;
    }

    /** `clearHistory`: the list is emptied and the storage entry removed. */
    method ClearHistory()
      modifies this
      ensures history == [] && stored == None
    {
      history := [];
      stored := None;
    }
  }
}
