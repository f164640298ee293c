/** The text editor's word selection: a mouse-up outside an IME composition
    reports the selected text cleaned to Japanese script, full-width forms, ASCII
    letters and digits separated by single spaces; the Ctrl+Shift+K shortcut
    reports the trimmed selection as it is. */
module TextEditor {
  import opened Collections
  import opened Text

  /** The class the first `replace` deletes: U+3000 and the ranges U+2000–U+200F,
      U+2028–U+202F and U+205F–U+206F. */
  predicate IsWideSpace(c: char) {
    || c == '\U{3000}'
    || ('\U{2000}' <= c <= '\U{200F}')
    || ('\U{2028}' <= c <= '\U{202F}')
    || ('\U{205F}' <= c <= '\U{206F}')
  }

  predicate IsAsciiAlnum(c: char) {
    ('a' <= c <= 'z') || ('A' <= c <= 'Z') || ('0' <= c <= '9')
  }

  /** The characters a cleaned word is made of, besides single spaces: Japanese
      script, the Halfwidth and Fullwidth Forms block U+FF00–U+FFEF, and ASCII
      letters and digits. */
  predicate IsWordPart(c: char) {
    IsJapaneseChar(c) || ('\U{FF00}' <= c <= '\U{FFEF}') || IsAsciiAlnum(c)
  }

  /** The class the second `replace` keeps: word parts and `\s`. */
  predicate IsKept(c: char) {
    IsWordPart(c) || IsJsSpace(c)
  }

  predicate NotWideSpace(c: char) {
    !IsWideSpace(c)
  }

  predicate NotJsSpace(c: char) {
    !IsJsSpace(c)
  }

  /** `s.replace(/[\u3000\u2000-\u200F\u2028-\u202F\u205F-\u206F]/g, '')`: every
      other character survives, as often as it occurs and in order. */
  function DropWideSpaces(s: string): (r: string)
    ensures forall i :: 0 <= i < |r| ==> !IsWideSpace(r[i]) && r[i] in s
    ensures forall c :: c in r <==> c in s && !IsWideSpace(c)
    ensures IsSubsequence(r, s)
    ensures forall c :: !IsWideSpace(c) ==> multiset(r)[c] == multiset(s)[c]
  {
    FilterCounts(s, NotWideSpace);
    var r := Filter(s, NotWideSpace);
    assert CountsKept(r, s, NotWideSpace);
    assert forall i :: 0 <= i < |r| ==> r[i] in r;
    r
  }

  /** `s.replace(/[^\u3040-\u309F\u30A0-\u30FF\u4E00-\u9FAF\uFF00-\uFFEFa-zA-Z0-9\s]/g, '')`:
      the word parts and the white space survive, as often as they occur and in
      order. */
  function KeepWordChars(s: string): (r: string)
    ensures forall i :: 0 <= i < |r| ==> IsKept(r[i]) && r[i] in s
    ensures forall c :: c in r <==> c in s && IsKept(c)
    ensures IsSubsequence(r, s)
    ensures forall c :: IsKept(c) ==> multiset(r)[c] == multiset(s)[c]
  {
    FilterCounts(s, IsKept);
    var r := Filter(s, IsKept);
    assert CountsKept(r, s, IsKept);
    assert forall i :: 0 <= i < |r| ==> r[i] in r;
    r
  }

  /** The characters of `s` that are not white space, in order. */
  function NonSpaces(s: string): string {
    Filter(s, NotJsSpace)
  }

  /** The word parts of `s`, in order. */
  function WordParts(s: string): string {
    Filter(s, IsWordPart)
  }

  /** `s.replace(/\s+/g, ' ')`: every run of white space becomes one space. The
      result has no white space but single spaces, and keeps a non-space first
      character. */
  function CollapseSpaces(s: string): (r: string)
    ensures forall i :: 0 <= i < |r| ==> r[i] == ' ' || (!IsJsSpace(r[i]) && r[i] in s)
    ensures forall i :: 0 <= i < |r| - 1 ==> !(r[i] == ' ' && r[i + 1] == ' ')
    ensures s != [] && !IsJsSpace(s[0]) ==> r != [] && r[0] == s[0]
    decreases |s|
  {
    if s == [] then []
    else if IsJsSpace(s[0]) then
      var rest := s[1..];
      var after := rest[LeadingSpaces(rest)..];
      SuffixMembers(s, 1 + LeadingSpaces(rest));
      assert after == s[1 + LeadingSpaces(rest)..];
      [' '] + CollapseSpaces(after)
    else
      SuffixMembers(s, 1);
      [s[0]] + CollapseSpaces(s[1..])
  }

  /** The white-space rule read one character at a time: a white-space
      character right after another one is dropped, any other becomes a single
      space, and every other character is kept. `afterSpace` says whether the
      character before `s` was white space. */
  function Squeezed(s: string, afterSpace: bool): string
    decreases |s|
  {
    if s == [] then []
    else if !IsJsSpace(s[0]) then [s[0]] + Squeezed(s[1..], false)
    else if afterSpace then Squeezed(s[1..], true)
    else [' '] + Squeezed(s[1..], true)
  }

  /** Right after white space, a run of white space contributes nothing. */
  lemma {:induction false} SqueezedSkipsRun(s: string)
    ensures Squeezed(s, true) == Squeezed(s[LeadingSpaces(s)..], true)
    decreases |s|
  {
    if s != [] && IsJsSpace(s[0]) {
      SqueezedSkipsRun(s[1..]);
      assert s[1..][LeadingSpaces(s[1..])..] == s[LeadingSpaces(s)..];
    }
  }

  /** Collapsing is the character-by-character rule, and it keeps the characters
      that are not white space, in order. */
  lemma CollapseSpacesSpec(s: string)
    ensures CollapseSpaces(s) == Squeezed(s, false)
    ensures NonSpaces(CollapseSpaces(s)) == NonSpaces(s)
  {
    CollapseSqueezed(s);
    CollapseNonSpaces(s);
  }

  lemma {:induction false} CollapseSqueezed(s: string)
    ensures CollapseSpaces(s) == Squeezed(s, false)
    decreases |s|
  {
    if s != [] {
      if IsJsSpace(s[0]) {
        var rest := s[1..];
        var after := rest[LeadingSpaces(rest)..];
        SqueezedSkipsRun(rest);
        CollapseSqueezed(after);
        assert Squeezed(after, true) == Squeezed(after, false);
      } else {
        CollapseSqueezed(s[1..]);
      }
    }
  }

  lemma {:induction false} CollapseNonSpaces(s: string)
    ensures NonSpaces(CollapseSpaces(s)) == NonSpaces(s)
    decreases |s|
  {
    if s != [] {
      if IsJsSpace(s[0]) {
        var rest := s[1..];
        var n := 1 + LeadingSpaces(rest);
        var after := s[n..];
        assert after == rest[LeadingSpaces(rest)..];
        forall i | 0 <= i < n ensures IsJsSpace(s[i]) {
          if i > 0 {
            assert s[i] == rest[i - 1];
          }
        }
        NonSpacesSkipRun(s, n);
        NonSpacesCons(' ', CollapseSpaces(after));
        CollapseNonSpaces(after);
      } else {
        assert s == [s[0]] + s[1..];
        NonSpacesCons(s[0], s[1..]);
        NonSpacesCons(s[0], CollapseSpaces(s[1..]));
        CollapseNonSpaces(s[1..]);
      }
    }
  }

  /** A leading run of white space has no characters that are not white space. */
  lemma NonSpacesSkipRun(s: string, n: nat)
    requires n <= |s|
    requires forall i :: 0 <= i < n ==> IsJsSpace(s[i])
    ensures NonSpaces(s) == NonSpaces(s[n..])
  {
    assert s == s[..n] + s[n..];
    FilterAppend(s[..n], s[n..], NotJsSpace);
    FilterNone(s[..n], NotJsSpace);
  }

  lemma NonSpacesCons(c: char, t: string)
    ensures NonSpaces([c] + t) == if IsJsSpace(c) then NonSpaces(t) else [c] + NonSpaces(t)
  {
    FilterAppend([c], t, NotJsSpace);
    assert [c][..0] == [];
  }

  /** A character of a suffix is a character of the string. */
  lemma SuffixMembers(s: string, n: nat)
    requires n <= |s|
    ensures forall c :: c in s[n..] ==> c in s
  {
    forall c | c in s[n..] ensures c in s {
      var j :| 0 <= j < |s| - n && s[n..][j] == c;
      assert s[n + j] == c;
    }
  }

  /** The cleaning chain of `handleMouseUp`. */
  function CleanWord(selectedText: string): string {
    Trim(CollapseSpaces(KeepWordChars(DropWideSpaces(selectedText))))
  }

  /** The cleaned word has none of the deleted spaces; every character is a word
      part from the selection or a space; no two spaces are adjacent; it neither
      starts nor ends with white space; and its characters other than the spaces
      are exactly the selection's word parts, in order. */
  lemma CleanWordSpec(selectedText: string)
    ensures IsClean(CleanWord(selectedText))
    ensures forall i :: 0 <= i < |CleanWord(selectedText)| && CleanWord(selectedText)[i] != ' ' ==>
      CleanWord(selectedText)[i] in selectedText
    ensures WordParts(CleanWord(selectedText)) == WordParts(selectedText)
    ensures NonSpaces(CleanWord(selectedText)) == WordParts(selectedText)
  {
    CleanWordShape(selectedText);
    CleanWordParts(selectedText);
    var w := CleanWord(selectedText);
    assert forall i :: 0 <= i < |w| ==> w[i] == ' ' || IsWordPart(w[i]);
    NonSpacesAreWordParts(w);
  }

  /** The shape half of `CleanWordSpec`. */
  lemma CleanWordShape(selectedText: string)
    ensures IsClean(CleanWord(selectedText))
    ensures forall i :: 0 <= i < |CleanWord(selectedText)| && CleanWord(selectedText)[i] != ' ' ==>
      CleanWord(selectedText)[i] in selectedText
  {
    var d := DropWideSpaces(selectedText);
    var k := KeepWordChars(d);
    var c := CollapseSpaces(k);
    forall i | 0 <= i < |c| && c[i] != ' '
      ensures IsWordPart(c[i]) && !IsWideSpace(c[i]) && c[i] in selectedText
    {
      var j :| 0 <= j < |k| && k[j] == c[i];
      var j' :| 0 <= j' < |d| && d[j'] == k[j];
    }
    TrimmedClean(c);
  }

  /** The word parts of the selection survive every step, in order. */
  lemma CleanWordParts(selectedText: string)
    ensures WordParts(CleanWord(selectedText)) == WordParts(selectedText)
  {
    var d := DropWideSpaces(selectedText);
    var k := KeepWordChars(d);
    var c := CollapseSpaces(k);
    FilterFilter(selectedText, NotWideSpace, IsWordPart);
    FilterFilter(d, IsKept, IsWordPart);
    WordPartsOfNonSpaces(k);
    CollapseNonSpaces(k);
    WordPartsOfNonSpaces(c);
    TrimNonSpaces(c);
    WordPartsOfNonSpaces(Trim(c));
  }

  /** A string's word parts are the word parts among its characters that are
      not white space. */
  lemma WordPartsOfNonSpaces(s: string)
    ensures WordParts(s) == Filter(NonSpaces(s), IsWordPart)
  {
    FilterFilter(s, NotJsSpace, IsWordPart);
  }

  /** Trimming removes white space only. */
  lemma TrimNonSpaces(s: string)
    ensures NonSpaces(Trim(s)) == NonSpaces(s)
  {
    var rest := s[LeadingSpaces(s)..];
    var n := |rest| - TrailingSpaces(rest);
    NonSpacesSkipRun(s, LeadingSpaces(s));
    assert rest == rest[..n] + rest[n..];
    FilterAppend(rest[..n], rest[n..], NotJsSpace);
    FilterNone(rest[n..], NotJsSpace);
  }

  /** In a string of word parts and spaces, the characters that are not white
      space are the word parts. */
  lemma NonSpacesAreWordParts(w: string)
    requires forall i :: 0 <= i < |w| ==> w[i] == ' ' || IsWordPart(w[i])
    ensures NonSpaces(w) == WordParts(w)
  {
    WordPartsOfNonSpaces(w);
    var n := NonSpaces(w);
    forall i | 0 <= i < |n| ensures IsWordPart(n[i]) {
      assert n[i] in n;
    }
    FilterAll(n, IsWordPart);
  }

  /** Trimming a string of word parts and single spaces gives a cleaned word
      made of the string's characters. */
  lemma TrimmedClean(c: string)
    requires forall i :: 0 <= i < |c| && c[i] != ' ' ==> IsWordPart(c[i]) && !IsWideSpace(c[i])
    requires forall i :: 0 <= i < |c| - 1 ==> !(c[i] == ' ' && c[i + 1] == ' ')
    ensures IsClean(Trim(c))
    ensures forall i :: 0 <= i < |Trim(c)| ==> Trim(c)[i] in c
  {
    var w := Trim(c);
    var a := LeadingSpaces(c);
    assert forall i :: 0 <= i < |w| ==> w[i] == c[a + i];
  }

  /** A string without the deleted spaces is left alone by the first step. */
  lemma DropWideSpacesKeeps(s: string)
    requires forall i :: 0 <= i < |s| ==> !IsWideSpace(s[i])
    ensures DropWideSpaces(s) == s
  {
    FilterAll(s, NotWideSpace);
  }

  /** A string of kept characters is left alone by the second step. */
  lemma KeepWordCharsKeeps(s: string)
    requires forall i :: 0 <= i < |s| ==> IsKept(s[i])
    ensures KeepWordChars(s) == s
  {
    FilterAll(s, IsKept);
  }

  /** A string whose only white space is single spaces is left alone by the
      third step. */
  lemma {:induction false} CollapseSpacesKeeps(s: string)
    requires forall i :: 0 <= i < |s| ==> s[i] == ' ' || !IsJsSpace(s[i])
    requires forall i :: 0 <= i < |s| - 1 ==> !(s[i] == ' ' && s[i + 1] == ' ')
    ensures CollapseSpaces(s) == s
    decreases |s|
  {
    if s != [] {
      var rest := s[1..];
      CollapseSpacesKeeps(rest);
      if IsJsSpace(s[0]) {
        assert rest != [] ==> rest[0] == s[1];
        assert LeadingSpaces(rest) == 0;
        assert rest[0..] == rest;
      }
      assert s == [s[0]] + rest;
    }
  }

  /** A cleaned word: no deleted space, only word parts and single spaces, and
      no white space at either end. */
  predicate IsClean(w: string) {
    && (forall i :: 0 <= i < |w| ==> !IsWideSpace(w[i]))
    && (forall i :: 0 <= i < |w| ==> w[i] == ' ' || IsWordPart(w[i]))
    && (forall i :: 0 <= i < |w| - 1 ==> !(w[i] == ' ' && w[i + 1] == ' '))
    && (w != [] ==> !IsJsSpace(w[0]) && !IsJsSpace(w[|w| - 1]))
  }

  /** Every step of the chain leaves a cleaned word alone. */
  lemma CleanIsFixed(w: string)
    requires IsClean(w)
    ensures CleanWord(w) == w
  {
    CollapseSpacesKeeps(w);
    FirstStepsKeep(w);
    if w != [] {
      TrimNoSpaces(w);
    }
  }

  /** The first two steps leave a cleaned word alone. */
  lemma FirstStepsKeep(w: string)
    requires IsClean(w)
    ensures KeepWordChars(DropWideSpaces(w)) == w
  {
    DropWideSpacesKeeps(w);
    assert forall i :: 0 <= i < |w| ==> IsKept(w[i]);
    KeepWordCharsKeeps(w);
  }

  /** Cleaning a cleaned word changes nothing. */
  lemma CleanWordIdempotent(selectedText: string)
    ensures CleanWord(CleanWord(selectedText)) == CleanWord(selectedText)
  {
    CleanWordSpec(selectedText);
    CleanIsFixed(CleanWord(selectedText));
  }

  /** What `handleMouseUp` passes to `onWordSelection`, if anything, for the
      text of the selection's first range (`None` when nothing is selected).
      Nothing is reported during a composition, and only a non-empty cleaned
      word is ever reported. */
  function MouseUpSelection(isComposing: bool, rangeText: Option<string>): (o: Option<string>)
    ensures o.Some? ==> !isComposing && rangeText.Some? && o.value != [] && o.value == CleanWord(Trim(rangeText.value))
    ensures !isComposing && rangeText.Some? && CleanWord(Trim(rangeText.value)) != [] ==> o.Some?
  {
    if isComposing then None
    else
      match rangeText
      case None => None
      case Some(text) =>
        var selectedText := Trim(text);
        if selectedText == [] then None
        else
          var cleanWord := CleanWord(selectedText);
          if cleanWord != [] then Some(cleanWord) else None
  }

  /** What `handleKeyDown` passes to `onWordSelection`: on Ctrl+Shift+K with a
      selection that is not blank, the trimmed selection, uncleaned. */
  function KeyDownSelection(ctrlKey: bool, shiftKey: bool, key: string, selection: Option<string>): (o: Option<string>)
    ensures o.Some? <==> ctrlKey && shiftKey && key == "K" && selection.Some? && !IsBlank(selection.value)
    ensures o.Some? ==> o.value == Trim(selection.value)
  {
    if ctrlKey && shiftKey && key == "K" && selection.Some? && Trim(selection.value) != [] then
      Some(Trim(selection.value))
    else None
  }

  /** The shortcut passes a hyphen on as it is. */
  lemma ShortcutKeepsHyphen()
    ensures KeyDownSelection(true, true, "K", Some("a-b")) == Some("a-b")
  {
    TrimNoSpaces("a-b");
  }

  /** The mouse path drops the same hyphen. */
  lemma MouseUpDropsHyphen()
    ensures MouseUpSelection(false, Some("a-b")) == Some("ab")
  {
    TrimNoSpaces("a-b");
    CleanHyphenated();
  }

  /** The cleaning chain turns `a-b` into `ab`. */
  lemma CleanHyphenated()
    ensures CleanWord("a-b") == "ab"
  {
    DropHyphenated();
    KeepHyphenated();
    CollapseLetters();
    TrimNoSpaces("ab");
  }

  /** The first step keeps `a-b`. */
  lemma DropHyphenated()
    ensures DropWideSpaces("a-b") == "a-b"
  {
    var s := "a-b";
    assert !IsWideSpace(s[0]) && !IsWideSpace(s[1]) && !IsWideSpace(s[2]);
    DropWideSpacesKeeps(s);
  }

  /** The third step keeps `ab`. */
  lemma CollapseLetters()
    ensures CollapseSpaces("ab") == "ab"
  {
    var s := "ab";
    assert !IsJsSpace(s[0]) && !IsJsSpace(s[1]);
    CollapseSpacesKeeps(s);
  }

  /** The second step deletes the hyphen. */
  lemma KeepHyphenated()
    ensures KeepWordChars("a-b") == "ab"
  {
    var s := "a-b";
    assert s[..2] == "a-" && "a-"[..1] == "a" && "a"[..0] == [];
    assert IsKept('a') && !IsKept('-') && IsKept('b');
  }

  /** A string that neither starts nor ends with white space is its own trim. */
  lemma TrimNoSpaces(s: string)
    requires s != [] && !IsJsSpace(s[0]) && !IsJsSpace(s[|s| - 1])
    ensures Trim(s) == s
  {
    assert LeadingSpaces(s) == 0;
    assert TrailingSpaces(s) == 0;
  }

  /** The editor's `isComposing` state. */
  class Editor {
    var isComposing: bool

    constructor ()
      ensures !isComposing
    {
      isComposing := false;
    }

    /** `handleCompositionStart` */
    method CompositionStart()
      modifies this
      ensures isComposing
    {
      isComposing := true;
    }

    /** `handleCompositionEnd` */
    method CompositionEnd()
      modifies this
      ensures !isComposing
    {
      isComposing := false;
    }

    /** `handleMouseUp`: the word reported for the selection, given the current
        composition state. */
    method MouseUp(rangeText: Option<string>) returns (reported: Option<string>)
      ensures reported == MouseUpSelection(isComposing, rangeText)
      ensures reported.Some? ==> reported.value != [] && !isComposing
    {
      if isComposing {
        return None;
      }
      if rangeText.None? {
        return None;
      }
      var selectedText := Trim(rangeText.value);
      reported := None;
      if selectedText != [] {
        var cleanWord := CleanWord(selectedText);
        if cleanWord != [] {
          reported := Some(cleanWord);
        }
      }
    }
  }
}
