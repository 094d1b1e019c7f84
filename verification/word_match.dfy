/**
 * The one matching primitive every word-bounded scanner shares: Python's
 * `re.search(r'\b' + re.escape(keyword) + r'\b', text)`, with the keyword
 * taken literally and both sides compared case-insensitively.
 *
 * `\b` holds at position `p` (0 <= p <= |text|) exactly when the characters on
 * either side differ in being word characters, a position outside the text
 * counting as a non-word character. The quirks of that definition are kept:
 * a keyword that ends in a non-word character ("C++") only matches when a
 * word character follows it, and the empty keyword matches every text that
 * contains a word character.
 */
module WordMatch {
  import opened Chars

  /** The character at `p` exists and is a word character. */
  predicate WordAt(t: string, p: int) {
    0 <= p < |t| && IsWordChar(t[p])
  }

  /** Regex `\b` at position `p`. */
  predicate IsBoundary(t: string, p: int) {
    WordAt(t, p - 1) != WordAt(t, p)
  }

  /** `kw` occurs at `p` with a word boundary on both sides. */
  predicate BoundedAt(kw: string, t: string, p: int) {
    OccursAt(kw, t, p) && IsBoundary(t, p) && IsBoundary(t, p + |kw|)
  }

  /** Reference meaning of `re.search(r'\b' + re.escape(kw) + r'\b', t) is not None`. */
  predicate Occurs(kw: string, t: string) {
    exists p :: 0 <= p <= |t| - |kw| && BoundedAt(kw, t, p)
  }

  /** Left-to-right scan for a bounded occurrence at or after `from`. */
  function ScanFrom(kw: string, t: string, from: nat): (b: bool)
    ensures b <==> exists p :: from <= p && BoundedAt(kw, t, p)
    decreases |t| - from
  {
    if from + |kw| > |t| then false
    else if BoundedAt(kw, t, from) then true
    else ScanFrom(kw, t, from + 1)
  }

  /** The regex search, computed by a scan; agrees with the reference meaning. */
  function Search(kw: string, t: string): (b: bool)
    ensures b <==> Occurs(kw, t)
  {
    ScanFrom(kw, t, 0)
  }

  /**
   * The case-insensitive form used by every caller: `re.IGNORECASE`, or
   * lower-casing keyword and text before the search (the same over ASCII).
   */
  predicate MatchesIgnoreCase(kw: string, text: string) {
    Search(Lower(kw), Lower(text))
  }

  /** Case never matters on either side. */
  lemma IgnoreCaseOfLowered(kw: string, text: string)
    ensures MatchesIgnoreCase(Lower(kw), text) == MatchesIgnoreCase(kw, text)
    ensures MatchesIgnoreCase(kw, Lower(text)) == MatchesIgnoreCase(kw, text)
  {
    LowerIdempotent(kw);
    LowerIdempotent(text);
  }

  /**
   * A keyword that starts and ends with a word character never matches
   * inside a longer word: the characters around every match are non-word.
   */
  lemma NotInsideLongerWord(kw: string, t: string, p: int)
    requires |kw| > 0 && IsWordChar(kw[0]) && IsWordChar(kw[|kw| - 1])
    requires BoundedAt(kw, t, p)
    ensures p == 0 || !IsWordChar(t[p - 1])
    ensures p + |kw| == |t| || !IsWordChar(t[p + |kw|])
  {
    assert t[p] == kw[0];
    assert t[p + |kw| - 1] == kw[|kw| - 1];
  }

  /** The empty keyword matches exactly the texts that contain a word character. */
  lemma EmptyKeyword(t: string)
    ensures Occurs("", t) <==> exists i :: 0 <= i < |t| && IsWordChar(t[i])
  {
    if i :| 0 <= i < |t| && IsWordChar(t[i]) {
      FirstWordCharIsBoundary(t, i);
    }
    if Occurs("", t) {
      var p :| 0 <= p <= |t| && BoundedAt("", t, p);
      if WordAt(t, p) {
        assert IsWordChar(t[p]);
      } else {
        assert IsWordChar(t[p - 1]);
      }
    }
  }

  /** Walking left from a word character reaches the start of its word, which is a boundary. */
  lemma {:induction false} FirstWordCharIsBoundary(t: string, i: nat)
    requires i < |t| && IsWordChar(t[i])
    ensures Occurs("", t)
    decreases i
  {
    if i == 0 || !IsWordChar(t[i - 1]) {
      assert BoundedAt("", t, i);
    } else {
      FirstWordCharIsBoundary(t, i - 1);
    }
  }

  /** The empty keyword never matches a text without word characters, such as "". */
  lemma EmptyKeywordEmptyText()
    ensures !MatchesIgnoreCase("", "")
  {
    EmptyKeyword("");
  }

  /** "Java" is not found in "JavaScript". */
  lemma JavaNotInJavaScript()
    ensures !Search("java", "javascript")
  {
    assert !BoundedAt("java", "javascript", 0) by {
      assert WordAt("javascript", 4);
    }
    forall p | 1 <= p <= 6
      ensures !OccursAt("java", "javascript", p)
    {
      assert "javascript"[p] != 'j';
    }
  }

  /** "C++" is not found in "c++" on its own: no word character follows the final '+'. */
  lemma TrailingSymbolNeedsWordAfter()
    ensures !Search("c++", "c++")
    ensures Search("c++", "c++11")
  {
    assert BoundedAt("c++", "c++11", 0) by {
      assert WordAt("c++11", 3);
      assert !WordAt("c++11", 2);
    }
    assert !BoundedAt("c++", "c++", 0) by {
      assert !WordAt("c++", 2);
    }
  }

  // ---------------------------------------------------------------------
  // Stand-alone occurrences

  /** `kw` occurs at `p` and is not glued to a word character on either side. */
  predicate StandaloneAt(kw: string, t: string, p: int) {
    OccursAt(kw, t, p) && !WordAt(t, p - 1) && !WordAt(t, p + |kw|)
  }

  /** Left-to-right scan for a stand-alone occurrence at or after `from`. */
  function StandaloneFrom(kw: string, t: string, from: nat): (b: bool)
    ensures b <==> exists p :: from <= p && StandaloneAt(kw, t, p)
    decreases |t| - from
  {
    if from + |kw| > |t| then false
    else if StandaloneAt(kw, t, from) then true
    else StandaloneFrom(kw, t, from + 1)
  }

  /** For a keyword that starts and ends with a word character, `\b` on both sides means exactly "stand-alone". */
  lemma BoundedIsStandalone(kw: string, t: string, p: int)
    requires |kw| > 0 && IsWordChar(kw[0]) && IsWordChar(kw[|kw| - 1])
    ensures BoundedAt(kw, t, p) <==> StandaloneAt(kw, t, p)
  {
    if OccursAt(kw, t, p) {
      assert t[p] == kw[0];
      assert t[p + |kw| - 1] == kw[|kw| - 1];
    }
  }

  /** Nothing but the empty keyword occurs in the empty text, and that is no match either. */
  lemma NothingInEmptyText(kw: string)
    ensures !Search(kw, "")
  {
  }
}
