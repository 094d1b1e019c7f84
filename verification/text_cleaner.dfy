/**
 * The text janitor (`clean_text`): bullets become dashes, non-ASCII characters
 * are dropped, runs of spaces and tabs shrink to one space, any stretch of
 * whitespace between two line feeds that contains a line feed shrinks to an
 * empty line, and the result is stripped.
 */
module TextCleaner {
  import opened Wrappers
  import opened Chars

  // ---------------------------------------------------------------------
  // Step 1: bullets

  /** The five bullet glyphs the cleaner rewrites: U+2022, U+25CF, U+25AA, U+25A0, U+27A4. */
  predicate IsBullet(c: char) {
    c == '\U{2022}' || c == '\U{25CF}' || c == '\U{25AA}' || c == '\U{25A0}' || c == '\U{27A4}'
  }

  function NormaliseBullets(s: string): (r: string)
    ensures |r| == |s|
    ensures forall i :: 0 <= i < |s| ==> r[i] == if IsBullet(s[i]) then '-' else s[i]
  {
    seq(|s|, i requires 0 <= i < |s| => if IsBullet(s[i]) then '-' else s[i])
  }

  // ---------------------------------------------------------------------
  // Step 2: drop everything outside ASCII

  predicate AllAscii(s: string) {
    forall i :: 0 <= i < |s| ==> IsAscii(s[i])
  }

  /** `encode("ascii", "ignore").decode()`: the ASCII characters of `s`, in order. */
  function AsciiOnly(s: string): (r: string)
    ensures AllAscii(r)
    ensures |r| <= |s|
  {
    if |s| == 0 then []
    else (if IsAscii(s[0]) then [s[0]] else []) + AsciiOnly(s[1..])
  }

  // ---------------------------------------------------------------------
  // Step 3: horizontal blanks

  /** The characters of the class `[ \t]`. */
  predicate IsBlank(c: char) {
    c == ' ' || c == '\t'
  }

  predicate NoTab(s: string) {
    forall i :: 0 <= i < |s| ==> s[i] != '\t'
  }

  predicate NoDoubleSpace(s: string) {
    forall i :: 0 <= i < |s| - 1 ==> !(s[i] == ' ' && s[i + 1] == ' ')
  }

  /** The end of the run of spaces and tabs starting at `i`. */
  function SkipBlanks(s: string, i: nat): (k: nat)
    requires i <= |s|
    ensures i <= k <= |s|
    ensures k < |s| ==> !IsBlank(s[k])
    ensures forall m :: i <= m < k ==> IsBlank(s[m])
    decreases |s| - i
  {
    if i == |s| || !IsBlank(s[i]) then i else SkipBlanks(s, i + 1)
  }

  /** `re.sub(r'[ \t]+', ' ', s)`: every maximal run of spaces and tabs becomes one space. */
  function CollapseBlanks(s: string): (r: string)
    decreases |s|
  {
    if |s| == 0 then []
    else if IsBlank(s[0]) then [' '] + CollapseBlanks(s[SkipBlanks(s, 0)..])
    else [s[0]] + CollapseBlanks(s[1..])
  }

  // ---------------------------------------------------------------------
  // Step 4: blank lines

  /** The last line feed in `s[lo..hi]`, if any. */
  function LastNewline(s: string, lo: nat, hi: nat): (r: Option<nat>)
    requires lo <= hi <= |s|
    ensures r.Some? ==> lo <= r.value < hi && s[r.value] == '\n'
    ensures r.Some? ==> forall m :: r.value < m < hi ==> s[m] != '\n'
    ensures r.None? ==> forall m :: lo <= m < hi ==> s[m] != '\n'
    decreases hi
  {
    if hi == lo then None
    else if s[hi - 1] == '\n' then Some(hi - 1)
    else LastNewline(s, lo, hi - 1)
  }

  /**
   * `re.sub(r'\n\s*\n', '\n\n', s)`, scanning left to right. At a line feed the
   * greedy `\s*` runs to the end of the whitespace that follows and then backs
   * off to the last line feed inside it; when there is one, everything from
   * the first line feed through that last one becomes a single empty line.
   */
  function SquashBlankLines(s: string): (r: string)
    decreases |s|
  {
    if |s| == 0 then []
    else if s[0] == '\n' && LastNewline(s, 1, SkipSpace(s, 1)).Some? then
      "\n\n" + SquashBlankLines(s[LastNewline(s, 1, SkipSpace(s, 1)).value + 1..])
    else [s[0]] + SquashBlankLines(s[1..])
  }

  // ---------------------------------------------------------------------
  // The whole cleaner

  /** `clean_text`: empty text stays empty; otherwise the four steps, then strip. */
  function Clean(text: string): (r: string)
  {
    if text == [] then []
    else Strip(SquashBlankLines(CollapseBlanks(AsciiOnly(NormaliseBullets(text)))))
  }

  // ---------------------------------------------------------------------
  // What the output looks like

  /** Two line feeds with only whitespace between them are adjacent: at most one empty line in a row. */
  predicate NewlinesSquashed(s: string) {
    forall p, q :: 0 <= p < q < |s| && s[p] == '\n' && s[q] == '\n' && AllSpace(s[p + 1..q]) ==> q == p + 1
  }

  /** No line feed is preceded by whitespace alone. */
  predicate NoLeadingNewline(s: string) {
    forall q :: 0 <= q < |s| && s[q] == '\n' ==> !AllSpace(s[..q])
  }

  /** The shape of `clean_text`'s output. */
  predicate CleanForm(s: string) {
    AllAscii(s) && NoTab(s) && NoDoubleSpace(s) && NewlinesSquashed(s) && IsStripped(s)
  }

  /** The non-whitespace characters of `s`, in order. */
  function Visible(s: string): (r: string)
    ensures forall i :: 0 <= i < |r| ==> !IsSpace(r[i])
  {
    if |s| == 0 then []
    else (if IsSpace(s[0]) then [] else [s[0]]) + Visible(s[1..])
  }

  lemma {:induction false} VisibleConcat(a: string, b: string)
    ensures Visible(a + b) == Visible(a) + Visible(b)
    decreases |a|
  {
    if |a| == 0 {
      assert a + b == b;
    } else {
      assert (a + b)[1..] == a[1..] + b;
      VisibleConcat(a[1..], b);
    }
  }

  lemma {:induction false} VisibleOfSpace(s: string)
    requires AllSpace(s)
    ensures Visible(s) == []
    decreases |s|
  {
    if |s| > 0 {
      VisibleOfSpace(s[1..]);
    }
  }

  // ---------------------------------------------------------------------
  // Step 3 properties

  /** Collapsing blanks never produces a tab or two spaces in a row, keeps ASCII text ASCII, and starts where its input starts. */
  lemma {:induction false} CollapseShape(s: string)
    ensures NoTab(CollapseBlanks(s)) && NoDoubleSpace(CollapseBlanks(s))
    ensures AllAscii(s) ==> AllAscii(CollapseBlanks(s))
    ensures |s| > 0 ==>
      (|CollapseBlanks(s)| > 0 && CollapseBlanks(s)[0] == (if IsBlank(s[0]) then ' ' else s[0]))
    decreases |s|
  {
    if |s| > 0 {
      var k := if IsBlank(s[0]) then SkipBlanks(s, 0) else 1;
      var rest := s[k..];
      CollapseShape(rest);
      var r := CollapseBlanks(s);
      assert r == [r[0]] + CollapseBlanks(rest);
      assert |rest| > 0 ==> !IsBlank(rest[0]) || !IsBlank(s[0]);
      assert AllAscii(s) ==> AllAscii(rest);
    }
  }

  /** Collapsing blanks changes whitespace only. */
  lemma {:induction false} CollapseKeepsVisible(s: string)
    ensures Visible(CollapseBlanks(s)) == Visible(s)
    decreases |s|
  {
    if |s| > 0 {
      var k := if IsBlank(s[0]) then SkipBlanks(s, 0) else 1;
      CollapseKeepsVisible(s[k..]);
      assert s == s[..k] + s[k..];
      VisibleConcat(s[..k], s[k..]);
      VisibleConcat([CollapseBlanks(s)[0]], CollapseBlanks(s[k..]));
      if IsBlank(s[0]) {
        VisibleOfSpace(s[..k]);
      }
    }
  }

  /** Text without tabs and without doubled spaces has nothing to collapse. */
  lemma {:induction false} CollapseFixes(s: string)
    requires NoTab(s) && NoDoubleSpace(s)
    ensures CollapseBlanks(s) == s
    decreases |s|
  {
    if |s| > 0 {
      if IsBlank(s[0]) {
        assert SkipBlanks(s, 0) == 1;
      }
      CollapseFixes(s[1..]);
      assert s == [s[0]] + s[1..];
    }
  }

  // ---------------------------------------------------------------------
  // Step 4 properties

  /** Squashing starts where its input starts. */
  lemma SquashHead(s: string)
    requires |s| > 0
    ensures |SquashBlankLines(s)| > 0 && SquashBlankLines(s)[0] == s[0]
  {
  }

  /** Every character squashing emits is a line feed or a character of its input. */
  lemma {:induction false} SquashChars(s: string)
    ensures forall i :: 0 <= i < |SquashBlankLines(s)| ==>
      SquashBlankLines(s)[i] == '\n' || SquashBlankLines(s)[i] in s
    decreases |s|
  {
    if |s| > 0 {
      var r := SquashBlankLines(s);
      if s[0] == '\n' && LastNewline(s, 1, SkipSpace(s, 1)).Some? {
        var q := LastNewline(s, 1, SkipSpace(s, 1)).value;
        SquashChars(s[q + 1..]);
        assert r == "\n\n" + SquashBlankLines(s[q + 1..]);
        assert forall c :: c in s[q + 1..] ==> c in s;
      } else {
        SquashChars(s[1..]);
        assert r == [s[0]] + SquashBlankLines(s[1..]);
        assert forall c :: c in s[1..] ==> c in s;
      }
    }
  }

  /** Squashing keeps tabs out and ASCII text ASCII. */
  lemma SquashKeepsChars(s: string)
    ensures NoTab(s) ==> NoTab(SquashBlankLines(s))
    ensures AllAscii(s) ==> AllAscii(SquashBlankLines(s))
  {
    SquashChars(s);
  }

  /** Squashing never puts two spaces side by side. */
  lemma {:induction false} SquashNoDoubleSpace(s: string)
    requires NoDoubleSpace(s)
    ensures NoDoubleSpace(SquashBlankLines(s))
    decreases |s|
  {
    if |s| > 0 {
      var r := SquashBlankLines(s);
      if s[0] == '\n' && LastNewline(s, 1, SkipSpace(s, 1)).Some? {
        var q := LastNewline(s, 1, SkipSpace(s, 1)).value;
        var rest := s[q + 1..];
        SquashNoDoubleSpace(rest);
        assert r == "\n\n" + SquashBlankLines(rest);
      } else {
        var rest := s[1..];
        SquashNoDoubleSpace(rest);
        assert r == [s[0]] + SquashBlankLines(rest);
        if |rest| > 0 {
          SquashHead(rest);
        }
      }
    }
  }

  /** Squashing changes whitespace only. */
  lemma {:induction false} SquashKeepsVisible(s: string)
    ensures Visible(SquashBlankLines(s)) == Visible(s)
    decreases |s|
  {
    if |s| > 0 {
      if s[0] == '\n' && LastNewline(s, 1, SkipSpace(s, 1)).Some? {
        var q := LastNewline(s, 1, SkipSpace(s, 1)).value;
        SquashKeepsVisible(s[q + 1..]);
        assert s == s[..q + 1] + s[q + 1..];
        VisibleConcat(s[..q + 1], s[q + 1..]);
        VisibleOfSpace(s[..q + 1]);
        VisibleConcat("\n\n", SquashBlankLines(s[q + 1..]));
        VisibleOfSpace("\n\n");
      } else {
        SquashKeepsVisible(s[1..]);
        assert s == [s[0]] + s[1..];
        VisibleConcat([s[0]], s[1..]);
        VisibleConcat([s[0]], SquashBlankLines(s[1..]));
      }
    }
  }

  /** After a line feed, the text left to squash starts with no line feed inside its leading whitespace. */
  lemma RestHasNoLeadingNewline(s: string, from: nat)
    requires 1 <= from <= |s| && s[0] == '\n'
    requires forall m :: 1 <= m < from ==> IsSpace(s[m])
    requires forall m :: from <= m < SkipSpace(s, 1) ==> s[m] != '\n'
    ensures NoLeadingNewline(s[from..])
  {
    var t := s[from..];
    var k := SkipSpace(s, 1);
    forall q | 0 <= q < |t| && t[q] == '\n'
      ensures !AllSpace(t[..q])
    {
      assert s[from + q] == '\n';
      assert from <= k < from + q && !IsSpace(s[k]);
      assert t[..q][k - from] == s[k];
    }
  }

  /** A text with no line feed behind leading whitespace squashes to one with the same property. */
  lemma {:induction false} SquashNoLeadingNewline(t: string)
    requires NoLeadingNewline(t)
    ensures NoLeadingNewline(SquashBlankLines(t))
    decreases |t|
  {
    if |t| > 0 {
      assert t[..0] == [];
      assert t[0] != '\n';
      var tail := t[1..];
      var r := SquashBlankLines(t);
      assert r == [t[0]] + SquashBlankLines(tail);
      if IsSpace(t[0]) {
        forall q | 0 <= q < |tail| && tail[q] == '\n'
          ensures !AllSpace(tail[..q])
        {
          assert t[..q + 1] == [t[0]] + tail[..q];
          assert t[q + 1] == '\n';
        }
        SquashNoLeadingNewline(tail);
        forall q | 0 <= q < |r| && r[q] == '\n'
          ensures !AllSpace(r[..q])
        {
          assert q > 0;
          var tr := SquashBlankLines(tail);
          assert tr[q - 1] == '\n';
          if AllSpace(r[..q]) {
            assert forall i :: 0 <= i < q - 1 ==> tr[i] == r[..q][i + 1];
            assert false;
          }
        }
      } else {
        forall q | 0 <= q < |r| && r[q] == '\n'
          ensures !AllSpace(r[..q])
        {
          assert q > 0;
          assert r[..q][0] == t[0] && !IsSpace(t[0]);
        }
      }
    }
  }

  /** One character in front of squashed text keeps it squashed, if a line feed is not followed by another behind whitespace. */
  lemma ConsSquashed(c: char, t: string)
    requires NewlinesSquashed(t) && (c == '\n' ==> NoLeadingNewline(t))
    ensures NewlinesSquashed([c] + t)
  {
    var r := [c] + t;
    forall p, q | 0 <= p < q < |r| && r[p] == '\n' && r[q] == '\n' && AllSpace(r[p + 1..q])
      ensures q == p + 1
    {
      if p >= 1 {
        PrefixShift([c], t, p, q);
      } else {
        NewlineAfterPrefixNotBlank([c], t, p, q);
        assert false;
      }
    }
  }

  /** Past a prefix, positions of `pre + t` are positions of `t`. */
  lemma PrefixShift(pre: string, t: string, p: nat, q: nat)
    requires |pre| <= p < q < |pre| + |t|
    ensures (pre + t)[p] == t[p - |pre|] && (pre + t)[q] == t[q - |pre|]
    ensures (pre + t)[p + 1..q] == t[p + 1 - |pre|..q - |pre|]
  {
  }

  /**
   * When `t` has no leading line feed, the text running from inside a prefix
   * up to a line feed of `t` is not all whitespace.
   */
  lemma NewlineAfterPrefixNotBlank(pre: string, t: string, p: nat, q: nat)
    requires NoLeadingNewline(t) && p < |pre| <= q < |pre| + |t| && t[q - |pre|] == '\n'
    ensures !AllSpace((pre + t)[p + 1..q])
  {
    var k := q - |pre|;
    assert !AllSpace(t[..k]);
    var i :| 0 <= i < k && !IsSpace(t[..k][i]);
    assert (pre + t)[p + 1..q][|pre| - p - 1 + i] == t[i];
  }

  /** An empty line in front of text with no leading line feed keeps squashed text squashed. */
  lemma BlankLineSquashed(t: string)
    requires NewlinesSquashed(t) && NoLeadingNewline(t)
    ensures NewlinesSquashed("\n\n" + t)
  {
    var r := "\n\n" + t;
    forall p, q | 0 <= p < q < |r| && r[p] == '\n' && r[q] == '\n' && AllSpace(r[p + 1..q])
      ensures q == p + 1
    {
      if p >= 2 {
        PrefixShift("\n\n", t, p, q);
      } else if q >= 2 {
        NewlineAfterPrefixNotBlank("\n\n", t, p, q);
        assert false;
      }
    }
  }

  /** Squashing leaves no two line feeds separated by whitespace alone, unless they are adjacent. */
  lemma {:induction false} SquashSquashes(s: string)
    ensures NewlinesSquashed(SquashBlankLines(s))
    decreases |s|
  {
    if |s| > 0 {
      var e := SkipSpace(s, 1);
      var ln := LastNewline(s, 1, e);
      if s[0] == '\n' && ln.Some? {
        var rest := s[ln.value + 1..];
        RestHasNoLeadingNewline(s, ln.value + 1);
        SquashNoLeadingNewline(rest);
        SquashSquashes(rest);
        BlankLineSquashed(SquashBlankLines(rest));
      } else {
        var rest := s[1..];
        SquashSquashes(rest);
        if s[0] == '\n' {
          RestHasNoLeadingNewline(s, 1);
          SquashNoLeadingNewline(rest);
        }
        ConsSquashed(s[0], SquashBlankLines(rest));
      }
    }
  }

  /** Any stretch of squashed text is squashed. */
  lemma SquashedSlice(s: string, i: nat, j: nat)
    requires i <= j <= |s| && NewlinesSquashed(s)
    ensures NewlinesSquashed(s[i..j])
  {
    var t := s[i..j];
    forall p, q | 0 <= p < q < |t| && t[p] == '\n' && t[q] == '\n' && AllSpace(t[p + 1..q])
      ensures q == p + 1
    {
      var u := t[p + 1..q];
      var v := s[i + p + 1..i + q];
      forall k | 0 <= k < |v|
        ensures IsSpace(v[k])
      {
        assert v[k] == s[i + p + 1 + k] == t[p + 1 + k] == u[k];
      }
    }
  }

  /** Squashed text has nothing left to squash. */
  lemma {:induction false} SquashFixes(s: string)
    requires NewlinesSquashed(s)
    ensures SquashBlankLines(s) == s
    decreases |s|
  {
    if |s| > 0 {
      var k := SquashResume(s);
      SquashUnfold(s);
      SquashedHead(s);
      SquashFixes(s[k..]);
      assert s == s[..k] + s[k..];
    }
  }

  /** In squashed text the first step emits exactly what it consumes, and the rest is squashed too. */
  lemma SquashedHead(s: string)
    requires NewlinesSquashed(s) && |s| > 0
    ensures SquashEmit(s) == s[..SquashResume(s)]
    ensures NewlinesSquashed(s[SquashResume(s)..])
  {
    var k := SquashResume(s);
    if s[0] == '\n' && LastNewline(s, 1, SkipSpace(s, 1)).Some? {
      SquashedPairAdjacent(s);
      assert s[..k] == "\n\n";
    } else {
      assert s[..k] == [s[0]];
    }
    SquashedSlice(s, k, |s|);
    assert s[k..|s|] == s[k..];
  }

  lemma SquashedPairAdjacent(s: string)
    requires NewlinesSquashed(s) && |s| > 0
    requires s[0] == '\n' && LastNewline(s, 1, SkipSpace(s, 1)).Some?
    ensures LastNewline(s, 1, SkipSpace(s, 1)).value == 1 && s[1] == '\n'
  {
    var q0 := LastNewline(s, 1, SkipSpace(s, 1)).value;
    assert AllSpace(s[1..q0]);
  }

  /** In squashed text there are never three line feeds in a row. */
  lemma SquashedHasNoTripleNewline(s: string, i: nat)
    requires NewlinesSquashed(s) && i + 3 <= |s|
    ensures s[i..i + 3] != "\n\n\n"
  {
    assert s[i..i + 3][0] == s[i] && s[i..i + 3][2] == s[i + 2];
    assert s[i + 1..i + 2] == [s[i + 1]];
  }

  // ---------------------------------------------------------------------
  // The whole cleaner

  lemma {:induction false} AsciiOnlyFixes(s: string)
    requires AllAscii(s)
    ensures AsciiOnly(s) == s
    decreases |s|
  {
    if |s| > 0 {
      AsciiOnlyFixes(s[1..]);
      assert s == [s[0]] + s[1..];
    }
  }

  /** Stripping keeps every shape property of squashed text. */
  lemma StripShape(s: string)
    ensures AllAscii(s) ==> AllAscii(Strip(s))
    ensures NoTab(s) ==> NoTab(Strip(s))
    ensures NoDoubleSpace(s) ==> NoDoubleSpace(Strip(s))
    ensures NewlinesSquashed(s) ==> NewlinesSquashed(Strip(s))
  {
    var i, j := StripBounds(s);
    if NewlinesSquashed(s) {
      SquashedSlice(s, i, j);
    }
  }

  /** Stripping removes whitespace only. */
  lemma StripKeepsVisible(s: string)
    ensures Visible(Strip(s)) == Visible(s)
  {
    var i, j := StripBounds(s);
    VisibleSplit(s, i, j);
    SpaceSlice(s, 0, i);
    SpaceSlice(s, j, |s|);
    VisibleOfSpace(s[0..i]);
    VisibleOfSpace(s[j..|s|]);
  }

  /** Cutting a text in three cuts its visible characters in three. */
  lemma VisibleSplit(s: string, i: nat, j: nat)
    requires i <= j <= |s|
    ensures Visible(s) == Visible(s[0..i]) + Visible(s[i..j]) + Visible(s[j..|s|])
  {
    SliceConcat(s, 0, i, |s|);
    SliceConcat(s, i, j, |s|);
    assert s[0..|s|] == s;
    VisibleConcat(s[0..i], s[i..|s|]);
    VisibleConcat(s[i..j], s[j..|s|]);
  }

  lemma SpaceSlice(s: string, lo: nat, hi: nat)
    requires lo <= hi <= |s|
    requires forall m :: lo <= m < hi ==> IsSpace(s[m])
    ensures AllSpace(s[lo..hi])
  {
  }

  /**
   * `clean_text`'s output is ASCII, has no tabs, no doubled spaces, no two line
   * feeds with only whitespace between them unless adjacent, and no surrounding whitespace.
   */
  lemma CleanShape(text: string)
    ensures CleanForm(Clean(text))
  {
    if text != [] {
      var a := AsciiOnly(NormaliseBullets(text));
      var c := CollapseBlanks(a);
      CollapseShape(a);
      var q := SquashBlankLines(c);
      SquashKeepsChars(c);
      SquashNoDoubleSpace(c);
      SquashSquashes(c);
      StripShape(q);
    }
  }

  /** Cleaning rewrites whitespace only: bullets become dashes, non-ASCII goes, every other visible character stays, in order. */
  lemma CleanKeepsVisible(text: string)
    ensures Visible(Clean(text)) == Visible(AsciiOnly(NormaliseBullets(text)))
  {
    if text != [] {
      var a := AsciiOnly(NormaliseBullets(text));
      CollapseKeepsVisible(a);
      SquashKeepsVisible(CollapseBlanks(a));
      StripKeepsVisible(SquashBlankLines(CollapseBlanks(a)));
    }
  }

  /** The result is empty exactly when nothing visible survives the ASCII filter. */
  lemma CleanEmpty(text: string)
    ensures Clean(text) == [] <==> Visible(AsciiOnly(NormaliseBullets(text))) == []
  {
    CleanKeepsVisible(text);
    var r := Clean(text);
    CleanShape(text);
    if r != [] {
      assert !IsSpace(r[0]);
      assert r == [r[0]] + r[1..];
      VisibleConcat([r[0]], r[1..]);
    }
  }

  /** Text already in the cleaner's output shape comes back unchanged. */
  lemma CleanFixes(text: string)
    requires CleanForm(text)
    ensures Clean(text) == text
  {
    if text != [] {
      assert NormaliseBullets(text) == text;
      AsciiOnlyFixes(text);
      CollapseFixes(text);
      SquashFixes(text);
      StripOfStripped(text);
    }
  }

  /** Cleaning twice is cleaning once. */
  lemma CleanIdempotent(text: string)
    ensures Clean(Clean(text)) == Clean(text)
  {
    CleanShape(text);
    CleanFixes(Clean(text));
  }

  /** ASCII text has no bullet glyph, so the first step leaves it alone. */
  lemma BulletsOfAscii(s: string)
    requires AllAscii(s)
    ensures NormaliseBullets(s) == s
  {
    forall i | 0 <= i < |s|
      ensures !IsBullet(s[i])
    {
      assert IsAscii(s[i]);
    }
  }

  /**
   * A bullet survives the non-ASCII filter as a dash: between ASCII text it
   * becomes "-", and nothing around it changes.
   */
  lemma BulletBecomesDash(a: string, c: char, b: string)
    requires AllAscii(a) && AllAscii(b) && IsBullet(c)
    ensures AsciiOnly(NormaliseBullets(a + [c] + b)) == a + "-" + b
  {
    BulletsConcat(a + [c], b);
    BulletsConcat(a, [c]);
    BulletsOfAscii(a);
    BulletsOfAscii(b);
    assert NormaliseBullets([c]) == "-";
    AsciiOnlyConcat(a + "-", b);
    AsciiOnlyConcat(a, "-");
    AsciiOnlyFixes(a);
    AsciiOnlyFixes(b);
    assert AsciiOnly("-") == "-";
  }

  // ---------------------------------------------------------------------
  // Each stage works piecewise around a visible character

  lemma BulletsConcat(a: string, b: string)
    ensures NormaliseBullets(a + b) == NormaliseBullets(a) + NormaliseBullets(b)
  {
  }

  lemma {:induction false} AsciiOnlyConcat(a: string, b: string)
    ensures AsciiOnly(a + b) == AsciiOnly(a) + AsciiOnly(b)
    decreases |a|
  {
    if |a| == 0 {
      assert a + b == b;
    } else {
      var h := if IsAscii(a[0]) then [a[0]] else [];
      assert (a + b)[0] == a[0];
      assert (a + b)[1..] == a[1..] + b;
      AsciiOnlyConcat(a[1..], b);
      assert AsciiOnly(a + b) == h + (AsciiOnly(a[1..]) + AsciiOnly(b));
    }
  }

  /** `'ignore'`, not `'replace'`: a character outside ASCII leaves nothing behind. */
  lemma NonAsciiDropped(c: char)
    requires !IsAscii(c)
    ensures AsciiOnly([c]) == []
  {
  }

  /** Dropping a non-ASCII character joins its two sides and changes nothing else. */
  lemma NonAsciiDroppedBetween(a: string, c: char, b: string)
    requires !IsAscii(c)
    ensures AsciiOnly(a + [c] + b) == AsciiOnly(a) + AsciiOnly(b)
  {
    AsciiOnlyConcat(a + [c], b);
    AsciiOnlyConcat(a, [c]);
    NonAsciiDropped(c);
  }

  /** The length of the filtered text: the input's length less its non-ASCII characters. */
  function NonAsciiCount(s: string): nat {
    if |s| == 0 then 0 else (if IsAscii(s[0]) then 0 else 1) + NonAsciiCount(s[1..])
  }

  lemma {:induction false} AsciiOnlyLength(s: string)
    ensures |AsciiOnly(s)| == |s| - NonAsciiCount(s)
    decreases |s|
  {
    if |s| > 0 {
      AsciiOnlyLength(s[1..]);
    }
  }

  lemma {:induction false} SkipBlanksPrefix(a: string, c: string, i: nat)
    requires i < |a| && !IsBlank(a[|a| - 1])
    ensures SkipBlanks(a + c, i) == SkipBlanks(a, i) < |a|
    decreases |a| - i
  {
    if IsBlank(a[i]) {
      SkipBlanksPrefix(a, c, i + 1);
    }
  }

  /** Blank runs never cross a non-blank character, so collapsing splits there. */
  lemma {:induction false} CollapseConcat(a: string, c: string)
    requires |a| > 0 && !IsBlank(a[|a| - 1])
    ensures CollapseBlanks(a + c) == CollapseBlanks(a) + CollapseBlanks(c)
    decreases |a|
  {
    var s := a + c;
    var k := if IsBlank(a[0]) then SkipBlanks(a, 0) else 1;
    if IsBlank(a[0]) {
      SkipBlanksPrefix(a, c, 0);
    }
    assert s[k..] == a[k..] + c;
    if k < |a| {
      CollapseConcat(a[k..], c);
    } else {
      assert a[k..] == [] && s[k..] == c;
    }
  }

  lemma {:induction false} SkipSpacePrefix(a: string, c: string, i: nat)
    requires i < |a| && !IsSpace(a[|a| - 1])
    ensures SkipSpace(a + c, i) == SkipSpace(a, i) < |a|
    decreases |a| - i
  {
    if IsSpace(a[i]) {
      SkipSpacePrefix(a, c, i + 1);
    }
  }

  lemma {:induction false} LastNewlinePrefix(a: string, c: string, lo: nat, hi: nat)
    requires lo <= hi <= |a|
    ensures LastNewline(a + c, lo, hi) == LastNewline(a, lo, hi)
    decreases hi
  {
    if hi > lo {
      LastNewlinePrefix(a, c, lo, hi - 1);
    }
  }

  /** Where squashing resumes after its first step on `s`. */
  function SquashResume(s: string): (k: nat)
    requires |s| > 0
    ensures 1 <= k <= |s|
  {
    if s[0] == '\n' && LastNewline(s, 1, SkipSpace(s, 1)).Some? then LastNewline(s, 1, SkipSpace(s, 1)).value + 1
    else 1
  }

  /** What the first step of squashing on `s` emits. */
  function SquashEmit(s: string): string
    requires |s| > 0
  {
    if s[0] == '\n' && LastNewline(s, 1, SkipSpace(s, 1)).Some? then "\n\n" else [s[0]]
  }

  lemma SquashUnfold(s: string)
    requires |s| > 0
    ensures SquashBlankLines(s) == SquashEmit(s) + SquashBlankLines(s[SquashResume(s)..])
  {
  }

  /** The first step only looks inside the leading whitespace run, which ends inside `a`. */
  lemma SquashStepPrefix(a: string, c: string)
    requires |a| > 1 && !IsSpace(a[|a| - 1])
    ensures SquashResume(a + c) == SquashResume(a) < |a|
    ensures SquashEmit(a + c) == SquashEmit(a)
  {
    SkipSpacePrefix(a, c, 1);
    LastNewlinePrefix(a, c, 1, SkipSpace(a, 1));
  }

  /** A visible first character is emitted as it is, and squashing resumes right after it. */
  lemma SquashVisibleFirst(x: char, c: string)
    requires !IsSpace(x)
    ensures SquashBlankLines([x] + c) == [x] + SquashBlankLines(c)
  {
    var s := [x] + c;
    assert s[0] == x && s[0] != '\n';
    assert s[1..] == c;
  }

  /** Whitespace runs never cross a visible character, so squashing splits there. */
  lemma {:induction false} SquashConcat(a: string, c: string)
    requires |a| > 0 && !IsSpace(a[|a| - 1])
    ensures SquashBlankLines(a + c) == SquashBlankLines(a) + SquashBlankLines(c)
    decreases |a|
  {
    var s := a + c;
    if |a| == 1 {
      SquashVisibleFirst(a[0], c);
      assert s == [a[0]] + c;
      SquashVisibleFirst(a[0], []);
      assert a == [a[0]] + [];
    } else {
      SquashStepPrefix(a, c);
      var k := SquashResume(a);
      assert s[k..] == a[k..] + c;
      SquashConcat(a[k..], c);
      SquashConcatStep(a, c, k);
    }
  }

  /** One step of `SquashConcat`: the first emission is shared, and the rest splits by induction. */
  lemma SquashConcatStep(a: string, c: string, k: nat)
    requires 0 < k < |a| && k == SquashResume(a) && k == SquashResume(a + c)
    requires SquashEmit(a + c) == SquashEmit(a)
    requires (a + c)[k..] == a[k..] + c
    requires SquashBlankLines(a[k..] + c) == SquashBlankLines(a[k..]) + SquashBlankLines(c)
    ensures SquashBlankLines(a + c) == SquashBlankLines(a) + SquashBlankLines(c)
  {
    var e := SquashEmit(a);
    SquashUnfold(a + c);
    SquashUnfold(a);
    assert SquashBlankLines(a + c) == e + (SquashBlankLines(a[k..]) + SquashBlankLines(c));
  }

  /** A line feed followed by a visible character is kept as it is. */
  lemma LoneNewlineKept(b: string)
    requires |b| > 0 && !IsSpace(b[0])
    ensures SquashBlankLines("\n" + b) == "\n" + SquashBlankLines(b)
  {
    var s := "\n" + b;
    assert SkipSpace(s, 1) == 1;
    assert s[1..] == b;
  }

  lemma {:induction false} CollapseLast(s: string)
    requires |s| > 0 && !IsBlank(s[|s| - 1])
    ensures |CollapseBlanks(s)| > 0 && CollapseBlanks(s)[|CollapseBlanks(s)| - 1] == s[|s| - 1]
    decreases |s|
  {
    var k := if IsBlank(s[0]) then SkipBlanks(s, 0) else 1;
    if k < |s| {
      CollapseLast(s[k..]);
    }
    assert CollapseBlanks(s) == [CollapseBlanks(s)[0]] + CollapseBlanks(s[k..]);
  }

  lemma {:induction false} SquashLast(s: string)
    requires |s| > 0 && !IsSpace(s[|s| - 1])
    ensures |SquashBlankLines(s)| > 0 && SquashBlankLines(s)[|SquashBlankLines(s)| - 1] == s[|s| - 1]
    decreases |s|
  {
    SquashUnfold(s);
    var k := SquashResume(s);
    if k < |s| {
      SquashLast(s[k..]);
    } else {
      assert SkipSpace(s, 1) <= |s| - 1 || |s| == 1;
      assert SquashEmit(s) == [s[0]];
    }
  }

  /** Strip keeps exactly the stretch between the first and the last visible character. */
  lemma StripBetween(s: string, i: nat, j: nat)
    requires i < j <= |s| && !IsSpace(s[i]) && !IsSpace(s[j - 1])
    requires forall m :: 0 <= m < i ==> IsSpace(s[m])
    requires forall m :: j <= m < |s| ==> IsSpace(s[m])
    ensures Strip(s) == s[i..j]
  {
    var i', j' := StripBounds(s);
    assert !AllSpace(s);
    assert Strip(s) != [];
    assert s[i'] == Strip(s)[0] && s[j' - 1] == Strip(s)[|Strip(s)| - 1];
  }

  /** Text ending in a visible character is stripped at its front only. */
  lemma StripFront(a: string) returns (i: nat)
    requires |a| > 0 && !IsSpace(a[|a| - 1])
    ensures i < |a| && Strip(a) == a[i..] && !IsSpace(a[i])
    ensures forall m :: 0 <= m < i ==> IsSpace(a[m])
  {
    var j;
    i, j := StripBounds(a);
    assert Strip(a) != [];
    assert a[i] == Strip(a)[0];
    assert a[i..j] == a[i..];
  }

  /** Text starting with a visible character is stripped at its back only. */
  lemma StripBack(b: string) returns (j: nat)
    requires |b| > 0 && !IsSpace(b[0])
    ensures 0 < j <= |b| && Strip(b) == b[..j] && !IsSpace(b[j - 1])
    ensures forall m :: j <= m < |b| ==> IsSpace(b[m])
  {
    var i;
    i, j := StripBounds(b);
    assert Strip(b) != [];
    assert b[j - 1] == Strip(b)[|Strip(b)| - 1];
    assert b[i..j] == b[..j];
  }

  /** Stripping text that is visible on both sides of a line feed strips the two sides. */
  lemma StripAroundNewline(a: string, b: string)
    requires |a| > 0 && |b| > 0 && !IsSpace(a[|a| - 1]) && !IsSpace(b[0])
    ensures Strip(a + "\n" + b) == Strip(a) + "\n" + Strip(b)
  {
    var ia := StripFront(a);
    var jb := StripBack(b);
    StripJoin(a, b, ia, jb);
  }

  /** Stripping `a + "\n" + b` keeps what lies between the first visible character of `a` and the last of `b`. */
  lemma StripJoin(a: string, b: string, ia: nat, jb: nat)
    requires ia < |a| && !IsSpace(a[ia]) && forall m :: 0 <= m < ia ==> IsSpace(a[m])
    requires 0 < jb <= |b| && !IsSpace(b[jb - 1]) && forall m :: jb <= m < |b| ==> IsSpace(b[m])
    ensures Strip(a + "\n" + b) == a[ia..] + "\n" + b[..jb]
  {
    var s := a + "\n" + b;
    var j := |a| + 1 + jb;
    assert s[ia] == a[ia] && s[j - 1] == b[jb - 1];
    forall m | 0 <= m < ia
      ensures IsSpace(s[m])
    {
      assert s[m] == a[m];
    }
    forall m | j <= m < |s|
      ensures IsSpace(s[m])
    {
      assert s[m] == b[m - |a| - 1];
    }
    StripBetween(s, ia, j);
    JoinSlice(a, b, ia, jb);
  }

  lemma JoinSlice(a: string, b: string, i: nat, j: nat)
    requires i <= |a| && j <= |b|
    ensures (a + "\n" + b)[i..|a| + 1 + j] == a[i..] + "\n" + b[..j]
  {
  }

  /** Bullets and the ASCII filter work on each side of a line feed separately, keeping the visible characters beside it. */
  lemma FilterAroundNewline(a: string, b: string)
    requires |a| > 0 && IsAscii(a[|a| - 1]) && !IsSpace(a[|a| - 1])
    requires |b| > 0 && IsAscii(b[0]) && !IsSpace(b[0])
    ensures var (a2, b2) := (AsciiOnly(NormaliseBullets(a)), AsciiOnly(NormaliseBullets(b)));
      AsciiOnly(NormaliseBullets(a + "\n" + b)) == a2 + ("\n" + b2) &&
      |a2| > 0 && a2[|a2| - 1] == a[|a| - 1] && |b2| > 0 && b2[0] == b[0]
  {
    BulletsAroundNewline(a, b);
    AsciiAroundNewline(NormaliseBullets(a), NormaliseBullets(b));
  }

  lemma BulletsAroundNewline(a: string, b: string)
    requires |a| > 0 && IsAscii(a[|a| - 1]) && |b| > 0 && IsAscii(b[0])
    ensures NormaliseBullets(a + "\n" + b) == NormaliseBullets(a) + ("\n" + NormaliseBullets(b))
    ensures NormaliseBullets(a)[|a| - 1] == a[|a| - 1] && NormaliseBullets(b)[0] == b[0]
  {
    BulletsConcat(a + "\n", b);
    BulletsConcat(a, "\n");
    assert NormaliseBullets("\n") == "\n";
  }

  lemma AsciiAroundNewline(a: string, b: string)
    requires |a| > 0 && IsAscii(a[|a| - 1]) && |b| > 0 && IsAscii(b[0])
    ensures AsciiOnly(a + ("\n" + b)) == AsciiOnly(a) + ("\n" + AsciiOnly(b))
    ensures |AsciiOnly(a)| > 0 && AsciiOnly(a)[|AsciiOnly(a)| - 1] == a[|a| - 1]
    ensures |AsciiOnly(b)| > 0 && AsciiOnly(b)[0] == b[0]
  {
    AsciiOnlyConcat(a, "\n" + b);
    AsciiOnlyConcat("\n", b);
    assert AsciiOnly("\n") == "\n";
    AsciiOnlyLast(a);
    assert b == [b[0]] + b[1..];
    AsciiOnlyConcat([b[0]], b[1..]);
  }

  lemma AsciiOnlyLast(a: string)
    requires |a| > 0 && IsAscii(a[|a| - 1])
    ensures |AsciiOnly(a)| > 0 && AsciiOnly(a)[|AsciiOnly(a)| - 1] == a[|a| - 1]
  {
    var n := |a| - 1;
    assert a == a[..n] + [a[n]];
    AsciiOnlyConcat(a[..n], [a[n]]);
  }

  /** Collapsing blanks works on each side of a line feed separately, keeping the visible characters beside it. */
  lemma CollapseAroundNewline(a: string, b: string)
    requires |a| > 0 && !IsSpace(a[|a| - 1]) && |b| > 0 && !IsSpace(b[0])
    ensures var (a3, b3) := (CollapseBlanks(a), CollapseBlanks(b));
      CollapseBlanks(a + ("\n" + b)) == a3 + ("\n" + b3) &&
      |a3| > 0 && a3[|a3| - 1] == a[|a| - 1] && |b3| > 0 && b3[0] == b[0]
  {
    CollapseConcat(a, "\n" + b);
    CollapseConcat("\n", b);
    assert CollapseBlanks("\n") == "\n";
    CollapseLast(a);
    CollapseShape(b);
  }

  /** Squashing works on each side of a lone line feed separately, keeping the visible characters beside it. */
  lemma SquashAroundNewline(a: string, b: string)
    requires |a| > 0 && !IsSpace(a[|a| - 1]) && |b| > 0 && !IsSpace(b[0])
    ensures var (a4, b4) := (SquashBlankLines(a), SquashBlankLines(b));
      SquashBlankLines(a + ("\n" + b)) == a4 + "\n" + b4 &&
      |a4| > 0 && a4[|a4| - 1] == a[|a| - 1] && |b4| > 0 && b4[0] == b[0]
  {
    SquashConcat(a, "\n" + b);
    LoneNewlineKept(b);
    SquashLast(a);
    SquashHead(b);
  }

  /**
   * A single line feed between visible ASCII characters survives cleaning, and
   * the text on either side is cleaned as if it stood alone.
   */
  lemma CleanKeepsLoneNewline(a: string, b: string)
    requires |a| > 0 && IsAscii(a[|a| - 1]) && !IsSpace(a[|a| - 1])
    requires |b| > 0 && IsAscii(b[0]) && !IsSpace(b[0])
    ensures Clean(a + "\n" + b) == Clean(a) + "\n" + Clean(b)
  {
    FilterAroundNewline(a, b);
    var a2 := AsciiOnly(NormaliseBullets(a));
    var b2 := AsciiOnly(NormaliseBullets(b));
    CollapseAroundNewline(a2, b2);
    var a3 := CollapseBlanks(a2);
    var b3 := CollapseBlanks(b2);
    SquashAroundNewline(a3, b3);
    StripAroundNewline(SquashBlankLines(a3), SquashBlankLines(b3));
  }
}
