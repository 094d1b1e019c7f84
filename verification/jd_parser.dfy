/**
 * The job-description parser (`JdParser`): the degree a posting asks for, the
 * split of its text at the "nice to have" marker, and the synonym-driven skill
 * scan run on each half.
 */
module JdParser {
  import opened Wrappers
  import opened Chars
  import opened WordMatch
  import TextCleaner

  // ---------------------------------------------------------------------
  // Degree requirement

  datatype Degree = MastersDegree | BachelorsDegree | NotSpecified

  /** The label the parser reports for each outcome. */
  function DegreeLabel(d: Degree): string {
    match d
    case MastersDegree => "Master's Degree"
    case BachelorsDegree => "Bachelor's Degree"
    case NotSpecified => "Not Specified"
  }

  /** The alternatives of the master's pattern, in pattern order. */
  const MastersForms: seq<string> := ["master's", "master", "m.s.", "ms"]

  /** The alternatives of the bachelor's pattern, in pattern order. */
  const BachelorsForms: seq<string> := ["bachelor's", "bachelor", "b.s.", "bs", "btech", "b.tech"]

  /**
   * `re.search(r"\b(f1|f2|...)\b", t)`: the regex backtracks into the next
   * alternative whenever the closing `\b` fails, so the group matches exactly
   * when some alternative occurs with a word boundary on both sides.
   */
  function AnyFormBounded(forms: seq<string>, t: string): (b: bool)
    ensures b <==> exists k :: 0 <= k < |forms| && Search(forms[k], t)
  {
    if |forms| == 0 then false
    else Search(forms[0], t) || AnyFormBounded(forms[1..], t)
  }

  /** Some alternative occurs not glued to a word character on either side. */
  function AnyFormStandalone(forms: seq<string>, t: string): (b: bool)
    ensures b <==> exists k :: 0 <= k < |forms| && StandaloneFrom(forms[k], t, 0)
  {
    if |forms| == 0 then false
    else StandaloneFrom(forms[0], t, 0) || AnyFormStandalone(forms[1..], t)
  }

  /**
   * `extract_education` as written: the master's pattern is tried first, then
   * the bachelor's, on the lower-cased text. A `\b` after the final '.' of
   * "m.s." or "b.s." holds only when a word character follows, so the dotted
   * abbreviations are missed wherever they stand on their own.
   */
  function ExtractEducationAsWritten(text: string): (d: Degree)
    ensures d == MastersDegree <==> AnyFormBounded(MastersForms, Lower(text))
    ensures d == BachelorsDegree <==>
      !AnyFormBounded(MastersForms, Lower(text)) && AnyFormBounded(BachelorsForms, Lower(text))
  {
    var low := Lower(text);
    if AnyFormBounded(MastersForms, low) then MastersDegree
    else if AnyFormBounded(BachelorsForms, low) then BachelorsDegree
    else NotSpecified
  }

  /** `extract_education` as intended: a degree form counts wherever it is not part of a longer word. */
  function ExtractEducation(text: string): (d: Degree)
    ensures d == MastersDegree <==> AnyFormStandalone(MastersForms, Lower(text))
    ensures d == BachelorsDegree <==>
      !AnyFormStandalone(MastersForms, Lower(text)) && AnyFormStandalone(BachelorsForms, Lower(text))
  {
    var low := Lower(text);
    if AnyFormStandalone(MastersForms, low) then MastersDegree
    else if AnyFormStandalone(BachelorsForms, low) then BachelorsDegree
    else NotSpecified
  }

  /** A keyword with a word character at each end matches under `\b` exactly where it stands alone. */
  lemma WordEdgedAgree(kw: string, t: string)
    requires |kw| > 0 && IsWordChar(kw[0]) && IsWordChar(kw[|kw| - 1])
    ensures Search(kw, t) == StandaloneFrom(kw, t, 0)
  {
    forall p | 0 <= p
      ensures BoundedAt(kw, t, p) <==> StandaloneAt(kw, t, p)
    {
      BoundedIsStandalone(kw, t, p);
    }
  }

  /** A keyword holding a '.' occurs nowhere in a text without one. */
  lemma DottedAbsent(kw: string, t: string, d: nat)
    requires d < |kw| && kw[d] == '.' && '.' !in t
    ensures !Search(kw, t) && !StandaloneFrom(kw, t, 0)
  {
  }

  predicate WordEdged(kw: string) {
    |kw| > 0 && IsWordChar(kw[0]) && IsWordChar(kw[|kw| - 1])
  }

  /** Over a text without '.', both readings of a form list agree when every form is word-edged or dotted. */
  lemma {:induction false} FormsAgree(forms: seq<string>, t: string)
    requires '.' !in t
    requires forall k :: 0 <= k < |forms| ==> WordEdged(forms[k]) || '.' in forms[k]
    ensures AnyFormBounded(forms, t) == AnyFormStandalone(forms, t)
    decreases |forms|
  {
    if |forms| > 0 {
      if WordEdged(forms[0]) {
        WordEdgedAgree(forms[0], t);
      } else {
        var d :| 0 <= d < |forms[0]| && forms[0][d] == '.';
        DottedAbsent(forms[0], t, d);
      }
      FormsAgree(forms[1..], t);
    }
  }

  /** Both readings agree on every text without a '.': the discrepancy is confined to the dotted forms. */
  lemma EducationAgreesWithoutDots(text: string)
    requires '.' !in text
    ensures ExtractEducation(text) == ExtractEducationAsWritten(text)
  {
    var low := Lower(text);
    assert '.' !in low by {
      forall i | 0 <= i < |low|
        ensures low[i] != '.'
      {
        assert text[i] != '.';
      }
    }
    assert forall k :: 0 <= k < |MastersForms| ==> WordEdged(MastersForms[k]) || '.' in MastersForms[k];
    assert forall k :: 0 <= k < |BachelorsForms| ==> WordEdged(BachelorsForms[k]) || '.' in BachelorsForms[k];
    FormsAgree(MastersForms, low);
    FormsAgree(BachelorsForms, low);
  }

  /** In "m.s." no degree form has a word boundary on both sides. */
  lemma NoBoundedForm(low: string)
    requires low == "m.s."
    ensures !AnyFormBounded(MastersForms, low) && !AnyFormBounded(BachelorsForms, low)
  {
    MastersNotBounded(low);
    BachelorsNotBounded(low);
  }

  /** The trailing `\b` after "m.s." fails at the end of the text, and "ms" never occurs in it. */
  lemma MastersNotBounded(low: string)
    requires low == "m.s."
    ensures !AnyFormBounded(MastersForms, low)
  {
    assert !IsBoundary(low, 4);
    assert !Search("m.s.", low);
    assert low[0] == 'm' && low[1] == '.' && low[2] == 's' && low[3] == '.';
    forall p | 0 <= p <= 2
      ensures !OccursAt("ms", low, p)
    {
      assert low[p..p + 2][0] == low[p] && low[p..p + 2][1] == low[p + 1];
    }
  }

  /** No bachelor's form occurs in "m.s." at all. */
  lemma BachelorsNotBounded(low: string)
    requires low == "m.s."
    ensures !AnyFormBounded(BachelorsForms, low)
  {
    assert low[0] == 'm' && low[1] == '.' && low[2] == 's' && low[3] == '.';
    assert !OccursAt("b.s.", low, 0);
    forall p | 0 <= p <= 2
      ensures !OccursAt("bs", low, p)
    {
      assert low[p..p + 2][0] == low[p] && low[p..p + 2][1] == low[p + 1];
    }
  }

  /** A stand-alone "M.S." is no degree for the code as written, and a master's degree as intended. */
  lemma DottedMastersMissed(text: string)
    requires text == "M.S."
    ensures ExtractEducationAsWritten(text) == NotSpecified
    ensures ExtractEducation(text) == MastersDegree
  {
    var low := Lower(text);
    assert low == "m.s.";
    NoBoundedForm(low);
    assert StandaloneAt("m.s.", low, 0);
  }

  // ---------------------------------------------------------------------
  // Mandatory and nice-to-have halves

  /** The marker that opens the optional part of a posting, matched case-insensitively. */
  const NiceMarker := "nice to have"

  /**
   * The two halves `parse_jd` scans: without the marker, the whole text and
   * nothing; otherwise the text before the first marker, and the text after
   * it (and after one optional ':') up to the next marker or the end, as
   * `re.split(r'nice to have:?', text, flags=re.IGNORECASE)[0]` and `[1]` give.
   */
  function SplitNiceToHave(text: string): (parts: (string, string))
  {
    var low := Lower(text);
    match FindFrom(low, NiceMarker, 0)
    case None => (text, "")
    case Some(i) =>
      var e := MarkerEnd(text, i);
      match FindFrom(low, NiceMarker, e)
      case None => (text[..i], text[e..])
      case Some(j) => (text[..i], text[e..j])
  }

  /** Where the split resumes after a marker at `i`: past the marker and one optional ':'. */
  function MarkerEnd(text: string, i: nat): (e: nat)
    requires i + |NiceMarker| <= |text|
    ensures i + |NiceMarker| <= e <= |text|
  {
    if i + |NiceMarker| < |text| && text[i + |NiceMarker|] == ':' then i + |NiceMarker| + 1
    else i + |NiceMarker|
  }

  /** Text without the marker, in any case, is all mandatory. */
  lemma SplitWithoutMarker(text: string)
    requires !Contains(Lower(text), NiceMarker)
    ensures SplitNiceToHave(text) == (text, "")
  {
    FindIsContains(Lower(text), NiceMarker);
  }

  /** Where `t` has no occurrence of the marker in `[lo, hi)`, the slice's lower-cased form has none at all. */
  lemma NoMarkerInSlice(t: string, lo: nat, hi: nat)
    requires lo <= hi <= |t|
    requires forall k :: lo <= k < hi ==> !OccursAt(NiceMarker, Lower(t), k)
    ensures !Contains(Lower(t[lo..hi]), NiceMarker)
  {
    LowerSlice(t, lo, hi);
    var s := Lower(t)[lo..hi];
    forall k | 0 <= k <= |s| - |NiceMarker|
      ensures !OccursAt(NiceMarker, s, k)
    {
      SliceOfSlice(Lower(t), lo, hi, k, k + |NiceMarker|);
      assert !OccursAt(NiceMarker, Lower(t), lo + k);
    }
  }

  /** Where the split cuts a text holding the marker: first marker at `i`, resume at `e`, stop at `stop`. */
  lemma SplitCuts(text: string) returns (i: nat, e: nat, stop: nat)
    requires Contains(Lower(text), NiceMarker)
    ensures i + |NiceMarker| <= e <= stop <= |text| && e == MarkerEnd(text, i)
    ensures SplitNiceToHave(text) == (text[..i], text[e..stop])
    ensures OccursAt(NiceMarker, Lower(text), i)
    ensures forall k :: 0 <= k < i ==> !OccursAt(NiceMarker, Lower(text), k)
    ensures forall k :: e <= k < stop ==> !OccursAt(NiceMarker, Lower(text), k)
    ensures stop == |text| || OccursAt(NiceMarker, Lower(text), stop)
  {
    var low := Lower(text);
    FindIsContains(low, NiceMarker);
    i := FindFrom(low, NiceMarker, 0).value;
    e := MarkerEnd(text, i);
    stop := if FindFrom(low, NiceMarker, e).Some? then FindFrom(low, NiceMarker, e).value else |text|;
    assert text[e..|text|] == text[e..];
  }

  /** Neither half contains the marker, in any case. */
  lemma SplitHalvesMarkerFree(text: string)
    ensures !Contains(Lower(SplitNiceToHave(text).0), NiceMarker)
    ensures !Contains(Lower(SplitNiceToHave(text).1), NiceMarker)
  {
    if Contains(Lower(text), NiceMarker) {
      var i, e, stop := SplitCuts(text);
      NoMarkerInSlice(text, 0, i);
      assert text[0..i] == text[..i];
      NoMarkerInSlice(text, e, stop);
    } else {
      SplitWithoutMarker(text);
      assert Lower("") == "";
    }
  }

  /** The marker, in any case, with or without a following ':'. */
  predicate IsMarkerSep(sep: string) {
    Lower(sep) == NiceMarker || Lower(sep) == NiceMarker + ":"
  }

  /** Empty, or opening with the marker in any case. */
  predicate EmptyOrMarked(rest: string) {
    rest == [] || (|rest| >= |NiceMarker| && Lower(rest)[..|NiceMarker|] == NiceMarker)
  }

  /** The cut-out separator is the marker, in any case, with or without its ':'. */
  lemma SeparatorIsMarker(text: string, i: nat)
    requires OccursAt(NiceMarker, Lower(text), i)
    ensures IsMarkerSep(text[i..MarkerEnd(text, i)])
  {
    var e := MarkerEnd(text, i);
    var m := |NiceMarker|;
    LowerSlice(text, i, e);
    LowerSlice(text, i, i + m);
    if e == i + m + 1 {
      assert text[i..e] == text[i..i + m] + [text[i + m]];
      LowerConcat(text[i..i + m], [text[i + m]]);
    }
  }

  /** What follows the nice-to-have half is empty or starts with the marker. */
  lemma RestStartsWithMarker(text: string, stop: nat)
    requires stop == |text| || OccursAt(NiceMarker, Lower(text), stop)
    ensures EmptyOrMarked(text[stop..])
  {
    if stop < |text| {
      LowerSlice(text, stop, |text|);
      assert text[stop..|text|] == text[stop..];
    }
  }

  /**
   * With the marker present, the text is the mandatory half, the marker (with
   * an optional ':'), the nice-to-have half and a rest that is empty or starts
   * with the next marker.
   */
  lemma SplitReassembles(text: string)
    requires Contains(Lower(text), NiceMarker)
    ensures exists sep, rest ::
      text == SplitNiceToHave(text).0 + sep + SplitNiceToHave(text).1 + rest &&
      IsMarkerSep(sep) && EmptyOrMarked(rest)
  {
    var i, e, stop := SplitCuts(text);
    var sep := text[i..e];
    var rest := text[stop..];
    SliceFour(text, i, e, stop);
    SeparatorIsMarker(text, i);
    RestStartsWithMarker(text, stop);
  }

  // ---------------------------------------------------------------------
  // Synonym-driven skill scan

  /** The synonym dictionary, in its iteration order: official name and its synonyms. */
  type SynonymDict = seq<(string, seq<string>)>

  /** Some synonym of the list is found word-bounded in the text, in any case. */
  predicate AnySynonym(synonyms: seq<string>, text: string)
    decreases |synonyms|
  {
    |synonyms| > 0 && (MatchesIgnoreCase(synonyms[0], text) || AnySynonym(synonyms[1..], text))
  }

  /** `AnySynonym` holds exactly when some synonym of the list matches. */
  lemma {:induction false} AnySynonymFinds(synonyms: seq<string>, text: string)
    ensures AnySynonym(synonyms, text) <==> exists j :: 0 <= j < |synonyms| && MatchesIgnoreCase(synonyms[j], text)
    decreases |synonyms|
  {
    if |synonyms| > 0 {
      AnySynonymFinds(synonyms[1..], text);
      if exists j :: 0 <= j < |synonyms| && MatchesIgnoreCase(synonyms[j], text) {
        var j :| 0 <= j < |synonyms| && MatchesIgnoreCase(synonyms[j], text);
        if j > 0 {
          assert synonyms[1..][j - 1] == synonyms[j];
        }
      }
      if AnySynonym(synonyms[1..], text) {
        var j :| 0 <= j < |synonyms| - 1 && MatchesIgnoreCase(synonyms[1..][j], text);
        assert synonyms[j + 1] == synonyms[1..][j];
      }
    }
  }

  /** The official names the text asks for: those with at least one synonym found. */
  function Required(dict: SynonymDict, text: string): set<string> {
    set i | 0 <= i < |dict| && AnySynonym(dict[i].1, text) :: dict[i].0
  }

  /**
   * `extract_skills`: for every entry, try its synonyms in order and stop at
   * the first one found; the result is the set of official names so found.
   */
  method ExtractSkills(text: string, dict: SynonymDict) returns (found: set<string>)
    ensures found == Required(dict, text)
  {
    found := {};
    var i := 0;
    while i < |dict|
      invariant 0 <= i <= |dict|
      invariant found == Required(dict[..i], text)
    {
      var (official, synonyms) := dict[i];
      var j := 0;
      while j < |synonyms| && !MatchesIgnoreCase(synonyms[j], text)
        invariant 0 <= j <= |synonyms|
        invariant forall l :: 0 <= l < j ==> !MatchesIgnoreCase(synonyms[l], text)
      {
        j := j + 1;
      }
      AnySynonymFinds(synonyms, text);
      if j < |synonyms| {
        found := found + {official};
      }
      RequiredSnoc(dict[..i + 1], text);
      assert dict[..i + 1][..i] == dict[..i];
      i := i + 1;
    }
    assert dict[..|dict|] == dict;
  }

  /** Adding one entry adds its official name exactly when one of its synonyms is found. */
  lemma RequiredSnoc(dict: SynonymDict, text: string)
    requires |dict| > 0
    ensures Required(dict, text) ==
      Required(dict[..|dict| - 1], text) +
      (if AnySynonym(dict[|dict| - 1].1, text) then {dict[|dict| - 1].0} else {})
  {
    var n := |dict| - 1;
    var last := if AnySynonym(dict[n].1, text) then {dict[n].0} else {};
    RequiredSnocSub(dict, text);
    RequiredPrefix(dict, text);
    assert dict[n] in dict;
    assert AnySynonym(dict[n].1, text) ==> dict[n].0 in Required(dict, text);
  }

  lemma RequiredSnocSub(dict: SynonymDict, text: string)
    requires |dict| > 0
    ensures forall k :: k in Required(dict, text) ==>
      k in Required(dict[..|dict| - 1], text) || (AnySynonym(dict[|dict| - 1].1, text) && k == dict[|dict| - 1].0)
  {
    var n := |dict| - 1;
    var pre := dict[..n];
    forall k | k in Required(dict, text)
      ensures k in Required(pre, text) || (AnySynonym(dict[n].1, text) && k == dict[n].0)
    {
      var i :| 0 <= i < |dict| && AnySynonym(dict[i].1, text) && dict[i].0 == k;
      if i < n {
        assert pre[i] == dict[i];
        InRequired(pre, text, i);
      }
    }
  }

  /** An entry with a synonym in the text is required. */
  lemma InRequired(dict: SynonymDict, text: string, i: nat)
    requires i < |dict| && AnySynonym(dict[i].1, text)
    ensures dict[i].0 in Required(dict, text)
  {
  }

  /** Whatever a prefix of the dictionary asks for, the whole dictionary asks for. */
  lemma RequiredPrefix(dict: SynonymDict, text: string)
    requires |dict| > 0
    ensures Required(dict[..|dict| - 1], text) <= Required(dict, text)
  {
    var pre := dict[..|dict| - 1];
    forall k | k in Required(pre, text)
      ensures k in Required(dict, text)
    {
      var i :| 0 <= i < |pre| && AnySynonym(pre[i].1, text) && pre[i].0 == k;
      assert dict[i] == pre[i];
      InRequired(dict, text, i);
    }
  }

  /** Nothing is found in empty text: no keyword is word-bounded in it. */
  lemma NothingRequiredOfEmptyText(dict: SynonymDict)
    ensures Required(dict, "") == {}
  {
    assert Lower("") == "";
    forall i | 0 <= i < |dict|
      ensures !AnySynonym(dict[i].1, "")
    {
      AnySynonymFinds(dict[i].1, "");
      forall j | 0 <= j < |dict[i].1|
        ensures !MatchesIgnoreCase(dict[i].1[j], "")
      {
        NothingInEmptyText(Lower(dict[i].1[j]));
      }
    }
  }

  /** "ML" is not found inside "HTML": the boundary before 'M' is missing. */
  lemma MlNotInHtml()
    ensures !MatchesIgnoreCase("ML", "HTML")
  {
    var kw := Lower("ML");
    var t := Lower("HTML");
    assert kw == "ml" && t == "html";
    assert !BoundedAt(kw, t, 2) by {
      assert WordAt(t, 1) && WordAt(t, 2);
    }
    assert !OccursAt(kw, t, 0) && !OccursAt(kw, t, 1) by {
      assert t[0] == 'h' && t[1] == 't';
    }
  }

  // ---------------------------------------------------------------------
  // The whole posting

  /** The requirements `parse_jd` reports besides experience and title. */
  datatype Requirements = Requirements(education: Degree, mandatory: set<string>, niceToHave: set<string>)

  /** `parse_jd` on the posting's raw text: clean, read the degree with the
      detector as written, split, scan each half. */
  method ParseJd(raw: string, dict: SynonymDict) returns (req: Requirements)
    ensures req.education == ExtractEducationAsWritten(TextCleaner.Clean(raw))
    ensures req.mandatory == Required(dict, SplitNiceToHave(TextCleaner.Clean(raw)).0)
    ensures req.niceToHave == Required(dict, SplitNiceToHave(TextCleaner.Clean(raw)).1)
    ensures !Contains(Lower(TextCleaner.Clean(raw)), NiceMarker) ==> req.niceToHave == {}
  {
    var cleaned := TextCleaner.Clean(raw);
    var parts := SplitNiceToHave(cleaned);
    var mandatory := ExtractSkills(parts.0, dict);
    var nice := ExtractSkills(parts.1, dict);
    req := Requirements(ExtractEducationAsWritten(cleaned), mandatory, nice);
    if !Contains(Lower(cleaned), NiceMarker) {
      SplitWithoutMarker(cleaned);
      NothingRequiredOfEmptyText(dict);
    }
  }

  /** The same pipeline with the corrected degree detector, which also accepts
      the dotted abbreviations standing alone. It differs from `ParseJd` only in
      the degree, and only on postings whose cleaned text holds a '.'. */
  method ParseJdIntended(raw: string, dict: SynonymDict) returns (req: Requirements)
    ensures req.education == ExtractEducation(TextCleaner.Clean(raw))
    ensures req.mandatory == Required(dict, SplitNiceToHave(TextCleaner.Clean(raw)).0)
    ensures req.niceToHave == Required(dict, SplitNiceToHave(TextCleaner.Clean(raw)).1)
    ensures '.' !in TextCleaner.Clean(raw) ==>
              req.education == ExtractEducationAsWritten(TextCleaner.Clean(raw))
  {
    var cleaned := TextCleaner.Clean(raw);
    var parts := SplitNiceToHave(cleaned);
    var mandatory := ExtractSkills(parts.0, dict);
    var nice := ExtractSkills(parts.1, dict);
    req := Requirements(ExtractEducation(cleaned), mandatory, nice);
    if '.' !in cleaned {
      EducationAgreesWithoutDots(cleaned);
    }
  }
}
